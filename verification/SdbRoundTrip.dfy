/**
Printing an expression tree and evaluating the tokens gives back the tree: exactly, when every
operand of a unary operator is an atom or parenthesised.
*/
module SdbRoundTrip {
  import opened Wrappers
  import opened SdbExpr

  datatype Tree = Leaf(t: Token) | Unary(un: UnOp, e: Tree) | Binary(bin: BinOp, l: Tree, r: Tree) | Paren(e: Tree)

  /** The classes of binary operators of C, section 6.5 of C11, the loosest first. */
  const Classes: seq<set<BinOp>> := [
    {Lor}, {Land}, {Or}, {Xor}, {And}, {Eq, Ne}, {Le, Lt, Ge, Gt}, {Shl, Lshr, Ashr}, {Add, Sub}, {Mul, Div, Rem}]

  /** The first class from i on that the operator is in. */
  function ClassFrom(op: BinOp, i: nat): (c: nat)
    requires i <= 10
    ensures i <= c <= 10 && (c < 10 ==> op in Classes[c]) && forall j :: i <= j < c ==> op !in Classes[j]
    decreases 10 - i
  {
    if i == 10 || op in Classes[i] then i else ClassFrom(op, i + 1)
  }

  function Class(op: BinOp): (c: nat)
    ensures c < 10 && op in Classes[c]
  {
    Classified(op);
    ClassFrom(op, 0)
  }

  lemma Classified(op: BinOp)
    ensures exists i :: 0 <= i < 10 && op in Classes[i]
  {
    match op
    case Lor => assert op in Classes[0];
    case Land => assert op in Classes[1];
    case Or => assert op in Classes[2];
    case Xor => assert op in Classes[3];
    case And => assert op in Classes[4];
    case Eq | Ne => assert op in Classes[5];
    case Le | Lt | Ge | Gt => assert op in Classes[6];
    case Shl | Lshr | Ashr => assert op in Classes[7];
    case Add | Sub => assert op in Classes[8];
    case Mul | Div | Rem => assert op in Classes[9];
  }

  /** The evaluator's precedences are those of the classes. */
  lemma PrecIsClass(op: BinOp)
    ensures BinPrec(op) == 10 * Class(op)
  {
    hide Class, BinPrec;
    PrecInClass(op, Class(op));
  }

  lemma PrecInClass(op: BinOp, c: nat)
    requires c < 10 && op in Classes[c]
    ensures BinPrec(op) == 10 * c
  {
    if c == 0 { assert op in {Lor}; }
    else if c == 1 { assert op in {Land}; }
    else if c == 2 { assert op in {Or}; }
    else if c == 3 { assert op in {Xor}; }
    else if c == 4 { assert op in {And}; }
    else if c == 5 { assert op in {Eq, Ne}; }
    else if c == 6 { assert op in {Le, Lt, Ge, Gt}; }
    else if c == 7 { assert op in {Shl, Lshr, Ashr}; }
    else if c == 8 { assert op in {Add, Sub}; }
    else { assert c == 9 && op in {Mul, Div, Rem}; }
  }

  /** How strongly the outermost operator binds. */
  function Top(e: Tree): nat {
    match e
    case Leaf(_) => 11
    case Paren(_) => 11
    case Unary(_, _) => 10
    case Binary(op, _, _) => Class(op)
  }

  /** The tokens as typed: `-` and `*` are the same sign in both roles. */
  function Typed(e: Tree): seq<Token> {
    match e
    case Leaf(t) => [t]
    case Paren(x) => [LPar] + Typed(x) + [RPar]
    case Unary(op, x) => [if op == Deref then Bin(Mul) else if op == Minus then Bin(Sub) else Un(op)] + Typed(x)
    case Binary(op, l, r) => Typed(l) + [Bin(op)] + Typed(r)
  }

  /** The tokens with the unary operators told apart. */
  function Tokens(e: Tree): seq<Token> {
    match e
    case Leaf(t) => [t]
    case Paren(x) => [LPar] + Tokens(x) + [RPar]
    case Unary(op, x) => [Un(op)] + Tokens(x)
    case Binary(op, l, r) => Tokens(l) + [Bin(op)] + Tokens(r)
  }

  /** Left-associative operators: parentheses are there where the precedences ask for them. */
  predicate WellFormed(e: Tree) {
    match e
    case Leaf(t) => t.Atom()
    case Paren(x) => WellFormed(x)
    case Unary(_, x) => WellFormed(x) && Top(x) >= 10
    case Binary(op, l, r) => WellFormed(l) && WellFormed(r) && Top(l) >= Class(op) && Top(r) > Class(op)
  }

  /** No unary operator is applied to an unparenthesised unary operator. */
  predicate NoChain(e: Tree) {
    match e
    case Leaf(_) => true
    case Paren(x) => NoChain(x)
    case Unary(_, x) => NoChain(x) && !x.Unary?
    case Binary(_, l, r) => NoChain(l) && NoChain(r)
  }

  /** Of a chain of unary operators only the innermost one is kept. */
  function Collapse(e: Tree): Tree {
    match e
    case Leaf(_) => e
    case Paren(x) => Paren(Collapse(x))
    case Unary(op, x) => if x.Unary? then Collapse(x) else Unary(op, Collapse(x))
    case Binary(op, l, r) => Binary(op, Collapse(l), Collapse(r))
  }

  /** The value of a tree; any failure makes the whole fail. */
  function Strict<V>(sem: Sem<V>, e: Tree): Option<V> {
    match e
    case Leaf(t) => sem.atom(t)
    case Paren(x) => Strict(sem, x)
    case Unary(op, x) => OnUnary(sem, op, Strict(sem, x))
    case Binary(op, l, r) => OnBinary(sem, op, Strict(sem, l), Strict(sem, r))
  }

  // ----- match_unary_tokens tells the operators apart -----

  /** The pass, started in the middle of a list. */
  function MatchedAfter(expecting: bool, ts: seq<Token>): (r: seq<Token>)
    ensures |r| == |ts|
    decreases |ts|
  {
    if ts == [] then [] else [Convert(ts[0], expecting)] + MatchedAfter(ts[0].Expecting(), ts[1..])
  }

  lemma {:induction false} MatchedAfterAt(expecting: bool, ts: seq<Token>, i: nat)
    requires i < |ts|
    ensures MatchedAfter(expecting, ts)[i] == Convert(ts[i], if i == 0 then expecting else ts[i - 1].Expecting())
    decreases |ts|
  {
    if i > 0 { MatchedAfterAt(ts[0].Expecting(), ts[1..], i - 1); }
  }

  lemma MatchedIsAfter(ts: seq<Token>)
    ensures Matched(ts) == MatchedAfter(true, ts)
  {
    forall i | 0 <= i < |ts| ensures Matched(ts)[i] == MatchedAfter(true, ts)[i] { MatchedAfterAt(true, ts, i); }
  }

  lemma {:induction false} MatchedAppend(expecting: bool, a: seq<Token>, b: seq<Token>)
    requires a != []
    ensures MatchedAfter(expecting, a + b) == MatchedAfter(expecting, a) + MatchedAfter(a[|a| - 1].Expecting(), b)
    decreases |a|
  {
    assert (a + b)[1..] == a[1..] + b;
    if |a| > 1 {
      MatchedAppend(a[0].Expecting(), a[1..], b);
    } else {
      assert a[1..] + b == b;
    }
  }

  /** a reads the same wherever an operand may start, and ends as an operand does. */
  ghost predicate Operand(a: seq<Token>, b: seq<Token>) {
    MatchedAfter(true, a) == b && a != [] && !a[|a| - 1].Expecting()
  }

  lemma MatchedParens(a: seq<Token>, b: seq<Token>)
    requires Operand(a, b)
    ensures Operand([LPar] + a + [RPar], [LPar] + b + [RPar])
  {
    hide MatchedAfter;
    MatchedAppend(true, [LPar] + a, [RPar]);
    MatchedAppend(true, [LPar], a);
    MatchedOne(true, LPar);
    MatchedOne(false, RPar);
  }

  lemma MatchedSign(sign: Token, a: seq<Token>, b: seq<Token>)
    requires Operand(a, b) && sign.Expecting()
    ensures Operand([sign] + a, [Convert(sign, true)] + b)
  {
    hide MatchedAfter;
    MatchedAppend(true, [sign], a);
    MatchedOne(true, sign);
  }

  lemma MatchedBinary(op: BinOp, a: seq<Token>, b: seq<Token>, a': seq<Token>, b': seq<Token>)
    requires Operand(a, b) && Operand(a', b')
    ensures Operand(a + [Bin(op)] + a', b + [Bin(op)] + b')
  {
    hide MatchedAfter;
    MatchedAppend(true, a + [Bin(op)], a');
    MatchedAppend(true, a, [Bin(op)]);
    MatchedOne(false, Bin(op));
  }

  lemma {:induction false} MatchedTyped(e: Tree)
    requires WellFormed(e)
    ensures Operand(Typed(e), Tokens(e))
  {
    hide MatchedAfter;
    match e
    case Leaf(t) => MatchedOne(true, t);
    case Paren(x) =>
      MatchedTyped(x);
      MatchedParens(Typed(x), Tokens(x));
    case Unary(op, x) =>
      MatchedTyped(x);
      MatchedSign(if op == Deref then Bin(Mul) else if op == Minus then Bin(Sub) else Un(op), Typed(x), Tokens(x));
    case Binary(op, l, r) =>
      MatchedTyped(l);
      MatchedTyped(r);
      MatchedBinary(op, Typed(l), Tokens(l), Typed(r), Tokens(r));
  }

  lemma MatchedOne(expecting: bool, t: Token)
    ensures MatchedAfter(expecting, [t]) == [Convert(t, expecting)]
  {
    assert [t][1..] == [];
  }

  // ----- parentheses of printed trees balance -----

  lemma {:induction false} DepthAppend(a: seq<Token>, b: seq<Token>, i: nat)
    requires i <= |a| + |b|
    ensures Depth(a + b, i) == if i <= |a| then Depth(a, i) else Depth(a, |a|) + Depth(b, i - |a|)
    decreases i
  {
    if i > 0 {
      DepthAppend(a, b, i - 1);
      assert (a + b)[i - 1] == if i <= |a| then a[i - 1] else b[i - 1 - |a|];
    }
  }

  lemma DepthOne(t: Token)
    ensures Depth([t], 1) == if t.LPar? then 1 else if t.RPar? then -1 else 0
  {
    assert Depth([t], 0) == 0;
  }

  ghost predicate Balanced(ts: seq<Token>) {
    Depth(ts, |ts|) == 0 && forall i :: 0 <= i <= |ts| ==> Depth(ts, i) >= 0
  }

  lemma BalancedAppend(a: seq<Token>, b: seq<Token>)
    requires Balanced(a) && Balanced(b)
    ensures Balanced(a + b)
  {
    hide Depth;
    forall i | 0 <= i <= |a + b| ensures Depth(a + b, i) >= 0 && (i == |a + b| ==> Depth(a + b, i) == 0) {
      DepthAppend(a, b, i);
      assert i > |a| ==> Depth(b, i - |a|) >= 0;
      assert i == |a + b| && i <= |a| ==> b == [] && Depth(a, i) == 0;
    }
  }

  lemma BalancedOne(t: Token)
    requires !t.LPar? && !t.RPar?
    ensures Balanced([t])
  {
    DepthOne(t);
    assert forall i :: 0 <= i <= 1 ==> Depth([t], i) == 0;
  }

  /** The depths of a list in parentheses. */
  lemma DepthInParens(ts: seq<Token>, i: nat)
    requires Balanced(ts) && i <= |ts| + 2
    ensures Depth([LPar] + ts + [RPar], i) == if 0 < i < |ts| + 2 then 1 + Depth(ts, i - 1) else 0
  {
    hide Depth;
    DepthAppend([LPar] + ts, [RPar], i);
    DepthOne(LPar);
    DepthOne(RPar);
    if i <= |ts| + 1 { DepthAppend([LPar], ts, i); }
    DepthAppend([LPar], ts, |ts| + 1);
    DepthZero([LPar]);
    DepthZero(ts);
  }

  lemma DepthZero(ts: seq<Token>)
    ensures Depth(ts, 0) == 0
  {
  }

  lemma BalancedParens(ts: seq<Token>)
    requires Balanced(ts)
    ensures Balanced([LPar] + ts + [RPar]) && Surrounded([LPar] + ts + [RPar])
  {
    hide Depth;
    var all := [LPar] + ts + [RPar];
    forall i | 0 <= i <= |all| ensures Depth(all, i) >= 0 && (0 < i < |all| ==>
      Depth(all, i) > 0) && (i == |all| ==> Depth(all, i) == 0) {
      DepthInParens(ts, i);
    }
  }

  lemma {:induction false} TokensBalanced(e: Tree)
    requires WellFormed(e)
    ensures Balanced(Tokens(e)) && Tokens(e) != []
  {
    hide Balanced;
    match e
    case Leaf(t) => BalancedOne(t);
    case Paren(x) =>
      TokensBalanced(x);
      BalancedParens(Tokens(x));
    case Unary(op, x) =>
      TokensBalanced(x);
      BalancedOne(Un(op));
      BalancedAppend([Un(op)], Tokens(x));
    case Binary(op, l, r) =>
      TokensBalanced(l);
      TokensBalanced(r);
      BalancedOne(Bin(op));
      BalancedAppend(Tokens(l), [Bin(op)]);
      BalancedAppend(Tokens(l) + [Bin(op)], Tokens(r));
  }

  // ----- candidates of printed trees -----

  lemma CandidateAppend(a: seq<Token>, b: seq<Token>, k: nat)
    requires Depth(a, |a|) == 0
    ensures Candidate(a + b, k) == if k < |a| then Candidate(a, k) else Candidate(b, k - |a|)
  {
    hide Depth;
    if k < |a| + |b| {
      DepthAppend(a, b, k);
      DepthZero(b);
    }
  }

  /** Every candidate binds at least as strongly as the tree's outermost operator. */
  lemma {:induction false} CandidatesBind(e: Tree, k: nat)
    requires WellFormed(e) && Candidate(Tokens(e), k)
    ensures 10 * Top(e) <= Prec(Tokens(e)[k])
  {
    hide Depth, Candidate, Class, BinPrec;
    CandidateIs(Tokens(e), k);
    match e
    case Leaf(t) =>
    case Paren(x) =>
      TokensBalanced(x);
      NoneInParens(Tokens(x), k);
    case Unary(op, x) =>
      OneCandidate(Un(op), k);
      CandidateAppend([Un(op)], Tokens(x), k);
      if k > 0 { CandidatesBind(x, k - 1); }
    case Binary(op, l, r) =>
      TokensBalanced(l);
      PrecIsClass(op);
      SplitCandidate(Tokens(l), Bin(op), Tokens(r), k);
      if k < |Tokens(l)| {
        CandidatesBind(l, k);
      } else if k > |Tokens(l)| {
        CandidatesBind(r, k - |Tokens(l)| - 1);
      }
  }

  lemma CandidateIs(ts: seq<Token>, k: nat)
    ensures Candidate(ts, k) ==> k < |ts| && ts[k].Operator()
  {
  }

  lemma OneCandidate(t: Token, k: int)
    requires t.Operator()
    ensures k >= 0 ==> Candidate([t], k) == (k == 0)
    ensures Depth([t], 1) == 0
  {
    DepthOne(t);
    DepthZero([t]);
  }

  lemma NoneInParens(ts: seq<Token>, k: nat)
    requires Balanced(ts)
    ensures !Candidate([LPar] + ts + [RPar], k)
  {
    hide Depth;
    if k < |ts| + 2 {
      DepthInParens(ts, k);
      assert 0 < k < |ts| + 2 ==> Depth(ts, k - 1) >= 0;
    }
  }

  lemma BinaryCandidate(a: seq<Token>, t: Token, b: seq<Token>, k: nat)
    requires Balanced(a) && t.Operator()
    ensures Candidate(a + [t] + b, k) ==
      if k < |a| then Candidate(a, k) else if k == |a| then true else Candidate(b, k - |a| - 1)
  {
    hide Depth, Candidate;
    OneCandidate(t, 0);
    BalancedOne(t);
    BalancedAppend(a, [t]);
    CandidateAppend(a + [t], b, k);
    if k <= |a| { CandidateAppend(a, [t], k); }
  }

  lemma BinaryNotSurrounded(a: seq<Token>, t: Token, b: seq<Token>)
    requires Balanced(a) && a != []
    ensures !Surrounded(a + [t] + b)
  {
    hide Depth;
    assert a + [t] + b == a + ([t] + b);
    DepthAppend(a, [t] + b, |a|);
  }

  /** A candidate of a list around an operator is that operator or a candidate of one side. */
  lemma SplitCandidate(a: seq<Token>, t: Token, b: seq<Token>, j: nat)
    requires Balanced(a) && t.Operator() && Candidate(a + [t] + b, j)
    ensures j < |a| + 1 + |b| && (a + [t] + b)[j].Operator()
    ensures j < |a| ==> Candidate(a, j) && (a + [t] + b)[j] == a[j]
    ensures j == |a| ==> (a + [t] + b)[j] == t
    ensures j > |a| ==> Candidate(b, j - |a| - 1) && (a + [t] + b)[j] == b[j - |a| - 1]
  {
    hide Depth, Candidate;
    CandidateIs(a + [t] + b, j);
    BinaryCandidate(a, t, b, j);
  }

  lemma BinaryCandidates(op: BinOp, l: Tree, r: Tree, j: nat)
    requires WellFormed(Binary(op, l, r)) && Candidate(Tokens(l) + [Bin(op)] + Tokens(r), j)
    ensures var ts := Tokens(l) + [Bin(op)] + Tokens(r);
      j < |ts| && ts[j].Operator() && BinPrec(op) <= Prec(ts[j]) && (j > |Tokens(l)| ==> BinPrec(op) < Prec(ts[j]))
  {
    hide Depth, Candidate, Prec, BinPrec, Class, Tokens, Balanced;
    TokensBalancedBinary(op, l, r);
    SplitCandidate(Tokens(l), Bin(op), Tokens(r), j);
    var n := |Tokens(l)|;
    PrecIsClass(op);
    if j < n {
      CandidatesBind(l, j);
    } else if j > n {
      CandidatesBind(r, j - n - 1);
    } else {
      PrecOfBin(op);
    }
  }

  lemma PrecOfBin(op: BinOp)
    ensures Prec(Bin(op)) == BinPrec(op)
  {
  }

  /** A binary tree splits at its root. */
  lemma BinaryDominant(op: BinOp, l: Tree, r: Tree)
    requires WellFormed(Binary(op, l, r))
    ensures Dominant(Tokens(l) + [Bin(op)] + Tokens(r)) == Some(|Tokens(l)|)
    ensures !Surrounded(Tokens(l) + [Bin(op)] + Tokens(r))
  {
    hide Depth, Candidate, Tokens, WellFormed, BinPrec, Class;
    var a, b := Tokens(l), Tokens(r);
    var ts := a + [Bin(op)] + b;
    assert Balanced(a) && a != [] by { TokensBalancedBinary(op, l, r); }
    BinaryCandidate(a, Bin(op), b, |a|);
    forall j: nat | Candidate(ts, j)
      ensures j < |ts| && ts[j].Operator() && BinPrec(op) <= Prec(ts[j]) && (j > |a| ==> BinPrec(op) < Prec(ts[j]))
    {
      BinaryCandidates(op, l, r, j);
    }
    DominantIs(ts, |a|);
    BinaryNotSurrounded(a, Bin(op), b);
  }

  lemma TokensBalancedBinary(op: BinOp, l: Tree, r: Tree)
    requires WellFormed(Binary(op, l, r))
    ensures Balanced(Tokens(l)) && Tokens(l) != []
  {
    TokensBalanced(l);
  }

  /** A unary operator before an atom or parentheses is the only candidate. */
  lemma UnaryDominant(op: UnOp, x: Tree)
    requires WellFormed(x) && Top(x) >= 11
    ensures Dominant([Un(op)] + Tokens(x)) == Some(0)
  {
    hide Depth, Candidate;
    var ts := [Un(op)] + Tokens(x);
    OneCandidate(Un(op), 0);
    CandidateAppend([Un(op)], Tokens(x), 0);
    forall j: nat | Candidate(ts, j) ensures j == 0 {
      CandidateIs(ts, j);
      CandidateAppend([Un(op)], Tokens(x), j);
      if j > 0 { CandidatesBind(x, j - 1); }
    }
    DominantIs(ts, 0);
  }

  /** A further unary operator in front changes nothing: ties go to the right. */
  lemma ChainDominant(op: UnOp, ts: seq<Token>)
    requires Dominant(ts).Some?
    ensures Dominant([Un(op)] + ts) == Some(Dominant(ts).value + 1)
  {
    hide Depth, Candidate;
    var k: nat :| IsDominant(ts, k);
    DominantIs(ts, k);
    var more := [Un(op)] + ts;
    OneCandidate(Un(op), 0);
    CandidateAppend([Un(op)], ts, k + 1);
    forall j: nat | Candidate(more, j)
      ensures j < |more| && more[j].Operator() && Prec(ts[k]) <= Prec(more[j]) && (j > k + 1 ==>
        Prec(ts[k]) < Prec(more[j]))
    {
      CandidateIs(more, j);
      CandidateAppend([Un(op)], ts, j);
    }
    DominantIs(more, k + 1);
  }

  lemma {:induction false} ChainEnds(e: Tree)
    requires WellFormed(e) && e.Unary?
    ensures var d := Dominant(Tokens(e)); d.Some? && Tokens(e)[d.value].Un?
  {
    if e.e.Unary? {
      ChainEnds(e.e);
      ChainDominant(e.un, Tokens(e.e));
    } else {
      UnaryDominant(e.un, e.e);
    }
  }

  // ----- evaluation of printed trees -----

  /** eval of a printed tree is the value of the tree with its unary chains collapsed. */
  lemma {:induction false} ValueOfTokens<V>(sem: Sem<V>, e: Tree)
    requires WellFormed(e)
    ensures Value(sem, Tokens(e)) == Strict(sem, Collapse(e))
  {
    hide Value, Surrounded, Dominant;
    match e
    case Leaf(t) => ValueOfOne(sem, t);
    case Paren(x) =>
      ValueOfTokens(sem, x);
      TokensBalanced(x);
      BalancedParens(Tokens(x));
      var ts := Tokens(e);
      assert ts[1..|ts| - 1] == Tokens(x);
      ValueUnfolds(sem, ts);
    case Unary(op, x) =>
      ValueOfTokens(sem, x);
      UnaryStep(sem, op, x);
    case Binary(op, l, r) =>
      ValueOfTokens(sem, l);
      ValueOfTokens(sem, r);
      TokensBalanced(l);
      BinaryDominant(op, l, r);
      var a, b := Tokens(l), Tokens(r);
      var ts := a + [Bin(op)] + b;
      assert ts[..|a|] == a && ts[|a|] == Bin(op) && ts[|a| + 1..] == b;
      ValueUnfolds(sem, ts);
  }

  lemma UnaryStep<V>(sem: Sem<V>, op: UnOp, x: Tree)
    requires WellFormed(Unary(op, x))
    ensures Value(sem, [Un(op)] + Tokens(x)) ==
      if x.Unary? then Value(sem, Tokens(x)) else OnUnary(sem, op, Value(sem, Tokens(x)))
  {
    hide Value, Dominant;
    TokensBalanced(x);
    var ts := [Un(op)] + Tokens(x);
    ValueUnfolds(sem, ts);
    if x.Unary? {
      ChainEnds(x);
      ChainDominant(op, Tokens(x));
      var k, inner := Dominant(Tokens(x)).value, Tokens(x);
      assert ts == [Un(op)] + inner;
      assert ts[k + 1] == inner[k];
      assert ts[k + 2..] == inner[k + 1..];
      assert inner[0].Un?;
      TokensBalanced(x.e);
      ValueUnfolds(sem, Tokens(x));
    } else {
      UnaryDominant(op, x);
      assert ts[1..] == Tokens(x);
    }
  }

  /** match_unary_tokens and eval on what was typed. */
  lemma TypedValue<V>(sem: Sem<V>, e: Tree)
    requires WellFormed(e)
    ensures Value(sem, Matched(Typed(e))) == Strict(sem, Collapse(e))
  {
    hide Value;
    MatchedIsAfter(Typed(e));
    MatchedTyped(e);
    ValueOfTokens(sem, e);
  }

  // ----- any tree, printed with the parentheses it needs -----

  function Wrap(e: Tree, least: nat): Tree { if Top(e) >= least then e else Paren(e) }

  /** Adds the parentheses that precedence and left associativity ask for, and those around unary
      operands that are not atoms. */
  function Parenthesized(e: Tree): Tree {
    match e
    case Leaf(_) => e
    case Paren(x) => Paren(Parenthesized(x))
    case Unary(op, x) => Unary(op, Wrap(Parenthesized(x), 11))
    case Binary(op, l, r) => Binary(op, Wrap(Parenthesized(l), Class(op)), Wrap(Parenthesized(r), Class(op) + 1))
  }

  predicate AtomsOnly(e: Tree) {
    match e
    case Leaf(t) => t.Atom()
    case Paren(x) => AtomsOnly(x)
    case Unary(_, x) => AtomsOnly(x)
    case Binary(_, l, r) => AtomsOnly(l) && AtomsOnly(r)
  }

  lemma {:induction false} ParenthesizedFits(e: Tree)
    requires AtomsOnly(e)
    ensures WellFormed(Parenthesized(e)) && NoChain(Parenthesized(e))
  {
    match e
    case Leaf(_) =>
    case Paren(x) => ParenthesizedFits(x);
    case Unary(_, x) => ParenthesizedFits(x);
    case Binary(_, l, r) =>
      ParenthesizedFits(l);
      ParenthesizedFits(r);
  }

  lemma {:induction false} ParenthesizedValue<V>(sem: Sem<V>, e: Tree)
    ensures Strict(sem, Parenthesized(e)) == Strict(sem, e)
  {
    match e
    case Leaf(_) =>
    case Paren(x) => ParenthesizedValue(sem, x);
    case Unary(_, x) => ParenthesizedValue(sem, x);
    case Binary(_, l, r) =>
      ParenthesizedValue(sem, l);
      ParenthesizedValue(sem, r);
  }

  /** No parentheses are added to a tree that has those it needs. */
  lemma {:induction false} ParenthesizedIsMinimal(e: Tree)
    requires WellFormed(e) && NoChain(e)
    ensures Parenthesized(e) == e
  {
    match e
    case Leaf(_) =>
    case Paren(x) => ParenthesizedIsMinimal(x);
    case Unary(_, x) => ParenthesizedIsMinimal(x);
    case Binary(_, l, r) =>
      ParenthesizedIsMinimal(l);
      ParenthesizedIsMinimal(r);
  }

  lemma {:induction false} CollapseNothing(e: Tree)
    requires NoChain(e)
    ensures Collapse(e) == e
  {
    match e
    case Leaf(_) =>
    case Paren(x) => CollapseNothing(x);
    case Unary(_, x) => CollapseNothing(x);
    case Binary(_, l, r) =>
      CollapseNothing(l);
      CollapseNothing(r);
  }

  /** The round trip: any tree over atoms, printed, evaluates to the tree's value or fails with it. */
  lemma RoundTrip<V>(sem: Sem<V>, e: Tree)
    requires AtomsOnly(e)
    ensures Value(sem, Matched(Typed(Parenthesized(e)))) == Strict(sem, e)
  {
    hide Value, Matched;
    ParenthesizedFits(e);
    ParenthesizedValue(sem, e);
    CollapseNothing(Parenthesized(e));
    TypedValue(sem, Parenthesized(e));
  }

  // ----- exactly when the tree itself comes back -----

  /** The meaning in which an expression is its own parse tree. */
  function TreeSem(): Sem<Tree> {
    Sem(t => Some(Leaf(t)), (op, x) => Some(Unary(op, x)), (op, x, y) => Some(Binary(op, x, y)))
  }

  function Bare(e: Tree): Tree {
    match e
    case Leaf(_) => e
    case Paren(x) => Bare(x)
    case Unary(op, x) => Unary(op, Bare(x))
    case Binary(op, l, r) => Binary(op, Bare(l), Bare(r))
  }

  function Operators(e: Tree): nat {
    match e
    case Leaf(_) => 0
    case Paren(x) => Operators(x)
    case Unary(_, x) => 1 + Operators(x)
    case Binary(_, l, r) => 1 + Operators(l) + Operators(r)
  }

  lemma {:induction false} StrictTree(e: Tree)
    ensures Strict(TreeSem(), e) == Some(Bare(e)) && Operators(Bare(e)) == Operators(e)
  {
    match e
    case Leaf(_) =>
    case Paren(x) => StrictTree(x);
    case Unary(_, x) => StrictTree(x);
    case Binary(_, l, r) =>
      StrictTree(l);
      StrictTree(r);
  }

  lemma {:induction false} CollapseLoses(e: Tree)
    ensures Operators(Collapse(e)) <= Operators(e)
    ensures !NoChain(e) ==> Operators(Collapse(e)) < Operators(e)
  {
    match e
    case Leaf(_) =>
    case Paren(x) => CollapseLoses(x);
    case Unary(_, x) => CollapseLoses(x);
    case Binary(_, l, r) =>
      CollapseLoses(l);
      CollapseLoses(r);
  }

  /** The evaluator reads a printed tree as that tree if and only if it has no unary chain. */
  lemma ParsedExactly(e: Tree)
    requires WellFormed(e)
    ensures Value(TreeSem(), Matched(Typed(e))) == Some(Bare(e)) <==> NoChain(e)
  {
    hide Value, Matched, Strict;
    TypedValue(TreeSem(), e);
    StrictTree(e);
    StrictTree(Collapse(e));
    CollapseLoses(e);
    if NoChain(e) { CollapseNothing(e); }
  }

  /** Every printed tree is accepted, with atoms as operands. */
  lemma PrintedIsAccepted(e: Tree)
    requires WellFormed(e)
    ensures Accepted(Matched(Typed(e))) && AtomOperands(Matched(Typed(e)))
  {
    hide Value, Matched, Strict, Accepted, AtomOperands;
    TypedValue(TreeSem(), e);
    StrictTree(Collapse(e));
    EvaluableExactly(TreeSem(), Matched(Typed(e)));
  }

  /** Under every meaning the value is the tree's if and only if the tree has no unary chain. */
  lemma ChainsAreLost(e: Tree)
    requires WellFormed(e)
    ensures NoChain(e) ==> forall sem: Sem<Tree> :: Value(sem, Matched(Typed(e))) == Strict(sem, e)
    ensures (forall sem: Sem<Tree> :: Value(sem, Matched(Typed(e))) == Strict(sem, e)) ==> NoChain(e)
  {
    hide Value, Matched, Strict;
    forall sem: Sem<Tree> | NoChain(e) ensures Value(sem, Matched(Typed(e))) == Strict(sem, e) {
      TypedValue(sem, e);
      CollapseNothing(e);
    }
    ParsedExactly(e);
    StrictTree(e);
  }

  /** `- - 5` is read as `- 5`. */
  lemma DoubleMinus<V>(sem: Sem<V>)
    ensures Value(sem, Matched([Bin(Sub), Bin(Sub), Num("5")])) == OnUnary(sem, Minus, sem.atom(Num("5")))
  {
    hide Value, Matched;
    var five := Leaf(Num("5"));
    var e := Unary(Minus, Unary(Minus, five));
    assert Typed(Unary(Minus, five)) == [Bin(Sub)] + [Num("5")];
    assert Typed(e) == [Bin(Sub)] + Typed(Unary(Minus, five)) == [Bin(Sub), Bin(Sub), Num("5")];
    TypedValue(sem, e);
    assert Collapse(e) == Unary(Minus, five);
  }

  // ----- which operator takes the operand between two -----

  /** Of two operators the one of the tighter class takes the operand between them, the left one of two
      of the same class. */
  lemma BetweenTwo(a: Token, o: BinOp, b: Token, p: BinOp, c: Token)
    requires a.Atom() && b.Atom() && c.Atom()
    ensures Value(TreeSem(), [a, Bin(o), b, Bin(p), c]) ==
      Some(if Class(p) > Class(o) then Binary(o, Leaf(a), Binary(p, Leaf(b), Leaf(c)))
           else Binary(p, Binary(o, Leaf(a), Leaf(b)), Leaf(c)))
  {
    hide Value, Class;
    var x, y, z := Leaf(a), Leaf(b), Leaf(c);
    PairOf(a, o, b);
    PairOf(b, p, c);
    var e := if Class(p) > Class(o) then Binary(o, x, Binary(p, y, z)) else Binary(p, Binary(o, x, y), z);
    assert WellFormed(e) && Collapse(e) == e;
    assert Tokens(e) == [a, Bin(o), b, Bin(p), c];
    ValueOfTokens(TreeSem(), e);
    StrictTree(e);
  }

  lemma PairOf(a: Token, o: BinOp, b: Token)
    requires a.Atom() && b.Atom()
    ensures var e := Binary(o, Leaf(a), Leaf(b));
      Tokens(e) == [a, Bin(o), b] && WellFormed(e) && Collapse(e) == e && Bare(e) == e && Top(e) == Class(o)
  {
    assert Tokens(Leaf(a)) == [a] && Tokens(Leaf(b)) == [b];
  }

  lemma UnaryOf(u: UnOp, a: Token)
    requires a.Atom()
    ensures var e := Unary(u, Leaf(a));
      Tokens(e) == [Un(u), a] && WellFormed(e) && Collapse(e) == e && Bare(e) == e && Top(e) == 10
  {
    assert Tokens(Leaf(a)) == [a];
  }

  /** A unary operator binds tighter than any binary one on either side of it. */
  lemma UnaryFirst(u: UnOp, a: Token, o: BinOp, b: Token)
    requires a.Atom() && b.Atom()
    ensures Value(TreeSem(), [Un(u), a, Bin(o), b]) == Some(Binary(o, Unary(u, Leaf(a)), Leaf(b)))
    ensures Value(TreeSem(), [a, Bin(o), Un(u), b]) == Some(Binary(o, Leaf(a), Unary(u, Leaf(b))))
  {
    hide Value, Class;
    var e, f := Binary(o, Unary(u, Leaf(a)), Leaf(b)), Binary(o, Leaf(a), Unary(u, Leaf(b)));
    UnaryOf(u, a);
    UnaryOf(u, b);
    assert Tokens(Leaf(a)) == [a] && Tokens(Leaf(b)) == [b];
    assert WellFormed(e) && Collapse(e) == e && Tokens(e) == [Un(u), a, Bin(o), b];
    assert WellFormed(f) && Collapse(f) == f && Tokens(f) == [a, Bin(o), Un(u), b];
    ValueOfTokens(TreeSem(), e);
    ValueOfTokens(TreeSem(), f);
    StrictTree(e);
    StrictTree(f);
  }
}

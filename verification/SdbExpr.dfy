/**
The debugger's expression evaluator: it repeatedly splits the token list at the operator that binds
weakest.  Evaluation is stated over any meaning of atoms and operators, so that it can be the
machine's arithmetic as well as the parse tree itself.
*/
module SdbExpr {
  import opened Wrappers
  datatype BinOp =
    | Eq | Ne | Le | Lt | Ge | Gt
    | Add | Sub | Mul | Div | Rem | And | Or | Xor | Shl | Lshr | Ashr | Land | Lor
  datatype UnOp = Not | Lnot | Minus | Deref
  datatype Token = Num(text: string) | Reg(text: string) | Bin(bin: BinOp) | Un(un: UnOp) | LPar | RPar {
    predicate Operator() { Bin? || Un? }
    predicate Atom() { Num? || Reg? }
    /** expecting_an_expr */
    predicate Expecting() { Bin? || Un? || LPar? }
  }

  function BinPrec(op: BinOp): (n: nat)
    ensures n <= 90
  {
    match op
    case Mul | Div | Rem => 90
    case Add | Sub => 80
    case Shl | Lshr | Ashr => 70
    case Le | Ge | Lt | Gt => 60
    case Eq | Ne => 50
    case And => 40
    case Xor => 30
    case Or => 20
    case Land => 10
    case Lor => 0
  }

  /** get_precedence */
  function Prec(t: Token): (n: nat)
    requires t.Operator()
    ensures n <= 100
  {
    if t.Un? then 100 else BinPrec(t.bin)
  }

  // ----- telling the unary operators -----

  /** has_unary and to_unary */
  function Convert(t: Token, expecting: bool): Token {
    if expecting && t == Bin(Mul) then Un(Deref)
    else if expecting && t == Bin(Sub) then Un(Minus)
    else t
  }

  function MatchedAt(ts: seq<Token>, i: nat): Token
    requires i < |ts|
  {
    Convert(ts[i], i == 0 || ts[i - 1].Expecting())
  }

  function Matched(ts: seq<Token>): seq<Token> { seq(|ts|, i requires 0 <= i < |ts| => MatchedAt(ts, i)) }

  method MatchUnaryTokens(tokens: array<Token>)
    modifies tokens
    ensures tokens[..] == Matched(old(tokens[..]))
  {
    ghost var was := tokens[..];
    for i := 0 to tokens.Length
      invariant forall j :: 0 <= j < i ==> tokens[j] == MatchedAt(was, j)
      invariant forall j :: i <= j < tokens.Length ==> tokens[j] == was[j]
    {
      assert i > 0 ==> tokens[i - 1] == MatchedAt(was, i - 1);
      if tokens[i] == Bin(Mul) || tokens[i] == Bin(Sub) {
        if i == 0 || tokens[i - 1].Expecting() {
          tokens[i] := if tokens[i] == Bin(Mul) then Un(Deref) else Un(Minus);
        }
      }
      assert tokens[i] == MatchedAt(was, i);
    }
    assert forall j :: 0 <= j < tokens.Length ==> tokens[..][j] == Matched(was)[j];
  }

  // ----- parentheses -----

  /** Parentheses open before token i. */
  function Depth(ts: seq<Token>, i: nat): int
    requires i <= |ts|
  {
    if i == 0 then 0 else Depth(ts, i - 1) + if ts[i - 1].LPar? then 1 else if ts[i - 1].RPar? then -1 else 0
  }

  /** The first token's parenthesis is closed by the last token, and not before. */
  ghost predicate Surrounded(ts: seq<Token>) {
    && |ts| >= 2 && ts[0].LPar? && ts[|ts| - 1].RPar?
    && Depth(ts, |ts|) == 0 && forall i :: 0 < i < |ts| ==> Depth(ts, i) > 0
  }

  /** check_parentheses.  Its mismatch flag is never set: the count passes through zero first. */
  method CheckParentheses(tokens: array<Token>, p: nat, q: nat) returns (r: bool, invalid: bool)
    requires p < q < tokens.Length
    ensures r == Surrounded(tokens[p..q + 1]) && !invalid
  {
    ghost var ts := tokens[p..q + 1];
    assert ts[0] == tokens[p] && ts[q - p] == tokens[q];
    invalid := false;
    if !tokens[p].LPar? || !tokens[q].RPar? { return false, false; }
    var cnt := 0;
    for i := p to q + 1
      invariant cnt == Depth(ts, i - p) && cnt >= 0
      invariant p < i <= q ==> cnt > 0
      invariant forall j :: 0 < j < i - p ==> Depth(ts, j) > 0
    {
      assert ts[i - p] == tokens[i];
      if tokens[i].LPar? {
        cnt := cnt + 1;
      } else if tokens[i].RPar? {
        cnt := cnt - 1;
        assert cnt == Depth(ts, i - p + 1);
        if cnt == 0 && i != q { return false, false; }
        invalid := cnt < 0;
        if invalid { return false, invalid; }
      }
    }
    r := cnt == 0;
  }

  // ----- the dominant operator -----

  /** An operator outside all parentheses. */
  ghost predicate Candidate(ts: seq<Token>, k: nat) { k < |ts| && ts[k].Operator() && Depth(ts, k) <= 0 }

  /** The candidate that binds weakest, the rightmost of several. */
  ghost predicate IsDominant(ts: seq<Token>, k: nat) {
    && Candidate(ts, k)
    && forall j: nat :: Candidate(ts, j) ==> Prec(ts[k]) <= Prec(ts[j]) && (j > k ==> Prec(ts[k]) < Prec(ts[j]))
  }

  ghost function Dominant(ts: seq<Token>): (r: Option<nat>)
    ensures r.Some? ==> r.value < |ts| && ts[r.value].Operator()
  {
    if k: nat :| IsDominant(ts, k) then Some(k) else None
  }

  lemma DominantIs(ts: seq<Token>, k: nat)
    requires IsDominant(ts, k)
    ensures Dominant(ts) == Some(k)
  {
    assert forall j: nat :: IsDominant(ts, j) ==> j == k;
  }

  /** find_dominant_operator */
  method FindDominantOperator(tokens: array<Token>, p: nat, q: nat) returns (r: Option<nat>)
    requires p <= q < tokens.Length
    ensures r.None? ==> Dominant(tokens[p..q + 1]) == None
    ensures r.Some? ==> p <= r.value <= q && Dominant(tokens[p..q + 1]) == Some(r.value - p)
    ensures r.Some? ==> tokens[r.value].Operator()
  {
    ghost var ts := tokens[p..q + 1];
    var minPrec, idx, paren := 0x7fff_ffff, -1, 0;
    for i := p to q + 1
      invariant paren == Depth(ts, i - p)
      invariant idx == -1 ==> minPrec == 0x7fff_ffff && forall j :: 0 <= j < i - p ==> !Candidate(ts, j)
      invariant idx != -1 ==> p <= idx < i && Candidate(ts, idx - p) && minPrec == Prec(ts[idx - p])
      invariant idx != -1 ==> forall j :: 0 <= j < i - p && Candidate(ts, j) ==>
        minPrec <= Prec(ts[j]) && (j > idx - p ==> minPrec < Prec(ts[j]))
    {
      var t := tokens[i];
      assert t == ts[i - p];
      if t.LPar? {
        paren := paren + 1;
      } else if t.RPar? {
        paren := paren - 1;
      } else if paren <= 0 && t.Operator() && Prec(t) <= minPrec {
        minPrec, idx := Prec(t), i;
      }
    }
    if idx == -1 { return None; }
    assert IsDominant(ts, idx - p);
    DominantIs(ts, idx - p);
    r := Some(idx);
  }

  // ----- evaluation -----

  /** What atoms and operators mean; None is failure. */
  datatype Sem<!V> = Sem(atom: Token -> Option<V>, unary: (UnOp, V) -> Option<V>, binary: (BinOp, V, V) -> Option<V>)

  function OnUnary<V>(sem: Sem<V>, op: UnOp, x: Option<V>): Option<V> {
    if x.Some? then sem.unary(op, x.value) else None
  }

  function OnBinary<V>(sem: Sem<V>, op: BinOp, x: Option<V>, y: Option<V>): Option<V> {
    if x.Some? && y.Some? then sem.binary(op, x.value, y.value) else None
  }

  /** What eval computes for a list of tokens. */
  ghost function Value<V>(sem: Sem<V>, ts: seq<Token>): Option<V>
    decreases |ts|
  {
    if |ts| == 0 then None
    else if |ts| == 1 then if ts[0].Atom() then sem.atom(ts[0]) else None
    else if Surrounded(ts) then Value(sem, ts[1..|ts| - 1])
    else match Dominant(ts)
      case None => None
      case Some(k) =>
        if ts[k].Un? then OnUnary(sem, ts[k].un, Value(sem, ts[k + 1..]))
        else OnBinary(sem, ts[k].bin, Value(sem, ts[..k]), Value(sem, ts[k + 1..]))
  }

  lemma ValueUnfolds<V>(sem: Sem<V>, ts: seq<Token>)
    requires |ts| > 1
    ensures Surrounded(ts) ==> Value(sem, ts) == Value(sem, ts[1..|ts| - 1])
    ensures !Surrounded(ts) ==>
      match Dominant(ts)
      case None => Value(sem, ts) == None
      case Some(k) =>
        if ts[k].Un? then Value(sem, ts) == OnUnary(sem, ts[k].un, Value(sem, ts[k + 1..]))
        else Value(sem, ts) == OnBinary(sem, ts[k].bin, Value(sem, ts[..k]), Value(sem, ts[k + 1..]))
  {
    hide Surrounded, Dominant, OnUnary, OnBinary;
  }

  lemma ValueOfOne<V>(sem: Sem<V>, t: Token)
    ensures Value(sem, [t]) == if t.Atom() then sem.atom(t) else None
    ensures Value(sem, []) == None
  {
  }

  method Eval<V>(sem: Sem<V>, tokens: array<Token>, p: nat, q: int) returns (r: Option<V>)
    requires p <= q + 1 <= tokens.Length
    ensures r == Value(sem, tokens[p..q + 1])
    decreases q + 1 - p
  {
    hide Surrounded, Dominant, Value;
    ghost var ts := tokens[p..q + 1];
    if p > q {
      ValueOfOne(sem, LPar);
      assert ts == [];
      return None;
    }
    if p == q {
      ValueOfOne(sem, tokens[p]);
      assert ts == [tokens[p]];
      return if tokens[p].Atom() then sem.atom(tokens[p]) else None;
    }
    ValueUnfolds(sem, ts);
    var surrounded, invalid := CheckParentheses(tokens, p, q);
    if surrounded {
      r := Eval(sem, tokens, p + 1, q - 1);
      assert ts[1..|ts| - 1] == tokens[p + 1..q];
      return;
    }
    var op := FindDominantOperator(tokens, p, q);
    if invalid || op.None? { return None; }
    var k: int := op.value;
    assert ts[k - p] == tokens[k] && ts[k - p + 1..] == tokens[k + 1..q + 1] && ts[..k - p] == tokens[p..k];
    if tokens[k].Un? {
      var x := Eval(sem, tokens, k + 1, q);
      return OnUnary(sem, tokens[k].un, x);
    }
    var x := Eval(sem, tokens, p, k - 1);
    if x.None? { return None; }
    var y := Eval(sem, tokens, k + 1, q);
    return OnBinary(sem, tokens[k].bin, x, y);
  }

  /** expr, from the token list on. */
  method Expr<V>(sem: Sem<V>, tokens: array<Token>) returns (r: Option<V>)
    modifies tokens
    ensures tokens[..] == Matched(old(tokens[..])) && r == Value(sem, Matched(old(tokens[..])))
  {
    hide Value, Matched;
    MatchUnaryTokens(tokens);
    assert tokens[0..tokens.Length] == tokens[..];
    r := Eval(sem, tokens, 0, tokens.Length - 1);
  }

  // ----- syntax_check -----

  ghost predicate Accepted(ts: seq<Token>)
    decreases |ts|
  {
    if |ts| == 0 then false
    else if |ts| == 1 then true
    else if Surrounded(ts) then Accepted(ts[1..|ts| - 1])
    else match Dominant(ts)
      case None => false
      case Some(k) => (ts[k].Un? || Accepted(ts[..k])) && Accepted(ts[k + 1..])
  }

  lemma AcceptedUnfolds(ts: seq<Token>)
    ensures |ts| == 0 ==> !Accepted(ts)
    ensures |ts| == 1 ==> Accepted(ts)
    ensures |ts| > 1 && Surrounded(ts) ==> Accepted(ts) == Accepted(ts[1..|ts| - 1])
    ensures |ts| > 1 && !Surrounded(ts) ==>
      match Dominant(ts)
      case None => !Accepted(ts)
      case Some(k) => Accepted(ts) == ((ts[k].Un? || Accepted(ts[..k])) && Accepted(ts[k + 1..]))
  {
    hide Surrounded, Dominant;
  }

  method SyntaxCheck(tokens: array<Token>, p: nat, q: int) returns (r: bool)
    requires p <= q + 1 <= tokens.Length
    ensures r == Accepted(tokens[p..q + 1])
    decreases q + 1 - p
  {
    hide Surrounded, Dominant, Accepted;
    ghost var ts := tokens[p..q + 1];
    AcceptedUnfolds(ts);
    if p > q { return false; }
    if p == q { return true; }
    var surrounded, invalid := CheckParentheses(tokens, p, q);
    if surrounded {
      r := SyntaxCheck(tokens, p + 1, q - 1);
      assert ts[1..|ts| - 1] == tokens[p + 1..q];
      return;
    }
    var op := FindDominantOperator(tokens, p, q);
    if invalid || op.None? { return false; }
    var k: int := op.value;
    assert ts[k - p] == tokens[k] && ts[k - p + 1..] == tokens[k + 1..q + 1] && ts[..k - p] == tokens[p..k];
    if !tokens[k].Un? {
      r := SyntaxCheck(tokens, p, k - 1);
      if !r { return; }
    }
    r := SyntaxCheck(tokens, k + 1, q);
  }

  /** Whatever evaluates is accepted. */
  lemma {:induction false} EvaluableIsAccepted<V>(sem: Sem<V>, ts: seq<Token>)
    requires Value(sem, ts).Some?
    ensures Accepted(ts)
    decreases |ts|
  {
    hide Surrounded, Dominant;
    if |ts| > 1 {
      if Surrounded(ts) {
        EvaluableIsAccepted(sem, ts[1..|ts| - 1]);
      } else {
        var k := Dominant(ts).value;
        EvaluableIsAccepted(sem, ts[k + 1..]);
        if !ts[k].Un? { EvaluableIsAccepted(sem, ts[..k]); }
      }
    }
  }

  /** What eval tests and syntax_check does not: where the splitting ends at one token, it is a number
      or a register. */
  ghost predicate AtomOperands(ts: seq<Token>)
    decreases |ts|
  {
    if |ts| == 0 then true
    else if |ts| == 1 then ts[0].Atom()
    else if Surrounded(ts) then AtomOperands(ts[1..|ts| - 1])
    else match Dominant(ts)
      case None => true
      case Some(k) => (ts[k].Un? || AtomOperands(ts[..k])) && AtomOperands(ts[k + 1..])
  }

  /** A meaning in which atoms and operators always have a value. */
  ghost predicate Total<V(!new)>(sem: Sem<V>) {
    && (forall t: Token :: t.Atom() ==> sem.atom(t).Some?)
    && (forall op: UnOp, x: V :: sem.unary(op, x).Some?)
    && (forall op: BinOp, x: V, y: V :: sem.binary(op, x, y).Some?)
  }

  /** Evaluation never succeeds beyond acceptance with atoms as operands, and when atoms and operators
      do not fail, that is exactly when it succeeds. */
  lemma {:induction false} EvaluableExactly<V(!new)>(sem: Sem<V>, ts: seq<Token>)
    ensures Value(sem, ts).Some? ==> Accepted(ts) && AtomOperands(ts)
    ensures Total(sem) ==> (Value(sem, ts).Some? <==> Accepted(ts) && AtomOperands(ts))
    decreases |ts|
  {
    hide Surrounded, Dominant;
    if |ts| > 1 {
      if Surrounded(ts) {
        EvaluableExactly(sem, ts[1..|ts| - 1]);
      } else if Dominant(ts).Some? {
        var k := Dominant(ts).value;
        EvaluableExactly(sem, ts[k + 1..]);
        if !ts[k].Un? { EvaluableExactly(sem, ts[..k]); }
      }
    }
  }

  /** A lone parenthesis is accepted and has no value: the guard is needed. */
  lemma AcceptedButNotEvaluable<V>(sem: Sem<V>)
    ensures Accepted([RPar]) && !AtomOperands([RPar]) && Value(sem, [RPar]) == None
  {
  }
}

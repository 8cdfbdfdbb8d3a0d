/**
The debugger's operators on 32-bit words.
*/
module SdbArith {
  import opened Wrappers
  import opened Bits
  import opened SdbExpr
  import SdbRoundTrip

  function Truth(b: bool): Word { if b then 1 else 0 }

  /** Shifts by 32 or more are left open, as in C. */
  function WordBinary(op: BinOp, a: Word, b: Word, open: (BinOp, Word, Word) -> Word): Option<Word> {
    match op
    case Eq => Some(Truth(a == b))
    case Ne => Some(Truth(a != b))
    case Le => Some(Truth(a <= b))
    case Lt => Some(Truth(a < b))
    case Ge => Some(Truth(a >= b))
    case Gt => Some(Truth(a > b))
    case Add => Some((a + b) % W32)
    case Sub => Some((a - b) % W32)
    case Mul => Some((a * b) % W32)
    case Div => if b == 0 then None else Some(Quotient(a, b))
    case Rem => if b == 0 then None else Some(Remainder(a, b))
    case And => Some(BitAnd(a, b) % W32)
    case Or => Some(BitOr(a, b) % W32)
    case Xor => Some(BitXor(a, b) % W32)
    case Shl => Some(if b < 32 then Up(a, b) % W32 else open(op, a, b))
    case Lshr => Some(if b < 32 then Shr(a, b) else open(op, a, b))
    case Ashr => Some(if b < 32 then Sra(a, b) else open(op, a, b))
    case Land => Some(Truth(a != 0 && b != 0))
    case Lor => Some(Truth(a != 0 || b != 0))
  }

  function Quotient(a: Word, b: Word): (q: Word)
    requires b != 0
    ensures q * b <= a && a - q * b < b
  {
    DivBound(a, b);
    a / b
  }

  function Remainder(a: Word, b: Word): (r: Word)
    requires b != 0
    ensures r < b && a == Quotient(a, b) * b + r
  {
    DivBound(a, b);
    a % b
  }

  lemma DivBound(a: nat, b: nat)
    requires b > 0
    ensures a / b * b <= a && a - a / b * b == a % b < b && 0 <= a / b <= a
  {
    assert a == a / b * b + a % b;
    TimesIsProduct(a / b, b);
    Quotients(a / b, b);
  }

  lemma {:induction false} Quotients(q: nat, b: nat)
    requires b > 0
    ensures q <= Times(q, b)
  {
    if q > 0 { Quotients(q - 1, b); }
  }

  function WordUnary(op: UnOp, a: Word, load: Word -> Word): Word {
    match op
    case Not => W32 - 1 - a
    case Lnot => Truth(a == 0)
    case Minus => (W32 - a) % W32
    case Deref => load(a)
  }

  /** The evaluator's meaning, given the values of numbers and registers and a memory. */
  function WordSem(atom: Token -> Option<Word>, load: Word -> Word, open: (BinOp, Word, Word) -> Word): Sem<Word> {
    Sem(atom, (op, a: Word) => Some(WordUnary(op, a, load)), (op, a: Word, b: Word) => WordBinary(op, a, b, open))
  }

  /** An atom has no value, or a division has a divisor of value 0. */
  predicate Fails(sem: Sem<Word>, e: SdbRoundTrip.Tree) {
    match e
    case Leaf(t) => sem.atom(t).None?
    case Paren(x) => Fails(sem, x)
    case Unary(_, x) => Fails(sem, x)
    case Binary(op, l, r) =>
      Fails(sem, l) || Fails(sem, r) || ((op == Div || op == Rem) && SdbRoundTrip.Strict(sem, r) == Some(0))
  }

  /** Evaluation of a printed tree fails exactly if one of its atoms or divisions does, wherever in the
      tree: && and || evaluate both sides. */
  lemma {:induction false} EvaluationFails(atom: Token -> Option<Word>, load: Word -> Word,
                                           open: (BinOp, Word, Word) -> Word, e: SdbRoundTrip.Tree)
    requires SdbRoundTrip.AtomsOnly(e)
    ensures var sem := WordSem(atom, load, open);
      Value(sem, Matched(SdbRoundTrip.Typed(SdbRoundTrip.Parenthesized(e)))) == None <==> Fails(sem, e)
  {
    hide Value, Matched, WordBinary;
    var sem := WordSem(atom, load, open);
    SdbRoundTrip.RoundTrip(sem, e);
    StrictFails(atom, load, open, e);
  }

  lemma {:induction false} StrictFails(atom: Token -> Option<Word>, load: Word -> Word,
                                       open: (BinOp, Word, Word) -> Word, e: SdbRoundTrip.Tree)
    ensures var sem := WordSem(atom, load, open); SdbRoundTrip.Strict(sem, e) == None <==> Fails(sem, e)
  {
    hide Up, Shr, BitAnd, BitOr, BitXor, Quotient, Remainder, Sra;
    match e
    case Leaf(_) =>
    case Paren(x) => StrictFails(atom, load, open, x);
    case Unary(_, x) => StrictFails(atom, load, open, x);
    case Binary(_, l, r) =>
      StrictFails(atom, load, open, l);
      StrictFails(atom, load, open, r);
  }

  /** On the machine's arithmetic - - 5 evaluates to -5, while the tree's value is 5. */
  lemma DoubleMinusValue(atom: Token -> Option<Word>, load: Word -> Word, open: (BinOp, Word, Word) -> Word)
    requires atom(Num("5")) == Some(5)
    ensures var sem := WordSem(atom, load, open); var e := SdbRoundTrip.Leaf(Num("5"));
      && Value(sem, Matched([Bin(Sub), Bin(Sub), Num("5")])) == Some(W32 - 5)
      && SdbRoundTrip.Strict(sem, SdbRoundTrip.Unary(Minus, SdbRoundTrip.Unary(Minus, e))) == Some(5)
  {
    hide Value, Matched;
    var sem, e := WordSem(atom, load, open), SdbRoundTrip.Leaf(Num("5"));
    SdbRoundTrip.DoubleMinus(sem);
    assert SdbRoundTrip.Strict(sem, e) == Some(5);
    assert SdbRoundTrip.Strict(sem, SdbRoundTrip.Unary(Minus, e)) == Some(W32 - 5);
  }
}

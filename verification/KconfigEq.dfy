/**
What expr_eq decides: two || or && levels over symbols and comparisons are equal exactly if they have
the same operands, in whatever order and grouping.
*/
module KconfigEq {
  import opened KconfigExpr

  predicate Atomic(e: Expr) { e.Sym? || e.Cmp? }

  /** Every operand of the level is a symbol or a comparison, constants that absorb left out. */
  predicate Flat(op: Junct, e: Expr) {
    if IsJunct(e, op) then Flat(op, e.l) && Flat(op, e.r) else Atomic(e) && (IsYn(e) ==> e == Sym(Neutral(op)))
  }

  /** The operands of the level other than neutral constants. */
  function Operands(op: Junct, e: Expr): multiset<Expr> {
    if IsJunct(e, op) then Operands(op, e.l) + Operands(op, e.r)
    else if IsYn(e) then multiset{}
    else multiset{e}
  }

  lemma AtomEq(x: Expr, y: Expr)
    requires Atomic(x) && Atomic(y)
    ensures ExprEq(x, y) <==> x == y
  {
  }

  /** Taking away a and then what is left of b is taking away both. */
  lemma MinusTwice<T>(a: multiset<T>, b: multiset<T>, c: multiset<T>)
    ensures (a - c) + (b - (c - a)) == a + b - c
    ensures c - a - b == c - (a + b)
  {
  }

  lemma OfJunct(op: Junct, l: Expr, r: Expr)
    ensures Operands(op, Bin(op, l, r)) == Operands(op, l) + Operands(op, r)
    ensures Flat(op, Bin(op, l, r)) <==> Flat(op, l) && Flat(op, r)
  {
  }

  lemma OfJunctIs(op: Junct, e: Expr)
    requires IsJunct(e, op)
    ensures Operands(op, e) == Operands(op, e.l) + Operands(op, e.r)
    ensures Flat(op, e) <==> Flat(op, e.l) && Flat(op, e.r)
  {
  }

  lemma CommonAtoms(op: Junct, x: Expr, y: Expr)
    requires Flat(op, x) && Flat(op, y) && !IsJunct(x, op) && !IsJunct(y, op)
    ensures var (x', y') := EliminateLeaves(op, x, y);
      && Flat(op, x') && Flat(op, y')
      && Operands(op, x') == Operands(op, x) - Operands(op, y)
      && Operands(op, y') == Operands(op, y) - Operands(op, x)
  {
    hide ExprEq;
    AtomEq(x, y);
  }

  /** expr_eliminate_eq takes the common operands away from both sides, each as often as it is there. */
  lemma {:induction false} CommonRemoved(op: Junct, x: Expr, y: Expr)
    requires Flat(op, x) && Flat(op, y)
    ensures var (x', y') := EliminateLeaves(op, x, y);
      && Flat(op, x') && Flat(op, y')
      && Operands(op, x') == Operands(op, x) - Operands(op, y)
      && Operands(op, y') == Operands(op, y) - Operands(op, x)
    decreases Size(x) + Size(y)
  {
    hide ExprEq, Flat, Operands;
    if IsJunct(x, op) {
      OfJunctIs(op, x);
      var (l, y1) := EliminateLeaves(op, x.l, y);
      CommonRemoved(op, x.l, y);
      var (r, _) := EliminateLeaves(op, x.r, y1);
      CommonRemoved(op, x.r, y1);
      OfJunct(op, l, r);
      MinusTwice(Operands(op, x.l), Operands(op, x.r), Operands(op, y));
    } else if IsJunct(y, op) {
      OfJunctIs(op, y);
      var (x1, l) := EliminateLeaves(op, x, y.l);
      CommonRemoved(op, x, y.l);
      var (_, r) := EliminateLeaves(op, x1, y.r);
      CommonRemoved(op, x1, y.r);
      OfJunct(op, l, r);
      MinusTwice(Operands(op, y.l), Operands(op, y.r), Operands(op, x));
    } else {
      CommonAtoms(op, x, y);
    }
  }

  /** Folding the neutral constants keeps the operands; a single one stands alone. */
  ghost predicate Folded(op: Junct, e: Expr, f: Expr) {
    && Operands(op, f) == Operands(op, e) && Flat(op, f)
    && (Operands(op, e) == multiset{} <==> f == Sym(Neutral(op)))
    && (f.Sym? && f != Sym(Neutral(op)) ==> Operands(op, e) == multiset{f})
  }

  lemma FoldBoth(op: Junct, l: Expr, r: Expr, l': Expr, r': Expr)
    requires Folded(op, l, l') && Folded(op, r, r')
    ensures Folded(op, Bin(op, l, r), FoldYn(op, l', r'))
  {
    hide Flat, Operands;
    OfJunct(op, l, r);
    OfJunct(op, l', r');
    NotAbsorbing(op, l');
    NotAbsorbing(op, r');
  }

  lemma NotAbsorbing(op: Junct, e: Expr)
    requires Flat(op, e)
    ensures IsYn(e) ==> e == Sym(Neutral(op))
  {
  }

  lemma {:induction false} FoldFlat(op: Junct, e: Expr)
    requires Flat(op, e)
    ensures Folded(op, e, EliminateYn(e))
  {
    if IsJunct(e, op) {
      hide Folded, FoldYn;
      FoldFlat(op, e.l);
      FoldFlat(op, e.r);
      FoldBoth(op, e.l, e.r, EliminateYn(e.l), EliminateYn(e.r));
    }
  }

  /** expr_eq on two such levels is equality of the operands with their numbers. */
  lemma ExprEqExactly(op: Junct, x: Expr, y: Expr)
    requires IsJunct(x, op) && IsJunct(y, op) && Flat(op, x) && Flat(op, y)
    ensures ExprEq(x, y) <==> Operands(op, x) == Operands(op, y)
  {
    hide EliminateLeaves, Flat, Operands;
    var (x1, y1) := EliminateLeaves(op, x, y);
    CommonRemoved(op, x, y);
    FoldFlat(op, x1);
    FoldFlat(op, y1);
    var a, b := Operands(op, x), Operands(op, y);
    var u, v := EliminateYn(x1), EliminateYn(y1);
    assert EliminateEq(x, y) == (u, v);
    assert ExprEq(x, y) <==> u.Sym? && v.Sym? && u.s == v.s;
    Disjoint(a, b);
    assert u.Sym? && u != Sym(Neutral(op)) ==> u in a - b;
    assert v.Sym? && v != Sym(Neutral(op)) ==> v in b - a;
  }

  lemma Disjoint<T>(a: multiset<T>, b: multiset<T>)
    ensures forall x :: x in a - b ==> x !in b - a
    ensures a - b == multiset{} && b - a == multiset{} ==> a == b
    ensures a == b ==> a - b == multiset{} && b - a == multiset{}
  {
    if a - b == multiset{} && b - a == multiset{} {
      forall x ensures a[x] == b[x] {
        assert (a - b)[x] == 0 && (b - a)[x] == 0;
      }
    }
  }
}

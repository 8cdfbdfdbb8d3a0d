/**
expr_join_or and expr_join_and: one operand that can stand for two operands of an || or &&.
*/
module KconfigJoin {
  import opened Wrappers
  import opened KconfigExpr
  import opened KconfigTransform

  predicate IsEqOrNe(e: Expr) { e.Cmp? && (e.rel.Equal? || e.rel.Unequal?) }
  predicate IsCmp(e: Expr, rel: Relation, c: Symbol) { e.Cmp? && e.rel == rel && e.b == c }

  /** The symbol an operand talks about; a negated comparison is accepted on the left only. */
  function SymbolOf(e: Expr, first: bool): Option<Symbol> {
    match e
    case Sym(s) => Some(s)
    case Cmp(rel, a, _) => if rel.Equal? || rel.Unequal? then Some(a) else None
    case Not(Sym(s)) => Some(s)
    case Not(Cmp(rel, a, _)) => if first && (rel.Equal? || rel.Unequal?) then Some(a) else None
    case _ => None
  }

  /** The bool or tristate symbol both operands talk about. */
  function CommonSymbol(x: Expr, y: Expr): Option<Symbol> {
    match (SymbolOf(x, true), SymbolOf(y, false))
    case (Some(s), Some(t)) => if s == t && (s.Is(Boolean) || s.Is(Tristated)) then Some(s) else None
    case _ => None
  }

  predicate Both(x: Expr, y: Expr, rel: Relation, b: Symbol, c: Symbol) {
    (IsCmp(x, rel, b) && IsCmp(y, rel, c)) || (IsCmp(x, rel, c) && IsCmp(y, rel, b))
  }

  predicate SymAnd(x: Expr, y: Expr, rel: Relation, c: Symbol) {
    (x.Sym? && IsCmp(y, rel, c)) || (y.Sym? && IsCmp(x, rel, c))
  }

  function JoinOr(x: Expr, y: Expr): Option<Expr> {
    if ExprEq(x, y) then Some(x)
    else match CommonSymbol(x, y)
      case None => None
      case Some(s) =>
        if s.Is(Tristated) && Both(x, y, Equal, SymYes, SymMod) then Some(Cmp(Unequal, s, SymNo))
        else if s.Is(Tristated) && Both(x, y, Equal, SymYes, SymNo) then Some(Cmp(Unequal, s, SymMod))
        else if s.Is(Tristated) && Both(x, y, Equal, SymMod, SymNo) then Some(Cmp(Unequal, s, SymYes))
        else if s.Is(Boolean) && ((x.Not? && x.e.Sym? && y.Sym?) || (y.Not? && y.e.Sym? && x.Sym?))
          then Some(Sym(SymYes))
        else None
  }

  /** a='b' && a!='c' for two constants: n when they are the same, a='b' otherwise. */
  function JoinEqualUnequal(s: Symbol, b: Symbol, c: Symbol): Expr {
    if b == c then Sym(SymNo) else Cmp(Equal, s, b)
  }

  function JoinAnd(x: Expr, y: Expr): Option<Expr> {
    if ExprEq(x, y) then Some(x)
    else match CommonSymbol(x, y)
      case None => None
      case Some(s) =>
        if SymAnd(x, y, Equal, SymYes) then Some(Cmp(Equal, s, SymYes))
        else if SymAnd(x, y, Unequal, SymNo) then Some(Sym(s))
        else if SymAnd(x, y, Unequal, SymMod) then Some(Cmp(Equal, s, SymYes))
        else if !s.Is(Tristated) then None
        else if x.Cmp? && y.Cmp? && x.rel.Equal? && y.rel.Unequal? && x.b.IsConst() && y.b.IsConst()
          then Some(JoinEqualUnequal(s, x.b, y.b))
        else if x.Cmp? && y.Cmp? && x.rel.Unequal? && y.rel.Equal? && x.b.IsConst() && y.b.IsConst()
          then Some(JoinEqualUnequal(s, y.b, x.b))
        else if Both(x, y, Unequal, SymYes, SymNo) then Some(Cmp(Equal, s, SymMod))
        else if Both(x, y, Unequal, SymYes, SymMod) then Some(Cmp(Equal, s, SymNo))
        else if Both(x, y, Unequal, SymMod, SymNo) then Some(Cmp(Equal, s, SymYes))
        else None
  }

  function Join(op: Junct, x: Expr, y: Expr): Option<Expr> {
    match op
    case OrOp => JoinOr(x, y)
    case AndOp => JoinAnd(x, y)
  }

  // ----- which constants a tristate symbol is compared with -----

  /** Some tristate value equals both constants: 'm' and '1', or '1' and '01'. */
  predicate Collide(b: Symbol, c: Symbol)
    requires b.IsConst() && c.IsConst()
  {
    exists t: Tristate :: 0 <= t <= 2 && CompareConst(t, b) == 0 && CompareConst(t, c) == 0
  }

  const YMN: set<Symbol> := {SymYes, SymMod, SymNo}

  /** The constants that some tristate symbol is tested against with = or !=. */
  function TriConsts(e: Expr): set<Symbol> {
    match e
    case Sym(_) => {}
    case Cmp(_, a, b) => if IsEqOrNe(e) && a.Is(Tristated) && b.IsConst() then {b} else {}
    case Not(x) => TriConsts(x)
    case Bin(_, l, r) => TriConsts(l) + TriConsts(r)
  }

  /** Distinct constants of `cs` never equal the same tristate value. */
  ghost predicate Separated(cs: set<Symbol>) {
    && YMN <= cs
    && (forall c :: c in cs ==> c.IsConst())
    && (forall b, c :: b in cs && c in cs && b != c ==> !Collide(b, c))
  }

  /** y, m and n alone are separated, so the plain kconfig language is in the domain. */
  lemma YmnSeparated()
    ensures Separated(YMN)
  {
    forall b, c | b in YMN && c in YMN && b != c ensures !Collide(b, c) {
      forall t: Tristate | 0 <= t <= 2 ensures !(CompareConst(t, b) == 0 && CompareConst(t, c) == 0) {
        YmnCompare(t);
      }
    }
  }

  lemma {:induction false} TransformConsts(e: Expr)
    ensures TriConsts(Transform(e)) <= TriConsts(e)
    decreases Weight(e)
  {
    match e
    case Bin(_, l, r) =>
      TransformConsts(l);
      TransformConsts(r);
    case Not(x) =>
      TransformConsts(x);
      match Transform(x) {
        case Not(y) => TransformConsts(y);
        case Bin(op, l, r) =>
          WeightDeMorgan(op, l, r);
          TransformConsts(Bin(Flip(op), Not(l), Not(r)));
          assert TriConsts(Not(l)) == TriConsts(l) && TriConsts(Not(r)) == TriConsts(r);
        case _ =>
      }
    case _ =>
  }

  // ----- correctness of the joins -----

  lemma JoinOrCorrect(x: Expr, y: Expr, env: Env)
    requires Valid(env) && JoinOr(x, y).Some?
    ensures Eval(JoinOr(x, y).value, env) == Max(Eval(x, env), Eval(y, env))
  {
    if ExprEq(x, y) {
      ExprEqSound(x, y, env);
    } else {
      YmnCompare(env.tri(CommonSymbol(x, y).value));
    }
  }

  /** The environment in which the tristate symbol s has value t and the others are n. */
  function EnvWith(s: Symbol, t: Tristate): Env {
    var tri := (x: Symbol) => if x == SymYes then YES else if x == SymMod then MOD else if x == s then t else NO;
    Env(tri, (a: Symbol, c: Symbol) => if c.IsConst() then CompareConst(tri(a), c) else 0)
  }

  ghost predicate JoinsRight(s: Symbol, b: Symbol, c: Symbol, env: Env) {
    Eval(JoinEqualUnequal(s, b, c), env) == Min(Eval(Cmp(Equal, s, b), env), Eval(Cmp(Unequal, s, c), env))
  }

  lemma JoinRightApart(s: Symbol, b: Symbol, c: Symbol, env: Env)
    requires s.Is(Tristated) && b.IsConst() && c.IsConst() && Valid(env) && (b == c || !Collide(b, c))
    ensures JoinsRight(s, b, c, env)
  {
    hide CompareConst;
    var t := env.tri(s);
    assert env.cmp(s, b) == CompareConst(t, b) && env.cmp(s, c) == CompareConst(t, c);
  }

  lemma EnvWithValid(s: Symbol, t: Tristate)
    requires s.Is(Tristated)
    ensures Valid(EnvWith(s, t)) && forall c: Symbol :: c.IsConst() ==> EnvWith(s, t).cmp(s, c) == CompareConst(t, c)
  {
    hide CompareConst;
  }

  /** The join of a='b' && a!='c' has the right value in every environment exactly when no
      tristate value equals two different constants b and c. */
  lemma JoinEqualUnequalExact(s: Symbol, b: Symbol, c: Symbol)
    requires s.Is(Tristated) && b.IsConst() && c.IsConst()
    ensures (forall env :: Valid(env) ==> JoinsRight(s, b, c, env)) <==> (b == c || !Collide(b, c))
  {
    hide CompareConst, Valid, JoinsRight;
    if b != c && Collide(b, c) {
      var t: Tristate :| 0 <= t <= 2 && CompareConst(t, b) == 0 && CompareConst(t, c) == 0;
      var env := EnvWith(s, t);
      EnvWithValid(s, t);
      assert !JoinsRight(s, b, c, env) by { JoinWrong(s, b, c, env); }
    } else {
      forall env | Valid(env) ensures JoinsRight(s, b, c, env) { JoinRightApart(s, b, c, env); }
    }
  }

  lemma JoinWrong(s: Symbol, b: Symbol, c: Symbol, env: Env)
    requires b != c && env.cmp(s, b) == 0 && env.cmp(s, c) == 0
    ensures !JoinsRight(s, b, c, env)
  {
  }

  /** a='m' && a!='1' is n when a is m, because '1' compares as a number, but is joined to a='m'. */
  lemma JoinCollision(s: Symbol)
    requires s.Is(Tristated)
    ensures var one := Const("1", Some(1));
      && JoinAnd(Cmp(Equal, s, SymMod), Cmp(Unequal, s, one)) == Some(Cmp(Equal, s, SymMod))
      && Valid(EnvWith(s, MOD)) && !JoinsRight(s, SymMod, one, EnvWith(s, MOD))
  {
    YmnCompare(MOD);
    var env := EnvWith(s, MOD);
    assert Valid(env) && env.cmp(s, SymMod) == 0 && env.cmp(s, Const("1", Some(1))) == 0;
  }

  /** The joins of a symbol with a comparison of it, and of two comparisons with y, m or n. */
  lemma JoinAndYmn(x: Expr, y: Expr, s: Symbol, env: Env)
    requires Valid(env) && CommonSymbol(x, y) == Some(s)
    ensures SymAnd(x, y, Equal, SymYes) ==> Eval(Cmp(Equal, s, SymYes), env) == Min(Eval(x, env), Eval(y, env))
    ensures SymAnd(x, y, Unequal, SymNo) ==> Eval(Sym(s), env) == Min(Eval(x, env), Eval(y, env))
    ensures SymAnd(x, y, Unequal, SymMod) ==> Eval(Cmp(Equal, s, SymYes), env) == Min(Eval(x, env), Eval(y, env))
    ensures Both(x, y, Unequal, SymYes, SymNo) ==> Eval(Cmp(Equal, s, SymMod), env) == Min(Eval(x, env), Eval(y, env))
    ensures Both(x, y, Unequal, SymYes, SymMod) ==> Eval(Cmp(Equal, s, SymNo), env) == Min(Eval(x, env), Eval(y, env))
    ensures Both(x, y, Unequal, SymMod, SymNo) ==> Eval(Cmp(Equal, s, SymYes), env) == Min(Eval(x, env), Eval(y, env))
  {
    hide CompareConst;
    YmnCompare(env.tri(s));
  }

  /** The joins of an = with a != comparison. */
  lemma JoinAndConsts(s: Symbol, b: Symbol, c: Symbol, cs: set<Symbol>, env: Env)
    requires Valid(env) && Separated(cs) && s.Is(Tristated) && b in cs && c in cs
    ensures Eval(JoinEqualUnequal(s, b, c), env) == Min(Eval(Cmp(Equal, s, b), env), Eval(Cmp(Unequal, s, c), env))
  {
    hide Collide, CompareConst;
    JoinEqualUnequalExact(s, b, c);
    assert JoinsRight(s, b, c, env);
  }

  lemma JoinAndCorrect(x: Expr, y: Expr, cs: set<Symbol>, env: Env)
    requires Valid(env) && JoinAnd(x, y).Some?
    requires Separated(cs) && TriConsts(x) <= cs && TriConsts(y) <= cs
    ensures Eval(JoinAnd(x, y).value, env) == Min(Eval(x, env), Eval(y, env))
  {
    hide ExprEq, Separated, Valid;
    if ExprEq(x, y) {
      ExprEqSound(x, y, env);
    } else {
      var s := CommonSymbol(x, y).value;
      JoinAndYmn(x, y, s, env);
      if s.Is(Tristated) && x.Cmp? && y.Cmp? && x.b.IsConst() && y.b.IsConst() {
        JoinAndConsts(s, x.b, y.b, cs, env);
        JoinAndConsts(s, y.b, x.b, cs, env);
      }
    }
  }

  /** A join is one of its operands, or a symbol or comparison of their common symbol. */
  lemma JoinCases(op: Junct, x: Expr, y: Expr)
    requires Join(op, x, y).Some?
    ensures var j := Join(op, x, y).value;
      j == x || j.Sym? || (j.Cmp? && (j.b in YMN || (x.Cmp? && j.b == x.b && j.a == x.a && IsEqOrNe(x))
                                                 || (y.Cmp? && j.b == y.b && j.a == y.a && IsEqOrNe(y))))
  {
    if ExprEq(x, y) {
    } else if op.OrOp? {
    } else {
    }
  }

  /** What every join result keeps: size, normal form, constants, and that it is no || or &&
      of the level it is put into. */
  lemma JoinShape(op: Junct, x: Expr, y: Expr)
    requires Join(op, x, y).Some?
    ensures var j := Join(op, x, y).value;
      && Size(j) <= Size(x)
      && (j.Bin? ==> j == x)
      && (NormalForm(x) ==> NormalForm(j))
      && TriConsts(j) <= TriConsts(x) + TriConsts(y) + YMN
  {
    JoinCases(op, x, y);
    var j := Join(op, x, y).value;
    JoinShapeCases(j, x, y);
  }

  lemma JoinShapeCases(j: Expr, x: Expr, y: Expr)
    requires j == x || j.Sym? || (j.Cmp? && (j.b in YMN || (x.Cmp? && j.b == x.b && j.a == x.a && IsEqOrNe(x))
                                                 || (y.Cmp? && j.b == y.b && j.a == y.a && IsEqOrNe(y))))
    ensures
      && Size(j) <= Size(x)
      && (j.Bin? ==> j == x)
      && (NormalForm(x) ==> NormalForm(j))
      && TriConsts(j) <= TriConsts(x) + TriConsts(y) + YMN
  {
  }

  lemma JoinCorrect(op: Junct, x: Expr, y: Expr, cs: set<Symbol>, env: Env)
    requires Valid(env) && Join(op, x, y).Some?
    requires Separated(cs) && TriConsts(x) <= cs && TriConsts(y) <= cs
    ensures Eval(Join(op, x, y).value, env) == Apply(op, Eval(x, env), Eval(y, env))
  {
    if op.OrOp? { JoinOrCorrect(x, y, env); } else { JoinAndCorrect(x, y, cs, env); }
  }

  // ----- completeness of the joins -----

  /** The symbol s or a test of it with y, m or n. */
  predicate IsTest(e: Expr, s: Symbol) { e == Sym(s) || (IsEqOrNe(e) && e.a == s && e.b.IsYmn()) }

  /** z can stand for the two operands of an || or &&. */
  ghost predicate SameAs(op: Junct, x: Expr, y: Expr, z: Expr) {
    forall env :: Valid(env) ==> Eval(z, env) == Apply(op, Eval(x, env), Eval(y, env))
  }

  /** The value of a test when the symbol has value t. */
  function TestValue(e: Expr, t: Tristate): Tristate {
    match e
    case Cmp(rel, _, SymYes) => if (t == YES) == rel.Equal? then YES else NO
    case Cmp(rel, _, SymMod) => if (t == MOD) == rel.Equal? then YES else NO
    case Cmp(rel, _, SymNo) => if (t == NO) == rel.Equal? then YES else NO
    case _ => t
  }

  lemma EvalTest(e: Expr, s: Symbol, t: Tristate)
    requires s.Is(Tristated) && IsTest(e, s)
    ensures Eval(e, EnvWith(s, t)) == TestValue(e, t)
  {
    hide CompareConst, Valid;
    EnvWithValid(s, t);
    YmnCompare(t);
  }

  /** A test that can stand for two operands has their values at n, m and y. */
  lemma SameAsValues(op: Junct, x: Expr, y: Expr, z: Expr, s: Symbol, t: Tristate)
    requires s.Is(Tristated) && IsTest(x, s) && IsTest(y, s) && IsTest(z, s) && SameAs(op, x, y, z)
    ensures TestValue(z, t) == Apply(op, TestValue(x, t), TestValue(y, t))
  {
    hide Eval, Valid, IsTest;
    EnvWithValid(s, t);
    EvalTest(x, s, t);
    EvalTest(y, s, t);
    EvalTest(z, s, t);
  }

  lemma TestNotEq(x: Expr, y: Expr, s: Symbol)
    requires IsTest(x, s) && IsTest(y, s)
    ensures ExprEq(x, y) <==> x == y
  {
  }

  /** On an && level nothing is left to join: two tests of a tristate symbol that a single test can
      stand for are joined. */
  lemma JoinAndComplete(x: Expr, y: Expr, z: Expr, s: Symbol)
    requires s.Is(Tristated) && IsTest(x, s) && IsTest(y, s) && IsTest(z, s) && SameAs(AndOp, x, y, z)
    ensures JoinAnd(x, y).Some?
  {
    hide ExprEq, SameAs;
    TestNotEq(x, y, s);
    SameAsValues(AndOp, x, y, z, s, NO);
    SameAsValues(AndOp, x, y, z, s, MOD);
    SameAsValues(AndOp, x, y, z, s, YES);
  }

  /** On an || level two tests of a tristate symbol are joined exactly if they are the same or both test
      for equality; `A || A!=n`, which is A!=n, is left. */
  lemma JoinOrExact(x: Expr, y: Expr, s: Symbol)
    requires s.Is(Tristated) && IsTest(x, s) && IsTest(y, s)
    ensures JoinOr(x, y).Some? <==> x == y || (x.Cmp? && y.Cmp? && x.rel == Equal == y.rel)
  {
    hide ExprEq;
    TestNotEq(x, y, s);
  }

  lemma OrAbsorbs(s: Symbol)
    requires s.Is(Tristated)
    ensures var x, y := Sym(s), Cmp(Unequal, s, SymNo); SameAs(OrOp, x, y, y) && JoinOr(x, y) == None
  {
    var x, y := Sym(s), Cmp(Unequal, s, SymNo);
    JoinOrExact(x, y, s);
    forall env | Valid(env) ensures Eval(y, env) == Max(Eval(x, env), Eval(y, env)) { YmnCompare(env.tri(s)); }
  }

  /** A bool symbol and its negation: `A || !A` is joined to y, and equal operands always. */
  lemma JoinBoolComplete(op: Junct, x: Expr, y: Expr, s: Symbol)
    requires s.Is(Boolean) && (x == Sym(s) || x == Not(Sym(s))) && (y == Sym(s) || y == Not(Sym(s)))
    ensures Join(op, x, y).Some? <==> x == y || op == OrOp
  {
    ExprEqReflexive(x);
  }

  /** `s='b'` and `s!='c'` for a tristate symbol and two constants. */
  predicate EqualUnequal(x: Expr, y: Expr) {
    && x.Cmp? && y.Cmp? && x.rel == Equal && y.rel == Unequal
    && x.a == y.a && x.a.Is(Tristated) && x.b.IsConst() && y.b.IsConst()
  }

  lemma EqualUnequalJoined(x: Expr, y: Expr)
    requires EqualUnequal(x, y) || EqualUnequal(y, x)
    ensures JoinAnd(x, y).Some?
  {
    hide ExprEq;
  }

  /** Equal operands are always joined. */
  lemma EqualJoined(op: Junct, x: Expr, y: Expr)
    requires ExprEq(x, y)
    ensures Join(op, x, y) == Some(x)
  {
    hide ExprEq;
  }
}

/**
Dependency expressions of the kconfig tool: the three-valued logic, the evaluator and the
rewrites that do not alias their arguments.  A tristate is the C enum value: n = 0, m = 1,
y = 2.  A missing (NULL) expression is `None` and means y.
*/
module KconfigExpr {
  import opened Wrappers
  type Tristate = t: int | 0 <= t <= 2

  const NO: Tristate := 0
  const MOD: Tristate := 1
  const YES: Tristate := 2

  function Min(a: Tristate, b: Tristate): Tristate { if a < b then a else b }
  function Max(a: Tristate, b: Tristate): Tristate { if a > b then a else b }

  // ----- symbols, expressions and environments -----

  datatype SymbolType = Unknown | Boolean | Tristated | Int | Hex | Str

  /** `Const` is a quoted constant other than y, m and n, `Config` a symbol; `num` is what strtoll
      makes of the name. */
  datatype Symbol =
    | SymYes | SymMod | SymNo
    | Const(name: string, num: Option<int>)
    | Config(name: string, num: Option<int>, kind: SymbolType)
  {
    predicate IsConst() { !Config? }
    predicate Is(k: SymbolType) { Config? && kind == k }
    predicate IsYmn() { SymYes? || SymMod? || SymNo? }
  }

  datatype Junct = OrOp | AndOp
  datatype Relation = Equal | Unequal | Lth | Leq | Gth | Geq

  datatype Expr =
    | Sym(s: Symbol)
    | Not(e: Expr)
    | Bin(op: Junct, l: Expr, r: Expr)
    | Cmp(rel: Relation, a: Symbol, b: Symbol)

  function Size(e: Expr): (n: nat)
    ensures n >= 1
  {
    match e
    case Sym(_) => 1
    case Cmp(_, _, _) => 1
    case Not(x) => 1 + Size(x)
    case Bin(_, l, r) => 1 + Size(l) + Size(r)
  }

  function Apply(op: Junct, a: Tristate, b: Tristate): Tristate {
    match op
    case OrOp => Max(a, b)
    case AndOp => Min(a, b)
  }

  function Neutral(op: Junct): Symbol {
    match op
    case OrOp => SymNo
    case AndOp => SymYes
  }

  predicate Holds(rel: Relation, res: int) {
    match rel
    case Equal => res == 0
    case Unequal => res != 0
    case Lth => res < 0
    case Leq => res <= 0
    case Gth => res > 0
    case Geq => res >= 0
  }

  /** `cmp` is the three-way result of comparing the string values of two symbols. */
  datatype Env = Env(tri: Symbol -> Tristate, cmp: (Symbol, Symbol) -> int)

  function Eval(e: Expr, env: Env): Tristate {
    match e
    case Sym(s) => env.tri(s)
    case Not(x) => 2 - Eval(x, env)
    case Bin(op, l, r) => Apply(op, Eval(l, env), Eval(r, env))
    case Cmp(rel, a, b) => if Holds(rel, env.cmp(a, b)) then YES else NO
  }

  function EvalOpt(e: Option<Expr>, env: Env): Tristate {
    if e.None? then YES else Eval(e.value, env)
  }

  function Text(t: Tristate): string { if t == NO then "n" else if t == MOD then "m" else "y" }

  function StrCmp(s: string, t: string): int {
    if s == t then 0
    else if s == [] then -1
    else if t == [] then 1
    else if s[0] != t[0] then s[0] as int - t[0] as int
    else StrCmp(s[1..], t[1..])
  }

  /** Comparing a bool or tristate symbol of value t with a constant: numbers compare as
      numbers, everything else as text. */
  function CompareConst(t: Tristate, c: Symbol): int
    requires c.IsConst()
  {
    match c
    case SymYes => StrCmp(Text(t), "y")
    case SymMod => StrCmp(Text(t), "m")
    case SymNo => StrCmp(Text(t), "n")
    case Const(name, None) => StrCmp(Text(t), name)
    case Const(_, Some(k)) => t - k
  }

  /** The environments the evaluator produces: y, m and n mean themselves, a bool symbol is
      never m, and comparisons with constants are decided by the symbol's value. */
  ghost predicate Valid(env: Env) {
    && env.tri(SymYes) == YES && env.tri(SymMod) == MOD && env.tri(SymNo) == NO
    && (forall s: Symbol :: s.Is(Boolean) ==> env.tri(s) != MOD)
    && (forall s: Symbol, c: Symbol :: (s.Is(Boolean) || s.Is(Tristated) || (s.IsYmn() && c.IsYmn())) && c.IsConst() ==>
          env.cmp(s, c) == CompareConst(env.tri(s), c))
  }

  /** Two expressions with the same value in every environment. */
  ghost predicate Equivalent(x: Expr, y: Expr) {
    forall env: Env :: Valid(env) ==> Eval(x, env) == Eval(y, env)
  }

  lemma StrCmpZero(s: string, t: string)
    ensures StrCmp(s, t) == 0 <==> s == t
  {
    if s != t && s != [] && t != [] && s[0] == t[0] {
      assert s == [s[0]] + s[1..] && t == [t[0]] + t[1..];
      StrCmpZero(s[1..], t[1..]);
    }
  }

  lemma YmnCompare(t: Tristate)
    ensures CompareConst(t, SymYes) == 0 <==> t == YES
    ensures CompareConst(t, SymMod) == 0 <==> t == MOD
    ensures CompareConst(t, SymNo) == 0 <==> t == NO
  {
    StrCmpZero(Text(t), "y");
    StrCmpZero(Text(t), "m");
    StrCmpZero(Text(t), "n");
  }

  // ----- expr_eliminate_yn -----

  predicate IsYn(e: Expr) { e == Sym(SymYes) || e == Sym(SymNo) }

  function FoldYn(op: Junct, l: Expr, r: Expr): Expr {
    var zero := if op.OrOp? then Sym(SymYes) else Sym(SymNo);
    var one := Sym(Neutral(op));
    if l == zero then zero
    else if l == one then r
    else if r == zero then zero
    else if r == one then l
    else Bin(op, l, r)
  }

  function EliminateYn(e: Expr): Expr {
    match e
    case Bin(op, l, r) => FoldYn(op, EliminateYn(l), EliminateYn(r))
    case _ => e
  }

  /** Some && or || operand that is reachable without crossing a ! is the constant y or n. */
  predicate HasYn(e: Expr) {
    e.Bin? && (IsYn(e.l) || IsYn(e.r) || HasYn(e.l) || HasYn(e.r))
  }

  lemma {:induction false} EliminateYnCorrect(e: Expr, env: Env)
    requires Valid(env)
    ensures Eval(EliminateYn(e), env) == Eval(e, env)
  {
    if e.Bin? {
      EliminateYnCorrect(e.l, env);
      EliminateYnCorrect(e.r, env);
    }
  }

  /** No && or || with a constant y or n operand is left, and the tree shrinks exactly when
      there was one. */
  lemma {:induction false} EliminateYnComplete(e: Expr)
    ensures !HasYn(EliminateYn(e))
    ensures Size(EliminateYn(e)) <= Size(e)
    ensures HasYn(e) <==> Size(EliminateYn(e)) < Size(e)
    ensures !HasYn(e) ==> EliminateYn(e) == e
  {
    if e.Bin? {
      EliminateYnComplete(e.l);
      EliminateYnComplete(e.r);
    }
  }

  // ----- expr_eq, expr_eliminate_eq -----

  predicate IsJunct(e: Expr, op: Junct) { e.Bin? && e.op == op }

  /** expr_eq on two expressions; E_NOT, && and || recurse. */
  predicate ExprEq(x: Expr, y: Expr)
    decreases Size(x) + Size(y), 2
  {
    match (x, y)
    case (Sym(s), Sym(t)) => s == t
    case (Cmp(rel, a, b), Cmp(rel', a', b')) => rel == rel' && a == a' && b == b'
    case (Not(u), Not(v)) => ExprEq(u, v)
    case (Bin(op, _, _), Bin(op', _, _)) =>
      op == op' &&
      var (u, v) := EliminateEq(x, y);
      u.Sym? && v.Sym? && u.s == v.s
    case _ => false
  }

  /** __expr_eliminate_eq: equal leaves of the two `op` levels become the neutral constant. */
  function EliminateLeaves(op: Junct, x: Expr, y: Expr): (r: (Expr, Expr))
    ensures Size(r.0) <= Size(x) && Size(r.1) <= Size(y)
    ensures IsJunct(x, op) ==> IsJunct(r.0, op)
    ensures IsJunct(y, op) ==> IsJunct(r.1, op)
    decreases Size(x) + Size(y), if IsJunct(x, op) || IsJunct(y, op) then 0 else 3
  {
    if IsJunct(x, op) then
      var (l, y1) := EliminateLeaves(op, x.l, y);
      var (r, y2) := EliminateLeaves(op, x.r, y1);
      (Bin(op, l, r), y2)
    else if IsJunct(y, op) then
      var (x1, l) := EliminateLeaves(op, x, y.l);
      var (x2, r) := EliminateLeaves(op, x1, y.r);
      (x2, Bin(op, l, r))
    else if x == y && IsYn(x) then (x, y)
    else if !ExprEq(x, y) then (x, y)
    else (Sym(Neutral(op)), Sym(Neutral(op)))
  }

  /** expr_eliminate_eq on two present expressions. */
  function EliminateEq(x: Expr, y: Expr): (r: (Expr, Expr))
    decreases Size(x) + Size(y), 1
  {
    var (x1, y1) := if x.Bin? then EliminateLeaves(x.op, x, y) else (x, y);
    var (x2, y2) :=
      if y1.Bin? && !IsJunct(x1, y1.op) then EliminateLeaves(y1.op, x1, y1) else (x1, y1);
    (EliminateYn(x2), EliminateYn(y2))
  }

  predicate IsYes(e: Option<Expr>) { e.None? || e.value == Sym(SymYes) }

  /** expr_eq with NULL taken as y. */
  predicate ExprEqOpt(x: Option<Expr>, y: Option<Expr>) {
    if x.None? || y.None? then IsYes(x) && IsYes(y) else ExprEq(x.value, y.value)
  }

  lemma ApplyRegroup(op: Junct, a: Tristate, b: Tristate, c: Tristate, d: Tristate)
    ensures Apply(op, Apply(op, a, c), Apply(op, b, d)) == Apply(op, Apply(op, a, b), Apply(op, c, d))
    ensures Apply(op, Apply(op, a, d), c) == Apply(op, a, Apply(op, c, d))
  {
  }

  /** What `op`-elimination takes from both sides together: one value c with
      x = x' op c and y = y' op c. */
  lemma {:induction false} EliminateLeavesCommon(op: Junct, x: Expr, y: Expr, env: Env) returns (c: Tristate)
    requires Valid(env)
    ensures var (x', y') := EliminateLeaves(op, x, y);
      && Eval(x, env) == Apply(op, Eval(x', env), c)
      && Eval(y, env) == Apply(op, Eval(y', env), c)
    decreases Size(x) + Size(y), if IsJunct(x, op) || IsJunct(y, op) then 0 else 3
  {
    var unit := env.tri(Neutral(op));
    if IsJunct(x, op) {
      var (l, y1) := EliminateLeaves(op, x.l, y);
      var (r, y2) := EliminateLeaves(op, x.r, y1);
      var c1 := EliminateLeavesCommon(op, x.l, y, env);
      var c2 := EliminateLeavesCommon(op, x.r, y1, env);
      c := Apply(op, c1, c2);
      ApplyRegroup(op, Eval(l, env), Eval(r, env), c1, c2);
      ApplyRegroup(op, Eval(y2, env), NO, c1, c2);
    } else if IsJunct(y, op) {
      var (x1, l) := EliminateLeaves(op, x, y.l);
      var (x2, r) := EliminateLeaves(op, x1, y.r);
      var c1 := EliminateLeavesCommon(op, x, y.l, env);
      var c2 := EliminateLeavesCommon(op, x1, y.r, env);
      c := Apply(op, c1, c2);
      ApplyRegroup(op, Eval(l, env), Eval(r, env), c1, c2);
      ApplyRegroup(op, Eval(x2, env), NO, c1, c2);
    } else if (x == y && IsYn(x)) || !ExprEq(x, y) {
      c := unit;
    } else {
      ExprEqSound(x, y, env);
      c := Eval(x, env);
    }
  }

  /** expr_eq is sound: what it calls equal has the same value everywhere. */
  lemma {:induction false} ExprEqSound(x: Expr, y: Expr, env: Env)
    requires Valid(env) && ExprEq(x, y)
    ensures Eval(x, env) == Eval(y, env)
    decreases Size(x) + Size(y), 2
  {
    match (x, y)
    case (Not(u), Not(v)) => ExprEqSound(u, v, env);
    case (Bin(op, _, _), Bin(_, _, _)) =>
      var (x1, y1) := EliminateLeaves(op, x, y);
      var c := EliminateLeavesCommon(op, x, y, env);
      EliminateYnCorrect(x1, env);
      EliminateYnCorrect(y1, env);
    case _ =>
  }

  /** The same with missing expressions, which mean y. */
  lemma ExprEqOptSound(x: Option<Expr>, y: Option<Expr>, env: Env)
    requires Valid(env) && ExprEqOpt(x, y)
    ensures EvalOpt(x, env) == EvalOpt(y, env)
  {
    if x.Some? && y.Some? { ExprEqSound(x.value, y.value, env); }
  }

  // ----- expr_eq is reflexive -----

  /** Every leaf of the `op` level is the constant y or n: nothing is left to match. */
  predicate Inert(op: Junct, e: Expr) {
    if IsJunct(e, op) then Inert(op, e.l) && Inert(op, e.r) else IsYn(e)
  }

  function Wiped(op: Junct, e: Expr): (w: Expr)
    ensures Inert(op, w)
  {
    if IsJunct(e, op) then Bin(op, Wiped(op, e.l), Wiped(op, e.r))
    else if IsYn(e) then e
    else Sym(Neutral(op))
  }

  lemma {:induction false} InertFolds(op: Junct, e: Expr)
    requires Inert(op, e)
    ensures IsYn(EliminateYn(e))
  {
    if IsJunct(e, op) {
      InertFolds(op, e.l);
      InertFolds(op, e.r);
    }
  }

  lemma {:induction false} InertUnmatched(op: Junct, x: Expr, y: Expr)
    requires Inert(op, x) || Inert(op, y)
    ensures EliminateLeaves(op, x, y) == (x, y)
    decreases Size(x) + Size(y)
  {
    if IsJunct(x, op) {
      InertUnmatched(op, x.l, y);
      InertUnmatched(op, x.r, y);
    } else if IsJunct(y, op) {
      InertUnmatched(op, x, y.l);
      InertUnmatched(op, x, y.r);
    }
  }

  /** If every leaf of x finds its partner in y, the operand z beside y is not touched. */
  lemma {:induction false} MatchedOnLeft(op: Junct, x: Expr, y: Expr, z: Expr)
    requires Inert(op, EliminateLeaves(op, x, y).0)
    ensures EliminateLeaves(op, x, Bin(op, y, z)) ==
      (EliminateLeaves(op, x, y).0, Bin(op, EliminateLeaves(op, x, y).1, z))
    decreases x
  {
    var (x1, y1) := EliminateLeaves(op, x, y);
    if IsJunct(x, op) {
      MatchedOnLeft(op, x.l, y, z);
      MatchedOnLeft(op, x.r, EliminateLeaves(op, x.l, y).1, z);
    } else {
      InertUnmatched(op, x1, z);
    }
  }

  lemma {:induction false} MatchedOnRight(op: Junct, x: Expr, y: Expr, z: Expr)
    requires Inert(op, y)
    ensures EliminateLeaves(op, x, Bin(op, y, z)) ==
      (EliminateLeaves(op, x, z).0, Bin(op, y, EliminateLeaves(op, x, z).1))
    decreases x
  {
    if IsJunct(x, op) {
      MatchedOnRight(op, x.l, y, z);
      MatchedOnRight(op, x.r, y, EliminateLeaves(op, x.l, z).1);
    } else {
      InertUnmatched(op, x, y);
    }
  }

  lemma {:induction false} EliminateLeavesSelf(op: Junct, x: Expr)
    ensures EliminateLeaves(op, x, x) == (Wiped(op, x), Wiped(op, x))
    decreases x, if IsJunct(x, op) then 0 else 2
  {
    if IsJunct(x, op) {
      EliminateLeavesSelf(op, x.l);
      EliminateLeavesSelf(op, x.r);
      MatchedOnLeft(op, x.l, x.l, x.r);
      MatchedOnRight(op, x.r, Wiped(op, x.l), x.r);
    } else {
      ExprEqReflexive(x);
    }
  }

  /** Every expression equals itself: no operand of an && or || level misses its partner. */
  lemma {:induction false} ExprEqReflexive(x: Expr)
    ensures ExprEq(x, x)
    decreases x, 1
  {
    match x
    case Not(u) => ExprEqReflexive(u);
    case Bin(op, _, _) =>
      EliminateLeavesSelf(op, x);
      InertFolds(op, Wiped(op, x));
    case _ =>
  }

  // ----- the submenu test -----

  lemma EliminateLeavesBelow(op: Junct, x: Expr, y: Expr, env: Env)
    requires Valid(env)
    requires var (x', y') := EliminateLeaves(op, x, y); Eval(x', env) <= Eval(y', env)
    ensures Eval(x, env) <= Eval(y, env)
  {
    var c := EliminateLeavesCommon(op, x, y, env);
  }

  /** The submenu test of menu_finalize: when eliminating the common operands reduces `base`
      to y, `dep` is at most `base` in every environment. */
  lemma EliminateEqSuperset(dep: Expr, base: Expr, env: Env)
    requires Valid(env)
    requires EliminateEq(dep, base).1 == Sym(SymYes)
    ensures Eval(dep, env) <= Eval(base, env)
  {
    var (x1, y1) := if dep.Bin? then EliminateLeaves(dep.op, dep, base) else (dep, base);
    var (x2, y2) :=
      if y1.Bin? && !IsJunct(x1, y1.op) then EliminateLeaves(y1.op, x1, y1) else (x1, y1);
    EliminateYnCorrect(y2, env);
    if y1.Bin? && !IsJunct(x1, y1.op) {
      EliminateLeavesBelow(y1.op, x1, y1, env);
    }
    if dep.Bin? {
      EliminateLeavesBelow(dep.op, dep, base, env);
    }
  }
}

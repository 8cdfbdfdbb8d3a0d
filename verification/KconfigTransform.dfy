/**
The structural rewrites of expr.c and menu.c that build a dependency expression: De Morgan
normalisation, the bool projection, the explicit comparison with n, and 'm' -> 'm' && MODULES.
*/
module KconfigTransform {
  import opened Wrappers
  import opened KconfigExpr

  /** expr_transform re-transforms the result of every De Morgan step; this weight pays for it. */
  function Weight(e: Expr): (w: nat)
    ensures w >= 1
  {
    match e
    case Sym(_) => 1
    case Cmp(_, _, _) => 2
    case Not(x) => 2 * Weight(x)
    case Bin(_, l, r) => 1 + Weight(l) + Weight(r)
  }

  function Flip(op: Junct): Junct { if op.OrOp? then AndOp else OrOp }

  lemma WeightDeMorgan(op: Junct, l: Expr, r: Expr)
    ensures Weight(Bin(Flip(op), Not(l), Not(r))) < Weight(Not(Bin(op, l, r)))
  {
    assert Weight(Not(l)) == 2 * Weight(l) && Weight(Not(r)) == 2 * Weight(r);
  }

  function Negate(rel: Relation): Relation {
    match rel
    case Equal => Unequal
    case Unequal => Equal
    case Leq => Gth
    case Geq => Lth
    case Lth => Geq
    case Gth => Leq
  }

  /** A comparison of a bool symbol with y, m or n becomes the symbol, its negation or a constant. */
  function TransformCmp(rel: Relation, a: Symbol, b: Symbol): Expr {
    if !a.Is(Boolean) then Cmp(rel, a, b)
    else match (rel, b)
      case (Equal, SymNo) => Not(Sym(a))
      case (Equal, SymMod) => Sym(SymNo)
      case (Equal, SymYes) => Sym(a)
      case (Unequal, SymNo) => Sym(a)
      case (Unequal, SymMod) => Sym(SymYes)
      case (Unequal, SymYes) => Not(Sym(a))
      case _ => Cmp(rel, a, b)
  }

  function Transform(e: Expr): (t: Expr)
    ensures Weight(t) <= Weight(e)
    decreases Weight(e)
  {
    match e
    case Sym(_) => e
    case Cmp(rel, a, b) => TransformCmp(rel, a, b)
    case Bin(op, l, r) => Bin(op, Transform(l), Transform(r))
    case Not(x) =>
      match Transform(x)
      case Not(y) => Transform(y)
      case Cmp(rel, a, b) => Cmp(Negate(rel), a, b)
      case Bin(op, l, r) =>
        WeightDeMorgan(op, l, r);
        Transform(Bin(Flip(op), Not(l), Not(r)))
      case Sym(SymYes) => Sym(SymNo)
      case Sym(SymMod) => Sym(SymMod)
      case Sym(SymNo) => Sym(SymYes)
      case t => Not(t)
  }

  /** Negation stands only directly above a symbol that is not y, m or n. */
  predicate NormalForm(e: Expr) {
    match e
    case Sym(_) => true
    case Cmp(_, _, _) => true
    case Not(x) => x.Sym? && !x.s.IsYmn()
    case Bin(_, l, r) => NormalForm(l) && NormalForm(r)
  }

  /** No bool symbol is tested for equality with y, m or n. */
  predicate BoolFree(e: Expr) {
    match e
    case Sym(_) => true
    case Cmp(rel, a, b) => TransformCmp(rel, a, b) == e
    case Not(x) => BoolFree(x)
    case Bin(_, l, r) => BoolFree(l) && BoolFree(r)
  }

  lemma {:induction false} TransformCorrect(e: Expr, env: Env)
    requires Valid(env)
    ensures Eval(Transform(e), env) == Eval(e, env)
    decreases Weight(e)
  {
    match e
    case Sym(_) =>
    case Cmp(_, a, b) =>
      YmnCompare(env.tri(a));
    case Bin(_, l, r) =>
      TransformCorrect(l, env);
      TransformCorrect(r, env);
    case Not(x) =>
      TransformCorrect(x, env);
      match Transform(x)
      case Not(y) => TransformCorrect(y, env);
      case Bin(op, l, r) =>
        WeightDeMorgan(op, l, r);
        TransformCorrect(Bin(Flip(op), Not(l), Not(r)), env);
      case _ =>
  }

  lemma {:induction false} TransformNormal(e: Expr)
    ensures NormalForm(Transform(e)) && BoolFree(Transform(e))
    decreases Weight(e)
  {
    match e
    case Sym(_) =>
    case Cmp(_, _, _) =>
    case Bin(_, l, r) =>
      TransformNormal(l);
      TransformNormal(r);
    case Not(x) =>
      TransformNormal(x);
      match Transform(x)
      case Not(y) => TransformNormal(y);
      case Bin(op, l, r) =>
        WeightDeMorgan(op, l, r);
        TransformNormal(Bin(Flip(op), Not(l), Not(r)));
      case _ =>
  }

  /** A normal form is left as it is, so expr_transform is idempotent. */
  lemma {:induction false} TransformFixes(e: Expr)
    requires NormalForm(e) && BoolFree(e)
    ensures Transform(e) == e
  {
    if e.Bin? {
      TransformFixes(e.l);
      TransformFixes(e.r);
    }
  }

  lemma TransformIdempotent(e: Expr)
    ensures Transform(Transform(e)) == Transform(e)
  {
    TransformNormal(e);
    TransformFixes(Transform(e));
  }

  // ----- expr_trans_bool -----

  function TransBool(e: Expr): Expr {
    match e
    case Bin(op, l, r) => Bin(op, TransBool(l), TransBool(r))
    case Not(x) => Not(TransBool(x))
    case Cmp(Unequal, a, SymNo) => if a.Is(Tristated) then Sym(a) else e
    case _ => e
  }

  /** On a normal form, FOO!=n -> FOO keeps whether the value differs from n. */
  lemma {:induction false} TransBoolKeepsNo(e: Expr, env: Env)
    requires Valid(env) && NormalForm(e)
    ensures Eval(TransBool(e), env) == NO <==> Eval(e, env) == NO
  {
    match e
    case Bin(_, l, r) =>
      TransBoolKeepsNo(l, env);
      TransBoolKeepsNo(r, env);
    case Cmp(_, a, _) => YmnCompare(env.tri(a));
    case _ =>
  }

  /** No tristate symbol is tested for being different from n. */
  predicate NotTested(e: Expr) {
    match e
    case Bin(_, l, r) => NotTested(l) && NotTested(r)
    case Not(x) => NotTested(x)
    case Cmp(rel, a, b) => !(rel == Unequal && b == SymNo && a.Is(Tristated))
    case Sym(_) => true
  }

  /** The rewrite leaves no FOO!=n, and does nothing where there is none. */
  lemma {:induction false} TransBoolComplete(e: Expr)
    ensures NotTested(TransBool(e))
    ensures NotTested(e) ==> TransBool(e) == e
  {
    match e
    case Bin(_, l, r) =>
      TransBoolComplete(l);
      TransBoolComplete(r);
    case Not(x) => TransBoolComplete(x);
    case _ =>
  }

  /** Below a negation the rewrite is wrong: !(A!=n) is n for A = m, but !A is m. */
  lemma TransBoolNeedsNormalForm(env: Env, a: Symbol)
    requires Valid(env) && a.Is(Tristated)
    ensures var e := Not(Cmp(Unequal, a, SymNo));
      (Eval(TransBool(e), env) == NO <==> Eval(e, env) == NO) <==> env.tri(a) != MOD
  {
    YmnCompare(env.tri(a));
  }

  // ----- rewrite_m -----

  function RewriteM(e: Expr, modules: Symbol): Expr {
    match e
    case Not(x) => Not(RewriteM(x, modules))
    case Bin(op, l, r) => Bin(op, RewriteM(l, modules), RewriteM(r, modules))
    case Sym(SymMod) => Bin(AndOp, e, Sym(modules))
    case _ => e
  }

  /** Evaluation in which the constant m stands for the smaller of m and the value of MODULES. */
  function EvalModules(e: Expr, env: Env, modules: Symbol): Tristate {
    match e
    case Sym(SymMod) => Min(MOD, env.tri(modules))
    case Sym(s) => env.tri(s)
    case Not(x) => 2 - EvalModules(x, env, modules)
    case Bin(op, l, r) => Apply(op, EvalModules(l, env, modules), EvalModules(r, env, modules))
    case Cmp(_, _, _) => Eval(e, env)
  }

  lemma {:induction false} RewriteMCorrect(e: Expr, env: Env, modules: Symbol)
    requires Valid(env)
    ensures Eval(RewriteM(e, modules), env) == EvalModules(e, env, modules)
  {
    match e
    case Not(x) => RewriteMCorrect(x, env, modules);
    case Bin(_, l, r) =>
      RewriteMCorrect(l, env, modules);
      RewriteMCorrect(r, env, modules);
    case _ =>
  }

  // ----- expr_trans_compare -----

  function NotIf(cond: bool, e: Expr): Expr { if cond then Not(e) else e }

  /** expr_trans_compare with E_EQUAL (`eq`) or E_UNEQUAL against y, m or n. */
  function TransCompare(e: Expr, eq: bool, c: Symbol): Expr
    requires c.IsYmn()
  {
    match e
    case Bin(op, l, r) =>
      var l' := TransCompare(l, true, c);
      var r' := TransCompare(r, true, c);
      NotIf(!eq, match c
        case SymYes => Bin(op, l', r')
        case SymNo => Bin(Flip(op), l', r')
        case _ => e)
    case Not(x) => TransCompare(x, !eq, c)
    case Cmp(_, _, _) =>
      (match c
       case SymYes => NotIf(!eq, e)
       case SymNo => NotIf(eq, e)
       case _ => Sym(if eq then SymNo else SymYes))
    case Sym(s) => Cmp(if eq then Equal else Unequal, s, c)
  }

  function TransCompareOpt(e: Option<Expr>, eq: bool, c: Symbol): Expr
    requires c.IsYmn()
  {
    if e.None? then NotIf(!eq, Sym(c)) else TransCompare(e.value, eq, c)
  }

  /** Every negation has an operand that is n or y, and only bool and tristate symbols and
      y, m and n occur outside comparisons. */
  predicate TwoValuedNots(e: Expr, env: Env) {
    match e
    case Not(x) => Eval(x, env) != MOD && TwoValuedNots(x, env)
    case Bin(_, l, r) => TwoValuedNots(l, env) && TwoValuedNots(r, env)
    case Sym(s) => s.Is(Boolean) || s.Is(Tristated) || s.IsYmn()
    case Cmp(_, _, _) => true
  }

  /** Only bool and tristate symbols and y, m and n occur outside comparisons. */
  predicate PlainSymbols(e: Expr) {
    match e
    case Not(x) => PlainSymbols(x)
    case Bin(_, l, r) => PlainSymbols(l) && PlainSymbols(r)
    case Sym(s) => s.Is(Boolean) || s.Is(Tristated) || s.IsYmn()
    case Cmp(_, _, _) => true
  }

  /** Whether e is n when a negation is read as "is n": the reading of expr_trans_compare. */
  predicate FlatNo(e: Expr, env: Env) {
    match e
    case Sym(s) => env.tri(s) == NO
    case Cmp(_, _, _) => Eval(e, env) == NO
    case Not(x) => !FlatNo(x, env)
    case Bin(OrOp, l, r) => FlatNo(l, env) && FlatNo(r, env)
    case Bin(AndOp, l, r) => FlatNo(l, env) || FlatNo(r, env)
  }

  /** The comparison with n that menu_finalize builds is y or n, and tells the two-valued reading of
      every expression in every environment. */
  lemma {:induction false} TransCompareExact(e: Expr, eq: bool, env: Env)
    requires Valid(env) && PlainSymbols(e)
    ensures Eval(TransCompare(e, eq, SymNo), env) == (if FlatNo(e, env) == eq then YES else NO)
  {
    match e
    case Bin(_, l, r) =>
      TransCompareExact(l, true, env);
      TransCompareExact(r, true, env);
    case Not(x) =>
      TransCompareExact(x, !eq, env);
    case Sym(s) => YmnCompare(env.tri(s));
    case _ =>
  }

  /** Where no negated operand is m, that reading is the value's. */
  lemma {:induction false} FlatNoIsNo(e: Expr, env: Env)
    requires TwoValuedNots(e, env)
    ensures PlainSymbols(e) && (FlatNo(e, env) <==> Eval(e, env) == NO)
  {
    match e
    case Bin(_, l, r) =>
      FlatNoIsNo(l, env);
      FlatNoIsNo(r, env);
    case Not(x) => FlatNoIsNo(x, env);
    case _ =>
  }

  /** So there the comparison is y exactly when the value is (is not) n.  For a negation the code
      compares the operand with n instead of y, which is the same thing only when it is not m. */
  lemma TransCompareCorrect(e: Expr, eq: bool, env: Env)
    requires Valid(env) && TwoValuedNots(e, env)
    ensures Eval(TransCompare(e, eq, SymNo), env) == (if (Eval(e, env) == NO) == eq then YES else NO)
  {
    FlatNoIsNo(e, env);
    TransCompareExact(e, eq, env);
  }

  /** For a negated symbol the documented rewrite `!A -> A=n` is right exactly when A is not m. */
  lemma TransCompareNegation(a: Symbol, env: Env)
    requires Valid(env) && (a.Is(Boolean) || a.Is(Tristated))
    ensures var e := Not(Sym(a));
      (Eval(TransCompare(e, false, SymNo), env) == YES <==> Eval(e, env) != NO) <==> env.tri(a) != MOD
  {
    YmnCompare(env.tri(a));
  }
}

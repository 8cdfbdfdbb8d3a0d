/**
The dependency pipeline of menu_finalize: how a property's condition is built from its parent's
dependencies, and the test that puts a menu entry below the symbol it depends on.
*/
module KconfigMenu {
  import opened Wrappers
  import opened KconfigExpr
  import opened KconfigTransform
  import opened KconfigJoin
  import opened KconfigDups
  import KconfigSymbol

  function AllocAnd(x: Option<Expr>, y: Option<Expr>): Option<Expr> {
    if x.None? then y else if y.None? then x else Some(Bin(AndOp, x.value, y.value))
  }

  function Consts(e: Option<Expr>): set<Symbol> { if e.None? then {} else TriConsts(e.value) }
  predicate Normal(e: Option<Expr>) { e.None? || NormalForm(e.value) }

  function EvalModulesOpt(e: Option<Expr>, env: Env, modules: Symbol): Tristate {
    if e.None? then YES else EvalModules(e.value, env, modules)
  }

  /** What sym_calc_visibility makes of a condition: m counts as y unless the symbol is tristate. */
  function Promote(kind: SymbolType, t: Tristate): Tristate {
    if t == MOD && kind != Tristated then YES else t
  }

  lemma {:induction false} RewriteMConsts(e: Expr, modules: Symbol)
    ensures TriConsts(RewriteM(e, modules)) <= TriConsts(e)
  {
    match e
    case Not(x) => RewriteMConsts(x, modules);
    case Bin(_, l, r) =>
      RewriteMConsts(l, modules);
      RewriteMConsts(r, modules);
    case _ =>
  }

  lemma SeparatedSubset(small: set<Symbol>, large: set<Symbol>)
    requires Separated(large) && YMN <= small <= large
    ensures Separated(small)
  {
  }

  /** rewrite_m and expr_transform on one condition. */
  function Prepared(cond: Option<Expr>, modules: Symbol): Option<Expr> {
    if cond.None? then None else Some(Transform(RewriteM(cond.value, modules)))
  }

  lemma PreparedCorrect(cond: Option<Expr>, modules: Symbol, env: Env)
    requires Valid(env)
    ensures EvalOpt(Prepared(cond, modules), env) == EvalModulesOpt(cond, env, modules)
  {
    if cond.Some? {
      TransformCorrect(RewriteM(cond.value, modules), env);
      RewriteMCorrect(cond.value, env, modules);
    }
  }

  lemma PreparedShape(cond: Option<Expr>, modules: Symbol)
    ensures Normal(Prepared(cond, modules)) && Consts(Prepared(cond, modules)) <= Consts(cond)
  {
    if cond.Some? {
      TransformNormal(RewriteM(cond.value, modules));
      TransformConsts(RewriteM(cond.value, modules));
      RewriteMConsts(cond.value, modules);
    }
  }

  /** The dependency of a child entry: the parent's dependency and its own condition, joined and
      deduplicated, with exactly the value of the conjunction. */
  method InheritDependency(parent: Option<Expr>, cond: Option<Expr>, modules: Symbol) returns (dep: Option<Expr>)
    requires Normal(parent) && Separated(Consts(parent) + Consts(cond) + YMN)
    ensures Normal(dep) && Consts(dep) <= Consts(parent) + Consts(cond) + YMN
    ensures dep.Some? ==> Settled(dep.value)
    ensures forall env :: Valid(env) ==>
      EvalOpt(dep, env) == Min(EvalOpt(parent, env), EvalModulesOpt(cond, env, modules))
  {
    PreparedShape(cond, modules);
    var own := Prepared(cond, modules);
    dep := AllocAnd(parent, own);
    forall env | Valid(env)
      ensures EvalOpt(dep, env) == Min(EvalOpt(parent, env), EvalModulesOpt(cond, env, modules))
    {
      PreparedCorrect(cond, modules, env);
    }
    if dep.Some? {
      SeparatedSubset(TriConsts(dep.value) + YMN, Consts(parent) + Consts(cond) + YMN);
      var e, _ := EliminateDups(dep.value, 0);
      dep := Some(e);
    }
  }

  /** The condition of a property of a symbol of type `kind`.  For a symbol that is not tristate
      FOO!=n has become FOO, which is not the same value but gives the same visibility. */
  method PropertyCondition(base: Option<Expr>, cond: Option<Expr>, modules: Symbol, kind: SymbolType)
    returns (dep: Option<Expr>)
    requires Normal(base) && Separated(Consts(base) + Consts(cond) + YMN)
    ensures forall env :: Valid(env) ==>
      Promote(kind, EvalOpt(dep, env)) ==
      Promote(kind, Min(EvalOpt(base, env), EvalModulesOpt(cond, env, modules)))
  {
    dep := InheritDependency(base, cond, modules);
    if kind != Tristated && dep.Some? {
      forall env | Valid(env) ensures Eval(TransBool(dep.value), env) == NO <==> EvalOpt(dep, env) == NO {
        TransBoolKeepsNo(dep.value, env);
      }
      dep := Some(TransBool(dep.value));
    }
  }

  lemma {:induction false} TransCompareConsts(e: Expr, eq: bool)
    ensures TriConsts(TransCompare(e, eq, SymNo)) <= TriConsts(e) + YMN
  {
    match e
    case Bin(op, l, r) =>
      TransCompareConsts(l, true);
      TransCompareConsts(r, true);
      assert TriConsts(Bin(Flip(op), TransCompare(l, true, SymNo), TransCompare(r, true, SymNo))) <= TriConsts(e) + YMN;
    case Not(x) => TransCompareConsts(x, !eq);
    case _ =>
  }

  predicate Plain(e: Option<Expr>) { e.Some? ==> PlainSymbols(e.value) }
  predicate FlatNoOpt(e: Option<Expr>, env: Env) { e.Some? && FlatNo(e.value, env) }
  ghost predicate TwoValued(e: Option<Expr>, env: Env) { e.Some? ==> TwoValuedNots(e.value, env) }

  lemma FlatNoOptIsNo(e: Option<Expr>, env: Env)
    requires TwoValued(e, env)
    ensures Plain(e) && (FlatNoOpt(e, env) <==> EvalOpt(e, env) == NO)
  {
    if e.Some? { FlatNoIsNo(e.value, env); }
  }

  /** `e != n`, normalised and deduplicated. */
  method Comparison(e: Option<Expr>) returns (r: Expr)
    requires Separated(Consts(e) + YMN)
    ensures Plain(e) ==> forall env :: Valid(env) ==> Eval(r, env) == if FlatNoOpt(e, env) then NO else YES
    ensures forall env :: Valid(env) && TwoValued(e, env) ==> Eval(r, env) == if EvalOpt(e, env) == NO then NO else YES
  {
    hide FlatNo, PlainSymbols, TwoValuedNots, Separated;
    var c := TransCompareOpt(e, false, SymNo);
    var t := Transform(c);
    forall env | Valid(env) && Plain(e) ensures Eval(t, env) == if FlatNoOpt(e, env) then NO else YES {
      TransformCorrect(c, env);
      if e.Some? { TransCompareExact(e.value, false, env); }
    }
    TransformConsts(c);
    if e.Some? { TransCompareConsts(e.value, false); }
    SeparatedSubset(TriConsts(t) + YMN, Consts(e) + YMN);
    var d, _ := EliminateDups(t, 0);
    r := d;
    forall env | Valid(env) && TwoValued(e, env) ensures Eval(r, env) == if EvalOpt(e, env) == NO then NO else YES {
      FlatNoOptIsNo(e, env);
    }
  }

  // ----- automatic submenus -----

  /** expr_contains_symbol */
  predicate ContainsSymbol(e: Expr, s: Symbol) {
    match e
    case Sym(x) => x == s
    case Cmp(_, a, b) => a == s || b == s
    case Not(x) => ContainsSymbol(x, s)
    case Bin(_, l, r) => ContainsSymbol(l, s) || ContainsSymbol(r, s)
  }

  /** expr_depends_symbol: s stands as an operand of a conjunction, alone or tested for y, m or not n. */
  predicate DependsSymbol(e: Expr, s: Symbol) {
    match e
    case Bin(op, l, r) => op == AndOp && (DependsSymbol(l, s) || DependsSymbol(r, s))
    case Sym(x) => x == s
    case Cmp(Equal, a, b) => a == s && (b == SymYes || b == SymMod)
    case Cmp(Unequal, a, b) => a == s && b == SymNo
    case _ => false
  }

  lemma {:induction false} DependsContains(e: Expr, s: Symbol)
    requires DependsSymbol(e, s)
    ensures ContainsSymbol(e, s)
  {
    if e.Bin? { if DependsSymbol(e.l, s) { DependsContains(e.l, s); } else { DependsContains(e.r, s); } }
  }

  /** Some operand of the && level of e is s itself or a test that s is y, m or not n. */
  ghost predicate HasConjunct(e: Expr, s: Symbol) {
    exists p :: Leaf(AndOp, e, p) && Asserts(At(AndOp, e, p), s)
  }

  predicate Asserts(e: Expr, s: Symbol) {
    e == Sym(s) || e == Cmp(Equal, s, SymYes) || e == Cmp(Equal, s, SymMod) || e == Cmp(Unequal, s, SymNo)
  }

  lemma {:induction false} DependsIsConjunct(e: Expr, s: Symbol)
    ensures DependsSymbol(e, s) <==> HasConjunct(e, s)
    ensures ContainsSymbol(e, s) <==> s in KconfigSymbol.Symbols(e)
  {
    match e
    case Bin(op, l, r) =>
      DependsIsConjunct(l, s);
      DependsIsConjunct(r, s);
      if op == AndOp { ConjunctOfSides(e, s); } else { OneOperand(e, s); }
    case Not(x) =>
      DependsIsConjunct(x, s);
      OneOperand(e, s);
    case _ => OneOperand(e, s);
  }

  /** Where there is no &&, the expression is the only operand. */
  lemma OneOperand(e: Expr, s: Symbol)
    requires !IsJunct(e, AndOp)
    ensures HasConjunct(e, s) <==> Asserts(e, s)
  {
    assert Leaf(AndOp, e, []) && At(AndOp, e, []) == e;
    forall p | Leaf(AndOp, e, p) ensures p == [] { OnlyLeaf(AndOp, e, [], p); }
  }

  lemma ConjunctOfSides(e: Expr, s: Symbol)
    requires IsJunct(e, AndOp)
    ensures HasConjunct(e, s) <==> HasConjunct(e.l, s) || HasConjunct(e.r, s)
  {
    hide Asserts;
    if HasConjunct(e, s) {
      var p :| Leaf(AndOp, e, p) && Asserts(At(AndOp, e, p), s);
      assert p == [p[0]] + p[1..];
      LeafOfSide(e, p[0], p[1..]);
    }
    if HasConjunct(e.l, s) {
      var p :| Leaf(AndOp, e.l, p) && Asserts(At(AndOp, e.l, p), s);
      LeafOfSide(e, Left, p);
    }
    if HasConjunct(e.r, s) {
      var p :| Leaf(AndOp, e.r, p) && Asserts(At(AndOp, e.r, p), s);
      LeafOfSide(e, Right, p);
    }
  }

  lemma LeafOfSide(e: Expr, d: Dir, p: Path)
    requires IsJunct(e, AndOp)
    ensures Leaf(AndOp, e, [d] + p) <==> Leaf(AndOp, Child(e, d), p)
    ensures Leaf(AndOp, e, [d] + p) ==> At(AndOp, e, [d] + p) == At(AndOp, Child(e, d), p)
  {
    assert ([d] + p)[1..] == p;
  }

  /** What depends on a symbol in this sense is n whenever the symbol is. */
  lemma {:induction false} DependsBounds(e: Expr, s: Symbol, env: Env)
    requires Valid(env) && DependsSymbol(e, s) && (s.Is(Boolean) || s.Is(Tristated))
    ensures Eval(e, env) != NO ==> env.tri(s) != NO
  {
    match e
    case Bin(_, l, r) => if DependsSymbol(l, s) { DependsBounds(l, s, env); } else { DependsBounds(r, s, env); }
    case Cmp(_, a, _) => YmnCompare(env.tri(a));
    case _ =>
  }

  /** The "superset" test: dep is n whenever the prompt's condition is, in the two-valued reading always
      and in value where no negated operand is m. */
  method IsSuperset(prompt: Option<Expr>, dep: Expr) returns (superset: bool)
    requires Separated(Consts(prompt) + YMN) && Separated(TriConsts(dep) + YMN)
    ensures superset && Plain(prompt) && PlainSymbols(dep) ==>
      forall env :: Valid(env) ==> (FlatNoOpt(prompt, env) ==> FlatNo(dep, env))
    ensures superset ==> forall env :: Valid(env) && TwoValuedNots(dep, env) && TwoValued(prompt, env) ==>
      (Eval(dep, env) != NO ==> EvalOpt(prompt, env) != NO)
  {
    hide FlatNo, PlainSymbols, TwoValuedNots;
    var base := Comparison(prompt);
    var own := Comparison(Some(dep));
    var (_, rest) := EliminateEq(own, base);
    superset := IsYes(Some(rest));
    if superset {
      forall env | Valid(env) ensures Eval(own, env) <= Eval(base, env) { EliminateEqSuperset(own, base, env); }
    }
  }

  /** Whether an entry with dependency dep goes below the symbol s before it, whose prompt has the
      condition `prompt`.  It does if it depends on s outright; then it is never visible while s is n.
      Otherwise it does only if it mentions s and is never visible while the prompt is not. */
  method IsSubmenuEntry(s: Symbol, prompt: Option<Expr>, dep: Option<Expr>) returns (below: bool)
    requires Separated(Consts(prompt) + YMN) && Separated(Consts(dep) + YMN)
    ensures below ==> dep.Some? && ContainsSymbol(dep.value, s)
    ensures dep.Some? && DependsSymbol(dep.value, s) ==> below
    ensures below && !DependsSymbol(dep.value, s) ==>
      forall env :: Valid(env) && TwoValued(dep, env) && TwoValued(prompt, env) ==>
        (Eval(dep.value, env) != NO ==> EvalOpt(prompt, env) != NO)
    ensures below && (s.Is(Boolean) || s.Is(Tristated)) ==>
      forall env :: Valid(env) && TwoValued(dep, env) && TwoValued(prompt, env) ==>
        (Eval(dep.value, env) != NO ==> EvalOpt(prompt, env) != NO || env.tri(s) != NO)
  {
    hide TwoValuedNots, Separated, Eval;
    if dep.None? { return false; }
    if DependsSymbol(dep.value, s) {
      DependsContains(dep.value, s);
      if s.Is(Boolean) || s.Is(Tristated) {
        forall env | Valid(env) ensures Eval(dep.value, env) != NO ==> env.tri(s) != NO {
          DependsBounds(dep.value, s, env);
        }
      }
      return true;
    }
    if !ContainsSymbol(dep.value, s) { return false; }
    below := IsSuperset(prompt, dep.value);
  }

  /** The loop over the entries that follow s: those up to the first that does not go below it. */
  method SubmenuEntries(s: Symbol, prompt: Option<Expr>, deps: seq<Option<Expr>>) returns (n: nat)
    requires Separated(Consts(prompt) + YMN) && forall i :: 0 <= i < |deps| ==> Separated(Consts(deps[i]) + YMN)
    requires s.Is(Boolean) || s.Is(Tristated)
    ensures n <= |deps|
    ensures n < |deps| && deps[n].Some? ==> !DependsSymbol(deps[n].value, s)
    ensures forall i, env :: 0 <= i < n && Valid(env) && TwoValued(deps[i], env) && TwoValued(prompt, env) ==>
      (EvalOpt(deps[i], env) != NO ==> EvalOpt(prompt, env) != NO || env.tri(s) != NO)
  {
    hide Separated, Eval, TwoValued, DependsSymbol, ContainsSymbol;
    n := 0;
    while n < |deps|
      invariant n <= |deps|
      invariant forall i, env :: 0 <= i < n && Valid(env) && TwoValued(deps[i], env) && TwoValued(prompt, env) ==>
        (EvalOpt(deps[i], env) != NO ==> EvalOpt(prompt, env) != NO || env.tri(s) != NO)
    {
      var below := IsSubmenuEntry(s, prompt, deps[n]);
      if !below { break; }
      n := n + 1;
    }
  }

  /** A symbol that is selected while its prompt is not visible: an entry that depends on it goes below
      it and is visible without the prompt. */
  lemma VisibleWithoutPrompt(a: Symbol, b: Symbol, p: Symbol, m: Tristate, v: KconfigSymbol.Valuation)
    requires a.Is(Boolean) && b.Is(Boolean) && p.Is(Boolean) && a != b && a != p && b != p
    requires KconfigSymbol.Solves(map[
      a := KconfigSymbol.Definition([KconfigSymbol.Prompt(Some(Sym(p)))], None, Some(Sym(b)), None, None),
      b := KconfigSymbol.Definition([KconfigSymbol.Prompt(None)], None, None, None, Some(YES)),
      p := KconfigSymbol.Definition([], None, None, None, None)], m, v)
    ensures DependsSymbol(Sym(a), a)
    ensures Eval(Sym(a), KconfigSymbol.EnvOf(v)) == YES && EvalOpt(Some(Sym(p)), KconfigSymbol.EnvOf(v)) == NO
  {
    var none: seq<KconfigSymbol.Property> := [];
    assert [KconfigSymbol.Prompt(None)][..0] == none;
    assert v(p) == NO;
    assert v(b) == YES;
  }
}

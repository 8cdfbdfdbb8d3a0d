/**
sym_calc_value of the kconfig tool: a memoised evaluator over bool and tristate symbols.  The
meaning of a configuration is a solution of one equation per symbol; on an acyclic dependency
graph there is exactly one, and the evaluator finds it whatever is asked first.
*/
module KconfigSymbol {
  import opened Wrappers
  import opened KconfigExpr

  /** A prompt or a default with its condition. */
  datatype Property = Prompt(cond: Option<Expr>) | Default(cond: Option<Expr>, value: Option<Expr>)

  /** A symbol's properties, in the order of its definition; `user` is the value from .config. */
  datatype Definition = Definition(
    props: seq<Property>,
    dirDep: Option<Expr>,
    revDep: Option<Expr>,
    implied: Option<Expr>,
    user: Option<Tristate>)

  type Config = map<Symbol, Definition>

  /** Only bool and tristate symbols are defined. */
  predicate Typed(defs: Config) {
    forall s :: s in defs ==> s.Is(Boolean) || s.Is(Tristated)
  }

  // ----- the value of an expression under a valuation -----

  type Valuation = Symbol -> Tristate

  function ConstTri(s: Symbol): Tristate {
    if s == SymYes then YES else if s == SymMod then MOD else NO
  }

  /** A bool or tristate symbol is read as its value, any other symbol and a constant as a number if
      its name is one. */
  function Number(s: Symbol, t: Tristate): Option<int> {
    match s
    case Config(_, num, kind) => if kind == Boolean || kind == Tristated then Some(t) else num
    case Const(_, num) => num
    case _ => None
  }

  /** An undefined symbol has its own name as its string value. */
  function StringValue(s: Symbol, t: Tristate): string {
    match s
    case Const(name, _) => name
    case Config(name, _, kind) => if kind == Boolean || kind == Tristated then Text(t) else name
    case _ => Text(ConstTri(s))
  }

  /** The comparison of expr_calc_value: as numbers if both sides are, as text otherwise. */
  function Compare(a: Symbol, ta: Tristate, b: Symbol, tb: Tristate): int {
    match (Number(a, ta), Number(b, tb))
    case (Some(x), Some(y)) => x - y
    case _ => StrCmp(StringValue(a, ta), StringValue(b, tb))
  }

  function EnvOf(v: Valuation): Env {
    Env(s => v(s), (a, b) => Compare(a, v(a), b, v(b)))
  }

  // ----- the equation of one symbol -----

  function Bump(t: Tristate, boolish: bool): Tristate { if t == MOD && boolish then YES else t }

  predicate Boolish(s: Symbol, modules: Tristate) { s.Is(Boolean) || modules == NO }

  function MaxPrompt(props: seq<Property>, env: Env): Tristate {
    if props == [] then NO
    else
      var p, t := props[|props| - 1], MaxPrompt(props[..|props| - 1], env);
      if p.Prompt? then Max(t, EvalOpt(p.cond, env)) else t
  }

  function FirstDefault(props: seq<Property>, env: Env): Tristate {
    if props == [] then NO
    else if props[0].Default? && EvalOpt(props[0].cond, env) != NO then
      Min(EvalOpt(props[0].value, env), EvalOpt(props[0].cond, env))
    else FirstDefault(props[1..], env)
  }

  function OrElse(e: Option<Expr>, missing: Tristate, env: Env): Tristate {
    if e.None? then missing else Eval(e.value, env)
  }

  function Visible(s: Symbol, d: Definition, modules: Tristate, env: Env): Tristate {
    Bump(MaxPrompt(d.props, env), Boolish(s, modules))
  }

  function Selected(s: Symbol, d: Definition, modules: Tristate, env: Env): Tristate {
    Bump(OrElse(d.revDep, NO, env), Boolish(s, modules))
  }

  function Wanted(s: Symbol, d: Definition, modules: Tristate, env: Env): Tristate {
    var vis := Visible(s, d, modules, env);
    if vis != NO && d.user.Some? then Min(d.user.value, vis)
    else
      var x := FirstDefault(d.props, env);
      var implied := Bump(OrElse(d.implied, NO, env), Boolish(s, modules));
      if implied == NO then x
      else Min(Max(x, implied), Bump(OrElse(d.dirDep, YES, env), Boolish(s, modules)))
  }

  function Formula(s: Symbol, d: Definition, modules: Tristate, env: Env): Tristate {
    Bump(Max(Wanted(s, d, modules, env), Selected(s, d, modules, env)), Boolish(s, modules))
  }

  /** v gives every symbol the value its definition demands, and n to undefined ones. */
  ghost predicate Solves(defs: Config, modules: Tristate, v: Valuation) {
    forall s: Symbol :: v(s) == if s in defs then Formula(s, defs[s], modules, EnvOf(v)) else ConstTri(s)
  }

  // ----- dependencies -----

  function Symbols(e: Expr): set<Symbol> {
    match e
    case Sym(s) => {s}
    case Cmp(_, a, b) => {a, b}
    case Not(x) => Symbols(x)
    case Bin(_, l, r) => Symbols(l) + Symbols(r)
  }

  function OptSymbols(e: Option<Expr>): set<Symbol> { if e.None? then {} else Symbols(e.value) }

  ghost predicate Below(e: Option<Expr>, rank: Symbol -> nat, k: nat) {
    forall x :: x in OptSymbols(e) ==> rank(x) < k
  }

  ghost predicate BelowProperty(p: Property, rank: Symbol -> nat, k: nat) {
    Below(p.cond, rank, k) && (p.Default? ==> Below(p.value, rank, k))
  }

  ghost predicate Ranked(d: Definition, rank: Symbol -> nat, k: nat) {
    && (forall i :: 0 <= i < |d.props| ==> BelowProperty(d.props[i], rank, k))
    && Below(d.dirDep, rank, k) && Below(d.revDep, rank, k) && Below(d.implied, rank, k)
  }

  /** No cycle: every symbol's definition mentions only symbols of smaller rank. */
  ghost predicate Acyclic(defs: Config, rank: Symbol -> nat) {
    forall s :: s in defs ==> Ranked(defs[s], rank, rank(s))
  }

  // ----- one solution, and only one -----

  ghost predicate Agree(v: Valuation, w: Valuation, rank: Symbol -> nat, k: nat) {
    forall x :: rank(x) < k ==> v(x) == w(x)
  }

  lemma {:induction false} EvalAgrees(e: Expr, v: Valuation, w: Valuation, rank: Symbol -> nat, k: nat)
    requires Agree(v, w, rank, k) && Below(Some(e), rank, k)
    ensures Eval(e, EnvOf(v)) == Eval(e, EnvOf(w))
  {
    match e
    case Sym(s) => assert s in OptSymbols(Some(e));
    case Cmp(_, a, b) => assert a in OptSymbols(Some(e)) && b in OptSymbols(Some(e));
    case Not(x) =>
      assert forall y :: y in OptSymbols(Some(x)) ==> y in OptSymbols(Some(e));
      EvalAgrees(x, v, w, rank, k);
    case Bin(_, l, r) =>
      assert forall y :: y in OptSymbols(Some(l)) || y in OptSymbols(Some(r)) ==> y in OptSymbols(Some(e));
      EvalAgrees(l, v, w, rank, k);
      EvalAgrees(r, v, w, rank, k);
  }

  lemma EvalOptAgrees(e: Option<Expr>, v: Valuation, w: Valuation, rank: Symbol -> nat, k: nat)
    requires Agree(v, w, rank, k) && Below(e, rank, k)
    ensures EvalOpt(e, EnvOf(v)) == EvalOpt(e, EnvOf(w))
    ensures forall t :: OrElse(e, t, EnvOf(v)) == OrElse(e, t, EnvOf(w))
  {
    if e.Some? {
      assert e == Some(e.value);
      EvalAgrees(e.value, v, w, rank, k);
    }
  }

  lemma {:induction false} PromptsAgree(ps: seq<Property>, v: Valuation, w: Valuation, rank: Symbol -> nat, k: nat)
    requires Agree(v, w, rank, k) && forall i :: 0 <= i < |ps| ==> BelowProperty(ps[i], rank, k)
    ensures MaxPrompt(ps, EnvOf(v)) == MaxPrompt(ps, EnvOf(w))
  {
    hide Agree, Below, EnvOf, EvalOpt;
    if ps != [] {
      PromptsAgree(ps[..|ps| - 1], v, w, rank, k);
      EvalOptAgrees(ps[|ps| - 1].cond, v, w, rank, k);
    }
  }

  lemma {:induction false} DefaultsAgree(ps: seq<Property>, v: Valuation, w: Valuation, rank: Symbol -> nat, k: nat)
    requires Agree(v, w, rank, k) && forall i :: 0 <= i < |ps| ==> BelowProperty(ps[i], rank, k)
    ensures FirstDefault(ps, EnvOf(v)) == FirstDefault(ps, EnvOf(w))
  {
    hide Agree, Below, EnvOf, EvalOpt;
    if ps != [] {
      var p := ps[0];
      EvalOptAgrees(p.cond, v, w, rank, k);
      if p.Default? { EvalOptAgrees(p.value, v, w, rank, k); }
      DefaultsAgree(ps[1..], v, w, rank, k);
    }
  }

  lemma FormulaAgrees(s: Symbol, d: Definition, m: Tristate, v: Valuation, w: Valuation, rank: Symbol -> nat, k: nat)
    requires Agree(v, w, rank, k) && Ranked(d, rank, k)
    ensures Formula(s, d, m, EnvOf(v)) == Formula(s, d, m, EnvOf(w))
  {
    PromptsAgree(d.props, v, w, rank, k);
    DefaultsAgree(d.props, v, w, rank, k);
    EvalOptAgrees(d.dirDep, v, w, rank, k);
    EvalOptAgrees(d.revDep, v, w, rank, k);
    EvalOptAgrees(d.implied, v, w, rank, k);
  }

  /** Two solutions of an acyclic configuration are the same. */
  lemma {:induction false} SolutionUnique(defs: Config, m: Tristate, rank: Symbol -> nat, v: Valuation, w: Valuation,
                                          k: nat)
    requires Acyclic(defs, rank) && Solves(defs, m, v) && Solves(defs, m, w)
    ensures Agree(v, w, rank, k)
    decreases k
  {
    if k > 0 {
      SolutionUnique(defs, m, rank, v, w, k - 1);
      forall x | rank(x) < k ensures v(x) == w(x) {
        if x in defs {
          assert Agree(v, w, rank, rank(x));
          FormulaAgrees(x, defs[x], m, v, w, rank, rank(x));
        }
      }
    }
  }

  /** One round of recomputing every symbol from the values v. */
  function Round(defs: Config, m: Tristate, v: Valuation): Valuation {
    s => if s in defs then Formula(s, defs[s], m, EnvOf(v)) else ConstTri(s)
  }

  function Unrolled(defs: Config, m: Tristate, n: nat): Valuation {
    if n == 0 then ConstTri else Round(defs, m, Unrolled(defs, m, n - 1))
  }

  lemma RoundAgrees(defs: Config, m: Tristate, rank: Symbol -> nat, v: Valuation, w: Valuation, k: nat)
    requires Acyclic(defs, rank) && Agree(v, w, rank, k)
    ensures Agree(Round(defs, m, v), Round(defs, m, w), rank, k + 1)
  {
    forall x | rank(x) < k + 1 ensures Round(defs, m, v)(x) == Round(defs, m, w)(x) {
      if x in defs {
        assert Agree(v, w, rank, rank(x));
        FormulaAgrees(x, defs[x], m, v, w, rank, rank(x));
      }
    }
  }

  lemma {:induction false} UnrolledSettles(defs: Config, m: Tristate, rank: Symbol -> nat,
                                           n: nat) returns (v: Valuation)
    requires Acyclic(defs, rank)
    ensures v == Unrolled(defs, m, n) && Agree(v, Round(defs, m, v), rank, n)
    decreases n
  {
    hide Formula, EnvOf, Acyclic;
    if n == 0 {
      v := ConstTri;
    } else {
      var u := UnrolledSettles(defs, m, rank, n - 1);
      v := Round(defs, m, u);
      RoundAgrees(defs, m, rank, u, v, n - 1);
    }
  }

  /** Every acyclic configuration has a solution. */
  lemma SolutionExists(defs: Config, m: Tristate, rank: Symbol -> nat, n: nat) returns (v: Valuation)
    requires Acyclic(defs, rank) && forall s :: s in defs ==> rank(s) < n
    ensures Solves(defs, m, v)
  {
    hide Formula, EnvOf, Acyclic;
    v := UnrolledSettles(defs, m, rank, n);
    forall s: Symbol ensures v(s) == Round(defs, m, v)(s) {
      assert n > 0 || s !in defs;
    }
  }

  // ----- what a solution guarantees -----

  /** A symbol is never below what selects it; a bool symbol is never m, and nothing is m without
      modules; a visible symbol with a user value gets the smaller of it and its visibility,
      raised only by a select. */
  lemma SolutionBounds(defs: Config, m: Tristate, v: Valuation, s: Symbol)
    requires Solves(defs, m, v) && s in defs
    ensures v(s) >= Selected(s, defs[s], m, EnvOf(v)) >= OrElse(defs[s].revDep, NO, EnvOf(v))
    ensures Boolish(s, m) ==> v(s) != MOD
    ensures var vis := Visible(s, defs[s], m, EnvOf(v));
      vis != NO && defs[s].user.Some? && v(s) > Selected(s, defs[s], m, EnvOf(v)) ==>
        v(s) == Bump(Min(defs[s].user.value, vis), Boolish(s, m))
  {
  }

  // ----- what the value of a symbol is made of -----

  /** m counts as y for a bool symbol and without modules. */
  function Raised(s: Symbol, m: Tristate, t: Tristate): Tristate {
    if t == MOD && (s.Is(Boolean) || m == NO) then YES else t
  }

  /** t is the largest condition of a prompt, n if there is none. */
  ghost predicate IsVisibility(props: seq<Property>, env: Env, t: Tristate) {
    && (forall i :: 0 <= i < |props| && props[i].Prompt? ==> EvalOpt(props[i].cond, env) <= t)
    && (t == NO || exists i :: 0 <= i < |props| && props[i].Prompt? && EvalOpt(props[i].cond, env) == t)
  }

  /** Property i is the first default whose condition is not n. */
  ghost predicate Applies(props: seq<Property>, env: Env, i: nat) {
    && i < |props| && props[i].Default? && EvalOpt(props[i].cond, env) != NO
    && forall j :: 0 <= j < i && props[j].Default? ==> EvalOpt(props[j].cond, env) == NO
  }

  /** t is the smaller of the value and the condition of the default that applies, n if none does. */
  ghost predicate IsDefaultValue(props: seq<Property>, env: Env, t: Tristate) {
    if i: nat :| Applies(props, env, i) then t == Min(EvalOpt(props[i].value, env), EvalOpt(props[i].cond, env))
    else t == NO
  }

  lemma {:induction false} MaxPromptIs(props: seq<Property>, env: Env)
    ensures IsVisibility(props, env, MaxPrompt(props, env))
  {
    hide EvalOpt;
    if props != [] {
      var n := |props| - 1;
      MaxPromptIs(props[..n], env);
      var t := MaxPrompt(props[..n], env);
      if t != NO && !(props[n].Prompt? && EvalOpt(props[n].cond, env) > t) {
        var i :| 0 <= i < n && props[..n][i].Prompt? && EvalOpt(props[..n][i].cond, env) == t;
        assert props[i].Prompt?;
      }
      forall i | 0 <= i < |props| && props[i].Prompt? ensures EvalOpt(props[i].cond, env) <= MaxPrompt(props, env) {
        if i < n { assert props[..n][i] == props[i]; }
      }
    }
  }

  lemma VisibilityUnique(props: seq<Property>, env: Env, t: Tristate)
    requires IsVisibility(props, env, t)
    ensures t == MaxPrompt(props, env)
  {
    hide EvalOpt, MaxPrompt;
    MaxPromptIs(props, env);
  }

  lemma AppliesOnce(props: seq<Property>, env: Env, i: nat, j: nat)
    requires Applies(props, env, i) && Applies(props, env, j)
    ensures i == j
  {
    hide EvalOpt;
  }

  lemma {:induction false} FirstDefaultIs(props: seq<Property>, env: Env, i: nat)
    ensures Applies(props, env, i) ==>
      FirstDefault(props, env) == Min(EvalOpt(props[i].value, env), EvalOpt(props[i].cond, env))
    decreases |props|
  {
    hide EvalOpt;
    if Applies(props, env, i) && i > 0 {
      assert Applies(props[1..], env, i - 1);
      FirstDefaultIs(props[1..], env, i - 1);
    }
  }

  lemma {:induction false} NoDefaultIs(props: seq<Property>, env: Env)
    requires forall i: nat :: !Applies(props, env, i)
    ensures FirstDefault(props, env) == NO
    decreases |props|
  {
    hide EvalOpt;
    if props != [] {
      assert !Applies(props, env, 0);
      forall i: nat ensures !Applies(props[1..], env, i) { assert !Applies(props, env, i + 1); }
      NoDefaultIs(props[1..], env);
    }
  }

  lemma DefaultValueUnique(props: seq<Property>, env: Env, t: Tristate)
    requires IsDefaultValue(props, env, t)
    ensures t == FirstDefault(props, env)
  {
    hide EvalOpt, FirstDefault;
    if i: nat :| Applies(props, env, i) {
      FirstDefaultIs(props, env, i);
      forall j: nat | Applies(props, env, j) ensures j == i { AppliesOnce(props, env, i, j); }
    } else {
      NoDefaultIs(props, env);
    }
  }

  ghost predicate Set(d: Definition, env: Env) { d.user.Some? && !IsVisibility(d.props, env, NO) }

  lemma NotSet(s: Symbol, d: Definition, m: Tristate, env: Env)
    requires !Set(d, env)
    ensures Visible(s, d, m, env) == NO || d.user.None?
  {
    hide IsVisibility, MaxPrompt;
    if IsVisibility(d.props, env, NO) { VisibilityUnique(d.props, env, NO); }
  }

  /** The raised value of a dependency. */
  function Dependency(s: Symbol, m: Tristate, e: Option<Expr>, missing: Tristate, env: Env): Tristate {
    if e.None? then missing else Raised(s, m, Eval(e.value, env))
  }

  /** A symbol with a visible user value has that value, cut to its visibility and raised by selects. */
  lemma UserDecides(defs: Config, m: Tristate, v: Valuation, s: Symbol, vis: Tristate)
    requires Solves(defs, m, v) && s in defs && Set(defs[s], EnvOf(v)) && IsVisibility(defs[s].props, EnvOf(v), vis)
    ensures var d, env := defs[s], EnvOf(v);
      v(s) == Raised(s, m, Max(Min(d.user.value, Raised(s, m, vis)), Dependency(s, m, d.revDep, NO, env)))
  {
    hide EnvOf, IsVisibility, MaxPrompt, FirstDefault;
    VisibilityUnique(defs[s].props, EnvOf(v), vis);
    MaxPromptIs(defs[s].props, EnvOf(v));
  }

  /** A symbol that is neither set nor implied has the value of its default, raised by selects. */
  lemma DefaultDecides(defs: Config, m: Tristate, v: Valuation, s: Symbol, t: Tristate)
    requires Solves(defs, m, v) && s in defs && !Set(defs[s], EnvOf(v)) && IsDefaultValue(defs[s].props, EnvOf(v), t)
    requires Dependency(s, m, defs[s].implied, NO, EnvOf(v)) == NO
    ensures v(s) == Raised(s, m, Max(t, Dependency(s, m, defs[s].revDep, NO, EnvOf(v))))
  {
    hide EnvOf, IsVisibility, IsDefaultValue, MaxPrompt, FirstDefault;
    NotSet(s, defs[s], m, EnvOf(v));
    DefaultValueUnique(defs[s].props, EnvOf(v), t);
  }

  /** An implied one has at least what implies it, cut to its direct dependency and raised by selects. */
  lemma ImplyDecides(defs: Config, m: Tristate, v: Valuation, s: Symbol, t: Tristate)
    requires Solves(defs, m, v) && s in defs && !Set(defs[s], EnvOf(v)) && IsDefaultValue(defs[s].props, EnvOf(v), t)
    requires Dependency(s, m, defs[s].implied, NO, EnvOf(v)) != NO
    ensures var d, env := defs[s], EnvOf(v);
      var implied := Min(Max(t, Dependency(s, m, d.implied, NO, env)), Dependency(s, m, d.dirDep, YES, env));
      v(s) == Raised(s, m, Max(implied, Dependency(s, m, d.revDep, NO, env)))
  {
    hide EnvOf, IsVisibility, IsDefaultValue, MaxPrompt, FirstDefault;
    NotSet(s, defs[s], m, EnvOf(v));
    DefaultValueUnique(defs[s].props, EnvOf(v), t);
  }

  /** The values the evaluator produces form an environment of the kind the rewrites assume. */
  lemma SolutionIsValid(defs: Config, m: Tristate, v: Valuation)
    requires Typed(defs) && Solves(defs, m, v)
    ensures Valid(EnvOf(v))
  {
    forall s: Symbol | s.Is(Boolean) ensures v(s) != MOD {
      if s in defs { SolutionBounds(defs, m, v, s); }
    }
    forall s: Symbol, c: Symbol | (s.Is(Boolean) || s.Is(Tristated) || (s.IsYmn() && c.IsYmn())) && c.IsConst()
      ensures EnvOf(v).cmp(s, c) == CompareConst(v(s), c)
    {
      assert c !in defs;
      if s.IsConst() { assert s !in defs; }
    }
  }
}

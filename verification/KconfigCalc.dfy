/**
The evaluator of symbol.c itself.  SYMBOL_VALID is set on entry, before the symbol's value is
known; `busy` names the symbols in that state.  On an acyclic configuration none of them is read.
*/
module KconfigCalc {
  import opened Wrappers
  import opened KconfigExpr
  import opened KconfigSymbol

  /** sym->visible and the tri fields of dir_dep, rev_dep and implied. */
  datatype Parts = Parts(visible: Tristate, dir: Tristate, rev: Tristate, implied: Tristate)

  function PartsOf(s: Symbol, d: Definition, modules: Tristate, env: Env): Parts {
    Parts(Visible(s, d, modules, env),
          Bump(OrElse(d.dirDep, YES, env), Boolish(s, modules)),
          Selected(s, d, modules, env),
          Bump(OrElse(d.implied, NO, env), Boolish(s, modules)))
  }

  ghost predicate SameOn(keys: set<Symbol>, m: map<Symbol, Parts>, m': map<Symbol, Parts>) {
    forall b :: b in keys && b in m ==> b in m' && m'[b] == m[b]
  }

  // ----- changing a user's value -----

  function InRange(p: Parts, boolish: bool, val: Tristate): bool {
    p.visible != NO && !(boolish && val == MOD) && p.visible > p.rev && p.rev <= val <= p.visible
  }

  function Configured(defs: Config, s: Symbol, val: Tristate): Config
    requires s in defs
  {
    defs[s := defs[s].(user := Some(val))]
  }

  lemma ConfiguredAcyclic(defs: Config, s: Symbol, val: Tristate, rank: Symbol -> nat)
    requires s in defs && Acyclic(defs, rank)
    ensures Acyclic(Configured(defs, s, val), rank)
  {
    hide BelowProperty, Below;
  }

  lemma ConfiguredParts(defs: Config, s: Symbol, val: Tristate, x: Symbol, m: Tristate, env: Env)
    requires s in defs && x in defs
    ensures PartsOf(x, Configured(defs, s, val)[x], m, env) == PartsOf(x, defs[x], m, env)
  {
    hide MaxPrompt, OrElse;
  }

  /** Solutions before and after agree on everything that s depends on. */
  lemma {:induction false} AgreeBelow(defs: Config, s: Symbol, val: Tristate, m: Tristate, rank: Symbol -> nat,
                                      v: Valuation, w: Valuation, k: nat)
    requires s in defs && Acyclic(defs, rank) && k <= rank(s)
    requires Solves(defs, m, v) && Solves(Configured(defs, s, val), m, w)
    ensures Agree(v, w, rank, k)
    decreases k
  {
    hide Formula, EnvOf, Ranked;
    if k > 0 {
      AgreeBelow(defs, s, val, m, rank, v, w, k - 1);
      forall x | rank(x) < k ensures v(x) == w(x) {
        if x in defs {
          assert Agree(v, w, rank, rank(x));
          FormulaAgrees(x, defs[x], m, v, w, rank, rank(x));
        }
      }
    }
  }

  /** The value after a user's value, in terms of the four tristates. */
  lemma UserFormula(s: Symbol, d: Definition, m: Tristate, env: Env)
    requires d.user.Some?
    ensures var p := PartsOf(s, d, m, env);
      p.visible != NO ==> Formula(s, d, m, env) == Bump(Max(Min(d.user.value, p.visible), p.rev), Boolish(s, m))
  {
    hide MaxPrompt, OrElse, FirstDefault;
  }

  /** A value that sym_set_tristate_value accepts as new is the symbol's value from then on. */
  lemma SetTakesEffect(defs: Config, s: Symbol, val: Tristate, m: Tristate, rank: Symbol -> nat, v: Valuation,
                       w: Valuation)
    requires s in defs && Acyclic(defs, rank) && Solves(defs, m, v) && Solves(Configured(defs, s, val), m, w)
    requires InRange(PartsOf(s, defs[s], m, EnvOf(v)), Boolish(s, m), val)
    ensures w(s) == val
  {
    hide Formula, EnvOf, PartsOf, Below;
    AgreeBelow(defs, s, val, m, rank, v, w, rank(s));
    var d := Configured(defs, s, val)[s];
    ConfiguredAcyclic(defs, s, val, rank);
    FormulaAgrees(s, d, m, v, w, rank, rank(s));
    ConfiguredParts(defs, s, val, s, m, EnvOf(v));
    UserFormula(s, d, m, EnvOf(v));
  }

  /** Of the values that could be set, the range is exactly those that take effect, if anything can:
      outside it the symbol gets another value, and nothing can be set where a select reaches the
      visibility. */
  lemma RangeExactly(defs: Config, s: Symbol, val: Tristate, m: Tristate, rank: Symbol -> nat,
                     v: Valuation, w: Valuation)
    requires s in defs && Acyclic(defs, rank) && Solves(defs, m, v) && Solves(Configured(defs, s, val), m, w)
    ensures var p := PartsOf(s, defs[s], m, EnvOf(v));
      InRange(p, Boolish(s, m), val) <==> p.visible != NO && p.visible > p.rev && w(s) == val
  {
    hide Formula, EnvOf, PartsOf, Below;
    AgreeBelow(defs, s, val, m, rank, v, w, rank(s));
    var d := Configured(defs, s, val)[s];
    ConfiguredAcyclic(defs, s, val, rank);
    FormulaAgrees(s, d, m, v, w, rank, rank(s));
    ConfiguredParts(defs, s, val, s, m, EnvOf(v));
    UserFormula(s, d, m, EnvOf(v));
    PartsPromoted(s, d, m, EnvOf(v));
  }

  lemma PartsPromoted(s: Symbol, d: Definition, m: Tristate, env: Env)
    ensures Boolish(s, m) ==> PartsOf(s, d, m, env).visible != MOD && PartsOf(s, d, m, env).rev != MOD
  {
    hide MaxPrompt, OrElse;
  }

  /** Setting the value that a symbol has keeps the old solution if and only if the symbol is not
      visible, or its value is not above its visibility, or it is selected to that value. */
  lemma KeptExactly(defs: Config, s: Symbol, m: Tristate, rank: Symbol -> nat, v: Valuation)
    requires s in defs && Acyclic(defs, rank) && Solves(defs, m, v)
    ensures var p := PartsOf(s, defs[s], m, EnvOf(v));
      Solves(Configured(defs, s, v(s)), m, v) <==> p.visible == NO || v(s) <= p.visible || v(s) == p.rev
  {
    hide EnvOf, Below, MaxPrompt, FirstDefault, OrElse;
    var defs' := Configured(defs, s, v(s));
    var d' := defs'[s];
    ConfiguredParts(defs, s, v(s), s, m, EnvOf(v));
    UserFormula(s, d', m, EnvOf(v));
    UserValue(s, defs[s], m, EnvOf(v), v(s));
    assert Solves(defs', m, v) <==> v(s) == Formula(s, d', m, EnvOf(v)) by {
      SolvesOthers(defs, s, m, v);
    }
  }

  lemma SolvesOthers(defs: Config, s: Symbol, m: Tristate, v: Valuation)
    requires s in defs && Solves(defs, m, v)
    ensures var defs' := Configured(defs, s, v(s)); Solves(defs', m, v) <==> v(s) == Formula(s, defs'[s], m, EnvOf(v))
  {
    hide Formula, EnvOf;
    var defs' := Configured(defs, s, v(s));
    if v(s) == Formula(s, defs'[s], m, EnvOf(v)) {
      forall x: Symbol ensures v(x) == if x in defs' then Formula(x, defs'[x], m, EnvOf(v)) else ConstTri(x) {
        if x != s { assert x in defs' ==> defs'[x] == defs[x]; }
      }
    }
  }

  lemma UserValue(s: Symbol, d: Definition, m: Tristate, env: Env, val: Tristate)
    requires val == Formula(s, d, m, env)
    ensures var p := PartsOf(s, d, m, env); var t := Formula(s, d.(user := Some(val)), m, env);
      t == val <==> p.visible == NO || val <= p.visible || val == p.rev
  {
    hide MaxPrompt, OrElse, FirstDefault;
  }

  /** A tristate symbol with a prompt that is only m and a default of y: its value is y, the user may set
      y, and from the next clearing on it is m. */
  lemma SetThenChanged(a: Symbol, x: Symbol, v: Valuation, w: Valuation)
    requires a.Is(Tristated) && x.Is(Tristated) && a != x
    requires var defs := map[
        a := Definition([Prompt(None)], None, None, None, Some(MOD)),
        x := Definition([Prompt(Some(Sym(a))), Default(None, None)], None, None, None, None)];
      Solves(defs, YES, v) && Solves(Configured(defs, x, YES), YES, w)
    ensures v(x) == YES && w(x) == MOD
  {
    var defs := map[
      a := Definition([Prompt(None)], None, None, None, Some(MOD)),
      x := Definition([Prompt(Some(Sym(a))), Default(None, None)], None, None, None, None)];
    assert v(a) == Formula(a, defs[a], YES, EnvOf(v)) == MOD by { PromptOnly(EnvOf(v)); }
    assert w(a) == Formula(a, defs[a], YES, EnvOf(w)) == MOD by { PromptOnly(EnvOf(w)); }
    PromptThenDefault(a, EnvOf(v));
    PromptThenDefault(a, EnvOf(w));
  }

  lemma PromptOnly(env: Env)
    ensures MaxPrompt([Prompt(None)], env) == YES
  {
    assert [Prompt(None)][..0] == [];
  }

  lemma PromptThenDefault(a: Symbol, env: Env)
    ensures var ps := [Prompt(Some(Sym(a))), Default(None, None)];
      MaxPrompt(ps, env) == env.tri(a) && FirstDefault(ps, env) == YES
  {
    var ps := [Prompt(Some(Sym(a))), Default(None, None)];
    assert ps[..1] == [Prompt(Some(Sym(a)))] && ps[..1][..0] == [];
    assert MaxPrompt(ps[..1], env) == env.tri(a);
    assert ps[1..] == [Default(None, None)];
  }

  class SymbolTable {
    var defs: Config               // constant but for the users' values
    const modules: Tristate        // modules_val, already calculated
    var valid: set<Symbol>         // symbols with SYMBOL_VALID
    var curr: map<Symbol, Tristate>
    var parts: map<Symbol, Parts>
    ghost var busy: set<Symbol>

    constructor (defs: Config, modules: Tristate)
      ensures this.defs == defs && this.modules == modules && busy == {}
      ensures forall w: Valuation :: Sound(w)
    {
      this.defs, this.modules := defs, modules;
      valid, busy := {}, {};
      curr, parts := map[], map[];
    }

    /** The fields of s are what the solution v says. */
    ghost predicate Known(s: Symbol, v: Valuation)
      reads this
    {
      && s in defs && s in curr && curr[s] == v(s)
      && s in parts && parts[s] == PartsOf(s, defs[s], modules, EnvOf(v))
    }

    /** Every finished symbol has its value in the solution v. */
    ghost predicate Sound(v: Valuation)
      reads this
    {
      busy <= valid && forall s :: s in valid && s !in busy ==> Known(s, v)
    }

    ghost predicate Solution(v: Valuation, rank: Symbol -> nat)
      reads this
    {
      Acyclic(defs, rank) && Solves(defs, modules, v)
    }

    ghost predicate BusyAbove(rank: Symbol -> nat, k: nat)
      reads this
    {
      forall b :: b in busy ==> rank(b) >= k
    }

    /** sym_clear_all_valid, before MODULES is calculated again: the cache is then right for every
        configuration, whatever it held before. */
    method ClearAllValid()
      requires busy == {}
      modifies this`valid
      ensures forall w: Valuation :: Sound(w)
    {
      valid := {};
    }

    /** sym_tristate_within_range */
    predicate WithinRange(s: Symbol, val: Tristate)
      reads this
      requires s in parts
    {
      InRange(parts[s], Boolish(s, modules), val)
    }

    /** sym_set_tristate_value on a calculated symbol.  A new value is accepted if it lies between what
        selects the symbol and its visibility, and the cache is then right for the new configuration;
        setting the value that the symbol has is always accepted and leaves the cache alone. */
    method SetTristateValue(s: Symbol, val: Tristate, ghost v: Valuation, ghost rank: Symbol -> nat) returns (ok: bool)
      requires Solution(v, rank) && Sound(v) && busy == {} && s in valid
      modifies this`defs, this`valid
      ensures s in old(defs) && Acyclic(defs, rank)
      ensures ok <==> val == v(s) || InRange(PartsOf(s, old(defs)[s], modules, EnvOf(v)), Boolish(s, modules), val)
      ensures defs == if ok then Configured(old(defs), s, val) else old(defs)
      ensures if ok && val != v(s) then forall w: Valuation :: Sound(w) else Sound(v) && valid == old(valid)
    {
      hide PartsOf, EnvOf, Solves;
      ConfiguredAcyclic(defs, s, val, rank);
      assert Known(s, v);
      var oldval := curr[s];
      if oldval != val && !WithinRange(s, val) { return false; }
      ghost var before := defs;
      defs := Configured(defs, s, val);
      if oldval != val {
        ClearAllValid();
      } else {
        forall x | x in valid ensures Known(x, v) { ConfiguredParts(before, s, val, x, modules, EnvOf(v)); }
      }
      ok := true;
    }

    method CalcValue(s: Symbol, ghost v: Valuation, ghost rank: Symbol -> nat) returns (t: Tristate)
      requires Solution(v, rank) && Sound(v) && BusyAbove(rank, rank(s) + 1)
      modifies this`valid, this`curr, this`parts, this`busy
      ensures Sound(v) && busy == old(busy) && old(valid) <= valid && SameOn(busy, old(parts), parts)
      ensures t == v(s)
      ensures s in defs ==> s in valid
      decreases rank(s), 3
    {
      if s !in defs { return ConstTri(s); }
      if s in valid { return curr[s]; }
      t := Calculate(s, v, rank);
    }

    lemma SolutionAt(s: Symbol, v: Valuation, rank: Symbol -> nat)
      requires Solution(v, rank) && s in defs
      ensures var wanted, p := Wanted(s, defs[s], modules, EnvOf(v)), PartsOf(s, defs[s], modules, EnvOf(v));
        v(s) == Bump(Max(wanted, p.rev), Boolish(s, modules))
    {
      hide Wanted, Selected, Visible;
    }

    lemma RankedAt(s: Symbol, v: Valuation, rank: Symbol -> nat)
      requires Solution(v, rank) && s in defs
      ensures Ranked(defs[s], rank, rank(s))
    {
      hide Solves;
    }

    method Calculate(s: Symbol, ghost v: Valuation, ghost rank: Symbol -> nat) returns (t: Tristate)
      requires Solution(v, rank) && Sound(v) && BusyAbove(rank, rank(s) + 1) && s in defs && s !in valid
      modifies this`valid, this`curr, this`parts, this`busy
      ensures Sound(v) && busy == old(busy) && old(valid) <= valid && SameOn(busy, old(parts), parts)
      ensures t == v(s) && s in valid
      decreases rank(s), 2
    {
      hide Wanted, PartsOf, EnvOf, Acyclic, Solves, Boolish;
      SolutionAt(s, v, rank);
      valid, busy := valid + {s}, busy + {s};
      CalcVisibility(s, v, rank);
      curr := curr[s := NO];
      var newval := CalcWanted(s, v, rank);
      newval := Max(newval, parts[s].rev);
      if newval == MOD && Boolish(s, modules) { newval := YES; }
      curr := curr[s := newval];
      busy := busy - {s};
      t := newval;
    }

    /** The value before reverse dependencies: the user's, or the default raised by implies. */
    method CalcWanted(s: Symbol, ghost v: Valuation, ghost rank: Symbol -> nat) returns (newval: Tristate)
      requires Solution(v, rank) && Sound(v) && BusyAbove(rank, rank(s)) && s in defs && s in busy
      requires s in parts && parts[s] == PartsOf(s, defs[s], modules, EnvOf(v))
      modifies this`valid, this`curr, this`parts, this`busy
      ensures Sound(v) && busy == old(busy) && old(valid) <= valid && SameOn(busy, old(parts), parts)
      ensures newval == Wanted(s, defs[s], modules, EnvOf(v))
      decreases rank(s), 1, 1
    {
      var d := defs[s];
      if parts[s].visible != NO && d.user.Some? {
        newval := Min(d.user.value, parts[s].visible);
      } else {
        newval := CalcDefault(s, v, rank);
        if parts[s].implied != NO {
          newval := Min(Max(newval, parts[s].implied), parts[s].dir);
        }
      }
    }

    /** sym_calc_visibility: the four tristates a symbol's value is made of. */
    method CalcVisibility(s: Symbol, ghost v: Valuation, ghost rank: Symbol -> nat)
      requires Solution(v, rank) && Sound(v) && BusyAbove(rank, rank(s)) && s in defs && s in busy
      modifies this`valid, this`curr, this`parts, this`busy
      ensures Sound(v) && busy == old(busy) && old(valid) <= valid && SameOn(busy - {s}, old(parts), parts)
      ensures s in parts && parts[s] == PartsOf(s, defs[s], modules, EnvOf(v))
      decreases rank(s), 1
    {
      hide Acyclic, Solves, Below, EnvOf, MaxPrompt, OrElse;
      RankedAt(s, v, rank);
      var d := defs[s];
      var tri := CalcPrompts(s, v, rank);
      var dir := OptValue(d.dirDep, YES, v, rank, rank(s));
      var rev := OptValue(d.revDep, NO, v, rank, rank(s));
      var imp := OptValue(d.implied, NO, v, rank, rank(s));
      var boolish := Boolish(s, modules);
      parts := parts[s := Parts(Bump(tri, boolish), Bump(dir, boolish), Bump(rev, boolish), Bump(imp, boolish))];
    }

    /** The loop over the prompts. */
    method CalcPrompts(s: Symbol, ghost v: Valuation, ghost rank: Symbol -> nat) returns (tri: Tristate)
      requires Solution(v, rank) && Sound(v) && BusyAbove(rank, rank(s)) && s in defs && s in busy
      modifies this`valid, this`curr, this`parts, this`busy
      ensures Sound(v) && busy == old(busy) && old(valid) <= valid && SameOn(busy, old(parts), parts)
      ensures tri == MaxPrompt(defs[s].props, EnvOf(v))
      decreases rank(s), 1, 1
    {
      hide Acyclic, Solves, Below, EnvOf, Eval, PartsOf;
      RankedAt(s, v, rank);
      var d := defs[s];
      tri := NO;
      for i := 0 to |d.props|
        invariant Sound(v) && busy == old(busy) && old(valid) <= valid && SameOn(busy, old(parts), parts)
        invariant tri == MaxPrompt(d.props[..i], EnvOf(v))
      {
        assert d.props[..i + 1][..i] == d.props[..i];
        if d.props[i].Prompt? {
          var x := OptValue(d.props[i].cond, YES, v, rank, rank(s));
          tri := Max(tri, x);
        }
      }
      assert d.props[..|d.props|] == d.props;
    }

    /** The first default whose condition is not n, cut down to that condition. */
    method CalcDefault(s: Symbol, ghost v: Valuation, ghost rank: Symbol -> nat) returns (t: Tristate)
      requires Solution(v, rank) && Sound(v) && BusyAbove(rank, rank(s)) && s in defs && s in busy
      modifies this`valid, this`curr, this`parts, this`busy
      ensures Sound(v) && busy == old(busy) && old(valid) <= valid && SameOn(busy, old(parts), parts)
      ensures t == FirstDefault(defs[s].props, EnvOf(v))
      decreases rank(s), 1, 0
    {
      hide Acyclic, Solves, Below, EnvOf, Eval, PartsOf;
      RankedAt(s, v, rank);
      var ps := defs[s].props;
      for i := 0 to |ps|
        invariant Sound(v) && busy == old(busy) && old(valid) <= valid && SameOn(busy, old(parts), parts)
        invariant FirstDefault(ps, EnvOf(v)) == FirstDefault(ps[i..], EnvOf(v))
      {
        assert ps[i..][1..] == ps[i + 1..];
        if ps[i].Default? {
          var cond := OptValue(ps[i].cond, YES, v, rank, rank(s));
          if cond != NO {
            var x := OptValue(ps[i].value, YES, v, rank, rank(s));
            return Min(x, cond);
          }
        }
      }
      return NO;
    }

    method OptValue(e: Option<Expr>, missing: Tristate, ghost v: Valuation, ghost rank: Symbol -> nat, ghost k: nat)
      returns (t: Tristate)
      requires Solution(v, rank) && Sound(v) && BusyAbove(rank, k) && Below(e, rank, k)
      modifies this`valid, this`curr, this`parts, this`busy
      ensures Sound(v) && busy == old(busy) && old(valid) <= valid && SameOn(busy, old(parts), parts)
      ensures t == OrElse(e, missing, EnvOf(v))
      decreases k, 0, 1, 0
    {
      match e
      case None => t := missing;
      case Some(x) => t := ExprValue(x, v, rank, k);
    }

    /** expr_calc_value. */
    method ExprValue(e: Expr, ghost v: Valuation, ghost rank: Symbol -> nat, ghost k: nat) returns (t: Tristate)
      requires Solution(v, rank) && Sound(v) && BusyAbove(rank, k) && Below(Some(e), rank, k)
      modifies this`valid, this`curr, this`parts, this`busy
      ensures Sound(v) && busy == old(busy) && old(valid) <= valid && SameOn(busy, old(parts), parts)
      ensures t == Eval(e, EnvOf(v))
      decreases k, 0, 0, e
    {
      match e
      case Sym(s) =>
        assert s in OptSymbols(Some(e));
        t := CalcValue(s, v, rank);
      case Not(x) =>
        assert OptSymbols(Some(x)) == OptSymbols(Some(e));
        var t1 := ExprValue(x, v, rank, k);
        t := 2 - t1;
      case Bin(op, l, r) =>
        assert OptSymbols(Some(e)) == OptSymbols(Some(l)) + OptSymbols(Some(r));
        var t1 := ExprValue(l, v, rank, k);
        var t2 := ExprValue(r, v, rank, k);
        t := Apply(op, t1, t2);
      case Cmp(rel, a, b) =>
        assert a in OptSymbols(Some(e)) && b in OptSymbols(Some(e));
        var ta := CalcValue(a, v, rank);
        var tb := CalcValue(b, v, rank);
        t := if Holds(rel, Compare(a, ta, b, tb)) then YES else NO;
    }

    /** Calculating symbols in any order, any number of times, from any earlier state of the cache
        gives each its value in the solution. */
    method CalcInOrder(order: seq<Symbol>, ghost v: Valuation, ghost rank: Symbol -> nat) returns (ts: seq<Tristate>)
      requires Solution(v, rank) && Sound(v) && busy == {}
      modifies this`valid, this`curr, this`parts, this`busy
      ensures Sound(v) && busy == {} && old(valid) <= valid
      ensures |ts| == |order| && forall i :: 0 <= i < |order| ==> ts[i] == v(order[i])
      ensures forall s :: s in order && s in defs ==> s in valid
    {
      hide Acyclic, Solves, PartsOf, EnvOf, Known;
      ts := [];
      for i := 0 to |order|
        invariant Sound(v) && busy == {} && old(valid) <= valid
        invariant |ts| == i && forall j :: 0 <= j < i ==> ts[j] == v(order[j])
        invariant forall j :: 0 <= j < i && order[j] in defs ==> order[j] in valid
      {
        var t := CalcValue(order[i], v, rank);
        ts := ts + [t];
      }
    }
  }
}

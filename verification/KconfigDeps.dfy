/**
sym_check_deps: the depth-first search for recursive dependencies.  SYMBOL_CHECK marks the
symbols on the search stack and SYMBOL_CHECKED those already entered; choices are not modelled.
*/
module KconfigDeps {
  import opened Wrappers
  import opened KconfigExpr
  import opened KconfigSymbol

  /** The expressions of a definition, in the order sym_check_sym_deps visits them. */
  function Expressions(d: Definition): seq<Option<Expr>> {
    [d.dirDep, d.revDep, d.implied] + PropertyExpressions(d.props)
  }

  function PropertyExpressions(ps: seq<Property>): seq<Option<Expr>> {
    if ps == [] then []
    else (if ps[0].Default? then [ps[0].cond, ps[0].value] else [ps[0].cond]) + PropertyExpressions(ps[1..])
  }

  function SymbolsOf(es: seq<Option<Expr>>): set<Symbol> {
    if es == [] then {} else OptSymbols(es[0]) + SymbolsOf(es[1..])
  }

  function Successors(defs: Config, s: Symbol): set<Symbol> {
    if s in defs then SymbolsOf(Expressions(defs[s])) else {}
  }

  /** Each symbol of the path depends on the next one. */
  ghost predicate IsPath(defs: Config, p: seq<Symbol>) {
    forall i, j :: 0 <= i < j < |p| && j == i + 1 ==> p[j] in Successors(defs, p[i])
  }

  ghost predicate IsCycle(defs: Config, p: seq<Symbol>) {
    |p| >= 2 && p[0] == p[|p| - 1] && IsPath(defs, p)
  }

  ghost predicate HasCycle(defs: Config) { exists p :: IsCycle(defs, p) }
  ghost predicate OnCycle(defs: Config, s: Symbol) { exists p :: IsCycle(defs, p) && p[0] == s }

  // ----- ranks and cycles exclude each other -----

  lemma {:induction false} SymbolsOfMember(es: seq<Option<Expr>>, i: nat, x: Symbol)
    requires i < |es| && x in OptSymbols(es[i])
    ensures x in SymbolsOf(es)
  {
    if i > 0 { SymbolsOfMember(es[1..], i - 1, x); }
  }

  lemma {:induction false} SymbolsOfBelow(es: seq<Option<Expr>>, rank: Symbol -> nat, k: nat)
    ensures (forall i :: 0 <= i < |es| ==> Below(es[i], rank, k)) <==> (forall x :: x in SymbolsOf(es) ==> rank(x) < k)
  {
    if es != [] {
      SymbolsOfBelow(es[1..], rank, k);
      if forall i :: 0 <= i < |es| ==> Below(es[i], rank, k) {
        forall i | 0 <= i < |es[1..]| ensures Below(es[1..][i], rank, k) { assert Below(es[i + 1], rank, k); }
      }
      if forall x :: x in SymbolsOf(es) ==> rank(x) < k {
        forall i | 0 <= i < |es| ensures Below(es[i], rank, k) {
          forall x | x in OptSymbols(es[i]) ensures rank(x) < k { SymbolsOfMember(es, i, x); }
        }
      }
    }
  }

  lemma {:induction false} SymbolsOfConcat(a: seq<Option<Expr>>, b: seq<Option<Expr>>)
    ensures SymbolsOf(a + b) == SymbolsOf(a) + SymbolsOf(b)
  {
    if a == [] {
      assert a + b == b;
    } else {
      assert (a + b)[1..] == a[1..] + b;
      SymbolsOfConcat(a[1..], b);
    }
  }

  ghost predicate AllBelow(xs: set<Symbol>, rank: Symbol -> nat, k: nat) { forall x :: x in xs ==> rank(x) < k }

  lemma {:induction false} PropertiesBelow(ps: seq<Property>, rank: Symbol -> nat, k: nat)
    ensures (forall i :: 0 <= i < |ps| ==> BelowProperty(ps[i], rank, k)) <==>
      AllBelow(SymbolsOf(PropertyExpressions(ps)), rank, k)
  {
    if ps != [] {
      var p, rest := ps[0], ps[1..];
      PropertiesBelow(rest, rank, k);
      PropertyFirst(p, rest);
      if forall i :: 0 <= i < |ps| ==> BelowProperty(ps[i], rank, k) {
        forall i | 0 <= i < |rest| ensures BelowProperty(rest[i], rank, k) { assert BelowProperty(ps[i + 1], rank, k); }
      }
      if AllBelow(SymbolsOf(PropertyExpressions(ps)), rank, k) {
        forall i | 0 <= i < |ps| ensures BelowProperty(ps[i], rank, k) {
          if i > 0 { assert ps[i] == rest[i - 1]; }
        }
      }
    }
  }

  lemma PropertyFirst(p: Property, rest: seq<Property>)
    ensures SymbolsOf(PropertyExpressions([p] + rest)) ==
      OptSymbols(p.cond) + (if p.Default? then OptSymbols(p.value) else {}) + SymbolsOf(PropertyExpressions(rest))
  {
    var own := if p.Default? then [p.cond, p.value] else [p.cond];
    assert ([p] + rest)[1..] == rest;
    SymbolsOfConcat(own, PropertyExpressions(rest));
    assert own[1..] == if p.Default? then [p.value] else [];
    if p.Default? { assert [p.value][1..] == []; }
  }

  /** The evaluator's notion of acyclic, in terms of successors. */
  lemma RankedBySuccessors(d: Definition, rank: Symbol -> nat, k: nat)
    ensures Ranked(d, rank, k) <==> (forall x :: x in SymbolsOf(Expressions(d)) ==> rank(x) < k)
  {
    hide BelowProperty, PropertyExpressions;
    var three := [d.dirDep, d.revDep, d.implied];
    SymbolsOfConcat(three, PropertyExpressions(d.props));
    SymbolsOfBelow(three, rank, k);
    PropertiesBelow(d.props, rank, k);
    assert three[0] == d.dirDep && three[1] == d.revDep && three[2] == d.implied;
  }

  lemma AcyclicBySuccessors(defs: Config, rank: Symbol -> nat)
    ensures Acyclic(defs, rank) <==> (forall s, x :: x in Successors(defs, s) ==> rank(x) < rank(s))
  {
    forall s | s in defs
      ensures Ranked(defs[s], rank, rank(s)) <==> (forall x :: x in Successors(defs, s) ==> rank(x) < rank(s))
    {
      RankedBySuccessors(defs[s], rank, rank(s));
    }
    if forall s, x :: x in Successors(defs, s) ==> rank(x) < rank(s) {
      forall s | s in defs ensures Ranked(defs[s], rank, rank(s)) {
        assert forall x :: x in Successors(defs, s) ==> rank(x) < rank(s);
      }
    }
  }

  lemma {:induction false} RankFalls(defs: Config, rank: Symbol -> nat, p: seq<Symbol>, i: nat)
    requires Acyclic(defs, rank) && IsPath(defs, p) && 0 < i < |p|
    ensures rank(p[i]) < rank(p[0])
  {
    AcyclicBySuccessors(defs, rank);
    assert p[i] in Successors(defs, p[i - 1]);
    if i > 1 { RankFalls(defs, rank, p, i - 1); }
  }

  lemma AcyclicHasNoCycle(defs: Config, rank: Symbol -> nat)
    requires Acyclic(defs, rank)
    ensures !HasCycle(defs)
  {
    forall p | IsCycle(defs, p) ensures false { RankFalls(defs, rank, p, |p| - 1); }
  }

  // ----- the order in which symbols finish -----

  type Order = map<Symbol, nat>

  /** Everything a finished symbol depends on finished before it. */
  ghost predicate Topological(defs: Config, order: Order) {
    forall x, y :: x in order && y in Successors(defs, x) ==> y in order && order[y] < order[x]
  }

  ghost predicate Bounded(order: Order, time: nat) { forall x :: x in order ==> order[x] < time }

  ghost function FinishRank(order: Order): Symbol -> nat {
    (s: Symbol) => if s in order then order[s] else 0
  }

  lemma FinishedIsAcyclic(defs: Config, order: Order)
    requires Topological(defs, order) && defs.Keys <= order.Keys
    ensures Acyclic(defs, FinishRank(order))
  {
    AcyclicBySuccessors(defs, FinishRank(order));
  }

  ghost predicate Covered(xs: set<Symbol>, order: Order) { forall x :: x in xs ==> x in order }
  ghost predicate Extends(order: Order, order': Order) { forall x :: x in order ==> x in order' }

  ghost predicate Closed(defs: Config, universe: set<Symbol>) {
    forall x :: x in universe ==> Successors(defs, x) <= universe
  }

  ghost predicate StackOk(defs: Config, stack: seq<Symbol>, check: set<Symbol>, checked: set<Symbol>) {
    && (forall x :: x in check ==> x in stack && x in checked)
    && (forall x :: x in stack ==> x in check)
    && IsPath(defs, stack)
  }

  ghost predicate Accounted(defs: Config, order: Order, time: nat, check: set<Symbol>, checked: set<Symbol>) {
    && Topological(defs, order) && Bounded(order, time)
    && (forall x :: x in checked ==> x in check || x in order)
    && (forall x :: x in order ==> x in checked && x !in check)
  }

  lemma Push(defs: Config, stack: seq<Symbol>, check: set<Symbol>, checked: set<Symbol>, s: Symbol)
    requires StackOk(defs, stack, check, checked)
    requires stack == [] || s in Successors(defs, stack[|stack| - 1])
    ensures StackOk(defs, stack + [s], check + {s}, checked + {s})
  {
  }

  lemma Enter(defs: Config, order: Order, time: nat, check: set<Symbol>, checked: set<Symbol>, s: Symbol)
    requires Accounted(defs, order, time, check, checked) && s !in checked
    ensures Accounted(defs, order, time, check + {s}, checked + {s})
  {
  }

  lemma Finish(defs: Config, order: Order, time: nat, check: set<Symbol>, checked: set<Symbol>, s: Symbol)
    requires Accounted(defs, order, time, check + {s}, checked) && Covered(Successors(defs, s), order)
    requires s !in check && s in checked
    ensures Accounted(defs, order[s := time], time + 1, check, checked)
  {
    var order' := order[s := time];
    forall x, y | x in order' && y in Successors(defs, x) ensures y in order' && order'[y] < order'[x] {
      assert y in order;
    }
  }

  // ----- the search -----

  class Checker {
    const defs: Config
    var check: set<Symbol>
    var checked: set<Symbol>
    ghost var order: Order
    ghost var time: nat

    constructor (defs: Config)
      ensures this.defs == defs && check == {} && checked == {} && order == map[] && time == 0
    {
      this.defs := defs;
      check, checked, order, time := {}, {}, map[], 0;
    }

    /** The flagged symbols are the search stack, which is a dependency path. */
    ghost predicate StackIsPath(stack: seq<Symbol>)
      reads this
    {
      StackOk(defs, stack, check, checked)
    }

    /** No search has failed yet: every entered symbol is on the stack or properly finished. */
    ghost predicate Clean()
      reads this
    {
      Accounted(defs, order, time, check, checked)
    }

    ghost predicate Next(stack: seq<Symbol>, s: Symbol) {
      stack == [] || s in Successors(defs, stack[|stack| - 1])
    }

    lemma CloseCycle(stack: seq<Symbol>, s: Symbol)
      requires StackIsPath(stack) && Next(stack, s) && s in check
      ensures OnCycle(defs, s)
    {
      var i :| 0 <= i < |stack| && stack[i] == s;
      assert IsCycle(defs, stack[i..] + [s]);
    }

    method CheckDeps(s: Symbol, ghost stack: seq<Symbol>, ghost universe: set<Symbol>) returns (r: Option<Symbol>)
      requires StackIsPath(stack) && Next(stack, s) && s in universe && Closed(defs, universe)
      modifies this
      ensures check == old(check) && old(checked) <= checked
      ensures r.Some? ==> OnCycle(defs, r.value)
      ensures r.None? && old(Clean()) ==> Clean() && Extends(old(order), order) && s in order
      decreases universe - checked, 0, 1
    {
      if s in check {
        CloseCycle(stack, s);
        return Some(s);
      }
      if s in checked { return None; }
      r := Explore(s, stack, universe);
    }

    /** Mark s, search everything it depends on, unmark it. */
    method Explore(s: Symbol, ghost stack: seq<Symbol>, ghost universe: set<Symbol>) returns (r: Option<Symbol>)
      requires StackIsPath(stack) && Next(stack, s) && s in universe && s !in checked && Closed(defs, universe)
      modifies this
      ensures check == old(check) && old(checked) <= checked
      ensures r.Some? ==> OnCycle(defs, r.value)
      ensures r.None? && old(Clean()) ==> Clean() && Extends(old(order), order) && s in order
      decreases universe - checked, 0, 0
    {
      ghost var c0, clean := check, Clean();
      Push(defs, stack, check, checked, s);
      if clean { Enter(defs, order, time, check, checked, s); }
      check, checked := check + {s}, checked + {s};
      r := CheckSymDeps(s, stack + [s], universe);
      if r.None? && clean { Record(s); }
      check := check - {s};
      assert check == c0;
    }

    ghost method Record(s: Symbol)
      requires Clean() && s in check && s in checked && Covered(Successors(defs, s), order)
      modifies this`order, this`time
      ensures Accounted(defs, order, time, check - {s}, checked)
      ensures Extends(old(order), order) && s in order
    {
      assert check == (check - {s}) + {s};
      Finish(defs, order, time, check - {s}, checked, s);
      order, time := order[s := time], time + 1;
    }

    method CheckSymDeps(s: Symbol, ghost stack: seq<Symbol>, ghost universe: set<Symbol>) returns (r: Option<Symbol>)
      requires StackIsPath(stack) && stack != [] && stack[|stack| - 1] == s && s in universe && Closed(defs, universe)
      modifies this
      ensures check == old(check) && old(checked) <= checked
      ensures r.Some? ==> OnCycle(defs, r.value)
      ensures r.None? && old(Clean()) ==> Clean() && Extends(old(order), order) && Covered(Successors(defs, s), order)
      decreases universe - checked, 2
    {
      hide IsPath, Accounted, Expressions, OptSymbols, Closed, OnCycle;
      r := None;
      if s !in defs { return; }
      var es := Expressions(defs[s]);
      for i := 0 to |es|
        invariant r.None? && StackIsPath(stack) && check == old(check) && old(checked) <= checked
        invariant old(Clean()) ==> Clean() && Extends(old(order), order) && Covered(SymbolsOf(es[..i]), order)
      {
        SymbolsOfNext(es, i);
        if es[i].Some? {
          SymbolsOfSome(es[i].value);
          ClosedAt(defs, universe, s);
          r := CheckExprDeps(es[i].value, s, stack, universe);
          if r.Some? { return; }
        }
      }
      assert es[..|es|] == es;
    }

    method CheckExprDeps(e: Expr, s: Symbol, ghost stack: seq<Symbol>, ghost universe: set<Symbol>)
      returns (r: Option<Symbol>)
      requires StackIsPath(stack) && stack != [] && stack[|stack| - 1] == s
      requires Symbols(e) <= Successors(defs, s) <= universe && Closed(defs, universe)
      modifies this
      ensures check == old(check) && old(checked) <= checked
      ensures r.Some? ==> OnCycle(defs, r.value)
      ensures r.None? && old(Clean()) ==> Clean() && Extends(old(order), order) && Covered(Symbols(e), order)
      decreases universe - checked, 1, e
    {
      match e
      case Not(x) =>
        r := CheckExprDeps(x, s, stack, universe);
      case Bin(_, a, b) =>
        r := CheckExprDeps(a, s, stack, universe);
        if r.None? {
          r := CheckExprDeps(b, s, stack, universe);
        }
      case Sym(x) =>
        r := CheckDeps(x, stack, universe);
      case Cmp(_, a, b) =>
        r := CheckDeps(a, stack, universe);
        if r.None? {
          r := CheckDeps(b, stack, universe);
        }
    }
  }

  lemma SymbolsOfNext(es: seq<Option<Expr>>, i: nat)
    requires i < |es|
    ensures SymbolsOf(es[..i + 1]) == SymbolsOf(es[..i]) + OptSymbols(es[i]) && OptSymbols(es[i]) <= SymbolsOf(es)
    ensures es[i].None? ==> OptSymbols(es[i]) == {}
  {
    assert es == es[..i] + es[i..] && es[i..][0] == es[i];
    SymbolsOfConcat(es[..i], es[i..]);
    assert es[..i + 1] == es[..i] + [es[i]];
    SymbolsOfConcat(es[..i], [es[i]]);
  }

  lemma SymbolsOfSome(e: Expr)
    ensures OptSymbols(Some(e)) == Symbols(e)
  {
  }

  lemma ClosedAt(defs: Config, universe: set<Symbol>, s: Symbol)
    requires Closed(defs, universe) && s in universe
    ensures Successors(defs, s) <= universe
  {
  }

  /** The loop over all symbols after parsing: it counts an error exactly when some symbol depends
      on itself, and otherwise the configuration can be ranked, as the evaluator needs. */
  method CheckAll(defs: Config, symbols: seq<Symbol>) returns (errors: nat)
    requires forall s :: s in defs ==> s in symbols
    ensures errors > 0 <==> HasCycle(defs)
    ensures errors == 0 <==> exists rank :: Acyclic(defs, rank)
  {
    hide Accounted, StackOk, IsCycle, Acyclic, Closed, Successors;
    ghost var universe := Universe(defs, symbols);
    UniverseClosed(defs, symbols);
    var c := new Checker(defs);
    FreshFlags(defs);
    errors := 0;
    for i := 0 to |symbols|
      invariant c.defs == defs && c.check == {} && fresh(c)
      invariant errors > 0 ==> HasCycle(defs)
      invariant errors == 0 ==> c.Clean() && forall j :: 0 <= j < i ==> symbols[j] in c.order
    {
      EmptyStack(defs, c.checked);
      var r := c.CheckDeps(symbols[i], [], universe);
      if r.Some? {
        assert OnCycle(defs, r.value);
        errors := errors + 1;
      }
    }
    if errors == 0 {
      SearchFinished(defs, c.order, c.time, c.check, c.checked);
    } else {
      forall rank | Acyclic(defs, rank) ensures false { AcyclicHasNoCycle(defs, rank); }
    }
  }

  ghost function Universe(defs: Config, symbols: seq<Symbol>): set<Symbol> {
    (set s | s in symbols) + (set x, y | x in defs && y in Successors(defs, x) :: y)
  }

  lemma UniverseClosed(defs: Config, symbols: seq<Symbol>)
    ensures Closed(defs, Universe(defs, symbols)) && forall i :: 0 <= i < |symbols| ==>
      symbols[i] in Universe(defs, symbols)
  {
    hide SymbolsOf, Expressions;
  }

  lemma FreshFlags(defs: Config)
    ensures Accounted(defs, map[], 0, {}, {})
  {
  }

  lemma EmptyStack(defs: Config, checked: set<Symbol>)
    ensures StackOk(defs, [], {}, checked)
  {
  }

  lemma SearchFinished(defs: Config, order: Order, time: nat, check: set<Symbol>, checked: set<Symbol>)
    requires Accounted(defs, order, time, check, checked) && defs.Keys <= order.Keys
    ensures !HasCycle(defs) && exists rank :: Acyclic(defs, rank)
  {
    hide Acyclic, Successors;
    FinishedIsAcyclic(defs, order);
    AcyclicHasNoCycle(defs, FinishRank(order));
  }
}

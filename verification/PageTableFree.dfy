/**
Tearing down an address space: which pages teardown gives back to the allocator, and what is left.
*/
module PageTableFree {
  import opened PageTable

  /** The tables of s at or below the place `at`. */
  ghost function Sub(o: Owner, s: nat, at: seq<nat>): set<nat> { set x | x in o && o[x].space == s && at <= o[x].at }

  /** The tables of s below the first n entries of the table at `at`. */
  ghost function Below(o: Owner, s: nat, at: seq<nat>, n: nat): set<nat> {
    set x | x in o && o[x].space == s && |o[x].at| > |at| && at <= o[x].at && o[x].at[|at|] < n
  }

  /** The list holds each member of the set exactly once. */
  ghost predicate Once(l: seq<nat>, all: set<nat>) {
    && (forall x :: x in l <==> x in all)
    && (forall j, k :: 0 <= j < k < |l| ==> l[j] != l[k])
  }

  lemma OnceAppend(l: seq<nat>, all: set<nat>, l': seq<nat>, all': set<nat>)
    requires Once(l, all) && Once(l', all') && all !! all'
    ensures Once(l + l', all + all')
  {
    forall j, k | 0 <= j < k < |l + l'| ensures (l + l')[j] != (l + l')[k] {
      assert k < |l| || l'[k - |l|] in l';
    }
  }

  lemma BelowStep(o: Owner, s: nat, at: seq<nat>, n: nat)
    ensures Below(o, s, at, n + 1) == Below(o, s, at, n) + Sub(o, s, at + [n])
    ensures Below(o, s, at, n) !! Sub(o, s, at + [n])
  {
    forall x | x in o ensures at + [n] <= o[x].at <==> |o[x].at| > |at| && at <= o[x].at && o[x].at[|at|] == n {
      if |o[x].at| > |at| && at <= o[x].at && o[x].at[|at|] == n { assert o[x].at[..|at| + 1] == at + [n]; }
      if at + [n] <= o[x].at { assert (at + [n])[|at|] == n; }
    }
  }

  lemma BelowNone(o: Owner, s: nat, at: seq<nat>)
    ensures Below(o, s, at, 0) == {} && Once([], {})
  {
  }

  lemma SubIs(c: Config, o: Owner, s: nat, at: seq<nat>, t: nat)
    requires c.Depth() > 0 && Distinct(o) && UserPlaces(c, o) && t in o && o[t] == Place(s, at)
    ensures Sub(o, s, at) == Below(o, s, at, Fanout(c)) + {t} && t !in Below(o, s, at, Fanout(c))
  {
    hide Fanout;
    forall x | x in o && o[x].space == s && at <= o[x].at ensures x in Below(o, s, at, Fanout(c)) || x == t {
      if |o[x].at| == |at| { assert o[x].at == at; }
    }
  }

  /** Every table hangs below the tables on its path: an absent entry has nothing below it. */
  lemma {:induction false} SomethingBelow(m: Memory, o: Owner, t: nat, i: nat, x: nat)
    requires Distinct(o) && Linked(m, o) && t in o && t in m && i < |m[t]|
    requires x in o && o[x].space == o[t].space && o[t].at + [i] <= o[x].at
    ensures Present(m[t][i])
    decreases |o[x].at|
  {
    var at := o[x].at;
    var u :| Links(m, o, u, x);
    if |at| == |o[t].at| + 1 {
      assert at[..|at| - 1] == o[t].at;
      assert at[|at| - 1] == (o[t].at + [i])[|at| - 1] == i;
    } else {
      assert o[t].at + [i] <= at[..|at| - 1];
      SomethingBelow(m, o, t, i, u);
    }
  }

  lemma EntryFacts(c: Config, m: Memory, o: Owner, roots: map<nat, nat>, kpt: nat, t: nat, i: nat)
    requires State(c, m, o, roots, kpt) && c.user && t in o && i < Fanout(c)
    ensures t in m && i < |m[t]|
    ensures Present(m[t][i]) && User(m[t][i]) && |o[t].at| + 1 < c.Depth() ==>
      Base(m[t][i]) in o && o[Base(m[t][i])] == Place(o[t].space, o[t].at + [i])
    ensures !(Present(m[t][i]) && User(m[t][i])) ==> Sub(o, o[t].space, o[t].at + [i]) == {}
  {
    hide Fanout, Contiguous, Separate, Linked;
    assert NodeOk(c, m, o, t);
    forall x | x in Sub(o, o[t].space, o[t].at + [i]) ensures Present(m[t][i]) && User(m[t][i]) {
      SomethingBelow(m, o, t, i, x);
      assert NodeOk(c, m, o, x);
      assert o[x].at[0] == (o[t].at + [i])[0];
    }
  }

  lemma SubDeep(c: Config, m: Memory, o: Owner, roots: map<nat, nat>, kpt: nat, s: nat, at: seq<nat>)
    requires State(c, m, o, roots, kpt) && |at| >= c.Depth()
    ensures Sub(o, s, at) == {}
  {
    forall x | x in o ensures !(at <= o[x].at) { TableFacts(c, m, o, roots, kpt, x); }
  }

  /** teardown of the table t at the place (s, at), when the tables `gone` were freed before: frees
      every table at or below that place once, and nothing else. */
  method Teardown(mmu: Mmu, level: nat, t: nat, ghost m0: Memory, ghost gone: set<nat>, ghost s: nat,
                  ghost at: seq<nat>)
    returns (ghost freed: seq<nat>)
    requires State(mmu.c, m0, mmu.owner, mmu.roots, mmu.kpt) && mmu.c.user && level == |at| + 1
    requires level <= mmu.c.Depth() ==> t in mmu.owner && mmu.owner[t] == Place(s, at) && gone !! Sub(mmu.owner, s, at)
    requires mmu.mem == m0 - gone
    modifies mmu`mem, mmu`supply
    ensures mmu.mem == m0 - (gone + Sub(mmu.owner, s, at))
    ensures mmu.supply == old(mmu.supply) + freed && Once(freed, Sub(mmu.owner, s, at))
    decreases mmu.c.Depth() + 1 - level
  {
    hide State, Sub, Below, Once, Fanout, Contiguous, Separate, Nodes;
    var c := mmu.c;
    ghost var o := mmu.owner;
    freed := [];
    BelowNone(o, s, at);
    OwnedInMemory(c, m0, o, mmu.roots, mmu.kpt);
    if level > c.Depth() {
      SubDeep(c, m0, o, mmu.roots, mmu.kpt, s, at);
      assert m0 - (gone + {}) == m0 - gone;
      return;
    }
    SubParts(c, m0, o, mmu.roots, mmu.kpt, s, at, t);
    var index := 0;
    while index < Fanout(c)
      invariant index <= Fanout(c)
      invariant mmu.mem == m0 - (gone + Below(o, s, at, index))
      invariant mmu.supply == old(mmu.supply) + freed && Once(freed, Below(o, s, at, index))
    {
      EntryFacts(c, m0, o, mmu.roots, mmu.kpt, t, index);
      BelowInside(o, s, at, index, Fanout(c));
      BelowStep(o, s, at, index);
      ghost var more := [];
      if Present(mmu.mem[t][index]) && User(mmu.mem[t][index]) {
        more := Teardown(mmu, level + 1, Base(mmu.mem[t][index]), m0, gone + Below(o, s, at, index), s, at + [index]);
      }
      OnceAppend(freed, Below(o, s, at, index), more, Sub(o, s, at + [index]));
      assert gone + Below(o, s, at, index) + Sub(o, s, at + [index]) == gone + Below(o, s, at, index + 1);
      freed := freed + more;
      index := index + 1;
    }
    mmu.supply := mmu.supply + [t];
    mmu.mem := mmu.mem - {t};
    OnceOne(t);
    OnceAppend(freed, Below(o, s, at, Fanout(c)), [t], {t});
    freed := freed + [t];
    assert gone + Below(o, s, at, Fanout(c)) + {t} == gone + Sub(o, s, at);
  }

  lemma OnceOne(t: nat)
    ensures Once([t], {t})
  {
  }

  /** What the first n entries lead to is below the place, but not at it. */
  lemma BelowInside(o: Owner, s: nat, at: seq<nat>, n: nat, all: nat)
    requires n < all
    ensures Below(o, s, at, n) <= Below(o, s, at, all) && Sub(o, s, at + [n]) <= Below(o, s, at, all)
  {
    BelowStep(o, s, at, n);
    assert Below(o, s, at, n + 1) <= Below(o, s, at, all);
  }

  lemma SubParts(c: Config, m: Memory, o: Owner, roots: map<nat, nat>, kpt: nat, s: nat, at: seq<nat>, t: nat)
    requires State(c, m, o, roots, kpt) && t in o && o[t] == Place(s, at)
    ensures c.Depth() > 0
    ensures Sub(o, s, at) == Below(o, s, at, Fanout(c)) + {t} && t !in Below(o, s, at, Fanout(c))
  {
    hide Fanout, Contiguous, Separate, Nodes, Linked;
    SubIs(c, o, s, at, t);
  }

  /** unprotect: gives back exactly the tables of s, each once; every other page of memory is as
      before and every other address space keeps its translations. */
  method Unprotect(mmu: Mmu, s: nat) returns (ghost freed: seq<nat>)
    requires mmu.Valid() && mmu.c.user && s in mmu.roots
    modifies mmu
    ensures mmu.Valid() && mmu.roots == old(mmu.roots) - {s}
    ensures mmu.supply == old(mmu.supply) + freed
    ensures Once(freed, set x | x in old(mmu.owner) && old(mmu.owner)[x].space == s)
    ensures mmu.mem == old(mmu.mem) - (set x | x in old(mmu.owner) && old(mmu.owner)[x].space == s)
    ensures mmu.owner == old(mmu.owner) - (set x | x in old(mmu.owner) && old(mmu.owner)[x].space == s)
    ensures SamePages(mmu.c, old(mmu.mem), mmu.mem, mmu.roots)
    ensures KernelKeeps(mmu.c, old(mmu.mem), old(mmu.owner), mmu.mem, mmu.owner, mmu.roots, mmu.kpt)
    ensures mmu.kpt !in old(mmu.owner) ==> mmu.kpt !in freed
  {
    hide State, Once, Fresh, SamePages, KernelKeeps, OthersKept;
    ghost var m0, o0, gone := mmu.mem, mmu.owner, Sub(mmu.owner, s, []);
    OwnedInMemory(mmu.c, mmu.mem, mmu.owner, mmu.roots, mmu.kpt);
    assert m0 - {} == m0;
    freed := Teardown(mmu, 1, mmu.roots[s], mmu.mem, {}, s, []);
    assert gone == set x | x in o0 && o0[x].space == s;
    assert {} + gone == gone;
    RemoveSpace(mmu.c, m0, o0, mmu.roots, mmu.kpt, s, gone);
    SupplyReturned(mmu.c, m0, o0, mmu.roots, mmu.kpt, old(mmu.supply), freed, gone);
    if mmu.kpt !in mmu.owner { NotFreed(freed, gone, mmu.kpt); }
    mmu.owner := mmu.owner - gone;
    mmu.roots := mmu.roots - {s};
    KernelUnfreed(mmu.c, m0, o0, gone, mmu.roots, mmu.kpt);
  }

  lemma KernelUnfreed(c: Config, m: Memory, o: Owner, gone: set<nat>, roots': map<nat, nat>, kpt: nat)
    requires gone <= o.Keys && State(c, m - gone, o - gone, roots', kpt)
    ensures KernelKeeps(c, m, o, m - gone, o - gone, roots', kpt)
  {
    hide State, Kernel, KernelSame;
    assert OthersKept(m, o, m - gone, o - gone);
    if c.Depth() > 0 && Kernel(c, m, o, kpt) { KernelViews(c, m, o, m - gone, o - gone, roots', kpt); }
  }

  lemma NotFreed(freed: seq<nat>, gone: set<nat>, x: nat)
    requires Once(freed, gone) && x !in gone
    ensures x !in freed
  {
  }

  lemma SupplyReturned(c: Config, m: Memory, o: Owner, roots: map<nat, nat>, kpt: nat, supply: seq<nat>,
                       freed: seq<nat>, gone: set<nat>)
    requires State(c, m, o, roots, kpt) && Fresh(m, supply) && Once(freed, gone) && gone <= o.Keys
    ensures Fresh(m - gone, supply + freed)
  {
    hide State;
    TablesAligned(c, m, o, roots, kpt);
    var all := supply + freed;
    forall k | 0 <= k < |all| ensures all[k] !in m - gone && Aligned(all[k]) {
      assert k < |supply| || freed[k - |supply|] in freed;
    }
    forall j, k | 0 <= j < k < |all| ensures all[j] != all[k] {
      assert k < |supply| || freed[k - |supply|] in freed;
    }
  }

  lemma TablesAligned(c: Config, m: Memory, o: Owner, roots: map<nat, nat>, kpt: nat)
    requires State(c, m, o, roots, kpt)
    ensures forall t :: t in o ==> t in m && Aligned(t)
  {
  }

  lemma RemoveSpace(c: Config, m: Memory, o: Owner, roots: map<nat, nat>, kpt: nat, s: nat, gone: set<nat>)
    requires State(c, m, o, roots, kpt) && s in roots
    requires gone == set x | x in o && o[x].space == s
    ensures State(c, m - gone, o - gone, roots - {s}, kpt) && SamePages(c, m, m - gone, roots - {s})
  {
    hide Contiguous, Separate, Fanout, Linked, Nodes, SamePages;
    RemoveNodes(c, m, o, s, gone);
    RemoveLinked(m, o, s, gone);
    RemovePages(c, m, o, roots, kpt, s, gone);
    OwnedInMemory(c, m, o, roots, kpt);
  }

  lemma RemoveNodes(c: Config, m: Memory, o: Owner, s: nat, gone: set<nat>)
    requires c.Depth() >= 2 && Nodes(c, m, o) && gone == set x | x in o && o[x].space == s
    ensures Nodes(c, m - gone, o - gone)
  {
    hide Fanout;
    var m', o' := m - gone, o - gone;
    forall t | t in o' ensures t in m' && NodeOk(c, m', o', t) {
      assert NodeOk(c, m, o, t);
    }
  }

  lemma RemoveLinked(m: Memory, o: Owner, s: nat, gone: set<nat>)
    requires Linked(m, o) && gone == set x | x in o && o[x].space == s
    ensures Linked(m - gone, o - gone)
  {
    var m', o' := m - gone, o - gone;
    forall t | t in o' && o'[t].at != [] ensures exists u :: Links(m', o', u, t) {
      var u :| Links(m, o, u, t);
      assert Links(m', o', u, t);
    }
  }

  lemma RemovePages(c: Config, m: Memory, o: Owner, roots: map<nat, nat>, kpt: nat, s: nat, gone: set<nat>)
    requires State(c, m, o, roots, kpt) && gone == set x | x in o && o[x].space == s
    ensures SamePages(c, m, m - gone, roots - {s})
  {
    hide State, PathOf, Lookup, Contiguous, Separate, Nodes;
    OwnedInMemory(c, m, o, roots, kpt);
    forall s', va | s' in roots - {s} && UserPage(c, va)
      ensures View(c, m - gone, roots[s'], va) == View(c, m, roots[s'], va)
    {
      PathBounds(c, va);
      LookupElsewhere(c, m, o, roots[s'], PathOf(c, va), m - gone);
    }
  }
}

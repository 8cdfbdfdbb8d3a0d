/**
vme_init with 32-bit paging: the kernel's tables, built by the same walk as the users' but without the
user flag, map every kernel address to itself.
*/
module PageTableInit {
  import opened Wrappers
  import opened Bits
  import opened PageTable

  /** The kernel's own tables: any address may be mapped and no slot is shared yet. */
  function KernelConfig(c: Config): Config {
    c.(userLo := 0, userHi := Pow2(c.wide), kernel := {}, areas := [], user := false)
  }

  lemma KernelConfigFits(c: Config)
    requires Contiguous(c) && c.wide <= c.word
    ensures var k := KernelConfig(c); Contiguous(k) && Separate(k) && AreasOk(k)
  {
  }

  predicate InArea(c: Config, a: Area, va: nat)
    requires c.Depth() > 0
  {
    Slot(c, a.first) <= va < Slot(c, a.first + a.slots)
  }

  predicate InAreas(c: Config, areas: seq<Area>, va: nat)
    requires c.Depth() > 0
  {
    exists k :: 0 <= k < |areas| && InArea(c, areas[k], va)
  }

  /** A page mapped to itself, writable and not for users. */
  function Itself(va: nat): Option<Frame> { Some(Frame(va, true, false)) }

  // ----- one page -----

  lemma ItselfEntry(va: nat)
    requires Aligned(va)
    ensures FrameOf(va + P + W) == Itself(va)
  {
    EntryParts(va, P + W);
  }

  /** *ptwalk(&as, va, PTE_W) = va | PTE_P | PTE_W */
  method MapItself(b: Mmu, va: nat) returns (ok: bool)
    requires b.Valid() && 0 in b.roots && UserPage(b.c, va)
    modifies b`mem, b`supply, b`owner
    ensures b.Valid()
    ensures ok ==> OnlyPage(b.c, old(b.mem), b.mem, b.roots, 0, va, Itself(va))
  {
    hide State, Grows, SameViews, SamePages, OnlyPage, Fresh, Leads, Reaches, View, PathOf, Contiguous, Separate, Nodes;
    var t, i;
    ok, t, i := b.Ptwalk(0, va);
    ViewsGivePages(b.c, old(b.mem), b.mem, b.owner, b.roots, b.kpt);
    if !ok { return; }
    OwnedInMemory(b.c, b.mem, b.owner, b.roots, b.kpt);
    ItselfEntry(va);
    SetLeafPage(b.c, b.mem, b.owner, b.roots, b.kpt, b.supply, 0, va, t, i, va + P + W);
    OnlyPageAfter(b.c, old(b.mem), b.mem, SetEntry(b.mem, t, i, va + P + W), b.roots, 0, va, Itself(va));
    b.mem := SetEntry(b.mem, t, i, va + P + W);
  }

  // ----- one area -----

  lemma {:induction false} ShiftAtLeast(c: Config, i: nat)
    requires Contiguous(c) && i < c.Depth()
    ensures c.levels[i].shift >= 12
    decreases c.Depth() - i
  {
    if i + 1 < c.Depth() { ShiftAtLeast(c, i + 1); }
  }

  /** The number of the first page of slot x. */
  function PageOf(c: Config, x: nat): nat
    requires c.Depth() > 0 && c.levels[0].shift >= 12
  {
    Up(x, c.levels[0].shift - 12)
  }

  lemma SlotPages(c: Config, x: nat)
    requires Contiguous(c)
    ensures c.levels[0].shift >= 12 && Slot(c, x) == PAGE * PageOf(c, x)
  {
    hide Up;
    ShiftAtLeast(c, 0);
    UpUp(x, c.levels[0].shift - 12, 12);
    Up12(PageOf(c, x));
  }

  /** vme_init's loop variable: page k of the area, which is not its end, and the one after it. */
  lemma PageStep(c: Config, a: Area, k: nat)
    requires c.Depth() > 0 && Contiguous(c) && c.wide <= c.word && a.first + a.slots <= Fanout(c) &&
      0 < a.slots < Fanout(c)
    requires c.levels[0].shift >= 12 && PageOf(c, a.first) <= k < PageOf(c, a.first + a.slots)
    ensures PAGE * k < Slot(c, a.first + a.slots) <= Pow2(c.wide) <= Pow2(c.word) && PAGE * k != End(c, a)
    ensures (PAGE * k + PAGE) % Pow2(c.word) ==
      if k + 1 < PageOf(c, a.first + a.slots) then PAGE * (k + 1) else End(c, a)
  {
    hide Up, Contiguous, IndexOf, Fanout, Slot, Pow2, PageOf, End;
    var top := a.first + a.slots;
    SlotPages(c, a.first);
    SlotPages(c, top);
    SlotIndex(c, top - 1);
    EndIs(c, a);
    if top < Fanout(c) { SlotIndex(c, top); } else { SlotBelow(c, 0, a.first); }
    assert PAGE * k < PAGE * PageOf(c, top) && PAGE * PageOf(c, a.first) <= PAGE * k;
    WrapDiffers(PAGE * k, Slot(c, top), Pow2(c.word));
    if k + 1 < PageOf(c, top) {
      assert PAGE * k + PAGE == PAGE * (k + 1) < PAGE * PageOf(c, top);
      SmallModulo(PAGE * (k + 1), Pow2(c.word));
    } else {
      assert PAGE * k + PAGE == PAGE * PageOf(c, top);
    }
  }

  /** Pages from lo up to hi map to themselves, the others as before. */
  ghost predicate Mapped(b: Config, m: Memory, m': Memory, root: nat, lo: nat, hi: nat) {
    forall va: nat :: UserPage(b, va) ==>
      View(b, m', root, va) == if lo <= va < hi then Itself(va) else View(b, m, root, va)
  }

  lemma MappedOne(b: Config, m0: Memory, m1: Memory, m2: Memory, roots: map<nat, nat>, lo: nat, va: nat)
    requires 0 in roots && Mapped(b, m0, m1, roots[0], lo, va) && OnlyPage(b, m1, m2, roots, 0, va, Itself(va))
    requires Aligned(va) && lo <= va
    ensures Mapped(b, m0, m2, roots[0], lo, va + PAGE)
  {
    hide View;
    forall x: nat | UserPage(b, x)
      ensures View(b, m2, roots[0], x) == if lo <= x < va + PAGE then Itself(x) else View(b, m0, roots[0], x)
    {
      NextPage(va, x);
    }
  }

  lemma NextPage(va: nat, x: nat)
    requires Aligned(va) && Aligned(x)
    ensures va < x ==> va + PAGE <= x
  {
  }

  method MapArea(b: Mmu, c: Config, a: Area) returns (ok: bool)
    requires b.Valid() && 0 in b.roots && b.c == KernelConfig(c) && Contiguous(c) && c.wide <= c.word && c.Depth() > 0
    requires a.first + a.slots <= Fanout(c) && 0 < a.slots < Fanout(c)
    modifies b`mem, b`supply, b`owner
    ensures b.Valid()
    ensures ok ==> Mapped(b.c, old(b.mem), b.mem, b.roots[0], Slot(c, a.first), Slot(c, a.first + a.slots))
  {
    hide State, Fresh, Mapped, OnlyPage, Contiguous, End, Up, Slot, PageOf, Fanout;
    var cur := Start(c, a);
    ghost var k := StartPage(c, a);
    ghost var top := PageOf(c, a.first + a.slots);
    MappedNone(b.c, b.mem, b.roots[0], cur);
    while cur != End(c, a)
      invariant b.Valid() && k <= top && PAGE * k >= Slot(c, a.first)
      invariant PageOf(c, a.first) <= k && cur == if k < top then PAGE * k else End(c, a)
      invariant Mapped(b.c, old(b.mem), b.mem, b.roots[0], Slot(c, a.first), PAGE * k)
      decreases top - k
    {
      PageStep(c, a, k);
      ghost var before := b.mem;
      ok := MapItself(b, cur);
      if !ok { return; }
      MappedOne(b.c, old(b.mem), before, b.mem, b.roots, Slot(c, a.first), cur);
      cur := (cur + PAGE) % Pow2(c.word);
      k := k + 1;
    }
    if k < top { PageStep(c, a, k); }
    SlotPages(c, a.first + a.slots);
    ok := true;
  }

  lemma StartPage(c: Config, a: Area) returns (k: nat)
    requires c.Depth() > 0 && Contiguous(c) && a.slots > 0
    ensures c.levels[0].shift >= 12 && k == PageOf(c, a.first) < PageOf(c, a.first + a.slots)
    ensures Start(c, a) == Slot(c, a.first) == PAGE * k
  {
    hide Up, Contiguous;
    SlotPages(c, a.first);
    k := PageOf(c, a.first);
    UpMonotone(a.first + a.slots, a.first, c.levels[0].shift - 12);
  }

  lemma MappedNone(b: Config, m: Memory, root: nat, lo: nat)
    ensures Mapped(b, m, m, root, lo, lo)
  {
    hide View;
  }

  // ----- all areas -----

  /** Pages of the areas map to themselves and no other page is mapped. */
  ghost predicate MapsAreas(c: Config, m: Memory, root: nat, areas: seq<Area>)
    requires c.Depth() > 0
  {
    forall va: nat :: va < Pow2(c.wide) && Aligned(va) ==>
      View(c, m, root, va) == if InAreas(c, areas, va) then Itself(va) else None
  }

  lemma SamePath(c: Config, m: Memory, root: nat, va: nat)
    ensures View(KernelConfig(c), m, root, va) == View(c, m, root, va)
  {
    hide IndexOf, Lookup;
    assert PathOf(KernelConfig(c), va) == PathOf(c, va);
  }

  lemma InAreasOne(c: Config, areas: seq<Area>, k: nat, va: nat)
    requires c.Depth() > 0 && k < |areas|
    ensures InAreas(c, areas[..k + 1], va) == (InAreas(c, areas[..k], va) || InArea(c, areas[k], va))
  {
    hide InArea;
    assert areas[..k + 1] == areas[..k] + [areas[k]];
    if InArea(c, areas[k], va) { assert InArea(c, areas[..k + 1][k], va); }
    if InAreas(c, areas[..k], va) {
      var j :| 0 <= j < k && InArea(c, areas[..k][j], va);
      assert InArea(c, areas[..k + 1][j], va);
    }
  }

  lemma MapsOneMore(c: Config, m: Memory, m': Memory, root: nat, k: nat)
    requires c.Depth() > 0 && k < |c.areas| && MapsAreas(c, m, root, c.areas[..k])
    requires var a := c.areas[k]; Mapped(KernelConfig(c), m, m', root, Slot(c, a.first), Slot(c, a.first + a.slots))
    ensures MapsAreas(c, m', root, c.areas[..k + 1])
  {
    hide View, InAreas, Slot, Pow2;
    forall va: nat | va < Pow2(c.wide) && Aligned(va)
      ensures View(c, m', root, va) == if InAreas(c, c.areas[..k + 1], va) then Itself(va) else None
    {
      InAreasOne(c, c.areas, k, va);
      SamePath(c, m, root, va);
      SamePath(c, m', root, va);
      assert UserPage(KernelConfig(c), va);
    }
  }

  lemma MapsNone(c: Config, m: Memory, root: nat)
    requires c.Depth() > 0 && forall va: nat :: UserPage(KernelConfig(c), va) ==>
      View(KernelConfig(c), m, root, va) == None
    ensures MapsAreas(c, m, root, [])
  {
    hide View, Pow2;
    forall va: nat | va < Pow2(c.wide) && Aligned(va) ensures View(c, m, root, va) == None {
      SamePath(c, m, root, va);
      assert UserPage(KernelConfig(c), va);
    }
  }

  // ----- handing the tables over -----

  /** The tables built are a kernel tree for address spaces that own nothing yet. */
  lemma {:induction false} BuiltTree(k: Config, m: Memory, owner: Owner, t: nat)
    requires k.Depth() >= 2 && k.kernel == {} && Nodes(k, m, owner) && t in owner && |owner[t].at| < k.Depth()
    ensures KernelTree(m, map[], t, k.Depth() - |owner[t].at|)
    decreases k.Depth() - |owner[t].at|
  {
    hide Fanout;
    assert NodeOk(k, m, owner, t);
    var n := k.Depth() - |owner[t].at|;
    forall i | 0 <= i < |m[t]| && Present(m[t][i]) ensures KernelTree(m, map[], Base(m[t][i]), n - 1) {
      if n > 1 { BuiltTree(k, m, owner, Base(m[t][i])); }
    }
  }

  lemma BuiltSlot(c: Config, m: Memory, owner: Owner, roots: map<nat, nat>, kpt: nat, i: nat)
    requires State(KernelConfig(c), m, owner, roots, kpt) && 0 in roots && c.Depth() >= 2 && i < Fanout(c)
    ensures KernelSlot(c, m, map[], roots[0], i)
    ensures Present(m[roots[0]][i]) ==> KernelTree(m, map[], Base(m[roots[0]][i]), c.Depth() - 1)
  {
    hide State, Nodes, Fanout, Contiguous, Separate, KernelTree;
    var k, root := KernelConfig(c), roots[0];
    assert Fanout(k) == Fanout(c) by { SameFanout(c); }
    OwnedInMemory(k, m, owner, roots, kpt);
    TableFacts(k, m, owner, roots, kpt, root);
    NodeAt(k, m, owner, root);
    if Present(m[root][i]) { BuiltTree(k, m, owner, Base(m[root][i])); }
  }

  lemma NodeAt(k: Config, m: Memory, owner: Owner, t: nat)
    requires k.Depth() >= 2 && Nodes(k, m, owner) && t in owner
    ensures t in m && NodeOk(k, m, owner, t)
  {
  }

  lemma SameFanout(c: Config)
    requires c.Depth() > 0
    ensures Fanout(KernelConfig(c)) == Fanout(c)
  {
  }

  lemma BuiltKernel(c: Config, m: Memory, owner: Owner, roots: map<nat, nat>, kpt: nat)
    requires State(KernelConfig(c), m, owner, roots, kpt) && 0 in roots && c.Depth() >= 2
    ensures Kernel(c, m, map[], roots[0])
    ensures forall i :: i in c.kernel && i < Fanout(c) ==> KernelSlot(c, m, map[], roots[0], i)
  {
    hide State, Fanout, KernelTree;
    forall i | i in c.kernel && i < Fanout(c)
      ensures KernelSlot(c, m, map[], roots[0], i) &&
        (Present(m[roots[0]][i]) ==> KernelTree(m, map[], Base(m[roots[0]][i]), c.Depth() - 1))
    {
      BuiltSlot(c, m, owner, roots, kpt, i);
    }
  }

  /** vme_init: None where it panics for lack of pages.  The first walk allocates the root. */
  method VmeInit(c: Config, mem: Memory, supply: seq<nat>) returns (r: Option<Mmu>)
    requires Contiguous(c) && Separate(c) && AreasOk(c) && Fresh(mem, supply)
    ensures r.Some? ==> var mmu := r.value;
      && fresh(mmu) && mmu.Valid() && mmu.c == c && mmu.roots == map[] && mmu.owner == map[]
      && Kernel(c, mmu.mem, mmu.owner, mmu.kpt) && MapsAreas(c, mmu.mem, mmu.kpt, c.areas)
  {
    hide State, Fresh, Contiguous, Separate, Mapped, MapsAreas, KernelSlot, Kernel, KernelKeeps, View, Slot, Up,
      Fanout, UserPage;
    ContiguousDepth(c);
    KernelConfigFits(c);
    var b := new Mmu(KernelConfig(c), 0, mem, supply);
    var p := b.Protect(0);
    if p == Panic { return None; }
    assert c.areas[..0] == [];
    MapsNone(c, b.mem, b.roots[0]);
    for k := 0 to |c.areas|
      invariant b.Valid() && fresh(b) && 0 in b.roots && b.c == KernelConfig(c)
      invariant MapsAreas(c, b.mem, b.roots[0], c.areas[..k])
    {
      ghost var before := b.mem;
      var ok := MapArea(b, c, c.areas[k]);
      if !ok { return None; }
      MapsOneMore(c, before, b.mem, b.roots[0], k);
    }
    assert c.areas[..|c.areas|] == c.areas;
    BuiltKernel(c, b.mem, b.owner, b.roots, b.kpt);
    var mmu := new Mmu(c, b.roots[0], b.mem, b.supply);
    r := Some(mmu);
  }

  lemma ContiguousDepth(c: Config)
    requires Contiguous(c)
    ensures c.Depth() >= 2
  {
  }

  /** From then on, whatever is mapped, created or torn down, every kernel page of every address space
      is mapped to itself, writable and closed to users. */
  lemma KernelIdentity(c: Config, m: Memory, kpt: nat, m': Memory, roots': map<nat, nat>, s: nat, va: nat)
    requires Contiguous(c) && AreasOk(c) && MapsAreas(c, m, kpt, c.areas) && KernelSame(c, m, kpt, m', roots')
    requires s in roots' && va < Pow2(c.wide) && Aligned(va) && InAreas(c, c.areas, va)
    ensures View(c, m', roots'[s], va) == Itself(va)
  {
    hide Lookup, Contiguous, IndexOf, Fanout, Slot, FrameOf, Pow2;
    ContiguousDepth(c);
    var j :| 0 <= j < |c.areas| && InArea(c, c.areas[j], va);
    var a := c.areas[j];
    SlotRange(c, va, a.first, a.first + a.slots);
    var path := PathOf(c, va);
    assert path[0] == IndexOf(va, c.levels[0]);
    assert Covers(a, path[0]);
  }
}

/**
The page tables of the x86 AbstractMachine: a radix tree in memory, one per address space, that
shares the kernel's tables at its root.  The number of levels is a parameter, as in the source:
two for 32-bit paging, four for 64-bit.
*/
module PageTable {
  import opened Wrappers
  import opened Bits

  // ----- entries -----

  const PAGE: nat := 4096
  const P: nat := 1   // present
  const W: nat := 2   // writable
  const U: nat := 4   // user

  predicate Present(e: nat) { e % 2 == 1 }
  predicate Writable(e: nat) { e / 2 % 2 == 1 }
  predicate User(e: nat) { e / 4 % 2 == 1 }

  /** baseof */
  function Base(e: nat): nat { e / PAGE * PAGE }

  predicate Aligned(a: nat) { a % PAGE == 0 }

  lemma EntryParts(page: nat, flags: nat)
    requires Aligned(page) && flags < 8
    ensures Base(page + flags) == page
    ensures Present(page + flags) == Present(flags)
    ensures Writable(page + flags) == Writable(flags)
    ensures User(page + flags) == User(flags)
  {
    FlagBits(page / PAGE, flags);
  }

  lemma FlagBits(k: nat, flags: nat)
    requires flags < 8
    ensures (4096 * k + flags) / 4096 == k && (4096 * k + flags) % 2 == flags % 2
    ensures (4096 * k + flags) / 2 % 2 == flags / 2 % 2 && (4096 * k + flags) / 4 % 2 == flags / 4 % 2
  {
    Doubled(2048 * k, flags);
    Doubled(1024 * k, flags / 2);
    Doubled(512 * k, flags / 4);
    assert (4096 * k + flags) / 4 == (4096 * k + flags) / 2 / 2;
  }

  lemma Doubled(a: nat, f: nat)
    ensures (2 * a + f) / 2 == a + f / 2 && (2 * a + f) % 2 == f % 2
  {
  }

  // ----- the shape of the tree -----

  datatype Level = Level(shift: nat, bits: nat)

  /** A range of kernel addresses that covers whole root slots. */
  datatype Area = Area(first: nat, slots: nat)

  /** `levels` from the root down; `kernel` are the root slots shared with the
      kernel, those of the kernel's `areas`; addresses have `word` bits, of which `wide` are translated.  `user`
      says whether the tables are made for a user or for the kernel. */
  datatype Config = Config(levels: seq<Level>, userLo: nat, userHi: nat, kernel: set<nat>, wide: nat,
                           areas: seq<Area>, word: nat, user: bool) {
    function Depth(): nat { |levels| }

    /** The flags of an entry that leads to a table. */
    function Flags(): nat { if user then W + U else W }
  }

  /** indexof: the masked and shifted address bits. */
  function IndexOf(addr: nat, l: Level): nat { Shr(BitAnd(addr, Up(Pow2(l.bits) - 1, l.shift)), l.shift) }

  function PathOf(c: Config, va: nat): (p: seq<nat>)
    ensures |p| == c.Depth()
  {
    seq(c.Depth(), i requires 0 <= i < c.Depth() => IndexOf(va, c.levels[i]))
  }

  /** Entries per table. */
  function Fanout(c: Config): nat
    requires c.Depth() > 0
  {
    Pow2(c.levels[0].bits)
  }

  /** Each level takes the address bits just above those of the next one, down to the page. */
  ghost predicate Contiguous(c: Config) {
    && c.Depth() >= 2
    && (forall i, j :: 0 <= i < j < c.Depth() && j == i + 1 ==>
      c.levels[i].shift == c.levels[j].shift + c.levels[j].bits)
    && (forall i :: 0 <= i < c.Depth() ==> c.levels[i].bits == c.levels[0].bits)
    && c.levels[c.Depth() - 1].shift == 12
    && c.wide == c.levels[0].shift + c.levels[0].bits
    && c.userLo <= c.userHi <= Pow2(c.wide)
  }

  /** The user area uses no root slot of the kernel. */
  ghost predicate Separate(c: Config)
    requires c.Depth() > 0
  {
    forall va :: c.userLo <= va < c.userHi ==> IndexOf(va, c.levels[0]) !in c.kernel
  }

  predicate Covers(a: Area, i: nat) { a.first <= i < a.first + a.slots }

  ghost predicate AreasOk(c: Config)
    requires c.Depth() > 0
  {
    && c.wide <= c.word
    && (forall k :: 0 <= k < |c.areas| ==>
      c.areas[k].first + c.areas[k].slots <= Fanout(c) && 0 < c.areas[k].slots < Fanout(c))
    && (forall i :: i in c.kernel <==> Covered(c.areas, i))
  }

  /** The addresses at which an area starts and ends; an end at the top of memory is 0. */
  function Start(c: Config, a: Area): nat
    requires c.Depth() > 0
  {
    Up(a.first, c.levels[0].shift)
  }

  function End(c: Config, a: Area): nat
    requires c.Depth() > 0
  {
    Up(a.first + a.slots, c.levels[0].shift) % Pow2(c.word)
  }

  lemma IndexValue(addr: nat, l: Level)
    ensures IndexOf(addr, l) == Low(Shr(addr, l.shift), l.bits) && IndexOf(addr, l) < Pow2(l.bits)
  {
    hide Up, Shr, Low, BitAnd;
    AndShifted(addr, Pow2(l.bits) - 1, l.shift);
    AndMask(Shr(addr, l.shift), l.bits);
    var x := Low(Shr(addr, l.shift), l.bits);
    assert Up(x, l.shift) == Up(x, l.shift) + 0;
    UpPositive(l.shift);
    SplitUnique(Up(x, l.shift), l.shift, x, 0);
    Split(Shr(addr, l.shift), l.bits);
  }

  /** Addresses with the same first n indices agree above the bits of level n. */
  lemma {:induction false} SameIndices(c: Config, a: nat, b: nat, n: nat)
    requires Contiguous(c) && a < Pow2(c.wide) && b < Pow2(c.wide) && n <= c.Depth()
    requires forall i :: 0 <= i < n ==> IndexOf(a, c.levels[i]) == IndexOf(b, c.levels[i])
    ensures n == 0 ==> Shr(a, c.wide) == Shr(b, c.wide)
    ensures n > 0 ==> Shr(a, c.levels[n - 1].shift) == Shr(b, c.levels[n - 1].shift)
  {
    hide Up, Shr, Low, IndexOf;
    if n == 0 {
      UpZero(c.wide);
      SplitUnique(a, c.wide, 0, a);
      SplitUnique(b, c.wide, 0, b);
    } else {
      SameIndices(c, a, b, n - 1);
      var l := c.levels[n - 1];
      IndexValue(a, l);
      IndexValue(b, l);
      assert Shr(a, l.shift + l.bits) == Shr(b, l.shift + l.bits);
      ShrShr(a, l.shift, l.bits);
      ShrShr(b, l.shift, l.bits);
      Split(Shr(a, l.shift), l.bits);
      Split(Shr(b, l.shift), l.bits);
    }
  }

  /** Different pages have different paths. */
  lemma PathInjective(c: Config, a: nat, b: nat)
    requires Contiguous(c) && a < Pow2(c.wide) && b < Pow2(c.wide) && Aligned(a) && Aligned(b)
    requires PathOf(c, a) == PathOf(c, b)
    ensures a == b
  {
    hide Up, Shr, Low, IndexOf;
    var n := c.Depth();
    forall i | 0 <= i < n ensures IndexOf(a, c.levels[i]) == IndexOf(b, c.levels[i]) {
      assert PathOf(c, a)[i] == PathOf(c, b)[i];
    }
    SameIndices(c, a, b, n);
    PageBits(a);
    PageBits(b);
  }

  lemma PageBits(a: nat)
    requires Aligned(a)
    ensures a == PAGE * Shr(a, 12)
  {
    hide Up, Shr, Low;
    Up12(a / PAGE);
    Up12(1);
    SplitUnique(a, 12, a / PAGE, 0);
  }

  lemma Up12(x: nat)
    ensures Up(x, 12) == PAGE * x
  {
    hide Up;
    Up8(x);
    Up8(Up(x, 8));
    UpUp(x, 8, 4);
  }

  // ----- memory -----

  type Table = seq<nat>
  type Memory = map<nat, Table>

  /** The leaf entry a walk along `path` from table `t` ends at, 0 if it does not get there. */
  function Lookup(m: Memory, t: nat, path: seq<nat>): nat
    decreases |path|
  {
    if path == [] || t !in m || path[0] >= |m[t]| then 0
    else
      var e := m[t][path[0]];
      if |path| == 1 then e
      else if Present(e) then Lookup(m, Base(e), path[1..])
      else 0
  }

  function SetEntry(m: Memory, t: nat, i: nat, e: nat): Memory
    requires t in m && i < |m[t]|
  {
    var row: Table := m[t][i := e];
    m[t := row]
  }

  /** A table belongs to an address space and sits below the root slots `at`. */
  datatype Place = Place(space: nat, at: seq<nat>)
  type Owner = map<nat, Place>

  /** One owned table: below the root, and in the root outside the kernel slots, every present
      entry of an inner table leads to the owned table one level down. */
  ghost predicate NodeOk(c: Config, m: Memory, owner: Owner, t: nat)
    requires c.Depth() >= 2 && t in owner && t in m
  {
    var place := owner[t];
    && |m[t]| == Fanout(c)
    && |place.at| < c.Depth()
    && (|place.at| + 1 < c.Depth() ==>
          forall i :: 0 <= i < |m[t]| && (place.at != [] || i !in c.kernel) && Present(m[t][i]) ==>
            && User(m[t][i]) == c.user
            && Base(m[t][i]) in owner && owner[Base(m[t][i])] == Place(place.space, place.at + [i]))
  }

  /** Table u points to table t, which sits one level below it. */
  ghost predicate Links(m: Memory, owner: Owner, u: nat, t: nat)
    requires t in owner && owner[t].at != []
  {
    var at := owner[t].at;
    var i := at[|at| - 1];
    && u in owner && u in m && owner[u] == Place(owner[t].space, at[..|at| - 1])
    && i < |m[u]| && Present(m[u][i]) && Base(m[u][i]) == t
  }

  ghost predicate Nodes(c: Config, m: Memory, owner: Owner)
    requires c.Depth() >= 2
  {
    forall t :: t in owner ==> t in m && NodeOk(c, m, owner, t)
  }

  ghost predicate Distinct(owner: Owner) {
    forall t, u :: t in owner && u in owner && owner[t] == owner[u] ==> t == u
  }

  ghost predicate Rooted(owner: Owner, roots: map<nat, nat>) {
    && (forall s :: s in roots ==> roots[s] in owner && owner[roots[s]] == Place(s, []))
    && (forall t :: t in owner ==> Aligned(t) && owner[t].space in roots)
  }

  ghost predicate Linked(m: Memory, owner: Owner) {
    forall t :: t in owner && owner[t].at != [] ==> exists u :: Links(m, owner, u, t)
  }

  /** Owned tables sit below user slots only. */
  ghost predicate UserPlaces(c: Config, owner: Owner)
    requires c.Depth() > 0
  {
    && (forall t :: t in owner && owner[t].at != [] ==> owner[t].at[0] !in c.kernel)
    && (forall t, k :: t in owner && 0 <= k < |owner[t].at| ==> owner[t].at[k] < Fanout(c))
  }

  /** The ownership forest of all address spaces. */
  ghost predicate Forest(c: Config, m: Memory, owner: Owner, roots: map<nat, nat>) {
    && c.Depth() >= 2
    && Nodes(c, m, owner) && Distinct(owner) && Rooted(owner, roots) && Linked(m, owner) && UserPlaces(c, owner)
  }

  /** A walk through user slots only meets tables owned for exactly that place. */
  lemma {:induction false} LookupSetOther(c: Config, m: Memory, owner: Owner, t: nat, path: seq<nat>, u: nat, i: nat,
                                          e: nat)
    requires c.Depth() >= 2 && t in owner && u in owner && Nodes(c, m, owner)
    requires i < |m[u]|
    requires |owner[t].at| + |path| == c.Depth() && (owner[t].at != [] || (path != [] && path[0] !in c.kernel))
    requires !(owner[u].space == owner[t].space && owner[u].at + [i] <= owner[t].at + path)
    ensures Lookup(SetEntry(m, u, i, e), t, path) == Lookup(m, t, path)
    decreases |path|
  {
    var m' := SetEntry(m, u, i, e);
    if path != [] && path[0] < |m[t]| {
      assert path == [path[0]] + path[1..];
      assert owner[t].at + [path[0]] <= owner[t].at + path;
      var x := m[t][path[0]];
      assert m'[t][path[0]] == x;
      if |path| > 1 && Present(x) {
        assert owner[t].at + [path[0]] + path[1..] == owner[t].at + path;
        LookupSetOther(c, m, owner, Base(x), path[1..], u, i, e);
      }
    }
  }

  // ----- following pointers -----

  /** Following the present entries `pre` from table t leads to table u. */
  predicate Leads(m: Memory, t: nat, pre: seq<nat>, u: nat)
    decreases |pre|
  {
    if pre == [] then t == u
    else t in m && pre[0] < |m[t]| && Present(m[t][pre[0]]) && Leads(m, Base(m[t][pre[0]]), pre[1..], u)
  }

  lemma {:induction false} LeadsExtend(m: Memory, t: nat, pre: seq<nat>, u: nat, i: nat)
    requires Leads(m, t, pre, u) && u in m && i < |m[u]| && Present(m[u][i])
    ensures Leads(m, t, pre + [i], Base(m[u][i]))
    decreases |pre|
  {
    if pre == [] {
      assert (pre + [i])[1..] == [];
    } else {
      assert (pre + [i])[1..] == pre[1..] + [i];
      LeadsExtend(m, Base(m[t][pre[0]]), pre[1..], u, i);
    }
  }

  lemma {:induction false} LookupLeads(m: Memory, t: nat, pre: seq<nat>, u: nat, i: nat)
    requires Leads(m, t, pre, u) && u in m && i < |m[u]|
    ensures Lookup(m, t, pre + [i]) == m[u][i]
    decreases |pre|
  {
    if pre != [] {
      assert (pre + [i])[1..] == pre[1..] + [i];
      LookupLeads(m, Base(m[t][pre[0]]), pre[1..], u, i);
    }
  }

  /** A change of table u is not seen before the walk gets to u. */
  lemma {:induction false} LeadsSet(c: Config, m: Memory, owner: Owner, t: nat, pre: seq<nat>, u: nat, m': Memory)
    requires c.Depth() >= 2 && t in owner && Nodes(c, m, owner)
    requires Leads(m, t, pre, u) && u in owner && owner[t].space == owner[u].space && owner[t].at + pre == owner[u].at
    requires |owner[u].at| < c.Depth() && (owner[t].at != [] || pre == [] || pre[0] !in c.kernel)
    requires forall x :: x in owner && x != u ==> x in m' && m'[x] == m[x]
    ensures Leads(m', t, pre, u)
    decreases |pre|
  {
    if pre != [] {
      assert |owner[t].at| < |owner[u].at|;
      var x := m[t][pre[0]];
      assert owner[Base(x)] == Place(owner[t].space, owner[t].at + [pre[0]]);
      assert owner[t].at + [pre[0]] + pre[1..] == owner[t].at + pre;
      LeadsSet(c, m, owner, Base(x), pre[1..], u, m');
    }
  }

  // ----- adding an empty table -----

  function Empty(c: Config): Table
    requires c.Depth() > 0
  {
    seq(Fanout(c), _ => 0)
  }

  function AddTable(c: Config, m: Memory, t: nat, i: nat, q: nat, flags: nat): Memory
    requires c.Depth() > 0 && t in m && i < |m[t]|
  {
    SetEntry(m, t, i, q + P + flags)[q := Empty(c)]
  }

  /** The entry that leads to the table q. */
  lemma TableEntry(c: Config, q: nat)
    requires Aligned(q)
    ensures var e := q + P + c.Flags(); Base(e) == q && Present(e) && User(e) == c.user
    ensures c.Flags() == W + U || c.Flags() == W
  {
    EntryParts(q, P + c.Flags());
  }

  lemma LookupEmpty(c: Config, m: Memory, q: nat, path: seq<nat>)
    requires c.Depth() > 0 && q in m && m[q] == Empty(c)
    ensures Lookup(m, q, path) == 0
  {
  }

  /** An empty table hung into an absent entry changes no translation. */
  lemma {:induction false} LookupAddTable(c: Config, m: Memory, owner: Owner, t: nat, path: seq<nat>, u: nat, i: nat,
                                          q: nat, flags: nat)
    requires c.Depth() >= 2 && t in owner && u in owner && Nodes(c, m, owner)
    requires i < |m[u]| && q !in m && Aligned(q) && (flags == W + U || flags == W) && !Present(m[u][i]) &&
      |owner[u].at| + 1 < c.Depth()
    requires |owner[t].at| + |path| == c.Depth() && (owner[t].at != [] || (path != [] && path[0] !in c.kernel))
    ensures Lookup(AddTable(c, m, u, i, q, flags), t, path) == Lookup(m, t, path)
    decreases |path|
  {
    var m' := AddTable(c, m, u, i, q, flags);
    EntryParts(q, P + flags);
    if path != [] && path[0] < |m[t]| {
      if t == u && path[0] == i {
        LookupEmpty(c, m', q, path[1..]);
      } else if |path| > 1 && Present(m[t][path[0]]) {
        LookupAddTable(c, m, owner, Base(m[t][path[0]]), path[1..], u, i, q, flags);
      }
    }
  }

  // ----- what the two kinds of change keep -----

  /** The kernel's root slots are shared by every address space and not user-accessible. */
  ghost predicate Shares(c: Config, m: Memory, owner: Owner, roots: map<nat, nat>, kpt: nat)
    requires c.Depth() > 0
  {
    && (forall i :: i in c.kernel && i < Fanout(c) ==> KernelSlot(c, m, owner, kpt, i))
    && (forall s, i :: s in roots && i in c.kernel && i < Fanout(c) ==>
          && KernelSlot(c, m, owner, kpt, i)
          && roots[s] in m && i < |m[roots[s]]| && m[roots[s]][i] == m[kpt][i])
  }

  ghost predicate KernelSlot(c: Config, m: Memory, owner: Owner, kpt: nat, i: nat)
    requires c.Depth() > 0 && i < Fanout(c)
  {
    && kpt in m && kpt !in owner && |m[kpt]| == Fanout(c)
    && (Present(m[kpt][i]) ==> !User(m[kpt][i]))
  }

  ghost predicate State(c: Config, m: Memory, owner: Owner, roots: map<nat, nat>, kpt: nat) {
    Contiguous(c) && Separate(c) && Forest(c, m, owner, roots) && Shares(c, m, owner, roots, kpt)
  }

  lemma SetLeafNode(c: Config, m: Memory, owner: Owner, t: nat, i: nat, e: nat, x: nat)
    requires c.Depth() >= 2 && x in owner && x in m && NodeOk(c, m, owner, x)
    requires t in owner && t in m && |owner[t].at| + 1 == c.Depth() && i < |m[t]|
    ensures NodeOk(c, SetEntry(m, t, i, e), owner, x)
  {
    hide Fanout, Present, User, Base;
  }

  lemma SetLeafLink(c: Config, m: Memory, owner: Owner, t: nat, i: nat, e: nat, u: nat, x: nat)
    requires c.Depth() >= 2 && x in owner && owner[x].at != [] && |owner[x].at| < c.Depth() && Links(m, owner, u, x)
    requires t in owner && t in m && |owner[t].at| + 1 == c.Depth() && i < |m[t]|
    ensures Links(SetEntry(m, t, i, e), owner, u, x)
  {
    hide Present, Base;
  }

  lemma SetLeafNodes(c: Config, m: Memory, owner: Owner, t: nat, i: nat, e: nat)
    requires c.Depth() >= 2 && Nodes(c, m, owner) && Linked(m, owner)
    requires t in owner && |owner[t].at| + 1 == c.Depth() && i < |m[t]|
    ensures Nodes(c, SetEntry(m, t, i, e), owner) && Linked(SetEntry(m, t, i, e), owner)
  {
    hide NodeOk, Links, SetEntry;
    var m' := SetEntry(m, t, i, e);
    forall x | x in owner ensures x in m' && NodeOk(c, m', owner, x) {
      SetKeys(m, t, i, e);
      SetLeafNode(c, m, owner, t, i, e, x);
    }
    forall x | x in owner && owner[x].at != [] ensures exists u :: Links(m', owner, u, x) {
      var u :| Links(m, owner, u, x);
      NodeDepth(c, m, owner, x);
      SetLeafLink(c, m, owner, t, i, e, u, x);
    }
  }

  lemma SetKeys(m: Memory, t: nat, i: nat, e: nat)
    requires t in m && i < |m[t]|
    ensures SetEntry(m, t, i, e).Keys == m.Keys
  {
  }

  lemma NodeDepth(c: Config, m: Memory, owner: Owner, x: nat)
    requires c.Depth() >= 2 && x in owner && x in m && NodeOk(c, m, owner, x)
    ensures |owner[x].at| < c.Depth()
  {
  }

  lemma SetLeafKeeps(c: Config, m: Memory, owner: Owner, roots: map<nat, nat>, kpt: nat, t: nat, i: nat, e: nat)
    requires State(c, m, owner, roots, kpt) && t in owner && |owner[t].at| + 1 == c.Depth() && i < Fanout(c)
    ensures i < |m[t]| && State(c, SetEntry(m, t, i, e), owner, roots, kpt)
  {
    hide Contiguous, Separate, Pow2, Distinct, UserPlaces, Linked;
    assert NodeOk(c, m, owner, t);
    SetLeafNodes(c, m, owner, t, i, e);
  }

  lemma NewPlace(m: Memory, owner: Owner, t: nat, i: nat, x: nat)
    requires Distinct(owner) && Linked(m, owner) && t in owner && t in m && i < |m[t]| && !Present(m[t][i]) &&
      x in owner
    ensures owner[x] != Place(owner[t].space, owner[t].at + [i])
  {
    var at := owner[x].at;
    if at != [] {
      var u :| Links(m, owner, u, x);
      assert at == at[..|at| - 1] + [at[|at| - 1]];
      assert (owner[t].at + [i])[..|owner[t].at|] == owner[t].at;
    }
  }

  lemma AddTableNodes(c: Config, m: Memory, owner: Owner, t: nat, i: nat, q: nat)
    requires c.Depth() >= 2 && Nodes(c, m, owner) && t in owner && |owner[t].at| + 1 < c.Depth() && i < |m[t]|
    requires q !in m && Aligned(q)
    ensures Nodes(c, AddTable(c, m, t, i, q, c.Flags()), owner[q := Place(owner[t].space, owner[t].at + [i])])
  {
    hide Pow2;
    TableEntry(c, q);
    var m', owner' := AddTable(c, m, t, i, q, c.Flags()), owner[q := Place(owner[t].space, owner[t].at + [i])];
    forall x | x in owner' ensures x in m' && NodeOk(c, m', owner', x) {
      if x != q { assert NodeOk(c, m, owner, x); }
    }
  }

  /** A new entry where there was none disturbs no link. */
  lemma LinkStays(m: Memory, owner: Owner, t: nat, i: nat, q: nat, e: nat, row: Table, place: Place, u: nat, x: nat)
    requires x in owner && owner[x].at != [] && Links(m, owner, u, x)
    requires t in m && i < |m[t]| && !Present(m[t][i]) && q !in m && q !in owner
    ensures Links(SetEntry(m, t, i, e)[q := row], owner[q := place], u, x)
  {
    hide Present, Base;
  }

  lemma LinkTable(m: Memory, owner: Owner, t: nat, i: nat, q: nat, e: nat, row: Table)
    requires Linked(m, owner) && t in owner && t in m && i < |m[t]| && !Present(m[t][i]) && q !in m && q !in owner
    requires Present(e) && Base(e) == q
    ensures Linked(SetEntry(m, t, i, e)[q := row], owner[q := Place(owner[t].space, owner[t].at + [i])])
  {
    hide Present, Base, Links;
    var place := Place(owner[t].space, owner[t].at + [i]);
    var m', owner' := SetEntry(m, t, i, e)[q := row], owner[q := place];
    assert Links(m', owner', t, q) by { LinkNew(m, owner, t, i, q, e, row); }
    forall x | x in owner' && owner'[x].at != [] && x != q ensures exists u :: Links(m', owner', u, x) {
      var u :| Links(m, owner, u, x);
      LinkStays(m, owner, t, i, q, e, row, place, u, x);
    }
  }

  lemma LinkNew(m: Memory, owner: Owner, t: nat, i: nat, q: nat, e: nat, row: Table)
    requires t in owner && t in m && i < |m[t]| && q !in m && q !in owner && Present(e) && Base(e) == q
    ensures Links(SetEntry(m, t, i, e)[q := row], owner[q := Place(owner[t].space, owner[t].at + [i])], t, q)
  {
    hide Present, Base;
  }

  lemma AddTableLinked(c: Config, m: Memory, owner: Owner, t: nat, i: nat, q: nat)
    requires c.Depth() >= 2 && Nodes(c, m, owner) && Linked(m, owner) && t in owner && i < |m[t]| && !Present(m[t][i])
    requires q !in m && Aligned(q)
    ensures Linked(AddTable(c, m, t, i, q, c.Flags()), owner[q := Place(owner[t].space, owner[t].at + [i])])
  {
    hide Linked, NodeOk, Empty;
    TableEntry(c, q);
    LinkTable(m, owner, t, i, q, q + P + c.Flags(), Empty(c));
  }

  lemma AddTablePlaces(c: Config, m: Memory, owner: Owner, roots: map<nat, nat>, t: nat, i: nat, q: nat)
    requires Forest(c, m, owner, roots) && t in owner && i < Fanout(c)
    requires (owner[t].at != [] || i !in c.kernel) && t in m && i < |m[t]| && !Present(m[t][i]) && q !in m && Aligned(q)
    ensures var owner' := owner[q := Place(owner[t].space, owner[t].at + [i])];
      Distinct(owner') && Rooted(owner', roots) && UserPlaces(c, owner')
  {
    hide Fanout, NodeOk, Linked;
    forall x | x in owner ensures owner[x] != Place(owner[t].space, owner[t].at + [i]) { NewPlace(m, owner, t, i, x); }
  }

  lemma AddTableShares(c: Config, m: Memory, owner: Owner, roots: map<nat, nat>, kpt: nat, t: nat, i: nat, q: nat,
                       place: Place)
    requires State(c, m, owner, roots, kpt) && t in owner
    requires (owner[t].at != [] || i !in c.kernel) && t in m && i < |m[t]| && q !in m
    ensures Shares(c, AddTable(c, m, t, i, q, c.Flags()), owner[q := place], roots, kpt)
  {
    hide Contiguous, Separate, Fanout, Nodes, Linked, Distinct, UserPlaces, Empty;
    assert forall s :: s in roots && roots[s] == t ==> owner[t].at == [];
  }

  lemma AddTableKeeps(c: Config, m: Memory, owner: Owner, roots: map<nat, nat>, kpt: nat, t: nat, i: nat, q: nat)
    requires State(c, m, owner, roots, kpt) && t in owner && |owner[t].at| + 1 < c.Depth() && i < Fanout(c)
    requires (owner[t].at != [] || i !in c.kernel) && i < |m[t]| && !Present(m[t][i]) && q !in m && Aligned(q)
    ensures State(c, AddTable(c, m, t, i, q, c.Flags()), owner[q := Place(owner[t].space, owner[t].at + [i])], roots,
      kpt)
  {
    hide Contiguous, Separate, Fanout, Linked, NodeOk, AddTable, Shares, Distinct, Rooted, UserPlaces;
    AddTableNodes(c, m, owner, t, i, q);
    AddTableLinked(c, m, owner, t, i, q);
    AddTablePlaces(c, m, owner, roots, t, i, q);
    AddTableShares(c, m, owner, roots, kpt, t, i, q, Place(owner[t].space, owner[t].at + [i]));
  }

  // ----- the operations -----

  /** Every translation of every address space is the same in both memories. */
  ghost predicate SameViews(c: Config, m: Memory, m': Memory, roots: map<nat, nat>) {
    forall s, path :: s in roots && |path| == c.Depth() && path != [] && path[0] !in c.kernel ==>
      Lookup(m', roots[s], path) == Lookup(m, roots[s], path)
  }

  /** From (m, o) to (m', o') tables are only added, on pages that were free, and memory that is no
      user page table, the kernel's tables in particular, is the same. */
  ghost predicate Grows(m: Memory, o: Owner, m': Memory, o': Owner) {
    && (forall t :: t in o ==> t in o' && o'[t] == o[t])
    && (forall t :: t in o' && t !in o ==> t !in m)
    && (forall t :: t in m ==> t in m')
    && (forall t :: t in m && t !in o ==> m'[t] == m[t])
  }

  lemma GrowsTransitive(m0: Memory, o0: Owner, m1: Memory, o1: Owner, m2: Memory, o2: Owner)
    requires Grows(m0, o0, m1, o1) && Grows(m1, o1, m2, o2)
    ensures Grows(m0, o0, m2, o2)
  {
  }

  lemma ViewsTransitive(c: Config, m0: Memory, m1: Memory, m2: Memory, roots: map<nat, nat>)
    requires SameViews(c, m0, m1, roots) && SameViews(c, m1, m2, roots)
    ensures SameViews(c, m0, m2, roots)
  {
    hide Lookup;
  }

  ghost predicate Fresh(m: Memory, supply: seq<nat>) {
    && (forall k :: 0 <= k < |supply| ==> supply[k] !in m && Aligned(supply[k]))
    && (forall j, k :: 0 <= j < k < |supply| ==> supply[j] != supply[k])
  }

  lemma AddTableViews(c: Config, m: Memory, owner: Owner, roots: map<nat, nat>, kpt: nat, t: nat, i: nat, q: nat)
    requires State(c, m, owner, roots, kpt) && t in owner && |owner[t].at| + 1 < c.Depth() && t in m && i < |m[t]|
    requires !Present(m[t][i]) && q !in m && Aligned(q)
    ensures SameViews(c, m, AddTable(c, m, t, i, q, c.Flags()), roots)
  {
    hide Contiguous, Separate, Pow2, Linked, NodeOk, Lookup, AddTable;
    forall s, path | s in roots && |path| == c.Depth() && path != [] && path[0] !in c.kernel
      ensures Lookup(AddTable(c, m, t, i, q, c.Flags()), roots[s], path) == Lookup(m, roots[s], path)
    {
      LookupAddTable(c, m, owner, roots[s], path, t, i, q, c.Flags());
    }
  }

  lemma TableFacts(c: Config, m: Memory, owner: Owner, roots: map<nat, nat>, kpt: nat, t: nat)
    requires State(c, m, owner, roots, kpt) && t in owner
    ensures t in m && |m[t]| == Fanout(c) && |owner[t].at| < c.Depth()
  {
    assert NodeOk(c, m, owner, t);
  }

  lemma ChildFacts(c: Config, m: Memory, owner: Owner, roots: map<nat, nat>, kpt: nat, t: nat, i: nat)
    requires State(c, m, owner, roots, kpt) && t in owner && |owner[t].at| + 1 < c.Depth() && i < Fanout(c)
    requires owner[t].at != [] || i !in c.kernel
    ensures t in m && i < |m[t]|
    ensures Present(m[t][i]) ==>
      Base(m[t][i]) in owner && owner[Base(m[t][i])] == Place(owner[t].space, owner[t].at + [i])
  {
    assert NodeOk(c, m, owner, t);
  }

  lemma AddTableFrame(c: Config, m: Memory, owner: Owner, supply: seq<nat>, t: nat, i: nat, flags: nat, place: Place)
    requires c.Depth() > 0 && t in owner && t in m && i < |m[t]| && Fresh(m, supply) && supply != []
    requires forall x :: x in owner ==> x in m
    ensures var m' := AddTable(c, m, t, i, supply[0], flags);
      && Grows(m, owner, m', owner[supply[0] := place]) && Fresh(m', supply[1..])
      && (forall x :: x in owner && x != t ==> x in m' && m'[x] == m[x])
      && t in m' && i < |m'[t]| && m'[t][i] == supply[0] + P + flags
  {
    hide Pow2;
  }

  lemma GrowsSelf(m: Memory, o: Owner)
    ensures Grows(m, o, m, o)
  {
  }

  lemma ViewsSelf(c: Config, m: Memory, roots: map<nat, nat>)
    ensures SameViews(c, m, m, roots)
  {
  }

  lemma OwnedInMemory(c: Config, m: Memory, owner: Owner, roots: map<nat, nat>, kpt: nat)
    requires State(c, m, owner, roots, kpt)
    ensures c.Depth() >= 2 && Nodes(c, m, owner) && Contiguous(c) && Separate(c) && forall x :: x in owner ==> x in m
    ensures forall s :: s in roots ==> roots[s] in owner && owner[roots[s]] == Place(s, [])
  {
  }

  class Mmu {
    const c: Config
    const kpt: nat
    var mem: Memory
    var roots: map<nat, nat>        // the tables the address spaces' ptr fields point to
    var supply: seq<nat>            // the pages pgalloc will return, in order; pgfree appends
    ghost var owner: Owner

    constructor (c: Config, kpt: nat, mem: Memory, supply: seq<nat>)
      requires Contiguous(c) && Separate(c) && Fresh(mem, supply)
      requires forall i :: i in c.kernel && i < Fanout(c) ==> KernelSlot(c, mem, map[], kpt, i)
      ensures this.c == c && this.kpt == kpt && this.mem == mem && this.supply == supply
      ensures Valid() && roots == map[] && owner == map[]
    {
      this.c, this.kpt, this.mem, this.supply := c, kpt, mem, supply;
      roots, owner := map[], map[];
    }

    ghost predicate Valid()
      reads this
    {
      State(c, mem, owner, roots, kpt) && Fresh(mem, supply)
    }

    /** One level of ptwalk: the table below entry i of t, allocated and cleared if absent. */
    method NextTable(t: nat, i: nat) returns (ok: bool, next: nat)
      requires Valid() && t in owner && |owner[t].at| + 1 < c.Depth() && i < Fanout(c)
      requires owner[t].at != [] || i !in c.kernel
      modifies this`mem, this`supply, this`owner
      ensures Valid() && SameViews(c, old(mem), mem, roots) && Grows(old(mem), old(owner), mem, owner)
      ensures forall x :: x in old(owner) && x != t ==> x in mem && mem[x] == old(mem)[x]
      ensures t in mem && i < |mem[t]|
      ensures ok ==> Present(mem[t][i]) && next == Base(mem[t][i])
      ensures ok ==> next in owner && owner[next] == Place(old(owner)[t].space, old(owner)[t].at + [i])
      ensures t in old(mem) && i < |old(mem)[t]|
      ensures Present(old(mem)[t][i]) ==> ok && mem == old(mem) && supply == old(supply) && owner == old(owner)
      ensures |supply| + 1 >= |old(supply)| && (!ok ==> old(supply) == [])
    {
      hide State, Grows, SameViews, AddTable, Fresh, Fanout;
      ChildFacts(c, mem, owner, roots, kpt, t, i);
      OwnedInMemory(c, mem, owner, roots, kpt);
      GrowsSelf(mem, owner);
      ViewsSelf(c, mem, roots);
      if Present(mem[t][i]) {
        return true, Base(mem[t][i]);
      }
      if supply == [] { return false, 0; }
      next := supply[0];
      SupplyHead(mem, supply);
      AddTableKeeps(c, mem, owner, roots, kpt, t, i, next);
      AddTableViews(c, mem, owner, roots, kpt, t, i, next);
      AddTableFrame(c, mem, owner, supply, t, i, c.Flags(), Place(owner[t].space, owner[t].at + [i]));
      TableEntry(c, next);
      supply := supply[1..];
      mem := AddTable(c, mem, t, i, next, c.Flags());
      owner := owner[next := Place(owner[t].space, owner[t].at + [i])];
      ok := true;
    }

    /** ptwalk: the table and index of the leaf entry of va; absent tables on the way are allocated. */
    method Ptwalk(s: nat, va: nat) returns (ok: bool, t: nat, i: nat)
      requires Valid() && s in roots && c.userLo <= va < c.userHi
      modifies this`mem, this`supply, this`owner
      ensures Valid() && SameViews(c, old(mem), mem, roots) && Grows(old(mem), old(owner), mem, owner)
      ensures ok ==> t in owner && owner[t] == Place(s, PathOf(c, va)[..c.Depth() - 1])
      ensures ok ==> t in mem && i == PathOf(c, va)[c.Depth() - 1] < |mem[t]|
      ensures ok ==> Leads(mem, roots[s], PathOf(c, va)[..c.Depth() - 1], t)
      ensures Reaches(old(mem), roots[s], PathOf(c, va)[..c.Depth() - 1]) ==>
        ok && mem == old(mem) && supply == old(supply) && owner == old(owner)
      ensures |old(supply)| >= c.Depth() - 1 ==> ok
    {
      hide State, Grows, SameViews, Fresh, Fanout, Leads, Reaches, IndexOf, Nodes, Contiguous, Separate;
      ghost var path := PathOf(c, va);
      OwnedInMemory(c, mem, owner, roots, kpt);
      PathBounds(c, va);
      GrowsSelf(mem, owner);
      ViewsSelf(c, mem, roots);
      t := roots[s];
      LeadsHere(mem, t);
      ghost var reaches := Reaches(mem, t, path[..c.Depth() - 1]);
      assert path[..c.Depth() - 1] == path[0..c.Depth() - 1];
      for k := 0 to c.Depth() - 1
        invariant Valid() && SameViews(c, old(mem), mem, roots) && Grows(old(mem), old(owner), mem, owner)
        invariant t in owner && owner[t] == Place(s, path[..k]) && Leads(mem, roots[s], path[..k], t)
        invariant reaches ==> Reaches(mem, t, path[k..c.Depth() - 1])
        invariant reaches ==> mem == old(mem) && supply == old(supply) && owner == old(owner)
        invariant |supply| + k >= |old(supply)|
      {
        if reaches { ReachesFirst(mem, t, path, k, c.Depth() - 1); }
        i := IndexOf(va, c.levels[k]);
        ghost var m0, o0 := mem, owner;
        OwnedInMemory(c, mem, owner, roots, kpt);
        TableFacts(c, mem, owner, roots, kpt, t);
        var next;
        ok, next := NextTable(t, i);
        GrowsTransitive(old(mem), old(owner), m0, o0, mem, owner);
        ViewsTransitive(c, old(mem), m0, mem, roots);
        if !ok { return; }
        LeadsSet(c, m0, o0, roots[s], path[..k], t, mem);
        LeadsExtend(mem, roots[s], path[..k], t, i);
        assert path[..k + 1] == path[..k] + [i];
        t := next;
      }
      i := IndexOf(va, c.levels[c.Depth() - 1]);
      TableFacts(c, mem, owner, roots, kpt, t);
      ok := true;
    }

    /** The inner loop of protect, over one area. */
    method CopyArea(upt: Table, a: Area) returns (row: Table)
      requires c.Depth() > 0 && Contiguous(c) && c.wide <= c.word && a.first + a.slots <= Fanout(c) &&
        0 < a.slots < Fanout(c)
      requires kpt in mem && |mem[kpt]| == Fanout(c) == |upt|
      ensures |row| == |upt| && forall i :: 0 <= i < |row| ==> row[i] == if Covers(a, i) then mem[kpt][i] else upt[i]
    {
      hide Up, Contiguous, IndexOf, Fanout;
      var cur := Start(c, a);
      row := upt;
      ghost var k := 0;
      while cur != End(c, a)
        invariant k <= a.slots && |row| == |upt|
        invariant cur == if k < a.slots then Slot(c, a.first + k) else End(c, a)
        invariant forall i :: 0 <= i < |row| ==> row[i] == if a.first <= i < a.first + k then mem[kpt][i] else upt[i]
        decreases a.slots - k
      {
        SlotIndex(c, a.first + k);
        var index := IndexOf(cur, c.levels[0]);
        row := row[index := mem[kpt][index]];
        cur := (cur + Pow2(c.levels[0].shift)) % Pow2(c.word);
        k := k + 1;
        if k < a.slots { SlotEnd(c, a, k); SmallModulo(Slot(c, a.first + k), Pow2(c.word)); }
      }
      if k < a.slots { SlotEnd(c, a, k); }
    }

    /** protect: a new root that shares the kernel's slots and maps no user page. */
    method Protect(s: nat) returns (r: Outcome)
      requires Valid() && AreasOk(c) && s !in roots
      modifies this
      ensures Valid() && Grows(old(mem), old(owner), mem, owner)
      ensures KernelKeeps(c, old(mem), old(owner), mem, owner, roots, kpt)
      ensures r.Panic? <==> old(supply) == []
      ensures r.Panic? ==> mem == old(mem) && roots == old(roots) && owner == old(owner) && supply == old(supply)
      ensures r.Done? ==> roots == old(roots)[s := old(supply)[0]] && supply == old(supply)[1..]
      ensures r.Done? ==> mem.Keys == old(mem).Keys + {old(supply)[0]} && SamePages(c, old(mem), mem, old(roots))
      ensures r.Done? ==> forall va :: UserPage(c, va) ==> View(c, mem, roots[s], va) == None
    {
      hide State, Fresh, Grows, Fanout, Contiguous, Covers, SamePages, CopiedOnly, KernelKeeps;
      GrowsSelf(mem, owner);
      KernelAfter(c, mem, owner, mem, owner, roots, kpt);
      if supply == [] { return Panic; }
      OwnedInMemory(c, mem, owner, roots, kpt);
      SupplyHead(mem, supply);
      var q := supply[0];
      var upt := Empty(c);
      ghost var from := KernelRow(c, mem, kpt);
      CopiedNothing(c, from);
      assert c.areas[..0] == [];
      for k := 0 to |c.areas|
        invariant CopiedOnly(upt, from, c.areas[..k]) && |upt| == Fanout(c)
        modifies {}
      {
        ghost var was := upt;
        AreaSlot(c, mem, owner, roots, kpt, k);
        upt := CopyArea(upt, c.areas[k]);
        CopiedOne(was, upt, from, c.areas, k);
      }
      assert c.areas[..|c.areas|] == c.areas;
      NewRoot(c, mem, owner, roots, kpt, supply, s, upt);
      supply := supply[1..];
      mem := mem[q := upt];
      roots := roots[s := q];
      owner := owner[q := Place(s, [])];
      KernelAfter(c, old(mem), old(owner), mem, owner, roots, kpt);
      r := Done;
    }

    /** map: refuses bad addresses, unmapping an absent page and remapping a present one; otherwise
        changes the translation of exactly this page of exactly this address space. */
    method Map(s: nat, va: nat, pa: nat, prot: nat) returns (r: Outcome)
      requires Valid() && s in roots
      modifies this`mem, this`supply, this`owner
      ensures Valid() && Grows(old(mem), old(owner), mem, owner)
      ensures r.Done? ==> Allowed(c, old(mem), roots[s], va, pa, prot)
      ensures Allowed(c, old(mem), roots[s], va, pa, prot) && |old(supply)| >= c.Depth() - 1 ==> r.Done?
      ensures if r.Done? then OnlyPage(c, old(mem), mem, roots, s, va, Request(pa, prot)) else SamePages(c, old(mem),
        mem, roots)
    {
      hide State, Grows, SameViews, SamePages, OnlyPage, Fresh, Leads, Reaches, View, Request, PathOf, Contiguous,
        Separate, Nodes;
      GrowsSelf(mem, owner);
      SamePagesSelf(c, mem, roots);
      if !(c.userLo <= va < c.userHi) || !Aligned(va) || !Aligned(pa) { return Panic; }
      var ok, t, i := Ptwalk(s, va);
      ghost var m1, o1 := mem, owner;
      ViewsGivePages(c, old(mem), mem, owner, roots, kpt);
      if !ok { return Panic; }
      OwnedInMemory(c, mem, owner, roots, kpt);
      SamePagesAt(c, old(mem), mem, roots, s, va);
      LeafView(c, mem, roots[s], va, t, i);
      var e: nat;
      if prot == MMAP_NONE {
        if !Present(mem[t][i]) { return Panic; }
        e := 0;
      } else {
        if Present(mem[t][i]) { return Panic; }
        e := pa + P + U + if BitAnd(prot, MMAP_WRITE) != 0 then W else 0;
      }
      RequestEntry(pa, prot);
      SetLeafPage(c, mem, owner, roots, kpt, supply, s, va, t, i, e);
      mem := SetEntry(mem, t, i, e);
      ghost var m2 := mem;
      GrowsTransitive(old(mem), old(owner), m1, o1, m2, o1);
      OnlyPageAfter(c, old(mem), m1, m2, roots, s, va, Request(pa, prot));
      var _, _, _ := Ptwalk(s, va);
      return Done;
    }
  }

  // ----- creating an address space -----

  function Slot(c: Config, x: nat): nat
    requires c.Depth() > 0
  {
    Up(x, c.levels[0].shift)
  }

  lemma SlotIndex(c: Config, x: nat)
    requires Contiguous(c) && c.wide <= c.word && x < Fanout(c)
    ensures Slot(c, x) < Pow2(c.wide) <= Pow2(c.word)
    ensures IndexOf(Slot(c, x), c.levels[0]) == x
    ensures Slot(c, x) + Pow2(c.levels[0].shift) == Slot(c, x + 1) <= Pow2(c.wide)
  {
    hide Up, Shr, Low, IndexOf;
    var l := c.levels[0];
    UpPositive(l.shift);
    SplitUnique(Slot(c, x), l.shift, x, 0);
    IndexValue(Slot(c, x), l);
    UpZero(l.bits);
    SplitUnique(x, l.bits, 0, x);
    UpAdd(x, 1, l.shift);
    UpMonotone(x + 1, Pow2(l.bits), l.shift);
    UpUp(1, l.bits, l.shift);
    Pow2Monotone(c.wide, c.word);
  }

  /** protect's loop variable gets back to an equal value only at the area's end. */
  lemma SlotEnd(c: Config, a: Area, k: nat)
    requires c.Depth() > 0 && Contiguous(c) && c.wide <= c.word && a.first + a.slots <= Fanout(c) &&
      0 < a.slots < Fanout(c) && k < a.slots
    ensures Slot(c, a.first + k) < Pow2(c.word) && Slot(c, a.first + k) != End(c, a)
  {
    hide Up, Contiguous, IndexOf, Fanout, Slot, Pow2;
    var top := a.first + a.slots;
    SlotIndex(c, a.first + k);
    SlotIndex(c, top - 1);
    SlotBelow(c, a.first + k, top);
    if top < Fanout(c) {
      SlotIndex(c, top);
    } else {
      SlotBelow(c, 0, a.first + k);
    }
    assert End(c, a) == Slot(c, top) % Pow2(c.word) by { EndIs(c, a); }
    WrapDiffers(Slot(c, a.first + k), Slot(c, top), Pow2(c.word));
  }

  lemma EndIs(c: Config, a: Area)
    requires c.Depth() > 0
    ensures End(c, a) == Slot(c, a.first + a.slots) % Pow2(c.word)
  {
  }

  lemma WrapDiffers(x: nat, y: nat, z: nat)
    requires x < y <= z && (x > 0 || y < z)
    ensures x != y % z
  {
  }

  lemma SlotBelow(c: Config, x: nat, y: nat)
    requires c.Depth() > 0 && x < y
    ensures Slot(c, x) < Slot(c, y)
  {
    hide Up;
    UpMonotone(x + 1, y, c.levels[0].shift);
    UpAdd(x, 1, c.levels[0].shift);
    UpPositive(c.levels[0].shift);
  }

  lemma SmallModulo(x: nat, m: nat)
    requires x < m
    ensures x % m == x
  {
  }

  lemma CopiedNothing(c: Config, from: Table)
    requires c.Depth() > 0 && |from| == Fanout(c)
    ensures CopiedOnly(Empty(c), from, [])
  {
    hide Fanout;
  }

  lemma CopiedOne(row: Table, row': Table, from: Table, areas: seq<Area>, k: nat)
    requires k < |areas| && CopiedOnly(row, from, areas[..k]) && |row'| == |row|
    requires forall i :: 0 <= i < |row'| ==> row'[i] == if Covers(areas[k], i) then from[i] else row[i]
    ensures CopiedOnly(row', from, areas[..k + 1])
  {
    hide Covers;
    assert areas[..k + 1] == areas[..k] + [areas[k]];
    forall i | 0 <= i < |row'| ensures Covered(areas[..k + 1], i) == (Covered(areas[..k], i) || Covers(areas[k], i)) {
      CoveredOne(areas[..k], areas[k], i);
    }
  }

  predicate Covered(areas: seq<Area>, i: nat) { exists k :: 0 <= k < |areas| && Covers(areas[k], i) }

  lemma CoveredOne(areas: seq<Area>, a: Area, i: nat)
    ensures Covered(areas + [a], i) == (Covered(areas, i) || Covers(a, i))
  {
    hide Covers;
    var more := areas + [a];
    if Covers(a, i) { assert Covers(more[|areas|], i); }
    if Covered(areas, i) {
      var k :| 0 <= k < |areas| && Covers(areas[k], i);
      assert Covers(more[k], i);
    }
  }

  /** The kernel's root table; there is one as soon as some slot is the kernel's. */
  ghost function KernelRow(c: Config, m: Memory, kpt: nat): (row: Table)
    requires c.Depth() > 0
    ensures |row| == Fanout(c)
  {
    if kpt in m && |m[kpt]| == Fanout(c) then m[kpt] else Empty(c)
  }

  lemma AreaSlot(c: Config, m: Memory, owner: Owner, roots: map<nat, nat>, kpt: nat, k: nat)
    requires State(c, m, owner, roots, kpt) && AreasOk(c) && k < |c.areas|
    ensures kpt in m && |m[kpt]| == Fanout(c) && KernelRow(c, m, kpt) == m[kpt]
  {
    hide Contiguous, Separate, Fanout, Nodes, Linked, UserPlaces, Rooted, Distinct;
    var i := c.areas[k].first;
    assert Covers(c.areas[k], i);
    assert KernelSlot(c, m, owner, kpt, i);
  }

  lemma NewRoot(c: Config, m: Memory, owner: Owner, roots: map<nat, nat>, kpt: nat, supply: seq<nat>, s: nat,
                upt: Table)
    requires State(c, m, owner, roots, kpt) && Fresh(m, supply) && supply != [] && s !in roots
    requires AreasOk(c) && CopiedOnly(upt, KernelRow(c, m, kpt), c.areas)
    ensures var q := supply[0]; var m', owner', roots' := m[q := upt], owner[q := Place(s, [])], roots[s := q];
      && State(c, m', owner', roots', kpt) && Fresh(m', supply[1..]) && Grows(m, owner, m', owner')
      && SamePages(c, m, m', roots)
      && forall va :: UserPage(c, va) ==> View(c, m', q, va) == None
  {
    hide Contiguous, Separate, Covered, Fanout, PathOf, SamePages, View, Forest;
    var q := supply[0];
    var m', owner', roots' := m[q := upt], owner[q := Place(s, [])], roots[s := q];
    OwnedInMemory(c, m, owner, roots, kpt);
    var from := KernelRow(c, m, kpt);
    assert forall i :: 0 <= i < |upt| ==> upt[i] == if i in c.kernel then from[i] else 0;
    forall i | i in c.kernel && i < Fanout(c) ensures KernelSlot(c, m', owner', kpt, i) && upt[i] == m[kpt][i] {
      assert KernelSlot(c, m, owner, kpt, i);
    }
    NewRootForest(c, m, owner, roots, s, q, upt);
    NewRootPages(c, m, owner, roots, kpt, q, upt);
    forall va | UserPage(c, va) ensures View(c, m', q, va) == None {
      NewRootAbsent(c, m', q, va);
    }
  }

  lemma NewRootForest(c: Config, m: Memory, owner: Owner, roots: map<nat, nat>, s: nat, q: nat, upt: Table)
    requires Forest(c, m, owner, roots) && q !in m && Aligned(q) && s !in roots && |upt| == Fanout(c)
    requires forall i :: 0 <= i < |upt| && i !in c.kernel ==> upt[i] == 0
    ensures Forest(c, m[q := upt], owner[q := Place(s, [])], roots[s := q])
  {
    hide Fanout, Nodes, Linked;
    NewRootNodes(c, m, owner, s, q, upt);
    NewRootLinked(c, m, owner, s, q, upt);
    assert q !in owner by { NodesInMemory(c, m, owner); }
  }

  lemma NodesInMemory(c: Config, m: Memory, owner: Owner)
    requires c.Depth() >= 2 && Nodes(c, m, owner)
    ensures forall t :: t in owner ==> t in m
  {
  }

  lemma NewRootNodes(c: Config, m: Memory, owner: Owner, s: nat, q: nat, upt: Table)
    requires c.Depth() >= 2 && Nodes(c, m, owner) && q !in m && |upt| == Fanout(c)
    requires forall i :: 0 <= i < |upt| && i !in c.kernel ==> upt[i] == 0
    ensures Nodes(c, m[q := upt], owner[q := Place(s, [])])
  {
    hide Fanout;
    var m', owner' := m[q := upt], owner[q := Place(s, [])];
    forall t | t in owner' ensures t in m' && NodeOk(c, m', owner', t) {
      if t != q { assert NodeOk(c, m, owner, t); }
    }
  }

  lemma NewRootLinked(c: Config, m: Memory, owner: Owner, s: nat, q: nat, upt: Table)
    requires c.Depth() >= 2 && Nodes(c, m, owner) && Linked(m, owner) && q !in m
    ensures Linked(m[q := upt], owner[q := Place(s, [])])
  {
    hide NodeOk;
    var m', owner' := m[q := upt], owner[q := Place(s, [])];
    forall t | t in owner' && owner'[t].at != [] ensures exists u :: Links(m', owner', u, t) {
      var u :| Links(m, owner, u, t);
      assert Links(m', owner', u, t);
    }
  }

  lemma NewRootAbsent(c: Config, m: Memory, q: nat, va: nat)
    requires Contiguous(c) && Separate(c) && UserPage(c, va) && q in m && |m[q]| == Fanout(c)
    requires forall i :: 0 <= i < |m[q]| && i !in c.kernel ==> m[q][i] == 0
    ensures View(c, m, q, va) == None
  {
    hide Fanout, PathOf, Separate;
    PathBounds(c, va);
  }

  lemma NewRootPages(c: Config, m: Memory, owner: Owner, roots: map<nat, nat>, kpt: nat, q: nat, upt: Table)
    requires State(c, m, owner, roots, kpt) && q !in m
    ensures SamePages(c, m, m[q := upt], roots)
  {
    hide State, PathOf, Lookup, Contiguous, Separate;
    OwnedInMemory(c, m, owner, roots, kpt);
    forall s, va | s in roots && UserPage(c, va)
      ensures View(c, m[q := upt], roots[s], va) == View(c, m, roots[s], va)
    {
      PathBounds(c, va);
      LookupElsewhere(c, m, owner, roots[s], PathOf(c, va), m[q := upt]);
    }
  }

  /** A walk through one address space depends on that space's tables only. */
  lemma {:induction false} LookupElsewhere(c: Config, m: Memory, owner: Owner, t: nat, path: seq<nat>, m': Memory)
    requires c.Depth() >= 2 && t in owner && Nodes(c, m, owner)
    requires |owner[t].at| + |path| == c.Depth() && (owner[t].at != [] || (path != [] && path[0] !in c.kernel))
    requires forall x :: x in owner && owner[x].space == owner[t].space ==> x in m' && m'[x] == m[x]
    ensures Lookup(m', t, path) == Lookup(m, t, path)
    decreases |path|
  {
    if |path| > 1 && path[0] < |m[t]| && Present(m[t][path[0]]) {
      LookupElsewhere(c, m, owner, Base(m[t][path[0]]), path[1..], m');
    }
  }

  ghost predicate CopiedOnly(row: Table, from: Table, areas: seq<Area>) {
    && |row| == |from|
    && forall i :: 0 <= i < |row| ==> row[i] == if Covered(areas, i) then from[i] else 0
  }

  // ----- whole runs of map calls -----

  datatype Op = Op(s: nat, va: nat, pa: nat, prot: nat)

  /** What the page va of s translates to after the calls: what the last call for it asked for. */
  function After(ops: seq<Op>, s: nat, va: nat, before: Option<Frame>): Option<Frame> {
    if ops == [] then before
    else
      var op := ops[|ops| - 1];
      if op.s == s && op.va == va then Request(op.pa, op.prot) else After(ops[..|ops| - 1], s, va, before)
  }

  ghost predicate Ran(c: Config, m: Memory, m': Memory, roots: map<nat, nat>, ops: seq<Op>) {
    forall s, va :: s in roots && UserPage(c, va) ==>
      View(c, m', roots[s], va) == After(ops, s, va, View(c, m, roots[s], va))
  }

  lemma RanNothing(c: Config, m: Memory, roots: map<nat, nat>)
    ensures Ran(c, m, m, roots, [])
  {
    hide View;
  }

  lemma RanOne(c: Config, m0: Memory, m1: Memory, m2: Memory, roots: map<nat, nat>, ops: seq<Op>, k: nat)
    requires k < |ops| && ops[k].s in roots && Ran(c, m0, m1, roots, ops[..k])
    requires OnlyPage(c, m1, m2, roots, ops[k].s, ops[k].va, Request(ops[k].pa, ops[k].prot))
    ensures Ran(c, m0, m2, roots, ops[..k + 1])
  {
    hide View, Request;
    assert ops[..k + 1][..k] == ops[..k];
  }

  /** map calls one after the other, up to the first that panics. */
  method RunMaps(mmu: Mmu, ops: seq<Op>) returns (r: Outcome)
    requires mmu.Valid() && forall k :: 0 <= k < |ops| ==> ops[k].s in mmu.roots
    modifies mmu`mem, mmu`supply, mmu`owner
    ensures mmu.Valid() && Grows(old(mmu.mem), old(mmu.owner), mmu.mem, mmu.owner)
    ensures KernelKeeps(mmu.c, old(mmu.mem), old(mmu.owner), mmu.mem, mmu.owner, mmu.roots, mmu.kpt)
    ensures r.Done? ==> Ran(mmu.c, old(mmu.mem), mmu.mem, mmu.roots, ops)
  {
    hide State, Fresh, Grows, Ran, Allowed, OnlyPage, SamePages, Contiguous, KernelKeeps;
    GrowsSelf(mmu.mem, mmu.owner);
    RanNothing(mmu.c, mmu.mem, mmu.roots);
    assert ops[..0] == [];
    for k := 0 to |ops|
      invariant mmu.Valid() && Grows(old(mmu.mem), old(mmu.owner), mmu.mem, mmu.owner)
      invariant Ran(mmu.c, old(mmu.mem), mmu.mem, mmu.roots, ops[..k])
    {
      ghost var m1, o1 := mmu.mem, mmu.owner;
      r := mmu.Map(ops[k].s, ops[k].va, ops[k].pa, ops[k].prot);
      GrowsTransitive(old(mmu.mem), old(mmu.owner), m1, o1, mmu.mem, mmu.owner);
      if r == Panic {
        KernelAfter(mmu.c, old(mmu.mem), old(mmu.owner), mmu.mem, mmu.owner, mmu.roots, mmu.kpt);
        return;
      }
      RanOne(mmu.c, old(mmu.mem), m1, mmu.mem, mmu.roots, ops, k);
    }
    assert ops[..|ops|] == ops;
    KernelAfter(mmu.c, old(mmu.mem), old(mmu.owner), mmu.mem, mmu.owner, mmu.roots, mmu.kpt);
    r := Done;
  }

  // ----- the kernel's translations -----

  /** The n levels of tables below t are all outside the user tables. */
  ghost predicate KernelTree(m: Memory, owner: Owner, t: nat, n: nat)
    decreases n
  {
    n > 0 ==>
      && t in m && t !in owner
      && forall i :: 0 <= i < |m[t]| && Present(m[t][i]) ==> KernelTree(m, owner, Base(m[t][i]), n - 1)
  }

  ghost predicate Kernel(c: Config, m: Memory, owner: Owner, kpt: nat)
    requires c.Depth() > 0
  {
    forall i :: i in c.kernel && i < Fanout(c) ==>
      && kpt in m && kpt !in owner && |m[kpt]| == Fanout(c)
      && (Present(m[kpt][i]) ==> KernelTree(m, owner, Base(m[kpt][i]), c.Depth() - 1))
  }

  /** Memory that is no user table stays as it is, and no user table is made of it. */
  ghost predicate OthersKept(m: Memory, o: Owner, m': Memory, o': Owner) {
    forall x :: x in m && x !in o ==> x in m' && m'[x] == m[x] && x !in o'
  }

  /** In every address space every kernel address translates in m' as in the kernel's own table in m. */
  ghost predicate KernelSame(c: Config, m: Memory, kpt: nat, m': Memory, roots': map<nat, nat>)
    requires c.Depth() > 0
  {
    forall s, path :: s in roots' && |path| == c.Depth() && path[0] in c.kernel && path[0] < Fanout(c) ==>
      Lookup(m', roots'[s], path) == Lookup(m, kpt, path)
  }

  /** Changes that leave everything but user tables alone keep the kernel's trees and walks. */
  lemma {:induction false} KernelKept(m: Memory, o: Owner, m': Memory, o': Owner, t: nat, n: nat)
    requires KernelTree(m, o, t, n)
    requires forall x :: x in m && x !in o ==> x in m' && m'[x] == m[x] && x !in o'
    ensures KernelTree(m', o', t, n)
    ensures forall path: seq<nat> :: |path| == n ==> Lookup(m', t, path) == Lookup(m, t, path)
    decreases n
  {
    if n > 0 {
      forall i | 0 <= i < |m[t]| && Present(m[t][i])
        ensures KernelTree(m', o', Base(m'[t][i]), n - 1)
        ensures forall path: seq<nat> :: |path| == n - 1 ==>
          Lookup(m', Base(m[t][i]), path) == Lookup(m, Base(m[t][i]), path)
      {
        KernelKept(m, o, m', o', Base(m[t][i]), n - 1);
      }
    }
  }

  lemma GrowsKeepsOthers(m: Memory, o: Owner, m': Memory, o': Owner)
    requires Grows(m, o, m', o')
    ensures OthersKept(m, o, m', o')
  {
  }

  /** The walk through one kernel slot. */
  lemma KernelWalk(c: Config, m: Memory, o: Owner, m': Memory, o': Owner, kpt: nat, root: nat, path: seq<nat>)
    requires c.Depth() >= 2 && |path| == c.Depth() && path[0] in c.kernel && path[0] < Fanout(c)
    requires Kernel(c, m, o, kpt) && OthersKept(m, o, m', o')
    requires root in m' && path[0] < |m'[root]| && kpt in m' && path[0] < |m'[kpt]| &&
      m'[root][path[0]] == m'[kpt][path[0]]
    ensures Lookup(m', root, path) == Lookup(m, kpt, path)
  {
    hide Lookup, Fanout, KernelTree;
    LookupStep(m, kpt, path);
    LookupStep(m', root, path);
    if Present(m[kpt][path[0]]) { KernelKept(m, o, m', o', Base(m[kpt][path[0]]), c.Depth() - 1); }
  }

  /** The kernel's tables and translations survive everything that keeps other memory. */
  lemma KernelViews(c: Config, m: Memory, o: Owner, m': Memory, o': Owner, roots': map<nat, nat>, kpt: nat)
    requires State(c, m', o', roots', kpt) && c.Depth() > 0 && Kernel(c, m, o, kpt) && OthersKept(m, o, m', o')
    ensures Kernel(c, m', o', kpt) && KernelSame(c, m, kpt, m', roots')
  {
    hide Contiguous, Separate, Nodes, Linked, UserPlaces, Distinct, Lookup, Fanout, KernelTree;
    forall i | i in c.kernel && i < Fanout(c) &&
      Present(m[kpt][i]) ensures KernelTree(m', o', Base(m[kpt][i]), c.Depth() - 1) {
      KernelKept(m, o, m', o', Base(m[kpt][i]), c.Depth() - 1);
    }
    forall s, path | s in roots' && |path| == c.Depth() && path[0] in c.kernel && path[0] < Fanout(c)
      ensures Lookup(m', roots'[s], path) == Lookup(m, kpt, path)
    {
      RootSize(c, m', o', roots', kpt, s);
      assert KernelSlot(c, m', o', kpt, path[0]);
      KernelWalk(c, m, o, m', o', kpt, roots'[s], path);
    }
  }

  /** If the kernel's tables are in place before, they are after, and every address space sees the
      kernel as before. */
  ghost predicate KernelKeeps(c: Config, m: Memory, o: Owner, m': Memory, o': Owner, roots': map<nat, nat>, kpt: nat) {
    c.Depth() > 0 && Kernel(c, m, o, kpt) ==> Kernel(c, m', o', kpt) && KernelSame(c, m, kpt, m', roots')
  }

  lemma KernelAfter(c: Config, m: Memory, o: Owner, m': Memory, o': Owner, roots': map<nat, nat>, kpt: nat)
    requires State(c, m', o', roots', kpt) && Grows(m, o, m', o')
    ensures KernelKeeps(c, m, o, m', o', roots', kpt)
  {
    hide State, Grows, Kernel, KernelSame, OthersKept;
    GrowsKeepsOthers(m, o, m', o');
    if c.Depth() > 0 && Kernel(c, m, o, kpt) { KernelViews(c, m, o, m', o', roots', kpt); }
  }

  lemma RootSize(c: Config, m: Memory, o: Owner, roots: map<nat, nat>, kpt: nat, s: nat)
    requires State(c, m, o, roots, kpt) && s in roots
    ensures roots[s] in m && |m[roots[s]]| == Fanout(c) && c.Depth() >= 2
  {
    OwnedInMemory(c, m, o, roots, kpt);
    TableFacts(c, m, o, roots, kpt, roots[s]);
  }

  lemma LookupStep(m: Memory, t: nat, path: seq<nat>)
    requires |path| >= 2 && t in m
    ensures Lookup(m, t, path) ==
      if path[0] < |m[t]| && Present(m[t][path[0]]) then Lookup(m, Base(m[t][path[0]]), path[1..]) else 0
  {
  }

  // ----- translations -----

  const MMAP_NONE: nat := 0
  const MMAP_WRITE: nat := 2

  datatype Outcome = Done | Panic
  datatype Frame = Frame(pa: nat, write: bool, user: bool)

  function FrameOf(e: nat): Option<Frame> { if Present(e) then Some(Frame(Base(e), Writable(e), User(e))) else None }

  function View(c: Config, m: Memory, root: nat, va: nat): Option<Frame> { FrameOf(Lookup(m, root, PathOf(c, va))) }

  predicate UserPage(c: Config, va: nat) { c.userLo <= va < c.userHi && Aligned(va) }

  /** What a map call asks the page to translate to. */
  function Request(pa: nat, prot: nat): Option<Frame> {
    if prot == MMAP_NONE then None else Some(Frame(pa, prot / 2 % 2 == 1, true))
  }

  /** map's conditions on its arguments: a page that is absent gets mapped, a present one unmapped. */
  ghost predicate Allowed(c: Config, m: Memory, root: nat, va: nat, pa: nat, prot: nat) {
    UserPage(c, va) && Aligned(pa) && (prot == MMAP_NONE <==> View(c, m, root, va).Some?)
  }

  ghost predicate SamePages(c: Config, m: Memory, m': Memory, roots: map<nat, nat>) {
    forall s, va :: s in roots && UserPage(c, va) ==> View(c, m', roots[s], va) == View(c, m, roots[s], va)
  }

  /** The page va of s translates to f, and every other page of every address space as before. */
  ghost predicate OnlyPage(c: Config, m: Memory, m': Memory, roots: map<nat, nat>, s: nat, va: nat, f: Option<Frame>)
    requires s in roots
  {
    && View(c, m', roots[s], va) == f
    && forall s', va' :: s' in roots && UserPage(c, va') && (s' != s || va' != va) ==>
         View(c, m', roots[s'], va') == View(c, m, roots[s'], va')
  }

  lemma SamePagesSelf(c: Config, m: Memory, roots: map<nat, nat>)
    ensures SamePages(c, m, m, roots)
  {
  }

  lemma SamePagesAt(c: Config, m: Memory, m': Memory, roots: map<nat, nat>, s: nat, va: nat)
    requires SamePages(c, m, m', roots) && s in roots && UserPage(c, va)
    ensures View(c, m', roots[s], va) == View(c, m, roots[s], va)
  {
    hide View;
  }

  lemma OnlyPageAfter(c: Config, m0: Memory, m1: Memory, m2: Memory, roots: map<nat, nat>, s: nat, va: nat,
                      f: Option<Frame>)
    requires s in roots && UserPage(c, va)
    requires SamePages(c, m0, m1, roots) && OnlyPage(c, m1, m2, roots, s, va, f)
    ensures OnlyPage(c, m0, m2, roots, s, va, f)
  {
    hide View;
  }

  lemma ViewsGivePages(c: Config, m: Memory, m': Memory, owner: Owner, roots: map<nat, nat>, kpt: nat)
    requires State(c, m', owner, roots, kpt) && SameViews(c, m, m', roots)
    ensures SamePages(c, m, m', roots)
  {
    hide Lookup, State, IndexOf;
    OwnedInMemory(c, m', owner, roots, kpt);
    forall s, va | s in roots && UserPage(c, va) ensures View(c, m', roots[s], va) == View(c, m, roots[s], va) {
      PathBounds(c, va);
    }
  }

  lemma RequestEntry(pa: nat, prot: nat)
    requires Aligned(pa)
    ensures FrameOf(if prot == MMAP_NONE then 0 else pa + P + U + if BitAnd(prot, MMAP_WRITE) != 0 then W else 0) ==
      Request(pa, prot)
  {
    hide BitAnd;
    AndTwo(prot);
    EntryParts(pa, P + U);
    EntryParts(pa, P + U + W);
  }

  lemma AndTwo(x: nat)
    ensures BitAnd(x, 2) == 2 * (x / 2 % 2)
  {
    hide Up, Shr, Low, BitAnd;
    Up8(1);
    AndShifted(x, 1, 1);
    assert Shr(x, 1) == x / 2 by { ShrOne(x); }
    AndMask(x / 2, 1);
    assert Low(x / 2, 1) == x / 2 % 2 by { LowOne(x / 2); }
    Up8(BitAnd(x / 2, 1));
  }

  lemma ShrOne(x: nat)
    ensures Shr(x, 1) == x / 2
  {
  }

  lemma LowOne(x: nat)
    ensures Low(x, 1) == x % 2
  {
  }

  lemma LeafView(c: Config, m: Memory, root: nat, va: nat, t: nat, i: nat)
    requires c.Depth() > 0 && t in m && i < |m[t]|
    requires Leads(m, root, PathOf(c, va)[..c.Depth() - 1], t) && i == PathOf(c, va)[c.Depth() - 1]
    ensures View(c, m, root, va) == FrameOf(m[t][i])
  {
    hide Lookup, Leads, PathOf, State;
    var path, n := PathOf(c, va), c.Depth() - 1;
    assert path == path[..n] + [i];
    LookupLeads(m, root, path[..n], t, i);
  }

  /** The entry that the walk to va ends at. */
  ghost predicate LeafAt(c: Config, m: Memory, owner: Owner, roots: map<nat, nat>, s: nat, va: nat, t: nat, i: nat)
    requires c.Depth() > 0 && s in roots
  {
    var path, n := PathOf(c, va), c.Depth() - 1;
    && t in owner && owner[t] == Place(s, path[..n]) && t in m && i == path[n] < |m[t]|
    && Leads(m, roots[s], path[..n], t)
  }

  /** The walk to va still ends at the entry after it was written. */
  lemma SetLeafOwn(c: Config, m: Memory, owner: Owner, roots: map<nat, nat>, kpt: nat, s: nat, va: nat, t: nat,
                   i: nat, e: nat)
    requires State(c, m, owner, roots, kpt) && s in roots && UserPage(c, va) && c.Depth() > 0
    requires LeafAt(c, m, owner, roots, s, va, t, i)
    ensures View(c, SetEntry(m, t, i, e), roots[s], va) == FrameOf(e)
    ensures Reaches(SetEntry(m, t, i, e), roots[s], PathOf(c, va)[..c.Depth() - 1])
  {
    hide Lookup, Leads, Reaches, IndexOf, State, PathOf, Fanout, FrameOf, Contiguous, Separate, View, Nodes;
    var m', path, n := SetEntry(m, t, i, e), PathOf(c, va), c.Depth() - 1;
    OwnedInMemory(c, m, owner, roots, kpt);
    PathBounds(c, va);
    LeadsSet(c, m, owner, roots[s], path[..n], t, m');
    LeadsReaches(m', roots[s], path[..n], t);
    LeafView(c, m', roots[s], va, t, i);
  }

  /** Writing the leaf entry of va changes the translation of that page only. */
  lemma SetLeafPage(c: Config, m: Memory, owner: Owner, roots: map<nat, nat>, kpt: nat, supply: seq<nat>,
                    s: nat, va: nat, t: nat, i: nat, e: nat)
    requires State(c, m, owner, roots, kpt) && Fresh(m, supply) && s in roots && UserPage(c, va) && c.Depth() > 0
    requires LeafAt(c, m, owner, roots, s, va, t, i)
    ensures State(c, SetEntry(m, t, i, e), owner, roots, kpt) && Fresh(SetEntry(m, t, i, e), supply)
    ensures Grows(m, owner, SetEntry(m, t, i, e), owner)
    ensures OnlyPage(c, m, SetEntry(m, t, i, e), roots, s, va, FrameOf(e))
    ensures Reaches(SetEntry(m, t, i, e), roots[s], PathOf(c, va)[..c.Depth() - 1])
  {
    hide Lookup, Leads, Reaches, IndexOf, State, PathOf, Fanout, FrameOf, Contiguous, Separate, View, Nodes;
    var m' := SetEntry(m, t, i, e);
    SetLeafOwn(c, m, owner, roots, kpt, s, va, t, i, e);
    TableFacts(c, m, owner, roots, kpt, t);
    SetLeafKeeps(c, m, owner, roots, kpt, t, i, e);
    forall s', va' | s' in roots && UserPage(c, va') && (s' != s || va' != va)
      ensures View(c, m', roots[s'], va') == View(c, m, roots[s'], va')
    {
      SetLeafOther(c, m, owner, roots, kpt, s, va, t, i, e, s', va');
    }
  }

  lemma SetLeafOther(c: Config, m: Memory, owner: Owner, roots: map<nat, nat>, kpt: nat, s: nat, va: nat, t: nat,
                     i: nat, e: nat, s': nat, va': nat)
    requires State(c, m, owner, roots, kpt) && s in roots && UserPage(c, va)
    requires c.Depth() > 0 && t in owner && owner[t] == Place(s, PathOf(c, va)[..c.Depth() - 1]) && t in m &&
      i == PathOf(c, va)[c.Depth() - 1] < |m[t]|
    requires s' in roots && UserPage(c, va') && (s' != s || va' != va)
    ensures View(c, SetEntry(m, t, i, e), roots[s'], va') == View(c, m, roots[s'], va')
  {
    hide Lookup, IndexOf, State, PathOf, Fanout, FrameOf, Contiguous, Separate, Nodes;
    var path, n := PathOf(c, va), c.Depth() - 1;
    OwnedInMemory(c, m, owner, roots, kpt);
    PathBounds(c, va');
    OtherPath(c, va, va');
    assert path == path[..n] + [i];
    LookupSetOther(c, m, owner, roots[s'], PathOf(c, va'), t, i, e);
  }

  lemma OtherPath(c: Config, a: nat, b: nat)
    requires Contiguous(c) && UserPage(c, a) && UserPage(c, b)
    ensures PathOf(c, a) <= PathOf(c, b) ==> a == b
  {
    hide IndexOf, PathOf;
    if PathOf(c, a) <= PathOf(c, b) {
      assert PathOf(c, a) == PathOf(c, b);
      PathInjective(c, a, b);
    }
  }

  lemma SupplyHead(m: Memory, supply: seq<nat>)
    requires Fresh(m, supply) && supply != []
    ensures supply[0] !in m && Aligned(supply[0])
  {
  }

  /** All the tables along `pre` are there. */
  predicate Reaches(m: Memory, t: nat, pre: seq<nat>)
    decreases |pre|
  {
    pre == [] || (t in m && pre[0] < |m[t]| && Present(m[t][pre[0]]) && Reaches(m, Base(m[t][pre[0]]), pre[1..]))
  }

  lemma ReachesFirst(m: Memory, t: nat, path: seq<nat>, k: nat, n: nat)
    requires k < n <= |path| && Reaches(m, t, path[k..n])
    ensures t in m && path[k] < |m[t]| && Present(m[t][path[k]]) && Reaches(m, Base(m[t][path[k]]), path[k + 1..n])
  {
    assert path[k..n][1..] == path[k + 1..n];
  }

  lemma {:induction false} LeadsReaches(m: Memory, t: nat, pre: seq<nat>, u: nat)
    requires Leads(m, t, pre, u)
    ensures Reaches(m, t, pre)
    decreases |pre|
  {
    if pre != [] { LeadsReaches(m, Base(m[t][pre[0]]), pre[1..], u); }
  }

  lemma LeadsHere(m: Memory, t: nat)
    ensures Leads(m, t, [], t)
  {
  }

  lemma PathBounds(c: Config, va: nat)
    requires Contiguous(c) && Separate(c) && c.userLo <= va < c.userHi
    ensures forall k :: 0 <= k < c.Depth() ==> PathOf(c, va)[k] == IndexOf(va, c.levels[k]) < Fanout(c)
    ensures PathOf(c, va)[0] !in c.kernel
  {
    hide IndexOf, Pow2;
    forall k | 0 <= k < c.Depth() ensures PathOf(c, va)[k] < Fanout(c) { IndexValue(va, c.levels[k]); }
  }

  /** The root slots that an address range takes. */
  lemma SlotRange(c: Config, va: nat, lo: nat, hi: nat)
    requires c.Depth() > 0 && Slot(c, lo) <= va < Slot(c, hi) && hi <= Fanout(c)
    ensures lo <= IndexOf(va, c.levels[0]) < hi
  {
    hide Up, Shr, Low, IndexOf;
    var l := c.levels[0];
    var h := Shr(va, l.shift);
    IndexValue(va, l);
    Split(va, l.shift);
    UpAdd(h, 1, l.shift);
    UpMonotone(h + 1, lo, l.shift);
    UpMonotone(hi, h, l.shift);
    UpZero(l.bits);
    SplitUnique(h, l.bits, 0, h);
  }
}

/**
A set-associative cache as what it holds: one finite map from tags to time stamps per set.  The
least-recently-used policy is shown to be inclusive in the number of ways.
*/
module CacheSpec {
  import opened Bits

  datatype Replacement = FIFO | LRU

  datatype Config = Config(sets: nat, ways: nat, offsetBits: nat, indexBits: nat, replacement: Replacement,
                           writeBack: bool, writeAllocate: bool)

  datatype Entry = Entry(time: nat, dirty: bool)
  type Lines = map<nat, Entry>

  datatype Counters = Counters(readHits: nat, readMisses: nat, writeHits: nat, writeMisses: nat,
                               writeBacks: nat, writeThroughs: nat) {
    function Hits(): nat { readHits + writeHits }
    function Misses(): nat { readMisses + writeMisses }
  }

  datatype State = State(lines: seq<Lines>, clock: nat, count: Counters)

  datatype Access = Access(addr: nat, write: bool)

  function Index(c: Config, addr: nat): nat
    requires c.sets > 0
  {
    BitAnd(Shr(addr, c.offsetBits), c.sets - 1)
  }

  function Tag(c: Config, addr: nat): nat { Shr(addr, c.offsetBits + c.indexBits) }

  // ----- one set -----

  ghost predicate IsOldest(m: Lines, v: nat) { v in m && forall u :: u in m ==> m[v].time <= m[u].time }

  ghost function Oldest(m: Lines): nat { if v: nat :| IsOldest(m, v) then v else 0 }

  /** What a set holds after an access to `tag` at time `now`. */
  ghost function Touch(c: Config, m: Lines, tag: nat, now: nat, write: bool): Lines {
    if tag in m then
      m[tag := Entry(if c.replacement == LRU then now else m[tag].time, m[tag].dirty || (write && c.writeBack))]
    else if write && !c.writeAllocate then m
    else Room(c, m)[tag := Entry(now, write && c.writeBack)]
  }

  /** The set with a free line: the oldest one goes if there is none. */
  ghost function Room(c: Config, m: Lines): Lines { if |m| < c.ways then m else m - {Oldest(m)} }

  /** Time stamps are of the past and different. */
  ghost predicate Stamped(m: Lines, now: nat) {
    && (forall t :: t in m ==> m[t].time <= now)
    && (forall t, u :: t in m && u in m && m[t].time == m[u].time ==> t == u)
  }

  ghost predicate Fits(c: Config, m: Lines, now: nat) { |m| <= c.ways && Stamped(m, now) }

  lemma OldestUnique(m: Lines, now: nat, v: nat)
    requires Stamped(m, now) && IsOldest(m, v)
    ensures Oldest(m) == v
  {
  }

  lemma {:induction false} OldestExists(m: Lines)
    requires |m| > 0
    ensures IsOldest(m, Oldest(m))
    decreases |m|
  {
    var t :| t in m;
    var rest := m - {t};
    assert m.Keys == rest.Keys + {t};
    if |rest| == 0 {
      assert IsOldest(m, t);
    } else {
      OldestExists(rest);
      var v := Oldest(rest);
      assert IsOldest(m, if m[v].time <= m[t].time then v else t);
    }
  }

  lemma RoomSize(c: Config, m: Lines)
    requires c.ways > 0 && |m| <= c.ways
    ensures |Room(c, m)| < c.ways
    ensures |m| == c.ways ==> |Room(c, m)| == c.ways - 1
  {
    hide Oldest;
    if |m| == c.ways {
      OldestExists(m);
      OneLess(m, Oldest(m));
    }
  }

  lemma OneLess(m: Lines, t: nat)
    requires t in m
    ensures |m - {t}| == |m| - 1
  {
    assert (m - {t}).Keys + {t} == m.Keys;
  }

  lemma OneMore(m: Lines, t: nat, e: Entry)
    ensures |m[t := e]| == if t in m then |m| else |m| + 1
  {
    assert m[t := e].Keys == m.Keys + {t};
    if t in m { assert m.Keys + {t} == m.Keys; }
  }

  lemma StampedNew(m: Lines, tag: nat, now: nat, now': nat, d: bool)
    requires Stamped(m, now) && now < now'
    ensures Stamped(m[tag := Entry(now', d)], now')
  {
  }

  lemma StampedSame(m: Lines, tag: nat, now: nat, now': nat, d: bool)
    requires Stamped(m, now) && now < now' && tag in m
    ensures Stamped(m[tag := Entry(m[tag].time, d)], now')
  {
  }

  lemma StampedRoom(c: Config, m: Lines, now: nat)
    requires Stamped(m, now)
    ensures Stamped(Room(c, m), now)
  {
    hide Oldest;
  }

  lemma TouchFits(c: Config, m: Lines, tag: nat, now: nat, now': nat, write: bool)
    requires c.ways > 0 && Fits(c, m, now) && now < now'
    ensures Fits(c, Touch(c, m, tag, now', write), now')
  {
    hide Oldest, Room, Stamped;
    RoomSize(c, m);
    StampedRoom(c, m, now);
    var m' := Touch(c, m, tag, now', write);
    if tag in m {
      OneMore(m, tag, m'[tag]);
      StampedNew(m, tag, now, now', m'[tag].dirty);
      StampedSame(m, tag, now, now', m'[tag].dirty);
    } else if !(write && !c.writeAllocate) {
      OneMore(Room(c, m), tag, m'[tag]);
      StampedNew(Room(c, m), tag, now, now', m'[tag].dirty);
    } else {
      assert Stamped(m, now') by { StampedLater(m, now, now'); }
    }
  }

  lemma StampedLater(m: Lines, now: nat, now': nat)
    requires Stamped(m, now) && now < now'
    ensures Stamped(m, now')
  {
  }

  // ----- inclusion -----

  /** The small set is part of the large one, with the same time stamps; until it is full they hold
      the same. */
  ghost predicate Included(c: Config, small: Lines, large: Lines) {
    && (forall t :: t in small ==> t in large && large[t].time == small[t].time)
    && (|small| < c.ways ==> small.Keys == large.Keys)
  }

  predicate Comparable(c: Config, big: Config) {
    && c.ways > 0 && c.ways <= big.ways && c.sets == big.sets
    && c.offsetBits == big.offsetBits && c.indexBits == big.indexBits
    && c.replacement == LRU == big.replacement && c.writeAllocate == big.writeAllocate
  }

  /** If the large set drops a line that the small one holds, then the small one drops it too. */
  lemma SameVictim(c: Config, big: Config, small: Lines, large: Lines, now: nat)
    requires Comparable(c, big) && Fits(c, small, now) && Fits(big, large, now) && Included(c, small, large)
    ensures forall t :: t in Room(c, small) ==> t in Room(big, large)
    ensures |small| < c.ways ==> Room(c, small) == small && Room(big, large) == large
  {
    hide Oldest;
    assert |small| < c.ways ==> |large| == |small|;
    if |large| >= big.ways {
      OldestExists(large);
      var w := Oldest(large);
      if w in small {
        assert IsOldest(small, w);
        OldestUnique(small, now, w);
      }
    }
  }

  lemma IncludedSet(c: Config, small: Lines, large: Lines, tag: nat, e: Entry, f: Entry)
    requires Included(c, small, large) && e.time == f.time
    ensures Included(c, small[tag := e], large[tag := f])
  {
    OneMore(small, tag, e);
  }

  /** The line comes into the small set, for an older one if need be, and is in the large one. */
  lemma IncludedLoad(c: Config, small: Lines, large: Lines, tag: nat, e: Entry, f: Entry)
    requires Included(c, small, large) && |small| <= c.ways && 0 < c.ways
    requires e.time == f.time && tag !in small && tag in large
    ensures Included(c, Room(c, small)[tag := e], large[tag := f])
  {
    hide Room;
    RoomKeeps(c, small);
    RoomSize(c, small);
    OneMore(Room(c, small), tag, e);
    assert |small| == c.ways;
  }

  lemma IncludedLoadBoth(c: Config, big: Config, small: Lines, large: Lines, tag: nat, now: nat, e: Entry, f: Entry)
    requires Comparable(c, big) && Fits(c, small, now) && Fits(big, large, now) && Included(c, small, large)
    requires e.time == f.time && tag !in small && tag !in large
    ensures Included(c, Room(c, small)[tag := e], Room(big, large)[tag := f])
  {
    hide Room, Stamped;
    SameVictim(c, big, small, large, now);
    RoomKeeps(c, small);
    RoomKeeps(big, large);
    RoomSize(c, small);
    OneMore(Room(c, small), tag, e);
  }

  /** One access keeps the inclusion. */
  lemma InclusionStep(c: Config, big: Config, small: Lines, large: Lines, tag: nat, now: nat, now': nat, write: bool)
    requires Comparable(c, big) && Fits(c, small, now) && Fits(big, large, now) && now < now'
    requires Included(c, small, large)
    ensures Included(c, Touch(c, small, tag, now', write), Touch(big, large, tag, now', write))
  {
    hide Room, Stamped;
    var small', large' := Touch(c, small, tag, now', write), Touch(big, large, tag, now', write);
    if tag in small {
      IncludedSet(c, small, large, tag, small'[tag], large'[tag]);
    } else if write && !c.writeAllocate {
      assert |small| < c.ways ==> tag !in large;
    } else if tag in large {
      IncludedLoad(c, small, large, tag, small'[tag], large'[tag]);
    } else {
      IncludedLoadBoth(c, big, small, large, tag, now, small'[tag], large'[tag]);
    }
  }

  lemma RoomKeeps(c: Config, m: Lines)
    ensures forall t :: t in Room(c, m) ==> t in m && Room(c, m)[t] == m[t]
  {
    hide Oldest;
  }

  // ----- whole caches and runs -----

  ghost function Count(c: Config, k: Counters, m: Lines, tag: nat, write: bool): Counters {
    if tag in m then
      if write then k.(writeHits := k.writeHits + 1, writeThroughs := k.writeThroughs + if c.writeBack then 0 else 1)
      else k.(readHits := k.readHits + 1)
    else if write && !c.writeAllocate then k.(writeMisses := k.writeMisses + 1, writeThroughs := k.writeThroughs + 1)
    else
      var saved := if |m| >= c.ways && Oldest(m) in m && m[Oldest(m)].dirty && c.writeBack then 1 else 0;
      if write then
        k.(writeMisses := k.writeMisses + 1, writeBacks := k.writeBacks + saved,
           writeThroughs := k.writeThroughs + if c.writeBack then 0 else 1)
      else k.(readMisses := k.readMisses + 1, writeBacks := k.writeBacks + saved)
  }

  /** A miss that brings the tag in. */
  lemma LoadMiss(c: Config, k: Counters, m: Lines, tag: nat, now: nat, write: bool)
    requires tag !in m && (write ==> c.writeAllocate)
    ensures Touch(c, m, tag, now, write) == Room(c, m)[tag := Entry(now, write && c.writeBack)]
    ensures var saved := if |m| >= c.ways && Oldest(m) in m && m[Oldest(m)].dirty && c.writeBack then 1 else 0;
      var through := if write && !c.writeBack then 1 else 0;
      Count(c, k, m, tag, write) == Counters(k.readHits, k.readMisses + (if write then 0 else 1), k.writeHits,
        k.writeMisses + (if write then 1 else 0), k.writeBacks + saved, k.writeThroughs + through)
  {
    hide Oldest, Room;
  }

  /** A write that is not brought in. */
  lemma PassedMiss(c: Config, k: Counters, m: Lines, tag: nat, now: nat)
    requires tag !in m && !c.writeAllocate
    ensures Touch(c, m, tag, now, true) == m
    ensures Count(c, k, m, tag, true) == k.(writeMisses := k.writeMisses + 1, writeThroughs := k.writeThroughs + 1)
  {
  }

  ghost predicate Sound(c: Config, st: State) {
    && c.sets > 0 && c.ways > 0 && |st.lines| == c.sets
    && forall i :: 0 <= i < |st.lines| ==> Fits(c, st.lines[i], st.clock)
  }

  lemma {:induction false} AndBelow(x: nat, y: nat)
    ensures BitAnd(x, y) <= y
  {
    if x > 0 && y > 0 { AndBelow(x / 2, y / 2); }
  }

  lemma IndexBound(c: Config, addr: nat)
    requires c.sets > 0
    ensures Index(c, addr) < c.sets
  {
    AndBelow(Shr(addr, c.offsetBits), c.sets - 1);
  }

  /** The whole cache after one access. */
  ghost function Step(c: Config, st: State, a: Access): (r: State)
    requires c.sets > 0 && |st.lines| == c.sets
    ensures |r.lines| == c.sets
  {
    IndexBound(c, a.addr);
    var i, tag := Index(c, a.addr), Tag(c, a.addr);
    State(st.lines[i := Touch(c, st.lines[i], tag, st.clock + 1, a.write)], st.clock + 1,
          Count(c, st.count, st.lines[i], tag, a.write))
  }

  ghost predicate Hit(c: Config, st: State, a: Access)
    requires c.sets > 0 && |st.lines| == c.sets
  {
    IndexBound(c, a.addr);
    Tag(c, a.addr) in st.lines[Index(c, a.addr)]
  }

  ghost function Run(c: Config, st: State, trace: seq<Access>): (r: State)
    requires c.sets > 0 && |st.lines| == c.sets
    ensures |r.lines| == c.sets
  {
    if trace == [] then st else Step(c, Run(c, st, trace[..|trace| - 1]), trace[|trace| - 1])
  }

  function Start(c: Config): State { State(seq(c.sets, _ => map[]), 0, Counters(0, 0, 0, 0, 0, 0)) }

  lemma StartSound(c: Config)
    requires c.sets > 0 && c.ways > 0
    ensures Sound(c, Start(c))
  {
  }

  lemma StepSound(c: Config, st: State, a: Access)
    requires Sound(c, st)
    ensures Sound(c, Step(c, st, a))
  {
    hide Touch, Count, Index, Tag;
    IndexBound(c, a.addr);
    var i := Index(c, a.addr);
    TouchFits(c, st.lines[i], Tag(c, a.addr), st.clock, st.clock + 1, a.write);
    assert forall j :: 0 <= j < c.sets && Fits(c, st.lines[j], st.clock) ==> Fits(c, st.lines[j], st.clock + 1);
  }

  ghost predicate AllIncluded(c: Config, small: State, large: State) {
    && |small.lines| == |large.lines| && small.clock == large.clock
    && forall i :: 0 <= i < |small.lines| ==> Included(c, small.lines[i], large.lines[i])
  }

  lemma InclusionAll(c: Config, big: Config, small: State, large: State, a: Access)
    requires Comparable(c, big) && Sound(c, small) && Sound(big, large) && AllIncluded(c, small, large)
    ensures AllIncluded(c, Step(c, small, a), Step(big, large, a))
    ensures Hit(c, small, a) ==> Hit(big, large, a)
  {
    hide Touch, Count, Index, Tag, Fits, Included;
    IndexBound(c, a.addr);
    var i, tag := Index(c, a.addr), Tag(c, a.addr);
    assert Index(big, a.addr) == i && Tag(big, a.addr) == tag by { SameIndex(c, big, a.addr); }
    InclusionStep(c, big, small.lines[i], large.lines[i], tag, small.clock, small.clock + 1, a.write);
    IncludedIn(c, small.lines[i], large.lines[i], tag);
  }

  lemma IncludedIn(c: Config, small: Lines, large: Lines, tag: nat)
    requires Included(c, small, large)
    ensures tag in small ==> tag in large
  {
  }

  lemma SameIndex(c: Config, big: Config, addr: nat)
    requires Comparable(c, big) && c.sets > 0
    ensures Index(big, addr) == Index(c, addr) && Tag(big, addr) == Tag(c, addr)
  {
  }

  /** LRU inclusion: at every point of every trace the smaller cache's lines are lines of the larger
      one, with the same time stamps, and the larger cache has had at least as many hits. */
  lemma {:induction false} LruInclusion(c: Config, big: Config, trace: seq<Access>)
    requires Comparable(c, big) && c.sets > 0
    ensures AllIncluded(c, Run(c, Start(c), trace), Run(big, Start(big), trace))
    ensures Sound(c, Run(c, Start(c), trace)) && Sound(big, Run(big, Start(big), trace))
    ensures Run(c, Start(c), trace).count.Hits() <= Run(big, Start(big), trace).count.Hits()
  {
    hide Touch, Count, Index, Tag, Fits, Included;
    StartSound(c);
    StartSound(big);
    if trace == [] {
      StartIncluded(c);
      assert forall i :: 0 <= i < c.sets ==> Included(c, Start(c).lines[i], Start(big).lines[i]);
    } else {
      var past, a := trace[..|trace| - 1], trace[|trace| - 1];
      LruInclusion(c, big, past);
      var small, large := Run(c, Start(c), past), Run(big, Start(big), past);
      StepSound(c, small, a);
      StepSound(big, large, a);
      InclusionAll(c, big, small, large, a);
      HitCounted(c, small, a);
      HitCounted(big, large, a);
    }
  }

  lemma StartIncluded(c: Config)
    ensures Included(c, map[], map[])
  {
  }

  lemma HitCounted(c: Config, st: State, a: Access)
    requires c.sets > 0 && |st.lines| == c.sets
    ensures Step(c, st, a).count.Hits() == st.count.Hits() + if Hit(c, st, a) then 1 else 0
    ensures Step(c, st, a).count.Misses() == st.count.Misses() + if Hit(c, st, a) then 0 else 1
  {
    hide Touch, Index, Tag, Oldest;
  }

  // ----- what the counters mean -----

  /** Every access is a hit or a miss; every write that does not stay in the cache goes through. */
  ghost predicate Counted(c: Config, st: State) {
    var k := st.count;
    && k.Hits() + k.Misses() == st.clock
    && k.writeThroughs ==
       (if c.writeBack then 0 else k.writeHits) + (if c.writeBack && c.writeAllocate then 0 else k.writeMisses)
    && (c.writeBack ==> k.writeBacks + DirtyIn(st.lines) <= k.writeHits + k.writeMisses)
    && (!c.writeBack ==> k.writeBacks == 0)
  }

  ghost function DirtyTags(m: Lines): set<nat> { set t | t in m && m[t].dirty }

  ghost function Dirty(m: Lines): nat { |DirtyTags(m)| }

  /** Lines whose data is newer than memory's. */
  ghost function DirtyIn(sets: seq<Lines>): nat {
    if sets == [] then 0 else DirtyIn(sets[..|sets| - 1]) + Dirty(sets[|sets| - 1])
  }

  lemma {:induction false} DirtyUpdate(sets: seq<Lines>, i: nat, m: Lines)
    requires i < |sets|
    ensures DirtyIn(sets[i := m]) == DirtyIn(sets) - Dirty(sets[i]) + Dirty(m)
  {
    hide Dirty;
    var n := |sets| - 1;
    if i < n {
      assert sets[i := m][..n] == sets[..n][i := m];
      DirtyUpdate(sets[..n], i, m);
    } else {
      assert sets[i := m][..n] == sets[..n];
    }
  }

  lemma DirtyTagsSet(m: Lines, t: nat, e: Entry)
    ensures DirtyTags(m[t := e]) - {t} == DirtyTags(m) - {t}
    ensures t in DirtyTags(m[t := e]) <==> e.dirty
    ensures t in DirtyTags(m) <==> t in m && m[t].dirty
  {
  }

  /** The tags that an access drops from the set: at most the oldest one, and only from a full set. */
  ghost function Gone(c: Config, m: Lines, tag: nat, now: nat, write: bool): set<nat> {
    m.Keys - Touch(c, m, tag, now, write).Keys
  }

  lemma GoneIs(c: Config, m: Lines, tag: nat, now: nat, write: bool)
    requires c.ways > 0 && |m| <= c.ways
    ensures var gone := Gone(c, m, tag, now, write);
      if tag in m || (write && !c.writeAllocate) || |m| < c.ways then gone == {}
      else gone == {Oldest(m)} && IsOldest(m, Oldest(m))
  {
    hide Oldest;
    if tag !in m && !(write && !c.writeAllocate) && |m| >= c.ways {
      OldestExists(m);
      assert Touch(c, m, tag, now, write).Keys == m.Keys - {Oldest(m)} + {tag};
    }
  }

  /** Which lines are dirty after an access with write-back: those that were and are still there, and the
      tag if it was written and is there.  Each dirty line that is gone was written back, and no other. */
  lemma DirtyExactly(c: Config, k: Counters, m: Lines, tag: nat, now: nat, write: bool)
    requires c.ways > 0 && |m| <= c.ways
    ensures var m', gone := Touch(c, m, tag, now, write), Gone(c, m, tag, now, write);
      && DirtyTags(m') == (DirtyTags(m) - gone) + (if write && c.writeBack && tag in m' then {tag} else {})
      && Count(c, k, m, tag, write).writeBacks == k.writeBacks + if c.writeBack then |DirtyTags(m) * gone| else 0
  {
    hide Touch, Count, DirtyTags, Gone, Oldest;
    DirtyAfter(c, m, tag, now, write);
    SavedExactly(c, k, m, tag, now, write);
  }

  lemma DirtyAfter(c: Config, m: Lines, tag: nat, now: nat, write: bool)
    ensures var m' := Touch(c, m, tag, now, write);
      DirtyTags(m') ==
        (DirtyTags(m) - Gone(c, m, tag, now, write)) + (if write && c.writeBack && tag in m' then {tag} else {})
  {
    hide Oldest, Room;
    var m' := Touch(c, m, tag, now, write);
    RoomKeeps(c, m);
    if tag in m {
      DirtyTagsSet(m, tag, m'[tag]);
    } else if !(write && !c.writeAllocate) {
      DirtyTagsSet(Room(c, m), tag, m'[tag]);
    }
  }

  lemma SavedExactly(c: Config, k: Counters, m: Lines, tag: nat, now: nat, write: bool)
    requires c.ways > 0 && |m| <= c.ways
    ensures Count(c, k, m, tag, write).writeBacks ==
      k.writeBacks + if c.writeBack then |DirtyTags(m) * Gone(c, m, tag, now, write)| else 0
  {
    hide Oldest, Touch, Gone;
    GoneIs(c, m, tag, now, write);
    var gone, v := Gone(c, m, tag, now, write), Oldest(m);
    if gone == {v} {
      assert DirtyTags(m) * gone == if v in m && m[v].dirty then {v} else {};
    } else {
      assert DirtyTags(m) * gone == {};
    }
  }

  /** So a line stops being dirty only by being written back. */
  lemma DirtyTouch(c: Config, k: Counters, m: Lines, tag: nat, now: nat, write: bool)
    requires c.ways > 0 && |m| <= c.ways && c.writeBack
    ensures var k' := Count(c, k, m, tag, write);
      k'.writeBacks + Dirty(Touch(c, m, tag, now, write)) <= k.writeBacks + Dirty(m) + if write then 1 else 0
  {
    hide Oldest, DirtyTags, Touch, Count, Gone;
    DirtyExactly(c, k, m, tag, now, write);
    CardSplit(DirtyTags(m), Gone(c, m, tag, now, write), tag);
  }

  lemma CardSplit(d: set<nat>, gone: set<nat>, t: nat)
    ensures |(d - gone) + {t}| + |d * gone| <= |d| + 1 && |(d - gone) + {}| + |d * gone| == |d|
  {
    assert d == (d - gone) + (d * gone) && (d - gone) + {} == d - gone;
    if t in d - gone { assert (d - gone) + {t} == d - gone; }
  }

  lemma StepCounted(c: Config, st: State, a: Access)
    requires Sound(c, st) && Counted(c, st)
    ensures Counted(c, Step(c, st, a))
  {
    hide Oldest, Index, Tag, Touch, DirtyIn, Dirty;
    IndexBound(c, a.addr);
    var i := Index(c, a.addr);
    var m' := Touch(c, st.lines[i], Tag(c, a.addr), st.clock + 1, a.write);
    DirtyUpdate(st.lines, i, m');
    if c.writeBack { DirtyTouch(c, st.count, st.lines[i], Tag(c, a.addr), st.clock + 1, a.write); }
  }

  lemma {:induction false} DirtyStart(sets: seq<Lines>)
    requires forall i :: 0 <= i < |sets| ==> sets[i] == map[]
    ensures DirtyIn(sets) == 0
  {
    if sets != [] {
      DirtyStart(sets[..|sets| - 1]);
      assert DirtyTags(sets[|sets| - 1]) == {};
    }
  }

  /** Over every trace: hits and misses add up to the accesses, write-throughs are exactly the writes
      that the policies send on, and with write-back every write-back and every line still dirty is
      paid for by a write of its own. */
  lemma {:induction false} RunCounted(c: Config, trace: seq<Access>)
    requires c.sets > 0 && c.ways > 0
    ensures Sound(c, Run(c, Start(c), trace)) && Counted(c, Run(c, Start(c), trace))
    ensures Run(c, Start(c), trace).clock == |trace|
    ensures var k := Run(c, Start(c), trace).count; k.writeHits + k.writeMisses == Writes(trace)
  {
    hide Counted, Sound;
    if trace == [] {
      StartSound(c);
      DirtyStart(Start(c).lines);
      StartCounted(c);
    } else {
      var past, a := trace[..|trace| - 1], trace[|trace| - 1];
      RunCounted(c, past);
      StepSound(c, Run(c, Start(c), past), a);
      StepCounted(c, Run(c, Start(c), past), a);
      WriteCounted(c, Run(c, Start(c), past), a);
    }
  }

  function Writes(trace: seq<Access>): nat {
    if trace == [] then 0 else Writes(trace[..|trace| - 1]) + if trace[|trace| - 1].write then 1 else 0
  }

  lemma WriteCounted(c: Config, st: State, a: Access)
    requires c.sets > 0 && |st.lines| == c.sets
    ensures var k, k' := st.count, Step(c, st, a).count;
      k'.writeHits + k'.writeMisses == k.writeHits + k.writeMisses + if a.write then 1 else 0
  {
    hide Touch, Index, Tag, Oldest;
  }

  lemma StartCounted(c: Config)
    requires DirtyIn(Start(c).lines) == 0
    ensures Counted(c, Start(c))
  {
  }

  // ----- index and tag identify the block -----

  /** Two addresses in different blocks that the cache cannot tell apart. */
  ghost predicate Aliases(c: Config, a: nat, b: nat)
    requires c.sets > 0
  {
    Shr(a, c.offsetBits) != Shr(b, c.offsetBits) && Index(c, a) == Index(c, b) && Tag(c, a) == Tag(c, b)
  }

  /** With a power of two sets, index and tag determine the block. */
  lemma NoAliases(c: Config, a: nat, b: nat)
    requires c.sets == Pow2(c.indexBits)
    ensures c.sets > 0 && !Aliases(c, a, b)
  {
    hide Up, Shr, Low, BitAnd;
    var x, y := Shr(a, c.offsetBits), Shr(b, c.offsetBits);
    AndMask(x, c.indexBits);
    AndMask(y, c.indexBits);
    ShrShr(a, c.offsetBits, c.indexBits);
    ShrShr(b, c.offsetBits, c.indexBits);
    Split(x, c.indexBits);
    Split(y, c.indexBits);
  }

  /** A mask of k + 1 digits that are not all ones has a zero among the lower k. */
  lemma {:induction false} MaskHole(mask: nat, k: nat) returns (x: nat)
    requires Pow2(k) <= mask < 2 * Pow2(k) - 1
    ensures 0 < x < Pow2(k) && BitAnd(x, mask) == 0
  {
    if mask % 2 == 0 {
      x := 1;
      assert k > 0;
      assert BitAnd(1, mask) == 2 * BitAnd(0, mask / 2);
      UpPositive(k - 1);
    } else {
      assert k > 0;
      var y := MaskHole(mask / 2, k - 1);
      x := 2 * y;
    }
  }

  /** log2_u32 of the number of sets, with the number of sets no power of two: different blocks get
      the same index and tag. */
  lemma SomeAliases(c: Config) returns (a: nat)
    requires Pow2(c.indexBits) < c.sets < 2 * Pow2(c.indexBits)
    ensures c.sets > 0 && Aliases(c, a, 0)
  {
    hide Up, Shr, Low, BitAnd;
    UpPositive(c.indexBits);
    var x := MaskHole(c.sets - 1, c.indexBits);
    a := Up(x, c.offsetBits);
    UpPositive(c.offsetBits);
    SplitUnique(a, c.offsetBits, x, 0);
    ShrZero(c.offsetBits);
    ShrZero(c.offsetBits + c.indexBits);
    ShrShr(a, c.offsetBits, c.indexBits);
    UpZero(c.indexBits);
    SplitUnique(x, c.indexBits, 0, x);
    assert BitAnd(0, c.sets - 1) == 0 by { AndZero(c.sets - 1); }
  }

  lemma AndZero(y: nat)
    ensures BitAnd(0, y) == 0
  {
  }

  /** Blocks keep apart if and only if the number of sets is a power of two. */
  lemma BlocksKeptApart(c: Config)
    requires Pow2(c.indexBits) <= c.sets < 2 * Pow2(c.indexBits)
    ensures c.sets > 0 && ((forall a, b :: !Aliases(c, a, b)) <==> c.sets == Pow2(c.indexBits))
  {
    hide Up, Aliases;
    UpPositive(c.indexBits);
    if c.sets == Pow2(c.indexBits) {
      forall a, b ensures !Aliases(c, a, b) { NoAliases(c, a, b); }
    } else {
      var a := SomeAliases(c);
    }
  }
}

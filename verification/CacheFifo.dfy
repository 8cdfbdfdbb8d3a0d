/**
When a first-in-first-out cache holds all that one with fewer ways holds: exactly when the smaller one
has a single way or as many ways as the larger one.
*/
module CacheFifo {
  import opened Bits
  import opened CacheSpec

  /** Two FIFO caches that differ in nothing but the number of ways and the write policy. */
  predicate Pair(c: Config, big: Config) {
    && c.sets > 0 && 0 < c.ways <= big.ways && c.sets == big.sets
    && c.offsetBits == big.offsetBits && c.indexBits == big.indexBits
    && c.replacement == FIFO == big.replacement && c.writeAllocate == big.writeAllocate
  }

  /** Every line of the first cache is in the second one. */
  ghost predicate Within(small: State, large: State) {
    |small.lines| == |large.lines| && forall i :: 0 <= i < |small.lines| ==> small.lines[i].Keys <= large.lines[i].Keys
  }

  // ----- one way, or the same number of ways -----

  ghost predicate SameTimes(s: Lines, l: Lines) { s.Keys == l.Keys && forall t :: t in s ==> s[t].time == l[t].time }

  /** What holds of the two sets at every point of a run. */
  ghost predicate Matching(c: Config, big: Config, s: Lines, l: Lines) {
    if c.ways == big.ways then SameTimes(s, l) else s.Keys <= l.Keys
  }

  lemma SameRoom(c: Config, big: Config, s: Lines, l: Lines, now: nat)
    requires c.ways == big.ways > 0 && Fits(c, s, now) && Fits(big, l, now) && SameTimes(s, l)
    ensures SameTimes(Room(c, s), Room(big, l))
  {
    hide Oldest;
    assert |s| == |l|;
    if |l| >= big.ways {
      OldestExists(l);
      assert IsOldest(s, Oldest(l));
      OldestUnique(s, now, Oldest(l));
    }
  }

  lemma SameTouch(c: Config, big: Config, s: Lines, l: Lines, tag: nat, now: nat, now': nat, write: bool)
    requires Pair(c, big) && c.ways == big.ways && Fits(c, s, now) && Fits(big, l, now) && SameTimes(s, l)
    ensures SameTimes(Touch(c, s, tag, now', write), Touch(big, l, tag, now', write))
  {
    hide Room, Stamped;
    SameRoom(c, big, s, l, now);
  }

  lemma OneWayRoom(c: Config, s: Lines)
    requires c.ways == 1 && |s| <= 1
    ensures Room(c, s).Keys == {}
  {
    RoomSize(c, s);
    assert |Room(c, s).Keys| == 0;
  }

  lemma OneWayTouch(c: Config, big: Config, s: Lines, l: Lines, tag: nat, now: nat, now': nat, write: bool)
    requires Pair(c, big) && c.ways == 1 && Fits(c, s, now) && s.Keys <= l.Keys
    ensures Touch(c, s, tag, now', write).Keys <= Touch(big, l, tag, now', write).Keys
  {
    hide Room, Stamped;
    OneWayRoom(c, s);
  }

  lemma MatchingTouch(c: Config, big: Config, s: Lines, l: Lines, tag: nat, now: nat, now': nat, write: bool)
    requires Pair(c, big) && (c.ways == 1 || c.ways == big.ways)
    requires Fits(c, s, now) && Fits(big, l, now) && Matching(c, big, s, l)
    ensures Matching(c, big, Touch(c, s, tag, now', write), Touch(big, l, tag, now', write))
  {
    hide Touch, Fits;
    if c.ways == big.ways {
      SameTouch(c, big, s, l, tag, now, now', write);
    } else {
      OneWayTouch(c, big, s, l, tag, now, now', write);
    }
  }

  ghost predicate AllMatching(c: Config, big: Config, small: State, large: State) {
    && |small.lines| == |large.lines| && small.clock == large.clock
    && forall i :: 0 <= i < |small.lines| ==> Matching(c, big, small.lines[i], large.lines[i])
  }

  lemma MatchingStep(c: Config, big: Config, small: State, large: State, a: Access)
    requires Pair(c, big) && (c.ways == 1 || c.ways == big.ways)
    requires Sound(c, small) && Sound(big, large) && AllMatching(c, big, small, large)
    ensures AllMatching(c, big, Step(c, small, a), Step(big, large, a))
  {
    hide Touch, Count, Fits, Matching, BitAnd, Shr;
    IndexBound(c, a.addr);
    var i, tag := Index(c, a.addr), Tag(c, a.addr);
    MatchingTouch(c, big, small.lines[i], large.lines[i], tag, small.clock, small.clock + 1, a.write);
  }

  lemma {:induction false} MatchingRun(c: Config, big: Config, trace: seq<Access>)
    requires Pair(c, big) && (c.ways == 1 || c.ways == big.ways)
    ensures AllMatching(c, big, Run(c, Start(c), trace), Run(big, Start(big), trace))
    ensures Sound(c, Run(c, Start(c), trace)) && Sound(big, Run(big, Start(big), trace))
  {
    hide Step, Sound;
    if trace == [] {
      StartSound(c);
      StartSound(big);
    } else {
      var past, a := trace[..|trace| - 1], trace[|trace| - 1];
      MatchingRun(c, big, past);
      var small, large := Run(c, Start(c), past), Run(big, Start(big), past);
      StepSound(c, small, a);
      StepSound(big, large, a);
      MatchingStep(c, big, small, large, a);
    }
  }

  // ----- reads of blocks that all go to set 0 -----

  /** The address of block t of set 0, and its tag. */
  function Addr(c: Config, t: nat): nat { Up(t, c.offsetBits + c.indexBits + c.sets) }

  function BlockTag(c: Config, t: nat): nat { Up(t, c.sets) }

  lemma {:induction false} AndHigh(x: nat, y: nat, k: nat)
    requires y < Pow2(k)
    ensures BitAnd(Up(x, k), y) == 0
    decreases k
  {
    if k > 0 { AndHigh(x, y / 2, k - 1); }
  }

  lemma {:induction false} Pow2Large(n: nat)
    ensures n < Pow2(n)
  {
    if n > 0 { Pow2Large(n - 1); }
  }

  lemma ShrOfUp(x: nat, k: nat, n: nat)
    ensures Shr(Up(x, k + n), k) == Up(x, n)
  {
    hide Up, Shr;
    UpUp(x, n, k);
    UpPositive(k);
    SplitUnique(Up(x, k + n), k, Up(x, n), 0);
  }

  lemma AddrParts(c: Config, t: nat)
    requires c.sets > 0
    ensures Index(c, Addr(c, t)) == 0 && Tag(c, Addr(c, t)) == BlockTag(c, t)
  {
    hide Up, Shr, BitAnd;
    ShrOfUp(t, c.offsetBits, c.indexBits + c.sets);
    ShrOfUp(t, c.offsetBits + c.indexBits, c.sets);
    Pow2Large(c.sets);
    Pow2Monotone(c.sets, c.indexBits + c.sets);
    AndHigh(t, c.sets - 1, c.indexBits + c.sets);
  }

  lemma TagsDiffer(c: Config, t: nat, u: nat)
    ensures BlockTag(c, t) == BlockTag(c, u) <==> t == u
  {
    hide Up;
    UpMonotone(t, u, c.sets);
    UpMonotone(u, t, c.sets);
  }

  /** Blocks lo to hi, each with its own number as time stamp. */
  ghost function Window(c: Config, lo: nat, hi: nat): Lines
    decreases hi
  {
    if hi < lo || hi == 0 then map[] else Window(c, lo, hi - 1)[BlockTag(c, hi) := Entry(hi, false)]
  }

  lemma {:induction false} WindowHolds(c: Config, lo: nat, hi: nat)
    requires lo > 0
    ensures forall x :: x in Window(c, lo, hi) <==> exists t :: lo <= t <= hi && x == BlockTag(c, t)
    ensures forall t :: lo <= t <= hi ==>
      BlockTag(c, t) in Window(c, lo, hi) && Window(c, lo, hi)[BlockTag(c, t)] == Entry(t, false)
    decreases hi
  {
    hide BlockTag;
    if lo <= hi {
      WindowHolds(c, lo, hi - 1);
      forall t | lo <= t < hi ensures BlockTag(c, t) != BlockTag(c, hi) { TagsDiffer(c, t, hi); }
    }
  }

  lemma {:induction false} WindowSize(c: Config, lo: nat, hi: nat)
    requires lo > 0
    ensures |Window(c, lo, hi)| == if lo <= hi then hi - lo + 1 else 0
    decreases hi
  {
    hide BlockTag;
    if lo <= hi {
      WindowSize(c, lo, hi - 1);
      WindowNew(c, lo, hi - 1, hi);
      OneMore(Window(c, lo, hi - 1), BlockTag(c, hi), Entry(hi, false));
    }
  }

  lemma WindowNew(c: Config, lo: nat, hi: nat, t: nat)
    requires lo > 0 && !(lo <= t <= hi)
    ensures BlockTag(c, t) !in Window(c, lo, hi)
  {
    hide BlockTag, Window;
    WindowHolds(c, lo, hi);
    forall u | lo <= u <= hi ensures BlockTag(c, u) != BlockTag(c, t) { TagsDiffer(c, u, t); }
  }

  lemma WindowStamped(c: Config, lo: nat, hi: nat)
    requires lo > 0
    ensures Stamped(Window(c, lo, hi), hi)
    ensures lo <= hi ==> IsOldest(Window(c, lo, hi), BlockTag(c, lo))
  {
    hide BlockTag, Window;
    WindowHolds(c, lo, hi);
  }

  lemma {:induction false} WindowDrop(c: Config, lo: nat, hi: nat)
    requires 0 < lo <= hi
    ensures Window(c, lo, hi) - {BlockTag(c, lo)} == Window(c, lo + 1, hi)
    decreases hi
  {
    hide BlockTag;
    if lo < hi {
      WindowDrop(c, lo, hi - 1);
      TagsDiffer(c, lo, hi);
    }
  }

  /** A read of the next block: it joins the window, and the first block leaves if the set is full. */
  lemma WindowRead(c: Config, lo: nat, hi: nat)
    requires c.ways > 0 && 0 < lo && hi + 1 - lo <= c.ways && lo <= hi + 1
    ensures Touch(c, Window(c, lo, hi), BlockTag(c, hi + 1), hi + 1, false) ==
      Window(c, if hi + 1 - lo < c.ways then lo else lo + 1, hi + 1)
  {
    hide BlockTag, Oldest, Stamped, IsOldest;
    var m := Window(c, lo, hi);
    WindowNew(c, lo, hi, hi + 1);
    WindowSize(c, lo, hi);
    WindowStamped(c, lo, hi);
    if hi + 1 - lo == c.ways {
      OldestUnique(m, hi, BlockTag(c, lo));
      WindowDrop(c, lo, hi);
    }
  }

  /** Reads of blocks 1 to n. */
  function Reads(c: Config, n: nat): seq<Access> {
    if n == 0 then [] else Reads(c, n - 1) + [Access(Addr(c, n), false)]
  }

  lemma ReadsLast(c: Config, n: nat)
    requires n > 0
    ensures |Reads(c, n)| > 0 && Reads(c, n)[..|Reads(c, n)| - 1] == Reads(c, n - 1)
    ensures Reads(c, n)[|Reads(c, n)| - 1] == Access(Addr(c, n), false)
  {
  }

  function First(c: Config, n: nat): nat { if n <= c.ways then 1 else n - c.ways + 1 }

  /** The set then holds the last blocks read, as many as it has ways. */
  lemma {:induction false} RunReads(c: Config, n: nat)
    requires c.sets > 0 && c.ways > 0 && c.replacement == FIFO
    ensures var st := Run(c, Start(c), Reads(c, n)); st.clock == n && st.lines[0] == Window(c, First(c, n), n)
  {
    hide Touch, Count, Index, Tag, Addr, BlockTag, Window;
    if n == 0 {
      assert Window(c, 1, 0) == map[] by { WindowEmpty(c); }
    } else {
      RunReads(c, n - 1);
      ReadsLast(c, n);
      AddrParts(c, n);
      WindowRead(c, First(c, n - 1), n - 1);
    }
  }

  lemma WindowEmpty(c: Config)
    ensures Window(c, 1, 0) == map[]
  {
  }

  // ----- the general counterexample -----

  /** Blocks 1 to K, then block 1 again, then block K + 1, where K is the larger number of ways. */
  function Trace(c: Config, k: nat): seq<Access> {
    Reads(c, k) + [Access(Addr(c, 1), false)] + [Access(Addr(c, k + 1), false)]
  }

  /** The last two accesses of the trace, both to set 0. */
  lemma RunTrace(c: Config, k: nat)
    requires c.sets > 0 && c.ways > 0 && c.replacement == FIFO
    ensures Run(c, Start(c), Trace(c, k)).lines[0] ==
      Touch(c, Touch(c, Window(c, First(c, k), k), BlockTag(c, 1), k + 1, false), BlockTag(c, k + 1), k + 2, false)
  {
    hide Touch, Count, Index, Tag, Addr, BlockTag, Window;
    var t := Trace(c, k);
    var t1 := Reads(c, k) + [Access(Addr(c, 1), false)];
    assert t[..|t| - 1] == t1 && t1[..|t1| - 1] == Reads(c, k);
    RunReads(c, k);
    AddrParts(c, 1);
    AddrParts(c, k + 1);
  }

  /** The larger set had a hit on block 1, which is still its oldest line, and drops it. */
  lemma LargeDrops(c: Config)
    requires c.ways > 0 && c.replacement == FIFO
    ensures var m := Touch(c, Window(c, 1, c.ways), BlockTag(c, 1), c.ways + 1, false);
      BlockTag(c, 1) !in Touch(c, m, BlockTag(c, c.ways + 1), c.ways + 2, false)
  {
    hide BlockTag, Window, Oldest, Stamped, IsOldest;
    var k, w := c.ways, Window(c, 1, c.ways);
    WindowHolds(c, 1, k);
    WindowSize(c, 1, k);
    WindowStamped(c, 1, k);
    WindowNew(c, 1, k, k + 1);
    TagsDiffer(c, 1, k + 1);
    OldestUnique(w, k, BlockTag(c, 1));
    assert w[BlockTag(c, 1) := w[BlockTag(c, 1)]] == w;
  }

  /** The smaller set had dropped block 1 and has it back as its newest line, so it keeps it. */
  lemma SmallKeeps(c: Config, k: nat)
    requires 2 <= c.ways < k && c.replacement == FIFO
    ensures var m := Touch(c, Window(c, First(c, k), k), BlockTag(c, 1), k + 1, false);
      BlockTag(c, 1) in Touch(c, m, BlockTag(c, k + 1), k + 2, false)
  {
    hide BlockTag, Window, Oldest, Room;
    var lo := First(c, k);
    var w := Window(c, lo, k);
    WindowHolds(c, lo, k);
    WindowSize(c, lo, k);
    WindowNew(c, lo, k, 1);
    WindowNew(c, lo, k, k + 1);
    TagsDiffer(c, 1, k + 1);
    TagsDiffer(c, k, 1);
    RoomKeepsNewest(c, lo, k);
    var m := Touch(c, w, BlockTag(c, 1), k + 1, false);
    RoomSize(c, w);
    OneMore(Room(c, w), BlockTag(c, 1), Entry(k + 1, false));
    RoomKeepsOther(c, m, BlockTag(c, 1), BlockTag(c, k));
  }

  lemma RoomKeepsNewest(c: Config, lo: nat, hi: nat)
    requires 0 < lo < hi && hi + 1 - lo == c.ways
    ensures BlockTag(c, hi) in Room(c, Window(c, lo, hi)) &&
      Room(c, Window(c, lo, hi))[BlockTag(c, hi)] == Entry(hi, false)
  {
    hide BlockTag, Window, Oldest, Stamped, IsOldest;
    WindowHolds(c, lo, hi);
    WindowSize(c, lo, hi);
    WindowStamped(c, lo, hi);
    OldestUnique(Window(c, lo, hi), hi, BlockTag(c, lo));
    TagsDiffer(c, lo, hi);
  }

  lemma RoomKeepsOther(c: Config, m: Lines, x: nat, older: nat)
    requires |m| > 0 && x in m && older in m && m[older].time < m[x].time
    ensures x in Room(c, m)
  {
    hide Oldest;
    OldestExists(m);
  }

  lemma FifoDiffers(c: Config, big: Config)
    requires Pair(c, big) && 1 < c.ways < big.ways
    ensures !Within(Run(c, Start(c), Trace(c, big.ways)), Run(big, Start(big), Trace(c, big.ways)))
  {
    hide Touch, Run, Window, BlockTag, Reads, Addr;
    SameBlocks(c, big, big.ways);
    RunTrace(c, big.ways);
    RunTrace(big, big.ways);
    SmallKeeps(c, big.ways);
    LargeDrops(big);
  }

  lemma SameBlocks(c: Config, big: Config, n: nat)
    requires Pair(c, big)
    ensures Trace(c, n) == Trace(big, n) && BlockTag(c, 1) == BlockTag(big, 1)
  {
    SameReads(c, big, n);
  }

  lemma {:induction false} SameReads(c: Config, big: Config, n: nat)
    requires Pair(c, big)
    ensures Reads(c, n) == Reads(big, n)
  {
    if n > 0 { SameReads(c, big, n - 1); }
  }

  /** FIFO is inclusive over every trace if and only if the smaller cache has one way or both have the
      same number. */
  lemma FifoInclusiveExactly(c: Config, big: Config)
    requires Pair(c, big)
    ensures (forall trace :: Within(Run(c, Start(c), trace), Run(big, Start(big), trace))) <==>
      c.ways == 1 || c.ways == big.ways
  {
    hide Run, Sound, Trace;
    if c.ways == 1 || c.ways == big.ways {
      forall trace ensures Within(Run(c, Start(c), trace), Run(big, Start(big), trace)) { MatchingRun(c, big, trace); }
    } else {
      FifoDiffers(c, big);
    }
  }
}

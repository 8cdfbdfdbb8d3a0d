/**
The cache simulator: sets of lines that are searched, filled and replaced in place.  Each access is
shown to be the step of the map model.
*/
module CacheSim {
  import opened Bits
  import opened CacheSpec

  datatype Line = Line(valid: bool, dirty: bool, tag: nat, time: nat)

  function Held(l: Line): Entry { Entry(l.time, l.dirty) }

  /** The valid lines have different tags, and they are what the map holds. */
  ghost predicate Shows(lines: seq<Line>, m: Lines) {
    && (forall i, j :: 0 <= i < j < |lines| && lines[i].valid && lines[j].valid ==> lines[i].tag != lines[j].tag)
    && (forall i :: 0 <= i < |lines| && lines[i].valid ==> lines[i].tag in m && m[lines[i].tag] == Held(lines[i]))
    && (forall t :: t in m ==> exists i :: 0 <= i < |lines| && lines[i].valid && lines[i].tag == t)
  }

  /** Lines and map have the same number of elements when no line is empty. */
  lemma {:induction false} ShowsSize(lines: seq<Line>, m: Lines)
    requires Shows(lines, m)
    ensures |m| <= |lines| && (|m| == |lines| <==> forall i :: 0 <= i < |lines| ==> lines[i].valid)
    decreases |lines|
  {
    hide Shows;
    if lines != [] {
      var n := |lines| - 1;
      var l, rest := lines[n], lines[..n];
      if l.valid {
        ShowsLess(lines, m);
        OneLess(m, l.tag);
        ShowsSize(rest, m - {l.tag});
        assert forall i :: 0 <= i < n ==> lines[i] == rest[i];
      } else {
        ShowsSame(lines, m);
        ShowsSize(rest, m);
      }
    } else {
      assert m == map[] by { ShowsNothing(m); }
    }
  }

  lemma ShowsNothing(m: Lines)
    requires Shows([], m)
    ensures m == map[]
  {
  }

  lemma ShowsLess(lines: seq<Line>, m: Lines)
    requires Shows(lines, m) && lines != [] && lines[|lines| - 1].valid
    ensures lines[|lines| - 1].tag in m && Shows(lines[..|lines| - 1], m - {lines[|lines| - 1].tag})
  {
    var rest, m' := lines[..|lines| - 1], m - {lines[|lines| - 1].tag};
    forall t | t in m' ensures exists i :: 0 <= i < |rest| && rest[i].valid && rest[i].tag == t {
      var i :| 0 <= i < |lines| && lines[i].valid && lines[i].tag == t;
      assert rest[i] == lines[i];
    }
  }

  lemma ShowsSame(lines: seq<Line>, m: Lines)
    requires Shows(lines, m) && lines != [] && !lines[|lines| - 1].valid
    ensures Shows(lines[..|lines| - 1], m)
  {
    var rest := lines[..|lines| - 1];
    forall t | t in m ensures exists i :: 0 <= i < |rest| && rest[i].valid && rest[i].tag == t {
      var i :| 0 <= i < |lines| && lines[i].valid && lines[i].tag == t;
      assert rest[i] == lines[i];
    }
  }

  /** A line replaced: its old tag, if any, is gone, and its new one is there. */
  lemma ShowsReplace(lines: seq<Line>, m: Lines, k: nat, l: Line)
    requires Shows(lines, m) && k < |lines| && l.valid
    requires l.tag !in m || (lines[k].valid && lines[k].tag == l.tag)
    ensures Shows(lines[k := l], (if lines[k].valid then m - {lines[k].tag} else m)[l.tag := Held(l)])
  {
    var lines' := lines[k := l];
    var m' := (if lines[k].valid then m - {lines[k].tag} else m)[l.tag := Held(l)];
    forall t | t in m' ensures exists i :: 0 <= i < |lines'| && lines'[i].valid && lines'[i].tag == t {
      if t == l.tag {
        assert lines'[k].tag == t;
      } else {
        var i :| 0 <= i < |lines| && lines[i].valid && lines[i].tag == t;
        assert lines'[i] == lines[i];
      }
    }
  }

  // ----- searching a set -----

  /** The line with the tag, or the number of lines. */
  method FindTag(lines: seq<Line>, tag: nat) returns (k: nat)
    ensures k <= |lines|
    ensures k < |lines| ==> lines[k].valid && lines[k].tag == tag
    ensures k == |lines| ==> forall i :: 0 <= i < |lines| ==> !(lines[i].valid && lines[i].tag == tag)
  {
    k := 0;
    while k < |lines| && !(lines[k].valid && lines[k].tag == tag)
      invariant k <= |lines| && forall i :: 0 <= i < k ==> !(lines[i].valid && lines[i].tag == tag)
    {
      k := k + 1;
    }
  }

  /** find_if for an empty line */
  method FindEmpty(lines: seq<Line>) returns (k: nat)
    ensures k <= |lines|
    ensures k < |lines| ==> !lines[k].valid
    ensures k == |lines| ==> forall i :: 0 <= i < |lines| ==> lines[i].valid
  {
    k := 0;
    while k < |lines| && lines[k].valid
      invariant k <= |lines| && forall i :: 0 <= i < k ==> lines[i].valid
    {
      k := k + 1;
    }
  }

  /** min_element by time stamp */
  method FindOldest(lines: seq<Line>) returns (k: nat)
    requires lines != []
    ensures k < |lines| && forall i :: 0 <= i < |lines| ==> lines[k].time <= lines[i].time
  {
    k := 0;
    for i := 1 to |lines|
      invariant k < |lines| && forall j :: 0 <= j < i ==> lines[k].time <= lines[j].time
    {
      if lines[i].time < lines[k].time { k := i; }
    }
  }

  lemma OldestShown(lines: seq<Line>, m: Lines, now: nat, k: nat)
    requires Shows(lines, m) && Stamped(m, now) && k < |lines|
    requires forall i :: 0 <= i < |lines| ==> lines[i].valid && lines[k].time <= lines[i].time
    ensures Oldest(m) == lines[k].tag && lines[k].tag in m
  {
    var v := lines[k].tag;
    forall u | u in m ensures m[v].time <= m[u].time {
      var i :| 0 <= i < |lines| && lines[i].valid && lines[i].tag == u;
    }
    OldestUnique(m, now, v);
  }

  /** The line that a new tag goes to, and what the set then holds. */
  method FindVictim(lines: seq<Line>, c: Config, ghost m: Lines, ghost now: nat) returns (k: nat)
    requires Shows(lines, m) && Stamped(m, now) && |lines| == c.ways > 0
    ensures k < |lines|
    ensures Room(c, m) == if lines[k].valid then m - {lines[k].tag} else m
    ensures lines[k].valid ==> |m| >= c.ways && Oldest(m) == lines[k].tag
    ensures lines[k].valid ==> lines[k].tag in m && m[lines[k].tag] == Held(lines[k])
    ensures !lines[k].valid ==> |m| < c.ways
  {
    hide Oldest, Stamped;
    ShowsSize(lines, m);
    k := FindEmpty(lines);
    if k == |lines| {
      k := FindOldest(lines);
      OldestShown(lines, m, now, k);
    }
  }

  // ----- the simulator -----

  method Log2(n: nat) returns (r: nat)
    ensures n > 0 ==> Pow2(r) <= n < 2 * Pow2(r)
    ensures n == 0 ==> r == 0
  {
    r := 0;
    var x := n / 2;
    while x != 0
      invariant x == Shr(n, r + 1) && (n > 0 ==> Shr(n, r) > 0) && (n == 0 ==> r == 0)
      decreases x
    {
      ShrShr(n, r + 1, 1);
      x := x / 2;
      r := r + 1;
    }
    if n > 0 {
      Split(n, r + 1);
      Split(n, r);
      UpMonotone(1, Shr(n, r), r);
      UpZero(r + 1);
    }
  }

  lemma ShowsTag(lines: seq<Line>, m: Lines, tag: nat)
    requires Shows(lines, m)
    ensures tag in m <==> exists i :: 0 <= i < |lines| && lines[i].valid && lines[i].tag == tag
  {
  }

  /** An access that finds its tag in line k. */
  method OnHit(c: Config, lines: seq<Line>, k: nat, now: nat, write: bool, count: Counters, ghost m: Lines)
    returns (lines': seq<Line>, count': Counters)
    requires Shows(lines, m) && k < |lines| && lines[k].valid
    ensures Shows(lines', Touch(c, m, lines[k].tag, now, write)) && |lines'| == |lines|
    ensures count' == Count(c, count, m, lines[k].tag, write)
  {
    var l := lines[k];
    if !write {
      count' := count.(readHits := count.readHits + 1);
    } else {
      count' := count.(writeHits := count.writeHits + 1);
      if c.writeBack {
        l := l.(dirty := true);
      } else {
        count' := count'.(writeThroughs := count'.writeThroughs + 1);
      }
    }
    if c.replacement == LRU { l := l.(time := now); }
    lines' := lines[k := l];
    ShowsReplace(lines, m, k, l);
    assert (m - {l.tag})[l.tag := Held(l)] == m[l.tag := Held(l)];
  }

  /** An access that does not. */
  method OnMiss(c: Config, lines: seq<Line>, tag: nat, now: nat, write: bool, count: Counters, ghost m: Lines,
                ghost before: nat)
    returns (lines': seq<Line>, count': Counters)
    requires Shows(lines, m) && tag !in m && Stamped(m, before) && |lines| == c.ways > 0
    ensures Shows(lines', Touch(c, m, tag, now, write)) && |lines'| == |lines|
    ensures count' == Count(c, count, m, tag, write)
  {
    hide Shows, Stamped, Oldest, Touch, Count, Room;
    if !write {
      count' := count.(readMisses := count.readMisses + 1);
    } else {
      count' := count.(writeMisses := count.writeMisses + 1);
      if !c.writeAllocate {
        count' := count'.(writeThroughs := count'.writeThroughs + 1);
        PassedMiss(c, count, m, tag, now);
        return lines, count';
      }
    }
    LoadMiss(c, count, m, tag, now, write);
    var k := FindVictim(lines, c, m, before);
    if lines[k].valid && lines[k].dirty && c.writeBack { count' := count'.(writeBacks := count'.writeBacks + 1); }
    var l := Line(true, false, tag, now);
    if write {
      if c.writeBack {
        l := l.(dirty := true);
      } else {
        count' := count'.(writeThroughs := count'.writeThroughs + 1);
      }
    }
    lines' := lines[k := l];
    ShowsReplace(lines, m, k, l);
  }

  class Simulator {
    const c: Config
    var sets: seq<seq<Line>>
    var clock: nat
    var count: Counters
    /** What the simulator holds, as the map model sees it. */
    ghost var view: State

    ghost predicate Valid()
      reads this
    {
      && Sound(c, view) && |sets| == c.sets && view.clock == clock && view.count == count
      && (forall i :: 0 <= i < |sets| ==> |sets[i]| == c.ways && Shows(sets[i], view.lines[i]))
    }

    constructor (cacheSize: nat, blockSize: nat, setSize: nat, replacement: Replacement, writeBack: bool,
                 writeAllocate: bool)
      requires blockSize > 0 && setSize > 0 && cacheSize / (blockSize * setSize) > 0
      ensures Valid() && view == Start(c)
      ensures c.sets == cacheSize / (blockSize * setSize) && c.ways == setSize
      ensures c.replacement == replacement && c.writeBack == writeBack && c.writeAllocate == writeAllocate
      ensures Pow2(c.offsetBits) <= blockSize < 2 * Pow2(c.offsetBits) &&
        Pow2(c.indexBits) <= c.sets < 2 * Pow2(c.indexBits)
    {
      hide Up;
      var n := cacheSize / (blockSize * setSize);
      var offsetBits := Log2(blockSize);
      var indexBits := Log2(n);
      var config := Config(n, setSize, offsetBits, indexBits, replacement, writeBack, writeAllocate);
      c := config;
      sets := seq(n, _ => seq(setSize, _ => Line(false, false, 0, 0)));
      clock, count := 0, Counters(0, 0, 0, 0, 0, 0);
      view := Start(config);
      StartSound(config);
    }

    method Access(addr: nat, write: bool)
      requires Valid()
      modifies this
      ensures Valid() && view == Step(c, old(view), CacheSpec.Access(addr, write))
    {
      hide Touch, Count, Shows, Index, Tag, Stamped;
      ghost var a := CacheSpec.Access(addr, write);
      IndexBound(c, addr);
      StepSound(c, view, a);
      clock := clock + 1;
      var index, tag := Index(c, addr), Tag(c, addr);
      ghost var m := view.lines[index];
      assert Fits(c, m, clock - 1);
      var k := FindTag(sets[index], tag);
      ShowsTag(sets[index], m, tag);
      var lines;
      if k < |sets[index]| {
        lines, count := OnHit(c, sets[index], k, clock, write, count, m);
      } else {
        lines, count := OnMiss(c, sets[index], tag, clock, write, count, m, clock - 1);
      }
      sets := sets[index := lines];
      view := Step(c, view, a);
    }
  }

  /** The simulator on a whole trace is the map model on it. */
  method Simulate(sim: Simulator, trace: seq<Access>)
    requires sim.Valid()
    modifies sim
    ensures sim.Valid() && sim.view == Run(sim.c, old(sim.view), trace)
  {
    hide Step, Sound;
    assert |sim.view.lines| == sim.c.sets > 0 by { SoundShape(sim.c, sim.view); }
    for k := 0 to |trace|
      invariant sim.Valid() && sim.view == Run(sim.c, old(sim.view), trace[..k])
    {
      sim.Access(trace[k].addr, trace[k].write);
      assert trace[..k + 1][..k] == trace[..k];
    }
    assert trace[..|trace|] == trace;
  }

  lemma SoundShape(c: Config, st: State)
    requires Sound(c, st)
    ensures c.sets > 0 && |st.lines| == c.sets
  {
  }
}

/**
The trace pipeline: the emulator hands over batches of executed addresses, loads and stores, and
branches; the simulators consume them batch by batch until one comes short.
*/
module TraceSim {
  import opened Wrappers
  import opened Bits

  datatype Data = Data(isRead: bool, addr: nat)
  datatype Branch = Branch(pc: nat, target: nat, uncond: bool, taken: bool)

  /** What the pipeline sees of the emulator: the address and decoded instruction of a state, the next
      state, and whether the program has ended, aborted or quit. */
  datatype Machine<!S> = Machine(pc: S -> nat, data: S -> Option<Data>, branch: S -> Option<Branch>,
                                 exec: S -> S, ended: S -> bool)

  function After<S>(m: Machine<S>, s: S, n: nat): S { if n == 0 then s else m.exec(After(m, s, n - 1)) }

  function Listed<T>(x: Option<T>): seq<T> { if x.Some? then [x.value] else [] }

  /** The addresses, memory accesses and branches of the first n states. */
  function Pcs<S>(m: Machine<S>, s: S, n: nat): seq<nat> {
    if n == 0 then [] else Pcs(m, s, n - 1) + [m.pc(After(m, s, n - 1))]
  }

  function Datas<S>(m: Machine<S>, s: S, n: nat): seq<Data> {
    if n == 0 then [] else Datas(m, s, n - 1) + Listed(m.data(After(m, s, n - 1)))
  }

  function Branches<S>(m: Machine<S>, s: S, n: nat): seq<Branch> {
    if n == 0 then [] else Branches(m, s, n - 1) + Listed(m.branch(After(m, s, n - 1)))
  }

  // ----- what a stream holds -----

  /** The numbers below n at which f has a value. */
  ghost function Present<T>(f: nat -> Option<T>, n: nat): set<nat> { set j: nat | j < n && f(j).Some? }

  /** xs holds the values of f below n, each once and in order: the value at j stands where as many
      others stand before it as f has values before j. */
  ghost predicate Lists<T>(xs: seq<T>, f: nat -> Option<T>, n: nat) {
    && |xs| == |Present(f, n)|
    && forall j: nat :: j < n && f(j).Some? ==> |Present(f, j)| < |xs| && xs[|Present(f, j)|] == f(j).value
  }

  lemma PresentNext<T>(f: nat -> Option<T>, n: nat)
    ensures |Present(f, n + 1)| == |Present(f, n)| + if f(n).Some? then 1 else 0
  {
    assert Present(f, n + 1) == if f(n).Some? then Present(f, n) + {n} else Present(f, n);
  }

  lemma ListsNone<T>(f: nat -> Option<T>)
    ensures Lists([], f, 0)
  {
    assert Present(f, 0) == {};
  }

  lemma ListsNext<T>(xs: seq<T>, f: nat -> Option<T>, n: nat)
    requires Lists(xs, f, n)
    ensures Lists(xs + Listed(f(n)), f, n + 1)
  {
    hide Present;
    PresentNext(f, n);
  }

  lemma ListsSame<T>(xs: seq<T>, f: nat -> Option<T>, g: nat -> Option<T>, n: nat)
    requires Lists(xs, f, n) && forall j: nat :: j < n ==> f(j) == g(j)
    ensures Lists(xs, g, n)
  {
    forall j: nat | j <= n ensures Present(f, j) == Present(g, j) { }
  }

  ghost function DataAt<S>(m: Machine<S>, s: S): nat -> Option<Data> { (j: nat) => m.data(After(m, s, j)) }
  ghost function BranchAt<S>(m: Machine<S>, s: S): nat -> Option<Branch> { (j: nat) => m.branch(After(m, s, j)) }

  /** One address per state, one access or branch per state that has one. */
  lemma {:induction false} StreamsList<S>(m: Machine<S>, s: S, n: nat)
    ensures |Pcs(m, s, n)| == n && forall j :: 0 <= j < n ==> Pcs(m, s, n)[j] == m.pc(After(m, s, j))
    ensures Lists(Datas(m, s, n), DataAt(m, s), n) && Lists(Branches(m, s, n), BranchAt(m, s), n)
  {
    hide Lists, Listed;
    if n == 0 {
      ListsNone(DataAt(m, s));
      ListsNone(BranchAt(m, s));
    } else {
      StreamsList(m, s, n - 1);
      ListsNext(Datas(m, s, n - 1), DataAt(m, s), n - 1);
      ListsNext(Branches(m, s, n - 1), BranchAt(m, s), n - 1);
    }
  }

  // ----- batches -----

  lemma {:induction false} AfterAdd<S>(m: Machine<S>, s: S, a: nat, b: nat)
    ensures After(m, After(m, s, a), b) == After(m, s, a + b)
    decreases b
  {
    if b > 0 { AfterAdd(m, s, a, b - 1); }
  }

  lemma {:induction false} PcsAdd<S>(m: Machine<S>, s: S, a: nat, b: nat)
    ensures Pcs(m, s, a) + Pcs(m, After(m, s, a), b) == Pcs(m, s, a + b)
    decreases b
  {
    hide After;
    if b > 0 {
      PcsAdd(m, s, a, b - 1);
      AfterAdd(m, s, a, b - 1);
    }
  }

  lemma {:induction false} DatasAdd<S>(m: Machine<S>, s: S, a: nat, b: nat)
    ensures Datas(m, s, a) + Datas(m, After(m, s, a), b) == Datas(m, s, a + b)
    decreases b
  {
    hide After, Listed;
    if b > 0 {
      DatasAdd(m, s, a, b - 1);
      AfterAdd(m, s, a, b - 1);
    }
  }

  lemma {:induction false} BranchesAdd<S>(m: Machine<S>, s: S, a: nat, b: nat)
    ensures Branches(m, s, a) + Branches(m, After(m, s, a), b) == Branches(m, s, a + b)
    decreases b
  {
    hide After, Listed;
    if b > 0 {
      BranchesAdd(m, s, a, b - 1);
      AfterAdd(m, s, a, b - 1);
    }
  }

  /** The program ends after exactly n instructions; the emulator then stays as it is. */
  ghost predicate EndsAt<S>(m: Machine<S>, s: S, n: nat) {
    && m.ended(After(m, s, n)) && m.exec(After(m, s, n)) == After(m, s, n)
    && forall j :: 0 <= j < n ==> !m.ended(After(m, s, j))
  }

  datatype Batch = Batch(pcs: seq<nat>, datas: seq<Data>, branches: seq<Branch>)

  /** difftest_tracesim_step */
  method Step<S>(m: Machine<S>, s: S, size: nat) returns (s': S, batch: Batch)
    requires size > 0
    ensures 0 < |batch.pcs| <= size && s' == After(m, s, |batch.pcs|)
    ensures batch == Batch(Pcs(m, s, |batch.pcs|), Datas(m, s, |batch.pcs|), Branches(m, s, |batch.pcs|))
    ensures Lists(batch.datas, DataAt(m, s), |batch.pcs|) && Lists(batch.branches, BranchAt(m, s), |batch.pcs|)
    ensures forall j :: 0 < j < |batch.pcs| ==> !m.ended(After(m, s, j))
    ensures |batch.pcs| < size ==> m.ended(s')
  {
    hide Lists;
    var i := 0;
    var pcs, datas, branches := [], [], [];
    s' := s;
    while i < size
      invariant i <= size && |pcs| == i && s' == After(m, s, i)
      invariant pcs == Pcs(m, s, i) && datas == Datas(m, s, i) && branches == Branches(m, s, i)
      invariant forall j :: 0 < j <= i ==> !m.ended(After(m, s, j))
    {
      pcs := pcs + [m.pc(s')];
      i := i + 1;
      var d := m.data(s');
      if d.Some? { datas := datas + [d.value]; }
      var b := m.branch(s');
      if b.Some? { branches := branches + [b.value]; }
      s' := m.exec(s');
      if m.ended(s') { break; }
    }
    batch := Batch(pcs, datas, branches);
    StreamsList(m, s, i);
  }

  /** The number of states that are reported for a run of n instructions. */
  function Reported(n: nat, size: nat): nat
    requires size > 0
  {
    if n % size == 0 then n + 1 else n
  }

  /** drain_stream, with everything the three consumers get. */
  method Drain<S>(m: Machine<S>, s: S, size: nat, ghost n: nat) returns (all: Batch)
    requires size >= 2 && EndsAt(m, s, n)
    ensures all == Batch(Pcs(m, s, Reported(n, size)),
                         Datas(m, s, Reported(n, size)), Branches(m, s, Reported(n, size)))
    ensures |all.pcs| == Reported(n, size) && forall j :: 0 <= j < |all.pcs| ==> all.pcs[j] == m.pc(After(m, s, j))
    ensures Lists(all.datas, DataAt(m, s), |all.pcs|) && Lists(all.branches, BranchAt(m, s), |all.pcs|)
  {
    hide After, Pcs, Datas, Branches, EndsAt, Lists, DataAt, BranchAt;
    StreamsList(m, s, Reported(n, size));
    all := Batch([], [], []);
    StartsEmpty(m, s);
    ZeroMultiple(size);
    var now := s;
    ghost var k := 0;
    while true
      invariant k <= n && k % size == 0 && now == After(m, s, k)
      invariant all == Batch(Pcs(m, s, k), Datas(m, s, k), Branches(m, s, k))
      decreases n - k
    {
      var batch;
      ghost var here := now;
      now, batch := Step(m, now, size);
      ghost var t := |batch.pcs|;
      PcsAdd(m, s, k, t);
      DatasAdd(m, s, k, t);
      BranchesAdd(m, s, k, t);
      AfterAdd(m, s, k, t);
      BatchLength(m, s, n, k, t, size);
      all := Batch(all.pcs + batch.pcs, all.datas + batch.datas, all.branches + batch.branches);
      if |batch.pcs| != size { return; }
      k := k + t;
    }
  }

  lemma StartsEmpty<S>(m: Machine<S>, s: S)
    ensures Pcs(m, s, 0) == [] && Datas(m, s, 0) == [] && Branches(m, s, 0) == [] && After(m, s, 0) == s
  {
  }

  lemma ZeroMultiple(size: nat)
    requires size > 0
    ensures 0 % size == 0
  {
  }

  /** How long a batch that starts after k instructions is. */
  lemma BatchLength<S>(m: Machine<S>, s: S, n: nat, k: nat, t: nat, size: nat)
    requires size >= 2 && EndsAt(m, s, n) && k <= n && k % size == 0 && 0 < t <= size
    requires forall j :: 0 < j < t ==> !m.ended(After(m, After(m, s, k), j))
    requires t < size ==> m.ended(After(m, After(m, s, k), t))
    ensures t == size ==> k + t <= n && (k + t) % size == 0
    ensures t != size ==> k + t == Reported(n, size)
  {
    forall j: nat ensures After(m, After(m, s, k), j) == After(m, s, k + j) { AfterAdd(m, s, k, j); }
    if k == n {
      assert After(m, s, n + 1) == m.exec(After(m, s, n));
      assert m.ended(After(m, After(m, s, k), 1));
    } else {
      assert t < size ==> k + t >= n;
      var left: nat := n - k;
      assert left < t ==> !m.ended(After(m, After(m, s, k), left));
      assert k + t <= n;
    }
    MultipleStep(k, t, size);
  }

  /** The pipeline reports exactly the executed instructions if and only if the last batch is short;
      otherwise it reports the state after the end once more. */
  lemma ReportedExactly<S>(m: Machine<S>, s: S, n: nat, size: nat)
    requires size > 0
    ensures Pcs(m, s, Reported(n, size)) == Pcs(m, s, n) <==> n % size != 0
    ensures n % size == 0 ==> Pcs(m, s, Reported(n, size)) == Pcs(m, s, n) + [m.pc(After(m, s, n))]
  {
    StreamsList(m, s, n);
    StreamsList(m, s, n + 1);
  }

  lemma MultipleStep(k: nat, t: nat, size: nat)
    requires size > 0 && k % size == 0 && 0 < t <= size
    ensures (k + t) % size == if t == size then 0 else t
  {
    hide Divides, Times;
    DividesExists(k, size);
    AddRemainder(k, size, k / size, t);
    DividesUnique(k + t, size, if t == size then k / size + 1 else k / size, if t == size then 0 else t);
  }

  lemma AddRemainder(k: nat, size: nat, q: nat, t: nat)
    requires Divides(k, size, q, 0) && 0 < t <= size
    ensures if t == size then Divides(k + t, size, q + 1, 0) else Divides(k + t, size, q, t)
  {
  }
}

/** Windows of real runs: why their totals do not saturate, and what a run looks
    like whose totals do. */
module IoWaitWindows {
  import opened Machine
  import opened IoWait
  import opened IoWaitLedger
  import opened Reasons
  import opened IoWaitFlush
  import opened IoWaitTop
  import K = Kallsyms

  // ---------- a window's time fits in threads times elapsed time ----------

  function Everything(): Entry -> bool { (e: Entry) => true }

  function OfPid(pid: u32): Entry -> bool { (e: Entry) => e.0.pid == pid }

  function OfPids(pids: set<u32>): Entry -> bool { (e: Entry) => e.0.pid in pids }

  /** The threads of a window. */
  function Threads(window: seq<Entry>): set<u32> { set e | e in window :: e.0.pid }

  function KeysOf(window: seq<Entry>, pid: u32): set<Key> { set e | e in window && e.0.pid == pid :: e.0 }

  lemma {:induction false} SumAddAt(keys: set<Key>, k: Key, d: nat, f: Key -> nat, g: Key -> nat)
    requires forall j :: j in keys ==> g(j) == f(j) + if j == k then d else 0
    ensures SumOver(keys, g) == SumOver(keys, f) + if k in keys then d else 0
    decreases keys
  {
    if keys != {} {
      var j :| j in keys;
      SumPick(keys, j, f);
      SumPick(keys, j, g);
      SumAddAt(keys - {j}, k, d, f, g);
    }
  }

  /** Adding up a thread's entries is adding up its keys. */
  lemma {:induction false} ThreadByKeys(window: seq<Entry>, pid: u32, keys: set<Key>)
    requires forall k :: k in keys ==> k.pid == pid
    requires forall e :: e in window && e.0.pid == pid ==> e.0 in keys
    ensures Total(window, OfPid(pid)) == SumOver(keys, k => SnapshotOf(window, k))
  {
    if |window| == 0 {
      SumZero(keys, k => SnapshotOf(window, k));
    } else {
      var before, e := window[..|window| - 1], window[|window| - 1];
      assert window == before + [e];
      ThreadByKeys(before, pid, keys);
      SumAddAt(keys, e.0, e.1, k => SnapshotOf(before, k), k => SnapshotOf(window, k));
    }
  }

  lemma {:induction false} WindowIsReported(windows: seq<seq<Entry>>, w: nat, k: Key)
    requires w < |windows|
    ensures SnapshotOf(windows[w], k) <= WindowsOf(windows, k)
  {
    if w < |windows| - 1 { WindowIsReported(windows[..|windows| - 1], w, k); }
  }

  /** A window holds at most the elapsed time for any one thread. */
  lemma ThreadFitsElapsed(target: u32, trace: seq<Label>, t0: u64, w: nat, pid: u32)
    requires Monotone(trace, t0) && w < |Run(target, trace).windows|
    ensures Total(Run(target, trace).windows[w], OfPid(pid)) <= Clock(trace, t0) - t0
  {
    hide Step, Run, Total, SnapshotOf, WindowsOf, Bucket, Pending;
    var s := Run(target, trace);
    var window := s.windows[w];
    var keys := KeysOf(window, pid);
    ThreadByKeys(window, pid, keys);
    OffCpuTimeBound(target, trace, t0, pid, keys);
    forall k | k in keys ensures SnapshotOf(window, k) <= Bucket(s, k) + Drained(s, k) {
      WindowIsReported(s.windows, w, k);
    }
    SumLe(keys, k => SnapshotOf(window, k), k => Bucket(s, k) + Drained(s, k));
  }

  lemma {:induction false} SplitThread(entries: seq<Entry>, pids: set<u32>, pid: u32)
    requires pid in pids
    ensures Total(entries, OfPids(pids)) == Total(entries, OfPid(pid)) + Total(entries, OfPids(pids - {pid}))
  {
    if |entries| > 0 { SplitThread(entries[..|entries| - 1], pids, pid); }
  }

  lemma Successor(n: nat, bound: nat)
    ensures (n + 1) * bound == n * bound + bound
  {
  }

  lemma {:induction false} ThreadsTimesBound(entries: seq<Entry>, pids: set<u32>, bound: nat)
    requires forall pid :: pid in pids ==> Total(entries, OfPid(pid)) <= bound
    ensures Total(entries, OfPids(pids)) <= |pids| * bound
    decreases pids
  {
    if pids == {} {
      NothingSelected(entries, OfPids(pids));
    } else {
      hide Total;
      var pid :| pid in pids;
      SplitThread(entries, pids, pid);
      ThreadsTimesBound(entries, pids - {pid}, bound);
      Successor(|pids - {pid}|, bound);
    }
  }

  /** Main result. Every window of a run with a monotonic clock adds up to at most
      its number of threads times the time since tracing began. */
  lemma WindowFitsThreadsTimesElapsed(target: u32, trace: seq<Label>, t0: u64, w: nat)
    requires Monotone(trace, t0) && w < |Run(target, trace).windows|
    ensures var window := Run(target, trace).windows[w];
            Total(window, Everything()) <= |Threads(window)| * (Clock(trace, t0) - t0)
  {
    hide Step, Run, Total;
    var window := Run(target, trace).windows[w];
    forall pid | pid in Threads(window) ensures Total(window, OfPid(pid)) <= Clock(trace, t0) - t0 {
      ThreadFitsElapsed(target, trace, t0, w, pid);
    }
    ThreadsTimesBound(window, Threads(window), Clock(trace, t0) - t0);
    TotalAgrees(window, Everything(), OfPids(Threads(window)));
  }

  lemma {:induction false} FilterOnlyRemoves(snapshot: seq<Entry>, threshold: u64, p: Entry -> bool)
    ensures Total(Busy(snapshot, threshold), p) <= Total(snapshot, p)
  {
    if |snapshot| > 0 {
      var kept, e := Busy(snapshot[..|snapshot| - 1], threshold), snapshot[|snapshot| - 1];
      FilterOnlyRemoves(snapshot[..|snapshot| - 1], threshold, p);
      assert (kept + [e])[..|kept|] == kept;
    }
  }

  /** What a flush aggregates. */
  function Filtered(snapshot: seq<Entry>, threshold: Option<u64>): seq<Entry> {
    if threshold.Some? then Busy(snapshot, threshold.value) else snapshot
  }

  /** The report of any window of a run in which threads times elapsed time stays
      below 2^64 ns never reports stacks that exceed their reason's total. */
  lemma RunReportIsConsistent(target: u32, trace: seq<Label>, t0: u64, w: nat, threshold: Option<u64>,
                              env: Env, r: Reason, k: nat, j: JsonReason)
    requires Monotone(trace, t0) && w < |Run(target, trace).windows|
    requires |Threads(Run(target, trace).windows[w])| * (Clock(trace, t0) - t0) < TWO64
    requires K.Sorted(env.syms)
    requires var aggs := AggAll(env, Filtered(Run(target, trace).windows[w], threshold));
             r in aggs && Reports(aggs[r], k, j)
    ensures SumReported(j.topStacks) <= j.totalMs
  {
    hide Step, Run, Total, Busy, AggAll, Reports, SumReported, Threads, ReasonOf;
    var window := Run(target, trace).windows[w];
    WindowFitsThreadsTimesElapsed(target, trace, t0, w);
    TotalMonotone(window, OfReason(env, r), Everything());
    if threshold.Some? { FilterOnlyRemoves(window, threshold.value, OfReason(env, r)); }
    ReportIsConsistent(env, Filtered(window, threshold), r, k, j);
  }

  // ---------- a run whose report saturates ----------

  const BIG: u64 := TWO64 - 1

  /** Two threads sleep from the clock's first to its last tick. */
  function TwoSleeps(a: i32, b: i32): seq<Label> {
    [] + [OnSwitch(0, 1, 1, 1, a, true)] + [OnSwitch(0, 2, 1, 1, b, true)]
    + [OnWakeup(BIG, 1, true)] + [OnWakeup(BIG, 2, true)]
  }

  function BothRead(a: i32, b: i32): seq<Label> {
    TwoSleeps(a, b) + [BeginFlush(BIG)] + [ReadEntry(BIG, Key(1, a))] + [ReadEntry(BIG, Key(2, b))]
  }

  function TwoSleepsDrained(a: i32, b: i32): seq<Label> {
    BothRead(a, b) + [BeginRemoval(BIG)] + [RemoveNext(BIG)] + [RemoveNext(BIG)] + [EndFlush(BIG)]
  }

  function TwoBig(a: i32, b: i32): seq<Entry> { [(Key(1, a), BIG), (Key(2, b), BIG)] }

  lemma RunSnoc(trace: seq<Label>, l: Label)
    ensures Run(1, trace + [l]) == Step(1, Run(1, trace), l)
  {
    assert (trace + [l])[..|trace|] == trace;
  }

  lemma AfterSwitches(a: i32, b: i32)
    ensures Run(1, [] + [OnSwitch(0, 1, 1, 1, a, true)] + [OnSwitch(0, 2, 1, 1, b, true)])
            == INIT.(start := map[1 := StartInfo(0, a), 2 := StartInfo(0, b)])
  {
    assert Run(1, []) == INIT;
    hide Run;
    RunSnoc([], OnSwitch(0, 1, 1, 1, a, true));
    RunSnoc([] + [OnSwitch(0, 1, 1, 1, a, true)], OnSwitch(0, 2, 1, 1, b, true));
  }

  lemma AfterSleeps(a: i32, b: i32)
    ensures Run(1, TwoSleeps(a, b)) == INIT.(buckets := map[Key(1, a) := BIG, Key(2, b) := BIG])
  {
    var t := [] + [OnSwitch(0, 1, 1, 1, a, true)] + [OnSwitch(0, 2, 1, 1, b, true)];
    hide Run;
    AfterSwitches(a, b);
    RunSnoc(t, OnWakeup(BIG, 1, true));
    RunSnoc(t + [OnWakeup(BIG, 1, true)], OnWakeup(BIG, 2, true));
    assert Run(1, t + [OnWakeup(BIG, 1, true)])
        == INIT.(start := map[2 := StartInfo(0, b)], buckets := map[Key(1, a) := BIG]);
  }

  lemma AfterReading(a: i32, b: i32)
    ensures Run(1, BothRead(a, b))
            == INIT.(buckets := map[Key(1, a) := BIG, Key(2, b) := BIG], phase := Reading, snapshot := TwoBig(a, b))
  {
    var t := TwoSleeps(a, b);
    AfterSleeps(a, b);
    hide Run, TwoSleeps;
    RunSnoc(t, BeginFlush(BIG));
    RunSnoc(t + [BeginFlush(BIG)], ReadEntry(BIG, Key(1, a)));
    RunSnoc(t + [BeginFlush(BIG)] + [ReadEntry(BIG, Key(1, a))], ReadEntry(BIG, Key(2, b)));
    assert Run(1, t + [BeginFlush(BIG)] + [ReadEntry(BIG, Key(1, a))]).snapshot == [(Key(1, a), BIG)];
  }

  lemma AfterDrain(a: i32, b: i32)
    ensures Run(1, TwoSleepsDrained(a, b)).windows == [TwoBig(a, b)]
  {
    var t := BothRead(a, b);
    AfterReading(a, b);
    hide Run, BothRead, BucketsAfter;
    RunSnoc(t, BeginRemoval(BIG));
    RunSnoc(t + [BeginRemoval(BIG)], RemoveNext(BIG));
    RunSnoc(t + [BeginRemoval(BIG)] + [RemoveNext(BIG)], RemoveNext(BIG));
    RunSnoc(t + [BeginRemoval(BIG)] + [RemoveNext(BIG)] + [RemoveNext(BIG)], EndFlush(BIG));
  }

  lemma TwoBigAggregate(env: Env, a: i32, b: i32)
    requires K.Sorted(env.syms) && a != b && ReasonOf(env, a) == ReasonOf(env, b)
    ensures var aggs, r := AggAll(env, TwoBig(a, b)), ReasonOf(env, a);
            r in aggs
            && aggs[r] == ReasonAgg(BIG, {1, 2}, map[a := (BIG, FramesOf(env, a)), b := (BIG, FramesOf(env, b))])
  {
    hide FramesOf, ReasonOf;
    var entries: seq<Entry>, none: seq<Entry> := TwoBig(a, b), [];
    assert entries[..1] == [entries[0]] && entries[..1][..0] == none;
    assert AggAll(env, entries[..1]) == AggStep(env, AggAll(env, entries[..1][..0]), entries[0]);
    assert AggAll(env, entries) == AggStep(env, AggAll(env, entries[..1]), entries[1]);
  }

  lemma TwoBigTop(x: Item, y: Item)
    requires x.1.0 == y.1.0 == BIG
    ensures TopK([x, y], 2) == [x, y]
    ensures SumReported(Milliseconds([x, y])) == 2 * (BIG / NS_PER_MS)
  {
    var none: seq<Item> := [];
    assert [x, y][..1] == [x] && [x][..0] == none && [x][1..] == none;
    assert SortDesc([x]) == InsertDesc([], x) == [x];
    assert InsertDesc([x], y) == [x] + InsertDesc([], y);
    assert SortDesc([x, y]) == [x, y];
    SumOfMilliseconds([x, y]);
    assert [x, y][1..] == [y] && [y][1..] == none;
    assert SumMs([y]) == BIG / NS_PER_MS;
  }

  lemma TwoBigEnumerated(a: i32, b: i32, x: Item, y: Item)
    requires a != b && x.0 == a && y.0 == b
    ensures Enumerates([x, y], map[a := x.1, b := y.1])
  {
    assert [x, y][0] == x && [x, y][1] == y;
  }

  lemma TwoBigReported(agg: ReasonAgg, x: Item, y: Item) returns (j: JsonReason)
    requires x.1.0 == y.1.0 == BIG == agg.totalNs && Enumerates([x, y], agg.byStack)
    ensures Reports(agg, 2, j) && SumReported(j.topStacks) > j.totalMs
  {
    hide Enumerates, TopK, SumReported, Milliseconds;
    TwoBigTop(x, y);
    j := JsonReason(BIG / NS_PER_MS, |agg.pids|, Milliseconds(TopK([x, y], 2)));
  }

  lemma DrainedIsMonotone(a: i32, b: i32)
    ensures Monotone(TwoSleepsDrained(a, b), 0)
  {
    var t := TwoSleepsDrained(a, b);
    assert forall i :: 0 <= i < |t| ==> t[i].now == if i < 2 then 0 else BIG;
  }

  /** Without that bound the sum can exceed the total: two threads asleep for the
      whole range of the clock on any two different stacks of the same reason. The
      run is monotone, and its one window reports more under the reason's stacks
      than for the reason. */
  lemma SaturationBreaksTheSum(env: Env, a: i32, b: i32)
    requires K.Sorted(env.syms) && a != b && ReasonOf(env, a) == ReasonOf(env, b)
    ensures var trace, r := TwoSleepsDrained(a, b), ReasonOf(env, a);
            && Monotone(trace, 0) && Run(1, trace).windows == [TwoBig(a, b)]
            && r in AggAll(env, TwoBig(a, b))
            && exists j: JsonReason ::
                 Reports(AggAll(env, TwoBig(a, b))[r], 2, j) && SumReported(j.topStacks) > j.totalMs
  {
    hide *;
    var x: Item, y: Item := (a, (BIG, FramesOf(env, a))), (b, (BIG, FramesOf(env, b)));
    DrainedIsMonotone(a, b);
    AfterDrain(a, b);
    TwoBigAggregate(env, a, b);
    TwoBigEnumerated(a, b, x, y);
    var j := TwoBigReported(AggAll(env, TwoBig(a, b))[ReasonOf(env, a)], x, y);
  }
}

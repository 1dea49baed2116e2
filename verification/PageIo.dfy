/** Page-I/O counters: per-CPU handlers, sampled slot by slot and differenced
    once per window. */
module PageIo {
  import opened Machine

  const FETCH_MAX: nat := 8192
  const INFLIGHT_MAX: nat := 16384

  datatype FetchInfo = FetchInfo(startTs: u64, pageNum: u64)
  datatype BlockKey = BlockKey(dev: u32, sector: u64)

  datatype Counters = Counters(engineCount: u64, engineTotalNs: u64, engineMaxNs: u64, blockCount: u64,
                               blockTotalBytes: u64, blockTotalWaitNs: u64, blockMaxWaitNs: u64)

  const ZERO: Counters := Counters(0, 0, 0, 0, 0, 0, 0)

  datatype State = State(
    fetching: map<u32, FetchInfo>,
    inflight: map<BlockKey, u64>,
    counters: seq<Counters>,
    partial: seq<Counters>,
    prev: Counters,
    windows: seq<Counters>)

  function Init(cpus: nat): State { State(map[], map[], seq(cpus, i => ZERO), [], ZERO, []) }

  /** Handlers run on a CPU and may find what another CPU left. `Sample` copies
      the next CPU's slot to userspace; `Flush` ends the window once all are copied. */
  datatype Label =
    | FetchEntry(now: u64, cpu: nat, tid: u32, tgid: u32, pageNum: u64, ok: bool)
    | FetchExit(now: u64, cpu: nat, tid: u32)
    | BlockIssue(now: u64, cpu: nat, tgid: u32, dev: u32, sector: u64, bytes: u32, ok: bool)
    | BlockComplete(now: u64, cpu: nat, dev: u32, sector: u64)
    | Sample
    | Flush

  predicate Traced(target: u32, tgid: u32) { target != 0 && target == tgid }

  function FetchingAfter(target: u32, s: State, l: Label): map<u32, FetchInfo> {
    match l
    case FetchEntry(now, _, tid, tgid, pageNum, ok) =>
      if Traced(target, tgid) then Insert(Kernel, s.fetching, tid, FetchInfo(now, pageNum), FETCH_MAX, ok)
      else s.fetching
    case FetchExit(_, _, tid) => Remove(s.fetching, tid)
    case _ => s.fetching
  }

  function InflightAfter(target: u32, s: State, l: Label): map<BlockKey, u64> {
    match l
    case BlockIssue(now, _, tgid, dev, sector, _, ok) =>
      if Traced(target, tgid) then Insert(Kernel, s.inflight, BlockKey(dev, sector), now, INFLIGHT_MAX, ok)
      else s.inflight
    case BlockComplete(_, _, dev, sector) => Remove(s.inflight, BlockKey(dev, sector))
    case _ => s.inflight
  }

  /** What a handler adds to its CPU's slot. An issue counts even when the
      in-flight map refuses it; a completion counts only when matched. */
  datatype Bump = Nothing | Fetched(ns: u64) | Issued(bytes: u32) | Waited(ns: u64)

  function BumpOf(target: u32, s: State, l: Label): Bump {
    match l
    case FetchExit(now, _, tid) => if tid in s.fetching then Fetched(SatSub(now, s.fetching[tid].startTs)) else Nothing
    case BlockIssue(_, _, tgid, _, _, bytes, _) => if Traced(target, tgid) then Issued(bytes) else Nothing
    case BlockComplete(now, _, dev, sector) =>
      var k := BlockKey(dev, sector);
      if k in s.inflight then Waited(SatSub(now, s.inflight[k])) else Nothing
    case _ => Nothing
  }

  function Max(a: int, b: int): int { if a < b then b else a }

  function Bumped(c: Counters, b: Bump): Counters {
    match b
    case Nothing => c
    case Fetched(ns) =>
      c.(engineCount := WrapAdd(c.engineCount, 1), engineTotalNs := WrapAdd(c.engineTotalNs, ns),
         engineMaxNs := Max(c.engineMaxNs, ns))
    case Issued(bytes) =>
      c.(blockCount := WrapAdd(c.blockCount, 1), blockTotalBytes := WrapAdd(c.blockTotalBytes, bytes))
    case Waited(ns) =>
      c.(blockTotalWaitNs := WrapAdd(c.blockTotalWaitNs, ns), blockMaxWaitNs := Max(c.blockMaxWaitNs, ns))
  }

  predicate OnCpu(l: Label, c: nat) {
    (l.FetchEntry? || l.FetchExit? || l.BlockIssue? || l.BlockComplete?) && l.cpu == c
  }

  function CountersAfter(target: u32, s: State, l: Label): seq<Counters> {
    if !l.Sample? && !l.Flush? && l.cpu < |s.counters|
    then s.counters[l.cpu := Bumped(s.counters[l.cpu], BumpOf(target, s, l))]
    else s.counters
  }

  /** Sum of two slots; maxima are taken, not added. */
  function Plus(a: Counters, b: Counters): Counters {
    Counters(WrapAdd(a.engineCount, b.engineCount), WrapAdd(a.engineTotalNs, b.engineTotalNs),
             Max(a.engineMaxNs, b.engineMaxNs), WrapAdd(a.blockCount, b.blockCount),
             WrapAdd(a.blockTotalBytes, b.blockTotalBytes), WrapAdd(a.blockTotalWaitNs, b.blockTotalWaitNs),
             Max(a.blockMaxWaitNs, b.blockMaxWaitNs))
  }

  function Combine(slots: seq<Counters>): Counters {
    if |slots| == 0 then ZERO else Plus(Combine(slots[..|slots| - 1]), slots[|slots| - 1])
  }

  function Delta(prev: Counters, now: Counters): Counters {
    Counters(WrapSub(now.engineCount, prev.engineCount), WrapSub(now.engineTotalNs, prev.engineTotalNs),
             now.engineMaxNs, WrapSub(now.blockCount, prev.blockCount),
             WrapSub(now.blockTotalBytes, prev.blockTotalBytes),
             WrapSub(now.blockTotalWaitNs, prev.blockTotalWaitNs), now.blockMaxWaitNs)
  }

  predicate FlushReady(s: State) { |s.partial| == |s.counters| }

  function Step(target: u32, s: State, l: Label): State {
    var done := l.Flush? && FlushReady(s);
    State(
      FetchingAfter(target, s, l),
      InflightAfter(target, s, l),
      CountersAfter(target, s, l),
      if l.Sample? && |s.partial| < |s.counters| then s.partial + [s.counters[|s.partial|]]
      else if done then [] else s.partial,
      if done then Combine(s.partial) else s.prev,
      if done then s.windows + [Delta(s.prev, Combine(s.partial))] else s.windows)
  }

  function Run(target: u32, cpus: nat, trace: seq<Label>): State {
    if |trace| == 0 then Init(cpus)
    else Step(target, Run(target, cpus, trace[..|trace| - 1]), trace[|trace| - 1])
  }

  /** The summing loop of `snapshot_counters`. */
  method SnapshotCounters(slots: seq<Counters>) returns (out: Counters)
    ensures out == Combine(slots)
  {
    out := ZERO;
    for n := 0 to |slots|
      invariant out == Combine(slots[..n])
    {
      var c := slots[n];
      assert slots[..n + 1][..n] == slots[..n];
      out := out.(engineCount := WrapAdd(out.engineCount, c.engineCount),
                  engineTotalNs := WrapAdd(out.engineTotalNs, c.engineTotalNs));
      if c.engineMaxNs > out.engineMaxNs { out := out.(engineMaxNs := c.engineMaxNs); }
      out := out.(blockCount := WrapAdd(out.blockCount, c.blockCount),
                  blockTotalBytes := WrapAdd(out.blockTotalBytes, c.blockTotalBytes),
                  blockTotalWaitNs := WrapAdd(out.blockTotalWaitNs, c.blockTotalWaitNs));
      if c.blockMaxWaitNs > out.blockMaxWaitNs { out := out.(blockMaxWaitNs := c.blockMaxWaitNs); }
    }
    assert slots[..|slots|] == slots;
  }

  class Monitor {
    const target: u32
    var fetching: map<u32, FetchInfo>
    var inflight: map<BlockKey, u64>
    const counters: array<Counters>
    var partial: seq<Counters>
    var prev: Counters
    var windows: seq<Counters>

    function View(): State
      reads this, counters
    {
      State(fetching, inflight, counters[..], partial, prev, windows)
    }

    constructor (target: u32, cpus: nat)
      ensures View() == Init(cpus) && this.target == target && fresh(counters)
    {
      this.target := target;
      fetching, inflight, partial, prev, windows := map[], map[], [], ZERO, [];
      counters := new Counters[cpus](i => ZERO);
    }

    method CchEntry(now: u64, cpu: nat, tid: u32, tgid: u32, pageNum: u64, ok: bool)
      requires cpu < counters.Length
      modifies this
      ensures View() == Step(target, old(View()), FetchEntry(now, cpu, tid, tgid, pageNum, ok))
    {
      if target == 0 || target != tgid { return; }
      fetching := Insert(Kernel, fetching, tid, FetchInfo(now, pageNum), FETCH_MAX, ok);
    }

    method CchExit(now: u64, cpu: nat, tid: u32)
      requires cpu < counters.Length
      modifies this, counters
      ensures View() == Step(target, old(View()), FetchExit(now, cpu, tid))
    {
      if tid !in fetching { return; }
      var info := fetching[tid];
      fetching := Remove(fetching, tid);
      var durationNs := SatSub(now, info.startTs);
      var c := counters[cpu];
      c := c.(engineCount := WrapAdd(c.engineCount, 1), engineTotalNs := WrapAdd(c.engineTotalNs, durationNs));
      if durationNs > c.engineMaxNs { c := c.(engineMaxNs := durationNs); }
      counters[cpu] := c;
    }

    method Issue(now: u64, cpu: nat, tgid: u32, dev: u32, sector: u64, bytes: u32, ok: bool)
      requires cpu < counters.Length
      modifies this, counters
      ensures View() == Step(target, old(View()), BlockIssue(now, cpu, tgid, dev, sector, bytes, ok))
    {
      if target == 0 || target != tgid { return; }
      inflight := Insert(Kernel, inflight, BlockKey(dev, sector), now, INFLIGHT_MAX, ok);
      var c := counters[cpu];
      c := c.(blockCount := WrapAdd(c.blockCount, 1));
      c := c.(blockTotalBytes := WrapAdd(c.blockTotalBytes, bytes));
      counters[cpu] := c;
    }

    method Complete(now: u64, cpu: nat, dev: u32, sector: u64)
      requires cpu < counters.Length
      modifies this, counters
      ensures View() == Step(target, old(View()), BlockComplete(now, cpu, dev, sector))
    {
      var key := BlockKey(dev, sector);
      if key !in inflight { return; }
      var issueTs := inflight[key];
      inflight := Remove(inflight, key);
      var waitNs := SatSub(now, issueTs);
      var c := counters[cpu];
      c := c.(blockTotalWaitNs := WrapAdd(c.blockTotalWaitNs, waitNs));
      if waitNs > c.blockMaxWaitNs { c := c.(blockMaxWaitNs := waitNs); }
      counters[cpu] := c;
    }

    /** One slot of the per-CPU read behind `snapshot_counters`. */
    method SampleNext()
      modifies this
      ensures View() == Step(target, old(View()), Sample)
    {
      if |partial| < counters.Length {
        partial := partial + [counters[|partial|]];
      }
    }

    /** The flush arm of the main loop. */
    method FlushWindow()
      modifies this
      ensures View() == Step(target, old(View()), Flush)
    {
      if |partial| == counters.Length {
        var snapshot := SnapshotCounters(partial);
        windows := windows + [Delta(prev, snapshot)];
        prev := snapshot;
        partial := [];
      }
    }
  }

  /** The averages of `write_json`. */
  function EngineAvg(c: Counters): u64 { if c.engineCount > 0 then c.engineTotalNs / c.engineCount else 0 }

  function BlockAvg(c: Counters): u64 { if c.blockCount > 0 then c.blockTotalWaitNs / c.blockCount else 0 }
}

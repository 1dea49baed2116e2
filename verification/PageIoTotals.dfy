/** What the sampled, wrapped, per-CPU counters mean, over whole runs. */
module PageIoTotals {
  import opened Machine
  import opened PageIo

  /** A counter slot as it would be with unbounded integers, plus the number of
      matched completions, which the program does not count. */
  datatype Tally = Tally(engineCount: nat, engineTotal: nat, engineMax: u64, blockCount: nat,
                         bytes: nat, completions: nat, wait: nat, waitMax: u64)

  const NONE: Tally := Tally(0, 0, 0, 0, 0, 0, 0, 0)

  function Add(t: Tally, b: Bump): Tally {
    match b
    case Nothing => t
    case Fetched(ns) =>
      t.(engineCount := t.engineCount + 1, engineTotal := t.engineTotal + ns, engineMax := Max(t.engineMax, ns))
    case Issued(bytes) => t.(blockCount := t.blockCount + 1, bytes := t.bytes + bytes)
    case Waited(ns) => t.(completions := t.completions + 1, wait := t.wait + ns, waitMax := Max(t.waitMax, ns))
  }

  /** Everything handlers running on CPU c did in a run. */
  function TallyOn(target: u32, cpus: nat, trace: seq<Label>, c: nat): Tally {
    if |trace| == 0 then NONE
    else
      var before, l := trace[..|trace| - 1], trace[|trace| - 1];
      var t := TallyOn(target, cpus, before, c);
      if OnCpu(l, c) then Add(t, BumpOf(target, Run(target, cpus, before), l)) else t
  }

  /** Everything handlers did in a run, whatever CPU they ran on. */
  function TallyAll(target: u32, cpus: nat, trace: seq<Label>): Tally {
    if |trace| == 0 then NONE
    else
      var before, l := trace[..|trace| - 1], trace[|trace| - 1];
      Add(TallyAll(target, cpus, before), BumpOf(target, Run(target, cpus, before), l))
  }

  /** How 64-bit counters show a tally. */
  function Wrapped(t: Tally): Counters {
    Counters(t.engineCount % TWO64, t.engineTotal % TWO64, t.engineMax, t.blockCount % TWO64,
             t.bytes % TWO64, t.wait % TWO64, t.waitMax)
  }

  function PlusTally(a: Tally, b: Tally): Tally {
    Tally(a.engineCount + b.engineCount, a.engineTotal + b.engineTotal, Max(a.engineMax, b.engineMax),
          a.blockCount + b.blockCount, a.bytes + b.bytes, a.completions + b.completions,
          a.wait + b.wait, Max(a.waitMax, b.waitMax))
  }

  function SumTallies(ts: seq<Tally>): Tally {
    if |ts| == 0 then NONE else PlusTally(SumTallies(ts[..|ts| - 1]), ts[|ts| - 1])
  }

  ghost predicate OnRealCpus(trace: seq<Label>, cpus: nat) {
    forall k :: 0 <= k < |trace| ==> trace[k].Sample? || trace[k].Flush? || trace[k].cpu < cpus
  }

  // ---------- counters show tallies ----------

  lemma ModPlus(a: nat, b: nat)
    ensures (a % TWO64 + b % TWO64) % TWO64 == (a + b) % TWO64
  {
    var k := a / TWO64 + b / TWO64;
    assert a % TWO64 + b % TWO64 == (a + b) - k * TWO64;
  }

  lemma WrapPlusOne(a: nat, b: u64)
    ensures WrapAdd(a % TWO64, b) == (a + b) % TWO64
  {
    ModPlus(a, b);
  }

  lemma WrapFetched(t: Tally, ns: u64)
    ensures Bumped(Wrapped(t), Fetched(ns)) == Wrapped(Add(t, Fetched(ns)))
  {
    WrapPlusOne(t.engineCount, 1);
    WrapPlusOne(t.engineTotal, ns);
    hide WrapAdd;
  }

  lemma WrapIssued(t: Tally, bytes: u32)
    ensures Bumped(Wrapped(t), Issued(bytes)) == Wrapped(Add(t, Issued(bytes)))
  {
    WrapPlusOne(t.blockCount, 1);
    WrapPlusOne(t.bytes, bytes);
    hide WrapAdd;
  }

  lemma WrapWaited(t: Tally, ns: u64)
    ensures Bumped(Wrapped(t), Waited(ns)) == Wrapped(Add(t, Waited(ns)))
  {
    WrapPlusOne(t.wait, ns);
    hide WrapAdd;
  }

  lemma WrapStep(t: Tally, b: Bump)
    ensures Bumped(Wrapped(t), b) == Wrapped(Add(t, b))
  {
    match b {
      case Nothing =>
      case Fetched(ns) => WrapFetched(t, ns);
      case Issued(bytes) => WrapIssued(t, bytes);
      case Waited(ns) => WrapWaited(t, ns);
    }
    hide Wrapped;
  }

  lemma WrapBoth(a: nat, b: nat)
    ensures WrapAdd(a % TWO64, b % TWO64) == (a + b) % TWO64
  {
    ModPlus(a, b);
  }

  lemma WrapPlus(a: Tally, b: Tally)
    ensures Plus(Wrapped(a), Wrapped(b)) == Wrapped(PlusTally(a, b))
  {
    WrapBoth(a.engineCount, b.engineCount);
    WrapBoth(a.engineTotal, b.engineTotal);
    WrapBoth(a.blockCount, b.blockCount);
    WrapBoth(a.bytes, b.bytes);
    WrapBoth(a.wait, b.wait);
    hide WrapAdd;
  }

  /** Each per-CPU slot is its tally modulo 2^64; maxima are exact. */
  lemma {:induction false} CountersShowTallies(target: u32, cpus: nat, trace: seq<Label>, c: nat)
    requires c < cpus
    ensures |Run(target, cpus, trace).counters| == cpus
    ensures Run(target, cpus, trace).counters[c] == Wrapped(TallyOn(target, cpus, trace, c))
  {
    if |trace| > 0 {
      var before, l := trace[..|trace| - 1], trace[|trace| - 1];
      var s := Run(target, cpus, before);
      assert Run(target, cpus, trace).counters == CountersAfter(target, s, l);
      hide Step, Run, Wrapped, Bumped, Add;
      CountersShowTallies(target, cpus, before, c);
      WrapStep(TallyOn(target, cpus, before, c), BumpOf(target, s, l));
    }
  }

  function WrapAll(ts: seq<Tally>): seq<Counters> { seq(|ts|, i requires 0 <= i < |ts| => Wrapped(ts[i])) }

  /** Combining wrapped slots is wrapping the combined tallies. */
  lemma {:induction false} CombineIsSum(ts: seq<Tally>)
    ensures Combine(WrapAll(ts)) == Wrapped(SumTallies(ts))
  {
    if |ts| > 0 {
      var before := ts[..|ts| - 1];
      CombineIsSum(before);
      assert WrapAll(ts)[..|ts| - 1] == WrapAll(before);
      WrapPlus(SumTallies(before), ts[|ts| - 1]);
      hide Plus, PlusTally, Wrapped;
    }
  }

  // ---------- when each slot was sampled ----------

  /** Tallies of the CPUs, CPU c's as of time at[c]. */
  function TalliesAt(target: u32, cpus: nat, trace: seq<Label>, at: seq<nat>): seq<Tally>
    requires forall c :: 0 <= c < |at| ==> at[c] <= |trace|
  {
    seq(|at|, c requires 0 <= c < |at| => TallyOn(target, cpus, trace[..at[c]], c))
  }

  /** Sampling times: of the last completed snapshot (all zero before the first)
      and of the one under way. */
  datatype Times = Times(last: seq<nat>, partial: seq<nat>)

  function SampleTimes(cpus: nat, trace: seq<Label>): (r: Times)
    ensures |r.last| == cpus && |r.partial| <= cpus
    ensures forall c :: 0 <= c < cpus ==> r.last[c] <= |trace|
    ensures forall c :: 0 <= c < |r.partial| ==> r.last[c] <= r.partial[c] <= |trace|
  {
    if |trace| == 0 then Times(seq(cpus, i => 0), [])
    else
      var n := |trace| - 1;
      var t := SampleTimes(cpus, trace[..n]);
      if trace[n].Sample? && |t.partial| < cpus then Times(t.last, t.partial + [n])
      else if trace[n].Flush? && |t.partial| == cpus then Times(t.partial, [])
      else t
  }

  lemma TalliesAtPrefix(target: u32, cpus: nat, trace: seq<Label>, at: seq<nat>)
    requires |trace| > 0 && forall c :: 0 <= c < |at| ==> at[c] <= |trace| - 1
    ensures TalliesAt(target, cpus, trace, at) == TalliesAt(target, cpus, trace[..|trace| - 1], at)
  {
    hide Run, Step;
    forall c | 0 <= c < |at| ensures trace[..at[c]] == trace[..|trace| - 1][..at[c]] {}
  }

  lemma {:induction false} NothingsSum(ts: seq<Tally>)
    requires forall c :: 0 <= c < |ts| ==> ts[c] == NONE
    ensures SumTallies(ts) == NONE
  {
    if |ts| > 0 { NothingsSum(ts[..|ts| - 1]); }
  }

  lemma NothingYet(target: u32, cpus: nat, trace: seq<Label>, c: nat)
    ensures TallyOn(target, cpus, trace[..0], c) == NONE
  {
  }

  lemma SumOfNothing(target: u32, cpus: nat, trace: seq<Label>, at: seq<nat>)
    requires forall c :: 0 <= c < |at| ==> at[c] == 0
    ensures SumTallies(TalliesAt(target, cpus, trace, at)) == NONE
  {
    hide Run, Step, TallyOn, SumTallies;
    var ts := TalliesAt(target, cpus, trace, at);
    forall c | 0 <= c < |ts| ensures ts[c] == NONE {
      NothingYet(target, cpus, trace, c);
    }
    NothingsSum(ts);
  }

  lemma SampleOneMore(target: u32, cpus: nat, trace: seq<Label>, at: seq<nat>)
    requires |trace| > 0 && forall c :: 0 <= c < |at| ==> at[c] <= |trace| - 1
    ensures var n := |trace| - 1;
            WrapAll(TalliesAt(target, cpus, trace, at + [n]))
            == WrapAll(TalliesAt(target, cpus, trace, at)) + [Wrapped(TallyOn(target, cpus, trace[..n], |at|))]
  {
    hide Run, Step, TallyOn, Wrapped;
  }

  /** The samples userspace holds are the wrapped tallies of each CPU at the
      moment that CPU was sampled, and the previous snapshot is the wrapped sum
      of such tallies. */
  lemma {:induction false} SamplesShowTallies(target: u32, cpus: nat, trace: seq<Label>)
    ensures var s, t := Run(target, cpus, trace), SampleTimes(cpus, trace);
            && |s.counters| == cpus
            && s.partial == WrapAll(TalliesAt(target, cpus, trace, t.partial))
            && s.prev == Wrapped(SumTallies(TalliesAt(target, cpus, trace, t.last)))
  {
    if |trace| == 0 {
      SumOfNothing(target, cpus, trace, SampleTimes(cpus, trace).last);
    } else {
      var n := |trace| - 1;
      var before := trace[..n];
      var s, t := Run(target, cpus, before), SampleTimes(cpus, before);
      assert Run(target, cpus, trace) == Step(target, s, trace[n]);
      SamplesShowTallies(target, cpus, before);
      TalliesAtPrefix(target, cpus, trace, t.partial);
      TalliesAtPrefix(target, cpus, trace, t.last);
      CombineIsSum(TalliesAt(target, cpus, before, t.partial));
      if trace[n].Sample? && |t.partial| < cpus {
        CountersShowTallies(target, cpus, before, |t.partial|);
        SampleOneMore(target, cpus, trace, t.partial);
      }
      hide Run, TallyOn, Combine, Wrapped, SumTallies, TalliesAt, CountersAfter;
    }
  }

  // ---------- window averages ----------

  /** A count, its total and its maximum, before and after: the total grew by
      at most what the count grew times the new maximum. */
  predicate Covered(n: nat, t: nat, m: nat, n': nat, t': nat, m': nat) {
    n <= n' && t <= t' && m <= m' && t' - t <= (n' - n) * m'
  }

  lemma CoveredTransitive(n: nat, t: nat, m: nat, n': nat, t': nat, m': nat, n'': nat, t'': nat, m'': nat)
    requires Covered(n, t, m, n', t', m') && Covered(n', t', m', n'', t'', m'')
    ensures Covered(n, t, m, n'', t'', m'')
  {
    var x, y := n' - n, n'' - n';
    assert x * m' <= x * m'';
    assert (x + y) * m'' == x * m'' + y * m'';
  }

  lemma CoveredSum(n: nat, t: nat, m: nat, n': nat, t': nat, m': nat, k: nat, u: nat, p: nat, k': nat, u': nat, p': nat)
    requires Covered(n, t, m, n', t', m') && Covered(k, u, p, k', u', p')
    ensures Covered(n + k, t + u, Max(m, p), n' + k', t' + u', Max(m', p'))
  {
    var x, y, top := n' - n, k' - k, Max(m', p');
    assert x * m' <= x * top && y * p' <= y * top;
    assert (x + y) * top == x * top + y * top;
  }

  /** Fetches and matched completions, from one tally to a later one. */
  predicate Grows(a: Tally, b: Tally) {
    && Covered(a.engineCount, a.engineTotal, a.engineMax, b.engineCount, b.engineTotal, b.engineMax)
    && Covered(a.completions, a.wait, a.waitMax, b.completions, b.wait, b.waitMax)
    && a.blockCount <= b.blockCount
  }

  lemma GrowsTransitive(a: Tally, b: Tally, c: Tally)
    requires Grows(a, b) && Grows(b, c)
    ensures Grows(a, c)
  {
    CoveredTransitive(a.engineCount, a.engineTotal, a.engineMax, b.engineCount, b.engineTotal, b.engineMax,
                      c.engineCount, c.engineTotal, c.engineMax);
    CoveredTransitive(a.completions, a.wait, a.waitMax, b.completions, b.wait, b.waitMax,
                      c.completions, c.wait, c.waitMax);
    hide Covered;
  }

  lemma GrowsSum(a: Tally, a': Tally, b: Tally, b': Tally)
    requires Grows(a, a') && Grows(b, b')
    ensures Grows(PlusTally(a, b), PlusTally(a', b'))
  {
    CoveredSum(a.engineCount, a.engineTotal, a.engineMax, a'.engineCount, a'.engineTotal, a'.engineMax,
               b.engineCount, b.engineTotal, b.engineMax, b'.engineCount, b'.engineTotal, b'.engineMax);
    CoveredSum(a.completions, a.wait, a.waitMax, a'.completions, a'.wait, a'.waitMax,
               b.completions, b.wait, b.waitMax, b'.completions, b'.wait, b'.waitMax);
    hide Covered;
  }

  lemma AddGrows(t: Tally, b: Bump)
    ensures Grows(t, t) && Grows(t, Add(t, b))
  {
  }

  lemma {:induction false} TallyGrows(target: u32, cpus: nat, trace: seq<Label>, n: nat, c: nat)
    requires n <= |trace|
    ensures Grows(TallyOn(target, cpus, trace[..n], c), TallyOn(target, cpus, trace, c))
  {
    hide Run, Step, Grows, Add;
    var t := TallyOn(target, cpus, trace, c);
    if n == |trace| {
      assert trace[..n] == trace;
      AddGrows(t, Nothing);
    } else {
      var before, l := trace[..|trace| - 1], trace[|trace| - 1];
      var u := TallyOn(target, cpus, before, c);
      assert before[..n] == trace[..n];
      TallyGrows(target, cpus, before, n, c);
      AddGrows(u, BumpOf(target, Run(target, cpus, before), l));
      GrowsTransitive(TallyOn(target, cpus, trace[..n], c), u, t);
    }
  }

  lemma {:induction false} SumsGrow(target: u32, cpus: nat, trace: seq<Label>, p: seq<nat>, q: seq<nat>)
    requires |p| == |q| && forall c :: 0 <= c < |p| ==> p[c] <= q[c] <= |trace|
    ensures Grows(SumTallies(TalliesAt(target, cpus, trace, p)), SumTallies(TalliesAt(target, cpus, trace, q)))
  {
    if |p| > 0 {
      var last := |p| - 1;
      SumsGrow(target, cpus, trace, p[..last], q[..last]);
      assert TalliesAt(target, cpus, trace, p)[..last] == TalliesAt(target, cpus, trace, p[..last]);
      assert TalliesAt(target, cpus, trace, q)[..last] == TalliesAt(target, cpus, trace, q[..last]);
      assert trace[..q[last]][..p[last]] == trace[..p[last]];
      TallyGrows(target, cpus, trace[..q[last]], p[last], last);
      hide Run, TallyOn, Grows, PlusTally;
      GrowsSum(SumTallies(TalliesAt(target, cpus, trace, p[..last])),
               SumTallies(TalliesAt(target, cpus, trace, q[..last])),
               TallyOn(target, cpus, trace[..p[last]], last), TallyOn(target, cpus, trace[..q[last]], last));
    }
  }

  /** What the previous snapshot stands for. */
  function Before(target: u32, cpus: nat, trace: seq<Label>): Tally {
    SumTallies(TalliesAt(target, cpus, trace, SampleTimes(cpus, trace).last))
  }

  /** What the snapshot under way stands for. */
  function After(target: u32, cpus: nat, trace: seq<Label>): Tally {
    SumTallies(TalliesAt(target, cpus, trace, SampleTimes(cpus, trace).partial))
  }

  /** A window whose own increments fit in 64 bits. */
  predicate Fits(a: Tally, b: Tally) {
    && b.engineTotal - a.engineTotal < TWO64 && b.engineCount - a.engineCount < TWO64
    && b.wait - a.wait < TWO64 && b.blockCount - a.blockCount < TWO64
  }

  lemma WrapSubExact(a: nat, b: nat)
    requires a <= b < a + TWO64
    ensures WrapSub(b % TWO64, a % TWO64) == b - a
  {
    var k := b / TWO64 - a / TWO64;
    assert (b % TWO64 - a % TWO64) == (b - a) - k * TWO64;
  }

  lemma AverageWithinMax(total: nat, count: nat, max: nat)
    requires count > 0 && total <= count * max
    ensures total / count <= max
  {
  }

  lemma EngineDelta(a: Tally, b: Tally)
    requires Grows(a, b) && Fits(a, b)
    ensures var d := Delta(Wrapped(a), Wrapped(b));
            && d.engineCount == b.engineCount - a.engineCount
            && d.engineTotalNs == b.engineTotal - a.engineTotal
            && d.engineTotalNs <= d.engineCount * d.engineMaxNs
            && EngineAvg(d) <= d.engineMaxNs
  {
    WrapSubExact(a.engineCount, b.engineCount);
    WrapSubExact(a.engineTotal, b.engineTotal);
    var d := Delta(Wrapped(a), Wrapped(b));
    if d.engineCount > 0 { AverageWithinMax(d.engineTotalNs, d.engineCount, d.engineMaxNs); }
  }

  lemma BlockFields(a: Tally, b: Tally)
    requires Grows(a, b) && Fits(a, b)
    ensures var d := Delta(Wrapped(a), Wrapped(b));
            && d.blockCount == b.blockCount - a.blockCount
            && d.blockTotalWaitNs == b.wait - a.wait
            && d.blockMaxWaitNs == b.waitMax
  {
    WrapSubExact(a.blockCount, b.blockCount);
    WrapSubExact(a.wait, b.wait);
    hide WrapSub;
  }

  lemma ScaleLe(a: nat, b: nat, m: nat)
    ensures a <= b ==> a * m <= b * m
  {
  }

  lemma BlockDelta(a: Tally, b: Tally)
    requires Grows(a, b) && Fits(a, b)
    ensures var d := Delta(Wrapped(a), Wrapped(b));
            && d.blockCount == b.blockCount - a.blockCount
            && d.blockTotalWaitNs == b.wait - a.wait
            && d.blockTotalWaitNs <= (b.completions - a.completions) * d.blockMaxWaitNs
            && (b.completions - a.completions <= d.blockCount ==> BlockAvg(d) <= d.blockMaxWaitNs)
  {
    BlockFields(a, b);
    hide Delta, Wrapped;
    var d := Delta(Wrapped(a), Wrapped(b));
    var n := b.completions - a.completions;
    if n <= d.blockCount && d.blockCount > 0 {
      ScaleLe(n, d.blockCount, d.blockMaxWaitNs);
      hide Grows;
      AverageWithinMax(d.blockTotalWaitNs, d.blockCount, d.blockMaxWaitNs);
    }
  }

  lemma ModMinus(a: nat, b: nat)
    ensures (b % TWO64 - a % TWO64) % TWO64 == (b - a) % TWO64
  {
    var k := b / TWO64 - a / TWO64;
    assert b % TWO64 - a % TWO64 == (b - a) - k * TWO64;
  }

  lemma OtherDelta(a: Tally, b: Tally)
    ensures var d := Delta(Wrapped(a), Wrapped(b));
            && d.engineMaxNs == b.engineMax && d.blockMaxWaitNs == b.waitMax
            && d.blockTotalBytes == (b.bytes - a.bytes) % 0x1_0000_0000_0000_0000
  {
    ModMinus(a.bytes, b.bytes);
  }

  lemma FlushShowsDelta(target: u32, cpus: nat, trace: seq<Label>)
    requires |SampleTimes(cpus, trace).partial| == cpus
    ensures var s := Run(target, cpus, trace);
            && Delta(s.prev, Combine(s.partial))
               == Delta(Wrapped(Before(target, cpus, trace)), Wrapped(After(target, cpus, trace)))
            && Step(target, s, Flush).windows == s.windows + [Delta(s.prev, Combine(s.partial))]
  {
    SamplesShowTallies(target, cpus, trace);
    CombineIsSum(TalliesAt(target, cpus, trace, SampleTimes(cpus, trace).partial));
    hide Run, Combine, Wrapped, SumTallies, TallyOn, Delta, SampleTimes;
  }

  lemma SnapshotsGrow(target: u32, cpus: nat, trace: seq<Label>)
    requires |SampleTimes(cpus, trace).partial| == cpus
    ensures Grows(Before(target, cpus, trace), After(target, cpus, trace))
  {
    hide Run, Grows, TalliesAt, SumTallies, SampleTimes;
    SumsGrow(target, cpus, trace, SampleTimes(cpus, trace).last, SampleTimes(cpus, trace).partial);
  }

  /** Main result. At every flush of every run, however handlers interleave with
      the slot-by-slot sampling and whatever CPUs a call enters and leaves on:
      as long as the window's own increments fit in 64 bits, the window reports
      exact differences, and its engine average does not exceed the reported
      maximum. The block average does not either, unless the window matched more
      completions than it counted issues. */
  lemma WindowAverageWithinMax(target: u32, cpus: nat, trace: seq<Label>)
    requires |SampleTimes(cpus, trace).partial| == cpus
    requires Fits(Before(target, cpus, trace), After(target, cpus, trace))
    ensures var s := Run(target, cpus, trace);
            var a, b := Before(target, cpus, trace), After(target, cpus, trace);
            var d := Delta(s.prev, Combine(s.partial));
            && Step(target, s, Flush).windows == s.windows + [d]
            && d.engineCount == b.engineCount - a.engineCount
            && d.engineTotalNs == b.engineTotal - a.engineTotal
            && d.engineTotalNs <= d.engineCount * d.engineMaxNs
            && EngineAvg(d) <= d.engineMaxNs
            && d.engineMaxNs == b.engineMax && d.blockMaxWaitNs == b.waitMax
            && d.blockTotalBytes == (b.bytes - a.bytes) % 0x1_0000_0000_0000_0000
            && d.blockCount == b.blockCount - a.blockCount
            && d.blockTotalWaitNs == b.wait - a.wait
            && (b.completions - a.completions <= d.blockCount ==> BlockAvg(d) <= d.blockMaxWaitNs)
  {
    hide *;
    FlushShowsDelta(target, cpus, trace);
    SnapshotsGrow(target, cpus, trace);
    EngineDelta(Before(target, cpus, trace), After(target, cpus, trace));
    OtherDelta(Before(target, cpus, trace), After(target, cpus, trace));
    BlockDelta(Before(target, cpus, trace), After(target, cpus, trace));
  }
}

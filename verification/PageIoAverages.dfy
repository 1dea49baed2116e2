/** Exactly when a window's block average stays within its reported maximum. */
module PageIoAverages {
  import opened Machine
  import opened PageIo
  import opened PageIoTotals

  /** A window ready to be flushed, with its own increments below 2^64, that
      counts m issues and matched n completions. */
  ghost predicate WindowWith(target: u32, cpus: nat, trace: seq<Label>, m: nat, n: nat) {
    && |SampleTimes(cpus, trace).partial| == cpus
    && var a, b := Before(target, cpus, trace), After(target, cpus, trace);
       Fits(a, b) && b.blockCount - a.blockCount == m && b.completions - a.completions == n
  }

  /** The window a flush would print. */
  function Window(target: u32, cpus: nat, trace: seq<Label>): Counters {
    Delta(Run(target, cpus, trace).prev, Combine(Run(target, cpus, trace).partial))
  }

  predicate AverageWithin(target: u32, cpus: nat, trace: seq<Label>) {
    BlockAvg(Window(target, cpus, trace)) <= Window(target, cpus, trace).blockMaxWaitNs
  }

  predicate Fires(l: Label) { !l.Sample? && !l.Flush? }

  /** The clock never goes back between handlers. */
  ghost predicate MonotoneClock(trace: seq<Label>) {
    forall i, j :: 0 <= i < j < |trace| && Fires(trace[i]) && Fires(trace[j]) ==> trace[i].now <= trace[j].now
  }

  /** Every such window of every run has its average within its maximum. */
  ghost predicate AveragesWithinMax(m: nat, n: nat) {
    forall target: u32, cpus: nat, trace: seq<Label> ::
      MonotoneClock(trace) && WindowWith(target, cpus, trace, m, n) ==> AverageWithin(target, cpus, trace)
  }

  // ---------- the least total wait that can exceed the maximum ----------

  /** The least longest wait for which n waits can average above it over m issues. */
  function LeastWait(m: nat, n: nat): nat
    requires 0 < m < n
  {
    (m - 1) / (n - m) + 1
  }

  /** The least total wait of such a window. */
  function LeastTotal(m: nat, n: nat): nat
    requires 0 < m < n
  {
    m * (LeastWait(m, n) + 1)
  }

  lemma LeastWaitIs(m: nat, n: nat, w: nat)
    requires 0 < m < n
    ensures (n - m) * w >= m <==> w >= LeastWait(m, n)
  {
    var d, q, r := n - m, (m - 1) / (n - m), (m - 1) % (n - m);
    assert m - 1 == d * q + r;
    if w >= q + 1 {
      ScaleLe(q + 1, w, d);
      assert (q + 1) * d == q * d + d;
    } else {
      ScaleLe(w, q, d);
    }
  }

  lemma LeastTotalFits(m: nat, n: nat)
    requires 0 < m < n
    ensures LeastTotal(m, n) <= n * LeastWait(m, n) && LeastWait(m, n) < LeastTotal(m, n)
  {
    var w := LeastWait(m, n);
    LeastWaitIs(m, n, w);
    assert m * (w + 1) == m * w + m;
    assert n * w == m * w + (n - m) * w;
    ScaleLe(1, m, w + 1);
  }

  lemma Quotient(total: nat, m: nat, w: nat)
    requires m > 0
    ensures total / m > w <==> total >= m * (w + 1)
  {
    var q, r := total / m, total % m;
    assert total == q * m + r;
    assert m * (w + 1) == w * m + m;
    if q > w {
      ScaleLe(w + 1, q, m);
      assert (w + 1) * m == w * m + m;
    } else {
      ScaleLe(q, w, m);
    }
  }

  /** Waits of n completions that average above their maximum over m issues. */
  lemma OverrunNeedsLeastTotal(m: nat, n: nat, total: nat, max: nat)
    requires 0 < m < n && total <= n * max && total / m > max
    ensures total >= LeastTotal(m, n)
  {
    var w := LeastWait(m, n);
    Quotient(total, m, max);
    assert n * max == m * max + (n - m) * max;
    assert m * (max + 1) == m * max + m;
    LeastWaitIs(m, n, max);
    ScaleLe(w + 1, max + 1, m);
  }

  // ---------- windows that cannot exceed it ----------

  /** What a window with these counts holds. */
  lemma WindowHolds(target: u32, cpus: nat, trace: seq<Label>, m: nat, n: nat)
    requires WindowWith(target, cpus, trace, m, n)
    ensures var d := Window(target, cpus, trace);
            && d.blockCount == m && d.blockTotalWaitNs <= n * d.blockMaxWaitNs
            && (n <= m ==> AverageWithin(target, cpus, trace))
  {
    hide Run, Step, SampleTimes, SumTallies, TalliesAt, Delta, Wrapped, Fits, Grows, Before, After, BlockAvg;
    FlushShowsDelta(target, cpus, trace);
    SnapshotsGrow(target, cpus, trace);
    BlockDelta(Before(target, cpus, trace), After(target, cpus, trace));
  }

  lemma WithinUnlessOverrun(target: u32, cpus: nat, trace: seq<Label>, m: nat, n: nat)
    requires WindowWith(target, cpus, trace, m, n)
    requires n <= m || m == 0 || LeastTotal(m, n) >= TWO64
    ensures AverageWithin(target, cpus, trace)
  {
    hide WindowWith, Window, LeastTotal;
    WindowHolds(target, cpus, trace, m, n);
    var d := Window(target, cpus, trace);
    if 0 < m < n && d.blockTotalWaitNs / m > d.blockMaxWaitNs {
      OverrunNeedsLeastTotal(m, n, d.blockTotalWaitNs, d.blockMaxWaitNs);
    }
  }

  // ---------- a window for every pair of counts ----------

  /** When the n-th request completes and the next one is issued: each takes w,
      until the waits add up to `total`, and nothing after that. */
  function At(n: nat, w: u64, total: u64): u64 { if n == 0 then 0 else Min(At(n - 1, w, total) + w, total) }

  function Issue(m: nat, n: nat, now: u64): Label { BlockIssue(now, if n <= m then 1 else 0, 1, 1, 1, 0, true) }

  function Completion(now: u64): Label { BlockComplete(now, 1, 1, 1) }

  /** n requests, one after the other, all completed on CPU 1, after CPU 0 was
      sampled. The first m are issued on CPU 1, and so count in this window; the
      others on CPU 0, and count in the next. */
  function Requests(m: nat, n: nat, w: u64, total: u64): seq<Label> {
    if n == 0 then [Sample]
    else
      Requests(m, n - 1, w, total) + [Issue(m, n, At(n - 1, w, total))] + [Completion(At(n, w, total))]
  }

  /** What they leave on CPU 1. */
  function Late(m: nat, n: nat, w: u64, total: u64): Tally {
    Tally(0, 0, 0, Min(m, n), 0, n, At(n, w, total), if n == 0 then 0 else Min(w, total))
  }

  function LateWindow(m: nat, n: nat, w: u64, total: u64): seq<Label> { Requests(m, n, w, total) + [Sample] }

  lemma {:induction false} AtIs(n: nat, w: u64, total: u64)
    ensures At(n, w, total) == Min(n * w, total)
  {
    if n > 0 {
      AtIs(n - 1, w, total);
      assert n * w == (n - 1) * w + w;
    }
  }

  lemma MonotoneTwo(t: seq<Label>, l: Label, l': Label)
    requires MonotoneClock(t) && Fires(l) && Fires(l') && l.now <= l'.now
    requires forall i :: 0 <= i < |t| && Fires(t[i]) ==> t[i].now <= l.now
    ensures MonotoneClock(t + [l] + [l'])
    ensures forall i :: 0 <= i < |t| + 2 && Fires((t + [l] + [l'])[i]) ==> (t + [l] + [l'])[i].now <= l'.now
  {
  }

  /** The clock of these requests never goes back. */
  lemma {:induction false} RequestsAreMonotone(m: nat, n: nat, w: u64, total: u64)
    ensures var t := Requests(m, n, w, total);
            MonotoneClock(t) && forall i :: 0 <= i < |t| && Fires(t[i]) ==> t[i].now <= At(n, w, total)
  {
    if n > 0 {
      RequestsAreMonotone(m, n - 1, w, total);
      hide Requests;
      var now, done := At(n - 1, w, total), At(n, w, total);
      MonotoneTwo(Requests(m, n - 1, w, total), Issue(m, n, now), Completion(done));
    }
  }

  lemma RunSnoc(trace: seq<Label>, l: Label)
    ensures Run(1, 2, trace + [l]) == Step(1, Run(1, 2, trace), l)
  {
    assert (trace + [l])[..|trace|] == trace;
  }

  lemma TallySnoc(trace: seq<Label>, l: Label, c: nat)
    ensures var t := TallyOn(1, 2, trace, c);
            TallyOn(1, 2, trace + [l], c) == if OnCpu(l, c) then Add(t, BumpOf(1, Run(1, 2, trace), l)) else t
  {
    hide Run, Add, BumpOf;
    assert (trace + [l])[..|trace|] == trace;
  }

  lemma TimesSnoc(trace: seq<Label>, l: Label)
    ensures var t := SampleTimes(2, trace);
            SampleTimes(2, trace + [l])
            == if l.Sample? && |t.partial| < 2 then Times(t.last, t.partial + [|trace|])
               else if l.Flush? && |t.partial| == 2 then Times(t.partial, [])
               else t
  {
    assert (trace + [l])[..|trace|] == trace;
  }

  lemma StepInflight(s: State, l: Label)
    ensures Step(1, s, l).inflight == InflightAfter(1, s, l)
  {
    hide InflightAfter;
  }

  lemma InflightAfterIssue(trace: seq<Label>, m: nat, n: nat, now: u64)
    requires Run(1, 2, trace).inflight == map[]
    ensures Run(1, 2, trace + [Issue(m, n, now)]).inflight == map[BlockKey(1, 1) := now]
  {
    hide Run, Step;
    RunSnoc(trace, Issue(m, n, now));
    StepInflight(Run(1, 2, trace), Issue(m, n, now));
  }

  /** One request leaves nothing in flight and is counted where it says. */
  lemma OneRequest(trace: seq<Label>, m: nat, n: nat, now: u64, done: u64)
    requires Run(1, 2, trace).inflight == map[]
    ensures var t, before := trace + [Issue(m, n, now)] + [Completion(done)], TallyOn(1, 2, trace, 1);
            && Run(1, 2, t).inflight == map[]
            && TallyOn(1, 2, t, 1) == Add(if n <= m then Add(before, Issued(0)) else before, Waited(SatSub(done, now)))
            && SampleTimes(2, t) == SampleTimes(2, trace)
  {
    hide Run, Step, Add, TallyOn, SampleTimes;
    var t := trace + [Issue(m, n, now)];
    InflightAfterIssue(trace, m, n, now);
    RunSnoc(t, Completion(done));
    TallySnoc(trace, Issue(m, n, now), 1);
    TallySnoc(t, Completion(done), 1);
    TimesSnoc(trace, Issue(m, n, now));
    TimesSnoc(t, Completion(done));
    StepInflight(Run(1, 2, t), Completion(done));
    assert Remove(map[BlockKey(1, 1) := now], BlockKey(1, 1)) == map[];
  }

  lemma AtStart(none: seq<Label>)
    requires none == []
    ensures Run(1, 2, none).inflight == map[]
    ensures TallyOn(1, 2, none, 0) == NONE && TallyOn(1, 2, none, 1) == NONE
    ensures SampleTimes(2, none) == Times([0, 0], [])
  {
    hide Step;
  }

  lemma AfterFirstSample(m: nat, w: u64, total: u64)
    ensures var t := Requests(m, 0, w, total);
            && Run(1, 2, t).inflight == map[]
            && TallyOn(1, 2, t, 1) == NONE
            && SampleTimes(2, t) == Times([0, 0], [0])
  {
    hide Run, Step, TallyOn, SampleTimes, Add, BumpOf;
    var none: seq<Label> := [];
    AtStart(none);
    RunSnoc(none, Sample);
    StepInflight(Run(1, 2, none), Sample);
    TallySnoc(none, Sample, 1);
    TimesSnoc(none, Sample);
    assert Requests(m, 0, w, total) == none + [Sample];
  }

  lemma {:induction false} AfterRequests(m: nat, n: nat, w: u64, total: u64)
    ensures var t := Requests(m, n, w, total);
            && Run(1, 2, t).inflight == map[]
            && TallyOn(1, 2, t, 1) == Late(m, n, w, total)
            && SampleTimes(2, t) == Times([0, 0], [0])
  {
    hide Run, Step, TallyOn, SampleTimes, Issue, Completion;
    if n == 0 {
      AfterFirstSample(m, w, total);
    } else {
      AfterRequests(m, n - 1, w, total);
      OneRequest(Requests(m, n - 1, w, total), m, n, At(n - 1, w, total), At(n, w, total));
      hide Requests;
    }
  }

  lemma PlusNone(y: Tally)
    ensures PlusTally(NONE, y) == y
  {
    assert Max(0, y.engineMax) == y.engineMax && Max(0, y.waitMax) == y.waitMax;
    hide Max;
  }

  lemma SumOfTwo(x: Tally, y: Tally)
    ensures SumTallies([x, y]) == PlusTally(PlusTally(NONE, x), y)
  {
    assert [x, y][..1] == [x] && [x][..0] == [];
    assert SumTallies([x]) == PlusTally(SumTallies([x][..0]), x);
  }

  lemma LateTimes(m: nat, n: nat, w: u64, total: u64)
    ensures SampleTimes(2, LateWindow(m, n, w, total)) == Times([0, 0], [0, |Requests(m, n, w, total)|])
  {
    hide Run, TallyOn, SampleTimes, Requests;
    AfterRequests(m, n, w, total);
    TimesSnoc(Requests(m, n, w, total), Sample);
  }

  lemma LateTallies(m: nat, n: nat, w: u64, total: u64)
    ensures TalliesAt(1, 2, LateWindow(m, n, w, total), [0, |Requests(m, n, w, total)|]) == [NONE, Late(m, n, w, total)]
  {
    hide Run, TallyOn, SampleTimes, Requests, Late;
    var t, trace := Requests(m, n, w, total), LateWindow(m, n, w, total);
    AfterRequests(m, n, w, total);
    AtStart(trace[..0]);
    assert trace[..|t|] == t;
  }

  /** What the two snapshots around the late window stand for. */
  lemma LateWindowTallies(m: nat, n: nat, w: u64, total: u64)
    ensures |SampleTimes(2, LateWindow(m, n, w, total)).partial| == 2
    ensures Before(1, 2, LateWindow(m, n, w, total)) == NONE
    ensures After(1, 2, LateWindow(m, n, w, total)) == Late(m, n, w, total)
  {
    hide Run, Step, SampleTimes, SumTallies, TalliesAt, PlusTally, Requests, LateWindow, Late;
    LateTimes(m, n, w, total);
    LateTallies(m, n, w, total);
    SumOfTwo(NONE, Late(m, n, w, total));
    PlusNone(NONE);
    PlusNone(Late(m, n, w, total));
    SumOfNothing(1, 2, LateWindow(m, n, w, total), [0, 0]);
  }

  /** Its counters, as printed. */
  lemma LateDelta(m: nat, n: nat, w: u64, total: u64)
    requires 0 < m < n && m < TWO64 && w <= total && At(n, w, total) == total
    ensures var d := Delta(Wrapped(NONE), Wrapped(Late(m, n, w, total)));
            d.blockCount == m && d.blockTotalWaitNs == total && d.blockMaxWaitNs == w
    ensures Fits(NONE, Late(m, n, w, total))
  {
    hide At;
  }

  lemma SamplesShow(trace: seq<Label>)
    requires |SampleTimes(2, trace).partial| == 2
    ensures Window(1, 2, trace) == Delta(Wrapped(Before(1, 2, trace)), Wrapped(After(1, 2, trace)))
  {
    hide Run, Step, SampleTimes, Delta, Wrapped, SumTallies, TalliesAt;
    FlushShowsDelta(1, 2, trace);
  }

  /** The late window has the counts it was built for, and the waits. */
  lemma LateWindowHolds(m: nat, n: nat, w: u64, total: u64)
    requires 0 < m < n && m < TWO64 && w <= total && At(n, w, total) == total
    ensures WindowWith(1, 2, LateWindow(m, n, w, total), m, n)
    ensures var d := Window(1, 2, LateWindow(m, n, w, total));
            d.blockCount == m && d.blockTotalWaitNs == total && d.blockMaxWaitNs == w
  {
    LateDelta(m, n, w, total);
    hide Run, Step, SampleTimes, SumTallies, TalliesAt, LateWindow, At, Before, After, Window, Delta, Wrapped, Fits;
    LateWindowTallies(m, n, w, total);
    SamplesShow(LateWindow(m, n, w, total));
  }

  lemma LeastAreWords(m: nat, n: nat)
    requires 0 < m < n && LeastTotal(m, n) < TWO64
    ensures m < TWO64 && LeastWait(m, n) < LeastTotal(m, n)
    ensures At(n, LeastWait(m, n), LeastTotal(m, n)) == LeastTotal(m, n)
    ensures LeastTotal(m, n) / m > LeastWait(m, n)
  {
    LeastTotalFits(m, n);
    AtIs(n, LeastWait(m, n), LeastTotal(m, n));
    Quotient(LeastTotal(m, n), m, LeastWait(m, n));
    ScaleLe(1, LeastWait(m, n) + 1, m);
    hide LeastWait, At;
  }

  /** The run that overruns with the least total wait. */
  function Overrun(m: nat, n: nat): seq<Label>
    requires 0 < m < n && LeastTotal(m, n) < TWO64
  {
    LeastTotalFits(m, n);
    LateWindow(m, n, LeastWait(m, n), LeastTotal(m, n))
  }

  lemma OverrunIsMonotone(m: nat, n: nat)
    requires 0 < m < n && LeastTotal(m, n) < TWO64
    ensures MonotoneClock(Overrun(m, n))
  {
    LeastTotalFits(m, n);
    RequestsAreMonotone(m, n, LeastWait(m, n), LeastTotal(m, n));
    hide Requests, LeastWait, LeastTotal;
  }

  /** A window can report a block average above its maximum. For all counts of
      issues and completions with more completions than issues and at least one
      issue, there is a run with such a window, unless the waits it needs do not
      fit in 64 bits. Requests issued on a CPU after it was sampled count in the
      next window, but may complete in this one. */
  lemma BlockAverageCanExceedMax(m: nat, n: nat)
    requires 0 < m < n && LeastTotal(m, n) < TWO64
    ensures MonotoneClock(Overrun(m, n))
    ensures WindowWith(1, 2, Overrun(m, n), m, n) && !AverageWithin(1, 2, Overrun(m, n))
  {
    hide LeastWait, LeastTotal, LateWindow, WindowWith, Window, MonotoneClock, At;
    OverrunIsMonotone(m, n);
    LeastAreWords(m, n);
    LateWindowHolds(m, n, LeastWait(m, n), LeastTotal(m, n));
  }

  /** Main result. Which counts guarantee, in every run with a monotonic clock,
      that the block average is within the reported maximum: exactly those with
      no more completions than issues, with no issue at all, or so large that the
      waits needed to exceed it do not fit in 64 bits. */
  lemma BlockAverageBoundIsExact(m: nat, n: nat)
    ensures AveragesWithinMax(m, n) <==> n <= m || m == 0 || m * ((m - 1) / (n - m) + 2) >= TWO64
  {
    hide WindowWith, AverageWithin, MonotoneClock;
    if n <= m || m == 0 || LeastTotal(m, n) >= TWO64 {
      forall target: u32, cpus: nat, trace: seq<Label> | WindowWith(target, cpus, trace, m, n)
        ensures AverageWithin(target, cpus, trace)
      {
        WithinUnlessOverrun(target, cpus, trace, m, n);
      }
    } else {
      BlockAverageCanExceedMax(m, n);
    }
  }
}

/** Where every count, byte and nanosecond of the page-I/O counters comes from, in
    terms of the firings alone. */
module PageIoProvenance {
  import opened Machine
  import opened PageIo
  import opened PageIoTotals

  /** A firing of the traced process; tracing needs a target. */
  predicate OfTarget(target: u32, tgid: u32) { target != 0 && tgid == target }

  predicate Takes<K, V>(m: map<K, V>, k: K, cap: nat, ok: bool) { ok && (k in m || |m| < cap) }

  /** Elapsed time, zero if the clock went back. */
  function Elapsed(start: u64, now: u64): u64 { if start <= now then now - start else 0 }

  // ---------- what each firing does to the two maps ----------

  /** This step records a page fetch of the thread. */
  predicate RecordsFetch(target: u32, s: State, l: Label, tid: u32) {
    l.FetchEntry? && l.tid == tid && OfTarget(target, l.tgid) && Takes(s.fetching, tid, 8192, l.ok)
  }

  predicate EndsFetch(l: Label, tid: u32) { l.FetchExit? && l.tid == tid }

  lemma FetchingStep(target: u32, s: State, l: Label, tid: u32)
    ensures var after := Step(target, s, l).fetching;
            if RecordsFetch(target, s, l, tid) then tid in after && after[tid].startTs == l.now
            else if EndsFetch(l, tid) then tid !in after
            else (tid in after <==> tid in s.fetching) && (tid in after ==> after[tid] == s.fetching[tid])
  {
    assert Step(target, s, l).fetching == FetchingAfter(target, s, l);
    hide Step;
  }

  /** This step records a request for the block. */
  predicate RecordsRequest(target: u32, s: State, l: Label, k: BlockKey) {
    && l.BlockIssue? && BlockKey(l.dev, l.sector) == k && OfTarget(target, l.tgid)
    && Takes(s.inflight, k, 16384, l.ok)
  }

  predicate EndsRequest(l: Label, k: BlockKey) { l.BlockComplete? && BlockKey(l.dev, l.sector) == k }

  lemma InflightOfStep(target: u32, s: State, l: Label, k: BlockKey)
    ensures var after := Step(target, s, l).inflight;
            if RecordsRequest(target, s, l, k) then k in after && after[k] == l.now
            else if EndsRequest(l, k) then k !in after
            else (k in after <==> k in s.inflight) && (k in after ==> after[k] == s.inflight[k])
  {
    assert Step(target, s, l).inflight == InflightAfter(target, s, l);
    hide Step;
  }

  // ---------- over whole runs ----------

  predicate PassesFetch(target: u32, cpus: nat, trace: seq<Label>, tid: u32, m: nat)
    requires m < |trace|
  {
    !RecordsFetch(target, Run(target, cpus, trace[..m]), trace[m], tid) && !EndsFetch(trace[m], tid)
  }

  /** Firing i recorded a fetch of the thread, and since then the thread has
      neither recorded another nor returned from one. */
  predicate LatestFetch(target: u32, cpus: nat, trace: seq<Label>, tid: u32, i: nat) {
    && i < |trace| && RecordsFetch(target, Run(target, cpus, trace[..i]), trace[i], tid)
    && forall m :: i < m < |trace| ==> PassesFetch(target, cpus, trace, tid, m)
  }

  /** The index of that firing, if there is one. */
  function FetchSince(target: u32, cpus: nat, trace: seq<Label>, tid: u32): (r: Option<nat>)
    ensures r.Some? ==> r.value < |trace| && trace[r.value].FetchEntry?
  {
    if |trace| == 0 then None
    else
      var n := |trace| - 1;
      if RecordsFetch(target, Run(target, cpus, trace[..n]), trace[n], tid) then Some(n)
      else if EndsFetch(trace[n], tid) then None
      else FetchSince(target, cpus, trace[..n], tid)
  }

  lemma FetchPrefix(target: u32, cpus: nat, trace: seq<Label>, tid: u32, i: nat)
    requires |trace| > 0 && i < |trace| - 1
    ensures var n := |trace| - 1;
            LatestFetch(target, cpus, trace, tid, i)
            <==> LatestFetch(target, cpus, trace[..n], tid, i) && PassesFetch(target, cpus, trace, tid, n)
  {
    hide Run, RecordsFetch, EndsFetch;
    var n := |trace| - 1;
    var before := trace[..n];
    assert before[..i] == trace[..i];
    forall m | 0 <= m < n
      ensures PassesFetch(target, cpus, before, tid, m) == PassesFetch(target, cpus, trace, tid, m)
    {
      assert before[..m] == trace[..m];
    }
  }

  lemma {:induction false} FetchSinceIsLatest(target: u32, cpus: nat, trace: seq<Label>, tid: u32, i: nat)
    ensures LatestFetch(target, cpus, trace, tid, i) <==> FetchSince(target, cpus, trace, tid) == Some(i)
  {
    hide Run, RecordsFetch, EndsFetch;
    if |trace| > 0 {
      var n := |trace| - 1;
      FetchSinceIsLatest(target, cpus, trace[..n], tid, i);
      if i < n {
        FetchPrefix(target, cpus, trace, tid, i);
        hide LatestFetch;
      }
    }
  }

  /** A thread is in a recorded fetch exactly when it has such an entry, and the map
      holds that entry's time. */
  lemma {:induction false} FetchingIsLatest(target: u32, cpus: nat, trace: seq<Label>, tid: u32)
    ensures tid in Run(target, cpus, trace).fetching <==> FetchSince(target, cpus, trace, tid).Some?
    ensures tid in Run(target, cpus, trace).fetching ==>
              Run(target, cpus, trace).fetching[tid].startTs == trace[FetchSince(target, cpus, trace, tid).value].now
  {
    if |trace| > 0 {
      var n := |trace| - 1;
      var s := Run(target, cpus, trace[..n]);
      assert Run(target, cpus, trace) == Step(target, s, trace[n]);
      hide Run, Step, RecordsFetch, EndsFetch;
      FetchingIsLatest(target, cpus, trace[..n], tid);
      FetchingStep(target, s, trace[n], tid);
    }
  }

  predicate PassesRequest(target: u32, cpus: nat, trace: seq<Label>, k: BlockKey, m: nat)
    requires m < |trace|
  {
    !RecordsRequest(target, Run(target, cpus, trace[..m]), trace[m], k) && !EndsRequest(trace[m], k)
  }

  /** Firing i recorded a request for the block, and since then none was recorded
      or completed. */
  predicate LatestRequest(target: u32, cpus: nat, trace: seq<Label>, k: BlockKey, i: nat) {
    && i < |trace| && RecordsRequest(target, Run(target, cpus, trace[..i]), trace[i], k)
    && forall m :: i < m < |trace| ==> PassesRequest(target, cpus, trace, k, m)
  }

  /** The index of that firing, if there is one. */
  function RequestSince(target: u32, cpus: nat, trace: seq<Label>, k: BlockKey): (r: Option<nat>)
    ensures r.Some? ==> r.value < |trace| && trace[r.value].BlockIssue?
  {
    if |trace| == 0 then None
    else
      var n := |trace| - 1;
      if RecordsRequest(target, Run(target, cpus, trace[..n]), trace[n], k) then Some(n)
      else if EndsRequest(trace[n], k) then None
      else RequestSince(target, cpus, trace[..n], k)
  }

  lemma RequestPrefix(target: u32, cpus: nat, trace: seq<Label>, k: BlockKey, i: nat)
    requires |trace| > 0 && i < |trace| - 1
    ensures var n := |trace| - 1;
            LatestRequest(target, cpus, trace, k, i)
            <==> LatestRequest(target, cpus, trace[..n], k, i) && PassesRequest(target, cpus, trace, k, n)
  {
    hide Run, RecordsRequest, EndsRequest;
    var n := |trace| - 1;
    var before := trace[..n];
    assert before[..i] == trace[..i];
    forall m | 0 <= m < n
      ensures PassesRequest(target, cpus, before, k, m) == PassesRequest(target, cpus, trace, k, m)
    {
      assert before[..m] == trace[..m];
    }
  }

  lemma {:induction false} RequestSinceIsLatest(target: u32, cpus: nat, trace: seq<Label>, k: BlockKey, i: nat)
    ensures LatestRequest(target, cpus, trace, k, i) <==> RequestSince(target, cpus, trace, k) == Some(i)
  {
    hide Run, RecordsRequest, EndsRequest;
    if |trace| > 0 {
      var n := |trace| - 1;
      RequestSinceIsLatest(target, cpus, trace[..n], k, i);
      if i < n {
        RequestPrefix(target, cpus, trace, k, i);
        hide LatestRequest;
      }
    }
  }

  /** The same for requests in flight. */
  lemma {:induction false} InflightIsLatest(target: u32, cpus: nat, trace: seq<Label>, k: BlockKey)
    ensures k in Run(target, cpus, trace).inflight <==> RequestSince(target, cpus, trace, k).Some?
    ensures k in Run(target, cpus, trace).inflight ==>
              Run(target, cpus, trace).inflight[k] == trace[RequestSince(target, cpus, trace, k).value].now
  {
    if |trace| > 0 {
      var n := |trace| - 1;
      var s := Run(target, cpus, trace[..n]);
      assert Run(target, cpus, trace) == Step(target, s, trace[n]);
      hide Run, Step, RecordsRequest, EndsRequest;
      InflightIsLatest(target, cpus, trace[..n], k);
      InflightOfStep(target, s, trace[n], k);
    }
  }

  // ---------- what each firing adds to its CPU's totals ----------

  /** Two tallies agree on everything about fetches. */
  predicate SameEngine(a: Tally, b: Tally) {
    a.engineCount == b.engineCount && a.engineTotal == b.engineTotal && a.engineMax == b.engineMax
  }

  predicate SameIssues(a: Tally, b: Tally) { a.blockCount == b.blockCount && a.bytes == b.bytes }

  predicate SameWaits(a: Tally, b: Tally) {
    a.completions == b.completions && a.wait == b.wait && a.waitMax == b.waitMax
  }

  lemma TallySnoc(target: u32, cpus: nat, trace: seq<Label>, l: Label, c: nat)
    ensures var t := TallyOn(target, cpus, trace, c);
            TallyOn(target, cpus, trace + [l], c)
            == if OnCpu(l, c) then Add(t, BumpOf(target, Run(target, cpus, trace), l)) else t
  {
    hide Run, Add, BumpOf;
    assert (trace + [l])[..|trace|] == trace;
  }

  /** A fetch return adds one fetch and the time since its thread's latest recorded
      entry, a firing of the target process, to the CPU it runs on; nothing at all
      if there is no such entry. */
  lemma FetchIsItsOwnTime(target: u32, cpus: nat, trace: seq<Label>, now: u64, cpu: nat, tid: u32)
    returns (i: Option<nat>)
    ensures i.Some? ==>
              && LatestFetch(target, cpus, trace, tid, i.value)
              && trace[i.value].FetchEntry? && trace[i.value].tid == tid && target != 0 && trace[i.value].tgid == target
    ensures i.None? ==> forall j: nat :: !LatestFetch(target, cpus, trace, tid, j)
    ensures var t := TallyOn(target, cpus, trace, cpu);
            var t' := TallyOn(target, cpus, trace + [FetchExit(now, cpu, tid)], cpu);
            if i.None? then t' == t
            else
              var ns := Elapsed(trace[i.value].now, now);
              && t'.engineCount == t.engineCount + 1 && t'.engineTotal == t.engineTotal + ns
              && t'.engineMax == (if ns > t.engineMax then ns else t.engineMax)
              && SameIssues(t, t') && SameWaits(t, t')
  {
    TallySnoc(target, cpus, trace, FetchExit(now, cpu, tid), cpu);
    FetchingIsLatest(target, cpus, trace, tid);
    i := FetchSince(target, cpus, trace, tid);
    forall j: nat ensures LatestFetch(target, cpus, trace, tid, j) <==> i == Some(j) {
      FetchSinceIsLatest(target, cpus, trace, tid, j);
    }
    hide Run, TallyOn, FetchSince, PassesFetch;
  }

  /** A completion adds the time since the latest recorded issue of its block, a
      firing of the target process, and nothing at all if there is none: it is
      matched by device and sector alone. */
  lemma WaitIsItsOwnTime(target: u32, cpus: nat, trace: seq<Label>, now: u64, cpu: nat, dev: u32, sector: u64)
    returns (i: Option<nat>)
    ensures i.Some? ==>
              && LatestRequest(target, cpus, trace, BlockKey(dev, sector), i.value)
              && trace[i.value].BlockIssue? && trace[i.value].dev == dev && trace[i.value].sector == sector
              && target != 0 && trace[i.value].tgid == target
    ensures i.None? ==> forall j: nat :: !LatestRequest(target, cpus, trace, BlockKey(dev, sector), j)
    ensures var t := TallyOn(target, cpus, trace, cpu);
            var t' := TallyOn(target, cpus, trace + [BlockComplete(now, cpu, dev, sector)], cpu);
            if i.None? then t' == t
            else
              var ns := Elapsed(trace[i.value].now, now);
              && t'.completions == t.completions + 1 && t'.wait == t.wait + ns
              && t'.waitMax == (if ns > t.waitMax then ns else t.waitMax)
              && SameEngine(t, t') && SameIssues(t, t')
  {
    var k := BlockKey(dev, sector);
    TallySnoc(target, cpus, trace, BlockComplete(now, cpu, dev, sector), cpu);
    InflightIsLatest(target, cpus, trace, k);
    i := RequestSince(target, cpus, trace, k);
    forall j: nat ensures LatestRequest(target, cpus, trace, k, j) <==> i == Some(j) {
      RequestSinceIsLatest(target, cpus, trace, k, j);
    }
    hide Run, TallyOn, RequestSince, PassesRequest;
  }

  /** An issue adds one request and its bytes exactly when it is of the target
      process, whether or not the in-flight map takes it; no other firing adds any. */
  lemma IssuesOfTargetCount(target: u32, cpus: nat, trace: seq<Label>, l: Label, cpu: nat)
    ensures var t, t' := TallyOn(target, cpus, trace, cpu), TallyOn(target, cpus, trace + [l], cpu);
            && (t'.blockCount == t.blockCount
                + if l.BlockIssue? && l.cpu == cpu && target != 0 && l.tgid == target then 1 else 0)
            && (t'.bytes == t.bytes
                + if l.BlockIssue? && l.cpu == cpu && target != 0 && l.tgid == target then l.bytes else 0)
            && (l.BlockIssue? ==> SameEngine(t, t') && SameWaits(t, t'))
            && (!(l.FetchExit? && l.cpu == cpu) ==> SameEngine(t, t'))
            && (!(l.BlockComplete? && l.cpu == cpu) ==> SameWaits(t, t'))
  {
    TallySnoc(target, cpus, trace, l, cpu);
    hide Run, TallyOn;
  }

  lemma FloorOf(total: nat, n: nat)
    requires n > 0
    ensures total / n * n <= total < (total / n + 1) * n
  {
    assert total == total / n * n + total % n;
    assert (total / n + 1) * n == total / n * n + n;
  }

  /** Averages are the floors of the true quotients, and zero without a count. */
  lemma AveragesAreFloors(c: Counters)
    ensures c.engineCount > 0 ==>
              EngineAvg(c) * c.engineCount <= c.engineTotalNs < (EngineAvg(c) + 1) * c.engineCount
    ensures c.blockCount > 0 ==>
              BlockAvg(c) * c.blockCount <= c.blockTotalWaitNs < (BlockAvg(c) + 1) * c.blockCount
    ensures c.engineCount == 0 ==> EngineAvg(c) == 0
    ensures c.blockCount == 0 ==> BlockAvg(c) == 0
  {
    if c.engineCount > 0 { FloorOf(c.engineTotalNs, c.engineCount); }
    if c.blockCount > 0 { FloorOf(c.blockTotalWaitNs, c.blockCount); }
  }
}

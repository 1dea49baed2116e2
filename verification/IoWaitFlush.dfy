/** What `flush_window` does with a drained snapshot: the idle filter, the
    aggregation by reason and stack, and the top stacks in milliseconds. */
module IoWaitFlush {
  import opened Machine
  import opened IoWait
  import opened Reasons
  import K = Kallsyms

  type Entry = (Key, u64)

  /** What a flush reads besides the snapshot: the stack-trace map, whose
      contents are fixed for the flush, and the kernel symbols. */
  datatype Env = Env(stacks: map<i32, seq<u64>>, syms: seq<K.Symbol>)

  function FramesOf(env: Env, stack: i32): seq<string>
    requires K.Sorted(env.syms)
  {
    if stack >= 0 && stack in env.stacks
    then seq(|env.stacks[stack]|, i requires 0 <= i < |env.stacks[stack]| => K.Lookup(env.syms, env.stacks[stack][i]))
    else []
  }

  function ReasonOf(env: Env, stack: i32): Reason
    requires K.Sorted(env.syms)
  {
    Classify(FramesOf(env, stack))
  }

  // ---------- idle filter ----------

  function Busy(snapshot: seq<Entry>, threshold: u64): seq<Entry> {
    if |snapshot| == 0 then []
    else
      var kept, e := Busy(snapshot[..|snapshot| - 1], threshold), snapshot[|snapshot| - 1];
      if e.1 < threshold then kept + [e] else kept
  }

  function Idle(snapshot: seq<Entry>, threshold: u64): seq<Entry> {
    if |snapshot| == 0 then []
    else
      var dropped, e := Idle(snapshot[..|snapshot| - 1], threshold), snapshot[|snapshot| - 1];
      if e.1 < threshold then dropped else dropped + [e]
  }

  /** Retained and excluded buckets are together exactly the drained snapshot,
      split at the threshold. */
  lemma {:induction false} FilterPartitions(snapshot: seq<Entry>, threshold: u64)
    ensures multiset(Busy(snapshot, threshold)) + multiset(Idle(snapshot, threshold)) == multiset(snapshot)
    ensures |Busy(snapshot, threshold)| + |Idle(snapshot, threshold)| == |snapshot|
    ensures forall e :: e in Busy(snapshot, threshold) ==> e.1 < threshold
    ensures forall e :: e in Idle(snapshot, threshold) ==> e.1 >= threshold
  {
    if |snapshot| > 0 {
      FilterPartitions(snapshot[..|snapshot| - 1], threshold);
      assert snapshot == snapshot[..|snapshot| - 1] + [snapshot[|snapshot| - 1]];
    }
  }

  method ExcludeIdle(snapshot: seq<Entry>, threshold: Option<u64>) returns (kept: seq<Entry>, excluded: nat)
    ensures kept == if threshold.Some? then Busy(snapshot, threshold.value) else snapshot
    ensures excluded == if threshold.Some? then |Idle(snapshot, threshold.value)| else 0
  {
    kept, excluded := snapshot, 0;
    if threshold.Some? {
      kept := [];
      for n := 0 to |snapshot|
        invariant kept == Busy(snapshot[..n], threshold.value)
      {
        assert snapshot[..n + 1][..n] == snapshot[..n];
        if snapshot[n].1 < threshold.value { kept := kept + [snapshot[n]]; }
      }
      assert snapshot[..|snapshot|] == snapshot;
      FilterPartitions(snapshot, threshold.value);
      excluded := |snapshot| - |kept|;
    }
  }

  // ---------- aggregation ----------

  datatype ReasonAgg = ReasonAgg(totalNs: u64, pids: set<u32>, byStack: map<i32, (u64, seq<string>)>)

  function AggStep(env: Env, aggs: map<Reason, ReasonAgg>, e: Entry): map<Reason, ReasonAgg>
    requires K.Sorted(env.syms)
  {
    var stack, frames := e.0.stack, FramesOf(env, e.0.stack);
    var reason := ReasonOf(env, stack);
    var agg := if reason in aggs then aggs[reason] else ReasonAgg(0, {}, map[]);
    var soFar := if stack in agg.byStack then agg.byStack[stack] else (0, frames);
    aggs[reason := ReasonAgg(SatAdd(agg.totalNs, e.1), agg.pids + {e.0.pid},
                           agg.byStack[stack := (SatAdd(soFar.0, e.1), soFar.1)])]
  }

  function AggAll(env: Env, entries: seq<Entry>): map<Reason, ReasonAgg>
    requires K.Sorted(env.syms)
  {
    if |entries| == 0 then map[]
    else AggStep(env, AggAll(env, entries[..|entries| - 1]), entries[|entries| - 1])
  }

  /** The aggregation loop, updating `by_reason` in place. */
  method Aggregate(env: Env, entries: seq<Entry>) returns (byReason: map<Reason, ReasonAgg>)
    requires K.Sorted(env.syms)
    ensures byReason == AggAll(env, entries)
  {
    byReason := map[];
    for n := 0 to |entries|
      invariant byReason == AggAll(env, entries[..n])
    {
      assert entries[..n + 1][..n] == entries[..n];
      var (key, ns) := entries[n];
      var frames := FramesOf(env, key.stack);
      var reason := Classify(frames);
      var agg := if reason in byReason then byReason[reason] else ReasonAgg(0, {}, map[]);
      var total := SatAdd(agg.totalNs, ns);
      var pids := agg.pids + {key.pid};
      var stackEntry := if key.stack in agg.byStack then agg.byStack[key.stack] else (0, frames);
      stackEntry := (SatAdd(stackEntry.0, ns), stackEntry.1);
      byReason := byReason[reason := ReasonAgg(total, pids, agg.byStack[key.stack := stackEntry])];
    }
    assert entries[..|entries|] == entries;
  }

  // ---------- what the aggregate means ----------

  function Total(entries: seq<Entry>, p: Entry -> bool): nat {
    if |entries| == 0 then 0
    else Total(entries[..|entries| - 1], p) + if p(entries[|entries| - 1]) then entries[|entries| - 1].1 else 0
  }

  function Count(entries: seq<Entry>, p: Entry -> bool): nat {
    if |entries| == 0 then 0
    else Count(entries[..|entries| - 1], p) + if p(entries[|entries| - 1]) then 1 else 0
  }

  function OfReason(env: Env, r: Reason): Entry -> bool
    requires K.Sorted(env.syms)
  {
    (e: Entry) => ReasonOf(env, e.0.stack) == r
  }

  function OfThread(env: Env, r: Reason, pid: u32): Entry -> bool
    requires K.Sorted(env.syms)
  {
    (e: Entry) => ReasonOf(env, e.0.stack) == r && e.0.pid == pid
  }

  function OfStack(stack: i32): Entry -> bool { (e: Entry) => e.0.stack == stack }

  function Saturated(n: nat): u64 { if n < TWO64 then n else TWO64 - 1 }

  ghost predicate ThreadMeans(env: Env, entries: seq<Entry>, pids: set<u32>, r: Reason, pid: u32)
    requires K.Sorted(env.syms)
  {
    pid in pids <==> Count(entries, OfThread(env, r, pid)) > 0
  }

  ghost predicate StackMeans(env: Env, entries: seq<Entry>, byStack: map<i32, (u64, seq<string>)>, r: Reason,
                             stack: i32)
    requires K.Sorted(env.syms)
  {
    && (stack in byStack <==> ReasonOf(env, stack) == r && Count(entries, OfStack(stack)) > 0)
    && (stack in byStack ==>
          byStack[stack] == (Saturated(Total(entries, OfStack(stack))), FramesOf(env, stack)))
  }

  /** The aggregate of reason r in terms of the entries, with no order in it:
      the saturated true sum, the set of threads, and the stacks classified as r. */
  ghost predicate AggMeans(env: Env, entries: seq<Entry>, aggs: map<Reason, ReasonAgg>, r: Reason)
    requires K.Sorted(env.syms)
  {
    && (r in aggs <==> Count(entries, OfReason(env, r)) > 0)
    && (r in aggs ==>
          && aggs[r].totalNs == Saturated(Total(entries, OfReason(env, r)))
          && (forall pid :: ThreadMeans(env, entries, aggs[r].pids, r, pid))
          && (forall stack :: StackMeans(env, entries, aggs[r].byStack, r, stack)))
  }

  lemma {:induction false} NoCountNoTotal(entries: seq<Entry>, p: Entry -> bool)
    requires Count(entries, p) == 0
    ensures Total(entries, p) == 0
  {
    if |entries| > 0 { NoCountNoTotal(entries[..|entries| - 1], p); }
  }

  /** Stacks of another reason are not counted under r. */
  lemma {:induction false} StackWithinReason(env: Env, entries: seq<Entry>, stack: i32)
    requires K.Sorted(env.syms)
    ensures Count(entries, OfStack(stack)) <= Count(entries, OfReason(env, ReasonOf(env, stack)))
  {
    if |entries| > 0 { StackWithinReason(env, entries[..|entries| - 1], stack); }
  }

  lemma {:induction false} ThreadWithinReason(env: Env, entries: seq<Entry>, r: Reason, pid: u32)
    requires K.Sorted(env.syms)
    ensures Count(entries, OfThread(env, r, pid)) <= Count(entries, OfReason(env, r))
  {
    if |entries| > 0 { ThreadWithinReason(env, entries[..|entries| - 1], r, pid); }
  }

  /** A reason not seen yet has no threads, stacks or time. */
  lemma UnseenReason(env: Env, entries: seq<Entry>, r: Reason)
    requires K.Sorted(env.syms) && Count(entries, OfReason(env, r)) == 0
    ensures Total(entries, OfReason(env, r)) == 0
    ensures forall pid :: ThreadMeans(env, entries, {}, r, pid)
    ensures forall stack :: StackMeans(env, entries, map[], r, stack)
  {
    NoCountNoTotal(entries, OfReason(env, r));
    hide FramesOf, ReasonOf, Count, Total;
    forall pid ensures ThreadMeans(env, entries, {}, r, pid) { ThreadWithinReason(env, entries, r, pid); }
    forall stack ensures StackMeans(env, entries, map[], r, stack) { StackWithinReason(env, entries, stack); }
  }

  lemma CountSnoc(entries: seq<Entry>, e: Entry, p: Entry -> bool)
    ensures Count(entries + [e], p) == Count(entries, p) + if p(e) then 1 else 0
    ensures Total(entries + [e], p) == Total(entries, p) + if p(e) then e.1 else 0
  {
    assert (entries + [e])[..|entries|] == entries;
  }

  lemma StackMeansStep(env: Env, entries: seq<Entry>, e: Entry, byStack: map<i32, (u64, seq<string>)>, r: Reason,
                       stack: i32)
    requires K.Sorted(env.syms) && ReasonOf(env, e.0.stack) == r
    requires StackMeans(env, entries, byStack, r, stack)
    ensures var soFar := if e.0.stack in byStack then byStack[e.0.stack] else (0, FramesOf(env, e.0.stack));
            StackMeans(env, entries + [e], byStack[e.0.stack := (SatAdd(soFar.0, e.1), soFar.1)], r, stack)
  {
    hide FramesOf, ReasonOf;
    CountSnoc(entries, e, OfStack(stack));
    if Count(entries, OfStack(stack)) == 0 { NoCountNoTotal(entries, OfStack(stack)); }
    hide Count, Total;
  }

  lemma AggregateStep(env: Env, entries: seq<Entry>, e: Entry, aggs: map<Reason, ReasonAgg>, r: Reason)
    requires K.Sorted(env.syms) && AggMeans(env, entries, aggs, r)
    ensures AggMeans(env, entries + [e], AggStep(env, aggs, e), r)
  {
    hide FramesOf, ReasonOf, Count, Total;
    var agg := if r in aggs then aggs[r] else ReasonAgg(0, {}, map[]);
    var aggs' := AggStep(env, aggs, e);
    CountSnoc(entries, e, OfReason(env, r));
    if r !in aggs { UnseenReason(env, entries, r); }
    forall pid ensures r in aggs' ==> ThreadMeans(env, entries + [e], aggs'[r].pids, r, pid) {
      CountSnoc(entries, e, OfThread(env, r, pid));
      assert ThreadMeans(env, entries, agg.pids, r, pid);
    }
    forall stack ensures r in aggs' ==> StackMeans(env, entries + [e], aggs'[r].byStack, r, stack) {
      assert StackMeans(env, entries, agg.byStack, r, stack);
      if ReasonOf(env, e.0.stack) == r {
        StackMeansStep(env, entries, e, agg.byStack, r, stack);
      } else {
        CountSnoc(entries, e, OfStack(stack));
      }
    }
  }

  /** What every reason's aggregate is, for every snapshot. */
  lemma {:induction false} AggregateMeaning(env: Env, entries: seq<Entry>, r: Reason)
    requires K.Sorted(env.syms)
    ensures AggMeans(env, entries, AggAll(env, entries), r)
  {
    if |entries| > 0 {
      var before, e := entries[..|entries| - 1], entries[|entries| - 1];
      assert entries == before + [e];
      AggregateMeaning(env, before, r);
      AggregateStep(env, before, e, AggAll(env, before), r);
      hide AggMeans, AggStep;
    }
  }

  // ---------- order independence and partition ----------

  lemma {:induction false} TotalConcat(x: seq<Entry>, y: seq<Entry>, p: Entry -> bool)
    ensures Total(x + y, p) == Total(x, p) + Total(y, p)
    ensures Count(x + y, p) == Count(x, p) + Count(y, p)
  {
    if |y| == 0 {
      assert x + y == x;
    } else {
      assert (x + y)[..|x + y| - 1] == x + y[..|y| - 1];
      TotalConcat(x, y[..|y| - 1], p);
    }
  }

  /** Taking out the entry at i. */
  lemma TotalWithout(y: seq<Entry>, i: nat, p: Entry -> bool)
    requires i < |y|
    ensures var y' := y[..i] + y[i + 1..];
            && Total(y, p) == Total(y', p) + (if p(y[i]) then y[i].1 else 0)
            && Count(y, p) == Count(y', p) + (if p(y[i]) then 1 else 0)
            && multiset(y) == multiset(y') + multiset{y[i]}
  {
    var x, z := y[..i], y[i + 1..];
    assert y == x + [y[i]] + z;
    TotalConcat(x + [y[i]], z, p);
    CountSnoc(x, y[i], p);
    TotalConcat(x, z, p);
  }

  /** Totals and counts see only the multiset of entries. */
  lemma {:induction false} TotalPermutation(x: seq<Entry>, y: seq<Entry>, p: Entry -> bool)
    requires multiset(x) == multiset(y)
    ensures Total(x, p) == Total(y, p) && Count(x, p) == Count(y, p)
  {
    if |x| == 0 {
      assert |multiset(y)| == 0;
    } else {
      var last := |x| - 1;
      assert x[last] in multiset(y);
      var i :| 0 <= i < |y| && y[i] == x[last];
      TotalWithout(x, last, p);
      TotalWithout(y, i, p);
      assert x[..last] + x[last + 1..] == x[..last];
      hide Total, Count;
      var y' := y[..i] + y[i + 1..];
      assert multiset(x[..last]) == multiset(x) - multiset{x[last]};
      assert multiset(y') == multiset(y) - multiset{y[i]};
      TotalPermutation(x[..last], y', p);
    }
  }

  lemma SameMeaning(env: Env, x: seq<Entry>, y: seq<Entry>, a: map<Reason, ReasonAgg>, b: map<Reason, ReasonAgg>,
                    r: Reason)
    requires K.Sorted(env.syms) && multiset(x) == multiset(y)
    requires AggMeans(env, x, a, r) && AggMeans(env, y, b, r)
    ensures r in a <==> r in b
    ensures r in a ==> a[r] == b[r]
  {
    hide FramesOf, ReasonOf, Count, Total;
    TotalPermutation(x, y, OfReason(env, r));
    if r in a {
      forall pid ensures pid in a[r].pids <==> pid in b[r].pids {
        TotalPermutation(x, y, OfThread(env, r, pid));
        assert ThreadMeans(env, x, a[r].pids, r, pid) && ThreadMeans(env, y, b[r].pids, r, pid);
      }
      assert a[r].pids == b[r].pids;
      forall stack
        ensures stack in a[r].byStack <==> stack in b[r].byStack
        ensures stack in a[r].byStack ==> a[r].byStack[stack] == b[r].byStack[stack]
      {
        TotalPermutation(x, y, OfStack(stack));
        assert StackMeans(env, x, a[r].byStack, r, stack) && StackMeans(env, y, b[r].byStack, r, stack);
      }
      assert a[r].byStack == b[r].byStack;
    }
  }

  /** Main result: the report does not depend on the order the map was drained in. */
  lemma AggregationIsOrderIndependent(env: Env, x: seq<Entry>, y: seq<Entry>)
    requires K.Sorted(env.syms) && multiset(x) == multiset(y)
    ensures AggAll(env, x) == AggAll(env, y)
  {
    var a, b := AggAll(env, x), AggAll(env, y);
    hide AggAll;
    forall r ensures r in a <==> r in b ensures r in a ==> a[r] == b[r] {
      AggregateMeaning(env, x, r);
      AggregateMeaning(env, y, r);
      SameMeaning(env, x, y, a, b, r);
    }
  }

  /** Each stack lands in exactly one reason. */
  lemma StackHasOneReason(env: Env, entries: seq<Entry>, stack: i32, r: Reason, q: Reason)
    requires K.Sorted(env.syms)
    requires var aggs := AggAll(env, entries);
             r in aggs && stack in aggs[r].byStack && q in aggs && stack in aggs[q].byStack
    ensures r == q == ReasonOf(env, stack)
  {
    AggregateMeaning(env, entries, r);
    AggregateMeaning(env, entries, q);
    hide AggAll, ReasonOf, FramesOf, Count, Total;
    var aggs := AggAll(env, entries);
    assert StackMeans(env, entries, aggs[r].byStack, r, stack) && StackMeans(env, entries, aggs[q].byStack, q, stack);
  }

  /** The four reasons share out the whole snapshot. */
  lemma {:induction false} ReasonsPartition(env: Env, entries: seq<Entry>)
    requires K.Sorted(env.syms)
    ensures Total(entries, (e: Entry) => true)
            == Total(entries, OfReason(env, BlockIo)) + Total(entries, OfReason(env, Futex))
               + Total(entries, OfReason(env, SchedDelay)) + Total(entries, OfReason(env, Other))
  {
    hide ReasonOf, FramesOf;
    if |entries| > 0 { ReasonsPartition(env, entries[..|entries| - 1]); }
  }

  // ---------- frames and reasons, in terms of the instruction pointers ----------

  /** Where an entry is counted. */
  predicate CountedUnder(aggs: map<Reason, ReasonAgg>, e: Entry, r: Reason) {
    r in aggs && e.0.stack in aggs[r].byStack && e.0.pid in aggs[r].pids
  }

  lemma {:induction false} EntryCounts(entries: seq<Entry>, e: Entry, p: Entry -> bool)
    requires e in entries && p(e)
    ensures Count(entries, p) > 0
  {
    var last := |entries| - 1;
    if entries[last] != e { EntryCounts(entries[..last], e, p); }
  }

  lemma CountedUnderItsReason(env: Env, entries: seq<Entry>, e: Entry)
    requires K.Sorted(env.syms) && e in entries
    ensures CountedUnder(AggAll(env, entries), e, ReasonOf(env, e.0.stack))
  {
    var r := ReasonOf(env, e.0.stack);
    AggregateMeaning(env, entries, r);
    hide AggAll, ReasonOf, FramesOf, Count, Total;
    EntryCounts(entries, e, OfStack(e.0.stack));
    EntryCounts(entries, e, OfReason(env, r));
    EntryCounts(entries, e, OfThread(env, r, e.0.pid));
    var aggs := AggAll(env, entries);
    assert StackMeans(env, entries, aggs[r].byStack, r, e.0.stack);
    assert ThreadMeans(env, entries, aggs[r].pids, r, e.0.pid);
  }

  lemma FramesAre(env: Env, stack: i32)
    requires K.Sorted(env.syms)
    ensures var frames := FramesOf(env, stack);
            if stack >= 0 && stack in env.stacks
            then
              && |frames| == |env.stacks[stack]|
              && forall i :: 0 <= i < |frames| ==> frames[i] == K.Lookup(env.syms, env.stacks[stack][i])
            else frames == []
  {
    hide K.Lookup;
  }

  /** A stack is reported with one name per instruction pointer, leaf first, in the
      order of the stack-trace map; a stack that could not be captured or is not in
      that map has none. */
  lemma ReportedFrames(env: Env, entries: seq<Entry>, r: Reason, stack: i32)
    requires K.Sorted(env.syms)
    requires r in AggAll(env, entries) && stack in AggAll(env, entries)[r].byStack
    ensures var frames := AggAll(env, entries)[r].byStack[stack].1;
            if stack >= 0 && stack in env.stacks
            then
              && |frames| == |env.stacks[stack]|
              && forall i :: 0 <= i < |frames| ==> frames[i] == K.Lookup(env.syms, env.stacks[stack][i])
            else frames == []
  {
    AggregateMeaning(env, entries, r);
    FramesAre(env, stack);
    hide AggAll, ReasonOf, FramesOf, Count, Total, K.Lookup;
    assert StackMeans(env, entries, AggAll(env, entries)[r].byStack, r, stack);
  }

  /** Main result. An entry is counted under the reason of the first instruction
      pointer of its stack, from the leaf, whose symbol names block I/O or a futex. */
  lemma LeafMostPointerDecides(env: Env, entries: seq<Entry>, e: Entry, i: nat)
    requires K.Sorted(env.syms) && e in entries && e.0.stack >= 0 && e.0.stack in env.stacks
    requires var ips := env.stacks[e.0.stack];
             && i < |ips| && Specific(K.Lookup(env.syms, ips[i]))
             && forall j :: 0 <= j < i ==> !Specific(K.Lookup(env.syms, ips[j]))
    ensures var r := if IsBlockIo(K.Lookup(env.syms, env.stacks[e.0.stack][i])) then BlockIo else Futex;
            CountedUnder(AggAll(env, entries), e, r)
  {
    FramesAre(env, e.0.stack);
    CountedUnderItsReason(env, entries, e);
    hide AggAll, FramesOf, K.Lookup, Specific, IsBlockIo, Classify, CountedUnder;
    LeafMostSpecificDecides(FramesOf(env, e.0.stack), i);
  }

  /** Without such a pointer, an entry is counted as scheduler delay if some pointer
      of its stack names the scheduler, and otherwise as other. */
  lemma NoSpecificPointer(env: Env, entries: seq<Entry>, e: Entry)
    requires K.Sorted(env.syms) && e in entries && e.0.stack >= 0 && e.0.stack in env.stacks
    requires forall ip :: ip in env.stacks[e.0.stack] ==> !Specific(K.Lookup(env.syms, ip))
    ensures var r := if exists ip :: ip in env.stacks[e.0.stack] && IsSchedule(K.Lookup(env.syms, ip))
                     then SchedDelay else Other;
            CountedUnder(AggAll(env, entries), e, r)
  {
    var frames, ips := FramesOf(env, e.0.stack), env.stacks[e.0.stack];
    FramesAre(env, e.0.stack);
    CountedUnderItsReason(env, entries, e);
    hide AggAll, FramesOf, K.Lookup, Specific, IsSchedule, Classify, CountedUnder;
    assert forall i :: 0 <= i < |frames| ==> ips[i] in ips && !Specific(frames[i]);
    NoSpecificMeansScheduleOrOther(frames);
    if ip :| ip in ips && IsSchedule(K.Lookup(env.syms, ip)) {
      var i :| 0 <= i < |ips| && ips[i] == ip;
      assert IsSchedule(frames[i]);
    }
  }

  /** An entry whose stack was not captured, or is not in the map, is other. */
  lemma NoStackIsOther(env: Env, entries: seq<Entry>, e: Entry)
    requires K.Sorted(env.syms) && e in entries && (e.0.stack < 0 || e.0.stack !in env.stacks)
    ensures CountedUnder(AggAll(env, entries), e, Other)
  {
    FramesAre(env, e.0.stack);
    CountedUnderItsReason(env, entries, e);
    hide AggAll, FramesOf, CountedUnder;
    assert Classify([]) == Other;
  }
}

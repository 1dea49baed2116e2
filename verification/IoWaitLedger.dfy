/** Every nanosecond a wakeup matches to a sleep is accounted for. */
module IoWaitLedger {
  import opened Machine
  import Slots
  import opened IoWait

  // ---------- the ledger of a run, per bucket key ----------

  /** Time charged to k by this step; zero unless a wakeup ends a recorded sleep. */
  function ChargeTo(s: State, l: Label, k: Key): nat {
    if Matches(s, l) && ChargedKey(s, l) == k then Charge(s, l) else 0
  }

  /** Entry k has been copied to the snapshot but not yet removed from the map. */
  predicate Pending(s: State, k: Key) {
    match s.phase
    case Quiet => false
    case Reading => InSnapshot(s.snapshot, k)
    case Removing(n) => n <= |s.snapshot| && InSnapshot(s.snapshot[n..], k)
  }

  predicate Accepted(s: State, l: Label, k: Key) {
    l.OnWakeup? && Stored(Kernel, s.buckets, k, BUCKETS_MAX, l.ok)
  }

  /** This step is the drain's removal of k. */
  predicate Removes(s: State, l: Label, k: Key) {
    l.RemoveNext? && s.phase.Removing? && s.phase.n < |s.snapshot| && s.snapshot[s.phase.n].0 == k
  }

  /** This step copies k into the snapshot, unless it already was. */
  predicate Reads(s: State, l: Label, k: Key) {
    l.ReadEntry? && s.phase.Reading? && l.key == k && k in s.buckets
  }

  /** All time matched to k. */
  function Matched(target: u32, trace: seq<Label>, k: Key): nat {
    if |trace| == 0 then 0
    else
      var before, l := trace[..|trace| - 1], trace[|trace| - 1];
      Matched(target, before, k) + ChargeTo(Run(target, before), l, k)
  }

  /** The part of it a full map refused. */
  function Refused(target: u32, trace: seq<Label>, k: Key): nat {
    if |trace| == 0 then 0
    else
      var before, l := trace[..|trace| - 1], trace[|trace| - 1];
      var s := Run(target, before);
      Refused(target, before, k) + if Accepted(s, l, k) then 0 else ChargeTo(s, l, k)
  }

  /** The part of it added between k's snapshot read and its removal. */
  function LostInGap(target: u32, trace: seq<Label>, k: Key): nat {
    if |trace| == 0 then 0
    else
      var before, l := trace[..|trace| - 1], trace[|trace| - 1];
      var s := Run(target, before);
      LostInGap(target, before, k) + if Accepted(s, l, k) && Pending(s, k) then ChargeTo(s, l, k) else 0
  }

  function SnapshotOf(snapshot: seq<(Key, u64)>, k: Key): nat {
    if |snapshot| == 0 then 0
    else SnapshotOf(snapshot[..|snapshot| - 1], k)
         + if snapshot[|snapshot| - 1].0 == k then snapshot[|snapshot| - 1].1 else 0
  }

  function WindowsOf(windows: seq<seq<(Key, u64)>>, k: Key): nat {
    if |windows| == 0 then 0
    else WindowsOf(windows[..|windows| - 1], k) + SnapshotOf(windows[|windows| - 1], k)
  }

  /** What userspace has taken for k: finished windows and the current snapshot. */
  function Reported(s: State, k: Key): nat { WindowsOf(s.windows, k) + SnapshotOf(s.snapshot, k) }

  function Bucket(s: State, k: Key): nat { if k in s.buckets then s.buckets[k] else 0 }

  /** What BUCKETS still holds for k that no snapshot has copied. */
  function Unread(s: State, k: Key): nat { if Pending(s, k) then 0 else Bucket(s, k) }

  // ---------- time ----------

  function Clock(trace: seq<Label>, t0: u64): u64 {
    if |trace| == 0 then t0 else trace[|trace| - 1].now
  }

  ghost predicate Monotone(trace: seq<Label>, t0: u64) {
    && (forall i :: 0 <= i < |trace| ==> t0 <= trace[i].now)
    && (forall i, j :: 0 <= i < j < |trace| ==> trace[i].now <= trace[j].now)
  }

  /** All time matched to one thread, whatever the stack. */
  function ThreadTime(target: u32, trace: seq<Label>, tid: u32): nat {
    if |trace| == 0 then 0
    else
      var before, l := trace[..|trace| - 1], trace[|trace| - 1];
      var s := Run(target, before);
      ThreadTime(target, before, tid) + if Matches(s, l) && AsU32(l.pid) == tid then Charge(s, l) else 0
  }

  lemma StartStep(target: u32, s: State, l: Label, tid: u32)
    ensures var start' := Step(target, s, l).start;
            && (tid in start' ==>
                  if l.OnSwitch? && AsU32(l.prevPid) == tid && start'[tid].tsNs == l.now then true
                  else tid in s.start && start'[tid] == s.start[tid])
            && (Matches(s, l) && AsU32(l.pid) == tid ==> tid !in start')
  {
    assert Step(target, s, l).start == Slots.Apply(s.start, SwitchOp(target, s, l));
    hide Step, AsU32;
  }

  /** A thread's matched sleeps do not overlap: they fit in the elapsed time, and
      in the time before its current sleep, which began in the past. */
  lemma {:induction false} ThreadTimeFits(target: u32, trace: seq<Label>, t0: u64, tid: u32)
    requires Monotone(trace, t0)
    ensures ThreadTime(target, trace, tid) <= Clock(trace, t0) - t0
    ensures var s := Run(target, trace);
            tid in s.start ==> t0 + ThreadTime(target, trace, tid) <= s.start[tid].tsNs <= Clock(trace, t0)
  {
    if |trace| > 0 {
      var before, l := trace[..|trace| - 1], trace[|trace| - 1];
      var s := Run(target, before);
      assert Run(target, trace) == Step(target, s, l);
      hide Step, Run;
      ThreadTimeFits(target, before, t0, tid);
      StartStep(target, s, l, tid);
      assert Clock(before, t0) <= Clock(trace, t0);
    }
  }

  lemma {:induction false} MatchedWithinThread(target: u32, trace: seq<Label>, k: Key)
    ensures Matched(target, trace, k) <= ThreadTime(target, trace, k.pid)
  {
    hide Step, Run;
    if |trace| > 0 {
      MatchedWithinThread(target, trace[..|trace| - 1], k);
    }
  }

  lemma BucketStep(target: u32, s: State, l: Label, k: Key)
    ensures Bucket(Step(target, s, l), k) <= Bucket(s, k) + ChargeTo(s, l, k)
  {
    var s' := Step(target, s, l);
    assert s'.buckets == BucketsAfter(s, l);
    hide Step;
    if Matches(s, l) && ChargedKey(s, l) == k {
      assert k in s.buckets ==> WrapAdd(s.buckets[k], Charge(s, l)) <= s.buckets[k] + Charge(s, l);
    }
  }

  /** A bucket never holds more than was matched to its key. */
  lemma {:induction false} BucketWithinMatched(target: u32, trace: seq<Label>, k: Key)
    ensures Bucket(Run(target, trace), k) <= Matched(target, trace, k)
  {
    if |trace| > 0 {
      var before, l := trace[..|trace| - 1], trace[|trace| - 1];
      var s := Run(target, before);
      assert Run(target, trace) == Step(target, s, l);
      hide Step, Run, Bucket, ChargeTo;
      BucketWithinMatched(target, before, k);
      BucketStep(target, s, l, k);
    }
  }

  /** In every run with a monotonic clock the wrapping addition of the wakeup
      handler never wraps and its saturating subtraction never clamps. */
  lemma NeverWraps(target: u32, trace: seq<Label>, t0: u64, l: Label)
    requires Monotone(trace + [l], t0) && Matches(Run(target, trace), l)
    ensures var s := Run(target, trace);
            var k := ChargedKey(s, l);
            && Bucket(s, k) + Charge(s, l) < TWO64
            && s.start[AsU32(l.pid)].tsNs <= l.now
  {
    var s, k := Run(target, trace), ChargedKey(Run(target, trace), l);
    assert (trace + [l])[..|trace|] == trace;
    assert forall i :: 0 <= i < |trace| ==> (trace + [l])[i] == trace[i];
    assert Matched(target, trace + [l], k) == Matched(target, trace, k) + Charge(s, l);
    hide Step, Run, Matched;
    BucketWithinMatched(target, trace, k);
    MatchedWithinThread(target, trace + [l], k);
    ThreadTimeFits(target, trace + [l], t0, k.pid);
    ThreadTimeFits(target, trace, t0, k.pid);
    assert Clock(trace, t0) <= l.now;
  }

  // ---------- conservation ----------

  ghost predicate DistinctKeys(snapshot: seq<(Key, u64)>) {
    forall i, j :: 0 <= i < j < |snapshot| ==> snapshot[i].0 != snapshot[j].0
  }

  /** Shape of the drain in every reachable state. */
  ghost predicate DrainInv(s: State) {
    && DistinctKeys(s.snapshot)
    && (s.phase.Quiet? ==> s.snapshot == [])
    && (s.phase.Removing? ==> s.phase.n <= |s.snapshot|)
    && (forall k :: Pending(s, k) ==> k in s.buckets)
  }

  lemma SnapshotOfNone(snapshot: seq<(Key, u64)>, k: Key)
    requires !InSnapshot(snapshot, k)
    ensures SnapshotOf(snapshot, k) == 0
  {
    if |snapshot| > 0 {
      var last := |snapshot| - 1;
      assert snapshot[last].0 != k;
      forall i | 0 <= i < last ensures snapshot[..last][i].0 != k { assert snapshot[i].0 != k; }
      SnapshotOfNone(snapshot[..last], k);
    }
  }

  lemma InSnapshotSnoc(snapshot: seq<(Key, u64)>, e: (Key, u64), k: Key)
    ensures InSnapshot(snapshot + [e], k) <==> InSnapshot(snapshot, k) || e.0 == k
    ensures SnapshotOf(snapshot + [e], k) == SnapshotOf(snapshot, k) + if e.0 == k then e.1 else 0
  {
    assert (snapshot + [e])[..|snapshot|] == snapshot;
    assert (snapshot + [e])[|snapshot|] == e;
    if InSnapshot(snapshot, k) {
      var i :| 0 <= i < |snapshot| && snapshot[i].0 == k;
      assert (snapshot + [e])[i].0 == k;
    }
  }

  lemma InSnapshotFrom(snapshot: seq<(Key, u64)>, n: nat, k: Key)
    requires n < |snapshot| && DistinctKeys(snapshot)
    ensures InSnapshot(snapshot[n..], k) <==> snapshot[n].0 == k || InSnapshot(snapshot[n + 1..], k)
    ensures snapshot[n].0 == k ==> !InSnapshot(snapshot[n + 1..], k)
  {
    assert snapshot[n..] == [snapshot[n]] + snapshot[n + 1..];
    if InSnapshot(snapshot[n + 1..], k) {
      var i :| 0 <= i < |snapshot[n + 1..]| && snapshot[n + 1..][i].0 == k;
      assert snapshot[n..][i + 1].0 == k && snapshot[n + 1 + i].0 == k;
    }
    if snapshot[n].0 == k { assert snapshot[n..][0].0 == k; }
  }

  lemma PendingFields(target: u32, s: State, l: Label)
    ensures Step(target, s, l).phase == PhaseAfter(s, l) && Step(target, s, l).snapshot == SnapshotAfter(s, l)
    ensures Step(target, s, l).buckets == BucketsAfter(s, l)
  {
    hide PhaseAfter, SnapshotAfter, BucketsAfter, WindowsAfter, SwitchOp;
  }

  /** What each label does to a key's pending status. */
  lemma PendingStep(target: u32, s: State, l: Label, k: Key)
    requires DrainInv(s)
    ensures var s' := Step(target, s, l);
            Pending(s', k) <==>
              if Reads(s, l, k) then true
              else if Removes(s, l, k) then false
              else Pending(s, k)
  {
    PendingFields(target, s, l);
    hide Step;
    match l
    case ReadEntry(_, key) =>
      if s.phase.Reading? && key in s.buckets { InSnapshotSnoc(s.snapshot, (key, s.buckets[key]), k); }
    case BeginRemoval(_) => assert s.snapshot[0..] == s.snapshot;
    case RemoveNext(_) =>
      if s.phase.Removing? && s.phase.n < |s.snapshot| { InSnapshotFrom(s.snapshot, s.phase.n, k); }
    case EndFlush(_) => assert s.phase == Removing(|s.snapshot|) ==> s.snapshot[s.phase.n..] == [];
    case _ =>
  }

  lemma WrapAddExact(a: u64, b: u64)
    ensures a + b < TWO64 ==> WrapAdd(a, b) == a + b
  {
  }

  lemma BucketWakeup(s: State, l: Label, k: Key)
    requires l.OnWakeup? && Bucket(s, k) + ChargeTo(s, l, k) < TWO64
    ensures var after := BucketsAfter(s, l);
            && (k in s.buckets ==> k in after)
            && (if k in after then after[k] else 0)
               == Bucket(s, k) + if Accepted(s, l, k) then ChargeTo(s, l, k) else 0
  {
    if Matches(s, l) && ChargedKey(s, l) == k && k in s.buckets { WrapAddExact(s.buckets[k], Charge(s, l)); }
    hide WrapAdd, Charge, ChargedKey;
  }

  /** What one step does to the bucket of k, as long as sums fit. */
  lemma BucketExactly(target: u32, s: State, l: Label, k: Key)
    requires Bucket(s, k) + ChargeTo(s, l, k) < TWO64
    ensures var s' := Step(target, s, l);
            if Removes(s, l, k)
            then k !in s'.buckets
            else Bucket(s', k) == Bucket(s, k) + (if Accepted(s, l, k) then ChargeTo(s, l, k) else 0)
                 && (k in s.buckets ==> k in s'.buckets)
  {
    PendingFields(target, s, l);
    hide Step;
    if l.OnWakeup? {
      BucketWakeup(s, l, k);
      hide BucketsAfter, ChargeTo, Accepted;
    }
  }

  lemma ReportedStep(target: u32, s: State, l: Label, k: Key)
    requires DrainInv(s)
    ensures Reported(Step(target, s, l), k)
            == Reported(s, k)
               + if Reads(s, l, k) && !Pending(s, k) then s.buckets[k] else 0
  {
    match l
    case ReadEntry(_, key) =>
      if s.phase.Reading? && key in s.buckets { InSnapshotSnoc(s.snapshot, (key, s.buckets[key]), k); }
    case EndFlush(_) =>
      assert (s.windows + [s.snapshot])[..|s.windows|] == s.windows;
    case _ =>
  }

  lemma SnapshotShape(s: State, l: Label)
    requires DrainInv(s)
    ensures DistinctKeys(SnapshotAfter(s, l))
    ensures PhaseAfter(s, l).Quiet? ==> SnapshotAfter(s, l) == []
    ensures PhaseAfter(s, l).Removing? ==> PhaseAfter(s, l).n <= |SnapshotAfter(s, l)|
  {
    hide Pending;
    if l.ReadEntry? && InSnapshot(s.snapshot, l.key) {
      assert SnapshotAfter(s, l) == s.snapshot;
    }
  }

  lemma BucketStays(s: State, l: Label, k: Key)
    requires k in s.buckets && !Removes(s, l, k)
    ensures k in BucketsAfter(s, l)
  {
    hide Charge, ChargedKey, WrapAdd;
  }

  lemma DrainInvStep(target: u32, s: State, l: Label)
    requires DrainInv(s)
    ensures DrainInv(Step(target, s, l))
  {
    var s' := Step(target, s, l);
    PendingFields(target, s, l);
    hide Step;
    SnapshotShape(s, l);
    hide SnapshotAfter, PhaseAfter, BucketsAfter, Pending, DistinctKeys;
    forall k | Pending(s', k) ensures k in s'.buckets {
      PendingStep(target, s, l, k);
      BucketStays(s, l, k);
    }
  }

  lemma {:induction false} DrainInvAlways(target: u32, trace: seq<Label>)
    ensures DrainInv(Run(target, trace))
  {
    if |trace| > 0 {
      var before := trace[..|trace| - 1];
      assert Run(target, trace) == Step(target, Run(target, before), trace[|trace| - 1]);
      hide Step, Run, DrainInv;
      DrainInvAlways(target, before);
      DrainInvStep(target, Run(target, before), trace[|trace| - 1]);
    } else {
      assert Run(target, trace) == INIT;
    }
  }

  /** One step's balance for key k. */
  lemma StepBalance(target: u32, s: State, l: Label, k: Key)
    requires DrainInv(s) && Bucket(s, k) + ChargeTo(s, l, k) < TWO64
    ensures var s' := Step(target, s, l);
            Reported(s', k) + Unread(s', k)
            + (if Accepted(s, l, k) && Pending(s, k) then ChargeTo(s, l, k) else 0)
            + (if Accepted(s, l, k) then 0 else ChargeTo(s, l, k))
            == Reported(s, k) + Unread(s, k) + ChargeTo(s, l, k)
  {
    PendingStep(target, s, l, k);
    BucketExactly(target, s, l, k);
    ReportedStep(target, s, l, k);
    assert Pending(s, k) ==> k in s.buckets;
    assert Removes(s, l, k) ==> Pending(s, k) by {
      if Removes(s, l, k) {
        InSnapshotFrom(s.snapshot, s.phase.n, k);
      }
    }
    hide Step, Pending, Reported, DrainInv, ChargeTo;
  }

  /** Main result. In every run with a monotonic clock, with the drain
      interleaved step by step, all time matched to a bucket key is: reported,
      or still in BUCKETS and not yet read, or added between the key's snapshot
      read and its removal, or refused by a full map. Nothing is in two places,
      so nothing is reported twice. */
  lemma {:induction false} Conservation(target: u32, trace: seq<Label>, t0: u64, k: Key)
    requires Monotone(trace, t0)
    ensures var s := Run(target, trace);
            Matched(target, trace, k)
            == Reported(s, k) + Unread(s, k) + LostInGap(target, trace, k) + Refused(target, trace, k)
  {
    if |trace| > 0 {
      var before, l := trace[..|trace| - 1], trace[|trace| - 1];
      var s := Run(target, before);
      assert Run(target, trace) == Step(target, s, l);
      hide Step, Run, ChargeTo, Accepted, Pending, Unread, Reported, Bucket, ThreadTime;
      Conservation(target, before, t0, k);
      DrainInvAlways(target, before);
      BucketWithinMatched(target, before, k);
      MatchedWithinThread(target, trace, k);
      ThreadTimeFits(target, trace, t0, k.pid);
      StepBalance(target, s, l, k);
    }
  }

  // ---------- the time bound ----------

  /** What userspace has both copied and removed for k, so that BUCKETS no longer holds it. */
  function Drained(s: State, k: Key): nat {
    WindowsOf(s.windows, k) + if Pending(s, k) then 0 else SnapshotOf(s.snapshot, k)
  }

  lemma PendingBucketStep(target: u32, s: State, l: Label, k: Key)
    requires DrainInv(s) && Pending(Step(target, s, l), k)
    ensures var s' := Step(target, s, l);
            if Pending(s, k)
            then SnapshotOf(s'.snapshot, k) == SnapshotOf(s.snapshot, k)
                 && Bucket(s', k) <= Bucket(s, k) + if Accepted(s, l, k) then ChargeTo(s, l, k) else 0
            else Bucket(s', k) == SnapshotOf(s'.snapshot, k)
  {
    PendingStep(target, s, l, k);
    if Pending(s, k) {
      match l
      case ReadEntry(_, key) =>
        if s.phase.Reading? && key in s.buckets { InSnapshotSnoc(s.snapshot, (key, s.buckets[key]), k); }
      case _ => BucketStep(target, s, l, k);
    } else {
      SnapshotOfNone(s.snapshot, k);
      InSnapshotSnoc(s.snapshot, (k, s.buckets[k]), k);
    }
  }

  /** While k is pending, its bucket holds its snapshot value plus what came after. */
  lemma {:induction false} PendingBucket(target: u32, trace: seq<Label>, k: Key)
    requires Pending(Run(target, trace), k)
    ensures Bucket(Run(target, trace), k) <= SnapshotOf(Run(target, trace).snapshot, k) + LostInGap(target, trace, k)
  {
    if |trace| > 0 {
      var before, l := trace[..|trace| - 1], trace[|trace| - 1];
      var s := Run(target, before);
      assert Run(target, trace) == Step(target, s, l);
      hide Step, Run, ChargeTo, Accepted, Pending, Bucket, SnapshotOf;
      DrainInvAlways(target, before);
      PendingBucketStep(target, s, l, k);
      if Pending(s, k) { PendingBucket(target, before, k); }
    }
  }

  lemma HeldWithinMatched(target: u32, trace: seq<Label>, t0: u64, k: Key)
    requires Monotone(trace, t0)
    ensures var s := Run(target, trace);
            Bucket(s, k) + Drained(s, k) <= Matched(target, trace, k)
  {
    hide Step, Run, Bucket, Matched, Refused, LostInGap, Pending;
    Conservation(target, trace, t0, k);
    if Pending(Run(target, trace), k) { PendingBucket(target, trace, k); }
  }

  ghost function SumOver(keys: set<Key>, f: Key -> nat): nat {
    if keys == {} then 0
    else
      var k :| k in keys;
      f(k) + SumOver(keys - {k}, f)
  }

  lemma {:induction false} SumPick(keys: set<Key>, k: Key, f: Key -> nat)
    requires k in keys
    ensures SumOver(keys, f) == f(k) + SumOver(keys - {k}, f)
    decreases keys
  {
    var j :| j in keys && SumOver(keys, f) == f(j) + SumOver(keys - {j}, f);
    if j != k {
      SumPick(keys - {j}, k, f);
      SumPick(keys - {k}, j, f);
      assert keys - {j} - {k} == keys - {k} - {j};
    }
  }

  lemma {:induction false} SumLe(keys: set<Key>, f: Key -> nat, g: Key -> nat)
    requires forall k :: k in keys ==> f(k) <= g(k)
    ensures SumOver(keys, f) <= SumOver(keys, g)
    decreases keys
  {
    if keys != {} {
      var k :| k in keys;
      SumPick(keys, k, f);
      SumPick(keys, k, g);
      SumLe(keys - {k}, f, g);
    }
  }

  lemma {:induction false} SumZero(keys: set<Key>, f: Key -> nat)
    requires forall k :: k in keys ==> f(k) == 0
    ensures SumOver(keys, f) == 0
    decreases keys
  {
    if keys != {} {
      var k :| k in keys;
      SumPick(keys, k, f);
      SumZero(keys - {k}, f);
    }
  }

  /** A thread's keys share its matched time between them. */
  lemma {:induction false} MatchedSum(target: u32, trace: seq<Label>, tid: u32, keys: set<Key>)
    requires forall k :: k in keys ==> k.pid == tid
    ensures SumOver(keys, k => Matched(target, trace, k)) <= ThreadTime(target, trace, tid)
  {
    if |trace| == 0 {
      SumZero(keys, k => Matched(target, trace, k));
    } else {
      hide Step, Run;
      var before, l := trace[..|trace| - 1], trace[|trace| - 1];
      var s := Run(target, before);
      var f, g := k => Matched(target, before, k), k => Matched(target, trace, k);
      MatchedSum(target, before, tid, keys);
      if Matches(s, l) && ChargedKey(s, l) in keys {
        var k := ChargedKey(s, l);
        SumPick(keys, k, f);
        SumPick(keys, k, g);
        SumLe(keys - {k}, g, f);
      } else {
        SumLe(keys, g, f);
      }
    }
  }

  /** Main result. At every moment, the live buckets of a thread summed over any
      set of its stacks, plus everything already drained for it, fit in the time
      elapsed since tracing began. */
  lemma OffCpuTimeBound(target: u32, trace: seq<Label>, t0: u64, tid: u32, keys: set<Key>)
    requires Monotone(trace, t0)
    requires forall k :: k in keys ==> k.pid == tid
    ensures var s := Run(target, trace);
            SumOver(keys, k => Bucket(s, k) + Drained(s, k)) <= Clock(trace, t0) - t0
  {
    hide Step, Run, Matched, Bucket, Drained, ThreadTime;
    var s := Run(target, trace);
    forall k | k in keys ensures Bucket(s, k) + Drained(s, k) <= Matched(target, trace, k) {
      HeldWithinMatched(target, trace, t0, k);
    }
    SumLe(keys, k => Bucket(s, k) + Drained(s, k), k => Matched(target, trace, k));
    MatchedSum(target, trace, tid, keys);
    ThreadTimeFits(target, trace, t0, tid);
  }

  // ---------- what a matched interval is ----------

  /** The run as the START map sees it. */
  function SwitchOps(target: u32, trace: seq<Label>): (r: seq<Slots.Op<StartInfo>>)
    ensures |r| == |trace|
    ensures forall i :: 0 <= i < |trace| ==> r[i] == SwitchOp(target, Run(target, trace[..i]), trace[i])
  {
    seq(|trace|, i requires 0 <= i < |trace| => SwitchOp(target, Run(target, trace[..i]), trace[i]))
  }

  lemma SwitchOpsPrefix(target: u32, trace: seq<Label>)
    requires |trace| > 0
    ensures SwitchOps(target, trace)[..|trace| - 1] == SwitchOps(target, trace[..|trace| - 1])
  {
    hide Step, Run, SwitchOp;
    var before := trace[..|trace| - 1];
    forall i | 0 <= i < |before| ensures SwitchOps(target, trace)[i] == SwitchOps(target, before)[i] {
      assert before[..i] == trace[..i];
    }
  }

  lemma StartUnfolds(target: u32, trace: seq<Label>)
    requires |trace| > 0
    ensures var s := Run(target, trace[..|trace| - 1]);
            Run(target, trace).start == Slots.Apply(s.start, SwitchOp(target, s, trace[|trace| - 1]))
  {
    hide SwitchOp, Slots.Apply, BucketsAfter, SnapshotAfter, PhaseAfter, WindowsAfter;
  }

  lemma {:induction false} StartIsSlots(target: u32, trace: seq<Label>)
    ensures Run(target, trace).start == Slots.Run(SwitchOps(target, trace))
  {
    hide Step, SwitchOp, Slots.Apply;
    if |trace| > 0 {
      hide Run;
      StartIsSlots(target, trace[..|trace| - 1]);
      SwitchOpsPrefix(target, trace);
      StartUnfolds(target, trace);
    }
  }

  /** A matched wakeup charges the time since the thread's latest recorded sleep,
      to that sleep's stack: a voluntary switch of the traced process, with no
      wakeup of the thread since. */
  lemma ChargeIsLatestSleep(target: u32, trace: seq<Label>, l: Label) returns (i: nat)
    requires Matches(Run(target, trace), l)
    ensures Slots.LatestStored(SwitchOps(target, trace), AsU32(l.pid)) == Some(i) && i < |trace|
    ensures trace[i].OnSwitch? && AsU32(trace[i].prevPid) == AsU32(l.pid)
    ensures trace[i].prevState % 0x100 != 0 && target != 0 && trace[i].tgid == target
    ensures forall m :: i < m < |trace| && trace[m].OnWakeup? ==> AsU32(trace[m].pid) != AsU32(l.pid)
    ensures ChargedKey(Run(target, trace), l) == Key(AsU32(l.pid), trace[i].stack)
    ensures Charge(Run(target, trace), l) == SatSub(l.now, trace[i].now)
  {
    hide Step, Run, Stored, Slots.Run, Slots.LatestStored;
    var tid := AsU32(l.pid);
    StartIsSlots(target, trace);
    var ops := SwitchOps(target, trace);
    Slots.SlotHoldsLatestStored(ops, tid);
    i := Slots.LatestStored(ops, tid).value;
    forall m | i < m < |trace| && trace[m].OnWakeup? ensures AsU32(trace[m].pid) != tid {
      assert ops[m] == Slots.Leave(AsU32(trace[m].pid));
      assert Slots.On(ops[m], AsU32(trace[m].pid));
    }
  }
}

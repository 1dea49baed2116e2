/** Which sleeps are recorded and charged, in terms of the firings alone. */
module IoWaitSleeps {
  import opened Machine
  import Slots
  import opened IoWait
  import opened IoWaitLedger

  /** A thread id as the kernel's signed pid becomes an unsigned key. */
  lemma ThreadIds(p: i32)
    ensures p >= 0 ==> AsU32(p) == p
    ensures p < 0 ==> AsU32(p) == p + 0x1_0000_0000
  {
  }

  /** This switch puts a thread of the target process to sleep: its state has a
      non-zero low byte, and tracing has a target, which is the current process. */
  predicate Sleeps(target: u32, l: Label) {
    l.OnSwitch? && l.prevState % 0x100 != 0 && target != 0 && l.tgid == target
  }

  /** Exactly the sleeps of the target process are recorded, each over the thread's
      earlier record, as long as the map (16384 entries) takes them. No other
      switch changes the record of any thread. */
  lemma SleepsAreRecorded(target: u32, s: State, l: Label)
    requires l.OnSwitch?
    ensures var start', tid := Step(target, s, l).start, AsU32(l.prevPid);
            start' == if Sleeps(target, l) && l.ok && (tid in s.start || |s.start| < 16384)
                      then s.start[tid := StartInfo(l.now, l.stack)]
                      else s.start
  {
    hide BucketsAfter, SnapshotAfter, PhaseAfter, WindowsAfter, AsU32;
  }

  /** A wakeup forgets its own thread's record and no other. */
  lemma WakeupsForget(target: u32, s: State, l: Label)
    requires !l.OnSwitch?
    ensures var start' := Step(target, s, l).start;
            start' == if l.OnWakeup? then map t | t in s.start && t != AsU32(l.pid) :: s.start[t] else s.start
  {
    hide BucketsAfter, SnapshotAfter, PhaseAfter, WindowsAfter, AsU32;
  }

  /** What a wakeup adds to BUCKETS (8192 entries): the time since the record of
      its thread, under that thread and the record's stack; nothing without one. */
  lemma WakeupsCharge(target: u32, s: State, l: Label)
    requires l.OnWakeup?
    ensures var tid := AsU32(l.pid);
            Step(target, s, l).buckets
            == if tid !in s.start then s.buckets
               else
                 var k := Key(tid, s.start[tid].stack);
                 var ns := if s.start[tid].tsNs <= l.now then l.now - s.start[tid].tsNs else 0;
                 var total := (ns + if k in s.buckets then s.buckets[k] else 0) % 0x1_0000_0000_0000_0000;
                 if l.ok && (k in s.buckets || |s.buckets| < 8192) then s.buckets[k := total] else s.buckets
  {
    PendingFields(target, s, l);
    hide Step, AsU32;
  }

  /** Neither a switch nor a wakeup of this thread. */
  predicate LeavesAlone(l: Label, tid: u32) {
    && (l.OnSwitch? ==> AsU32(l.prevPid) != tid)
    && (l.OnWakeup? ==> AsU32(l.pid) != tid)
  }

  lemma LeftAlone(target: u32, s: State, l: Label, tid: u32)
    requires LeavesAlone(l, tid)
    ensures tid in Step(target, s, l).start <==> tid in s.start
    ensures tid in s.start ==> Step(target, s, l).start[tid] == s.start[tid]
  {
    if l.OnSwitch? { SleepsAreRecorded(target, s, l); } else { WakeupsForget(target, s, l); }
    hide Step;
  }

  /** A recorded sleep is still there after any firings of other threads. */
  lemma {:induction false} SleepIsKept(target: u32, trace: seq<Label>, i: nat)
    requires i < |trace| && Sleeps(target, trace[i]) && trace[i].ok
    requires var s := Run(target, trace[..i]); AsU32(trace[i].prevPid) in s.start || |s.start| < 16384
    requires forall m :: i < m < |trace| ==> LeavesAlone(trace[m], AsU32(trace[i].prevPid))
    ensures var tid := AsU32(trace[i].prevPid);
            tid in Run(target, trace).start && Run(target, trace).start[tid] == StartInfo(trace[i].now, trace[i].stack)
  {
    var n := |trace| - 1;
    var before := trace[..n];
    assert Run(target, trace) == Step(target, Run(target, before), trace[n]);
    hide Run, Step, AsU32;
    if i == n {
      SleepsAreRecorded(target, Run(target, before), trace[n]);
    } else {
      assert before[..i] == trace[..i];
      SleepIsKept(target, before, i);
      LeftAlone(target, Run(target, before), trace[n], AsU32(trace[i].prevPid));
    }
  }

  /** Main result. Every sleep of the target process that START takes, whatever its
      kind, is charged by the thread's next wakeup: the time between the two, to
      the thread and the stack it slept on, whatever other threads and the drain do
      in between. */
  lemma SleepIsCharged(target: u32, trace: seq<Label>, i: nat, l: Label)
    requires i < |trace| && Sleeps(target, trace[i]) && trace[i].ok
    requires var s := Run(target, trace[..i]); AsU32(trace[i].prevPid) in s.start || |s.start| < 16384
    requires forall m :: i < m < |trace| ==> LeavesAlone(trace[m], AsU32(trace[i].prevPid))
    requires l.OnWakeup? && AsU32(l.pid) == AsU32(trace[i].prevPid) && trace[i].now <= l.now
    ensures var s, k := Run(target, trace), Key(AsU32(l.pid), trace[i].stack);
            && ChargeTo(s, l, k) == l.now - trace[i].now
            && forall j :: j != k ==> ChargeTo(s, l, j) == 0
  {
    hide Run, Step, AsU32;
    SleepIsKept(target, trace, i);
  }

  // ---------- a drain that nothing disturbs ----------

  /** The drain steps that read `keys` in this order. */
  function ReadAll(now: u64, keys: seq<Key>): seq<Label> {
    if |keys| == 0 then [BeginFlush(now)] else ReadAll(now, keys[..|keys| - 1]) + [ReadEntry(now, keys[|keys| - 1])]
  }

  function RemoveAll(now: u64, n: nat): seq<Label> {
    if n == 0 then [BeginRemoval(now)] else RemoveAll(now, n - 1) + [RemoveNext(now)]
  }

  /** A whole drain: read every key, remove every key read, close the window. */
  function WholeDrain(now: u64, keys: seq<Key>): seq<Label> {
    ReadAll(now, keys) + RemoveAll(now, |keys|) + [EndFlush(now)]
  }

  function Entries(buckets: map<Key, u64>, keys: seq<Key>): (r: seq<(Key, u64)>)
    requires forall k :: k in keys ==> k in buckets
    ensures |r| == |keys| && forall i :: 0 <= i < |keys| ==> r[i] == (keys[i], buckets[keys[i]])
  {
    seq(|keys|, i requires 0 <= i < |keys| => (keys[i], buckets[keys[i]]))
  }

  lemma RunSnoc(target: u32, trace: seq<Label>, l: Label)
    ensures Run(target, trace + [l]) == Step(target, Run(target, trace), l)
  {
    assert (trace + [l])[..|trace|] == trace;
  }

  lemma ReadOneMore(target: u32, s: State, now: u64, keys: seq<Key>)
    requires |keys| > 0 && s.phase == Reading && forall k :: k in keys ==> k in s.buckets
    requires forall i, j :: 0 <= i < j < |keys| ==> keys[i] != keys[j]
    requires s.snapshot == Entries(s.buckets, keys[..|keys| - 1])
    ensures Step(target, s, ReadEntry(now, keys[|keys| - 1])) == s.(snapshot := Entries(s.buckets, keys))
  {
    var n := |keys| - 1;
    assert !InSnapshot(s.snapshot, keys[n]);
    assert Entries(s.buckets, keys) == Entries(s.buckets, keys[..n]) + [(keys[n], s.buckets[keys[n]])];
  }

  lemma {:induction false} AfterReads(target: u32, trace: seq<Label>, now: u64, keys: seq<Key>)
    requires var s := Run(target, trace); s.phase == Quiet && forall k :: k in keys ==> k in s.buckets
    requires forall i, j :: 0 <= i < j < |keys| ==> keys[i] != keys[j]
    ensures var s := Run(target, trace);
            Run(target, trace + ReadAll(now, keys)) == s.(phase := Reading, snapshot := Entries(s.buckets, keys))
  {
    hide Run;
    var s := Run(target, trace);
    if |keys| == 0 {
      RunSnoc(target, trace, BeginFlush(now));
    } else {
      var n := |keys| - 1;
      AfterReads(target, trace, now, keys[..n]);
      assert trace + ReadAll(now, keys) == trace + ReadAll(now, keys[..n]) + [ReadEntry(now, keys[n])];
      RunSnoc(target, trace + ReadAll(now, keys[..n]), ReadEntry(now, keys[n]));
      ReadOneMore(target, s.(phase := Reading, snapshot := Entries(s.buckets, keys[..n])), now, keys);
      hide Step;
    }
  }

  function Without(buckets: map<Key, u64>, keys: seq<Key>): map<Key, u64> {
    map k | k in buckets && k !in keys :: buckets[k]
  }

  function KeysOf(snapshot: seq<(Key, u64)>): (r: seq<Key>)
    ensures |r| == |snapshot|
  {
    seq(|snapshot|, i requires 0 <= i < |snapshot| => snapshot[i].0)
  }

  lemma RemoveOneMore(target: u32, s: State, now: u64, n: nat)
    requires 0 < n <= |s.snapshot|
    ensures Step(target, s.(phase := Removing(n - 1), buckets := Without(s.buckets, KeysOf(s.snapshot[..n - 1]))),
                 RemoveNext(now))
            == s.(phase := Removing(n), buckets := Without(s.buckets, KeysOf(s.snapshot[..n])))
  {
    var a, b := KeysOf(s.snapshot[..n - 1]), KeysOf(s.snapshot[..n]);
    assert b == a + [s.snapshot[n - 1].0];
    assert Remove(Without(s.buckets, a), s.snapshot[n - 1].0) == Without(s.buckets, b);
  }

  lemma {:induction false} AfterRemovals(target: u32, trace: seq<Label>, now: u64, n: nat)
    requires var s := Run(target, trace); s.phase == Reading && n <= |s.snapshot|
    ensures var s := Run(target, trace);
            Run(target, trace + RemoveAll(now, n))
            == s.(phase := Removing(n), buckets := Without(s.buckets, KeysOf(s.snapshot[..n])))
  {
    hide Run;
    var s := Run(target, trace);
    if n == 0 {
      RunSnoc(target, trace, BeginRemoval(now));
      assert Without(s.buckets, KeysOf(s.snapshot[..0])) == s.buckets;
    } else {
      AfterRemovals(target, trace, now, n - 1);
      assert trace + RemoveAll(now, n) == trace + RemoveAll(now, n - 1) + [RemoveNext(now)];
      RunSnoc(target, trace + RemoveAll(now, n - 1), RemoveNext(now));
      RemoveOneMore(target, s, now, n);
      hide Step;
    }
  }

  /** A drain with no handler in between reports every bucket it reads, with the
      value it has, and leaves exactly the others behind. */
  lemma WholeDrainReportsAll(target: u32, trace: seq<Label>, now: u64, keys: seq<Key>)
    requires var s := Run(target, trace); s.phase == Quiet && forall k :: k in keys ==> k in s.buckets
    requires forall i, j :: 0 <= i < j < |keys| ==> keys[i] != keys[j]
    ensures var s := Run(target, trace);
            Run(target, trace + WholeDrain(now, keys))
            == s.(buckets := Without(s.buckets, keys), snapshot := [],
                  windows := s.windows + [Entries(s.buckets, keys)])
  {
    hide Run, ReadAll, RemoveAll;
    var s := Run(target, trace);
    var t := trace + ReadAll(now, keys);
    AfterReads(target, trace, now, keys);
    AfterRemovals(target, t, now, |keys|);
    assert trace + WholeDrain(now, keys) == t + RemoveAll(now, |keys|) + [EndFlush(now)];
    RunSnoc(target, t + RemoveAll(now, |keys|), EndFlush(now));
    var entries := Entries(s.buckets, keys);
    assert entries[..|keys|] == entries && KeysOf(entries) == keys;
  }
}

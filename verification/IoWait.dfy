/** Off-CPU accounting: sched_switch and sched_wakeup steps interleaved with the
    userspace drain of BUCKETS. */
module IoWait {
  import opened Machine
  import opened Slots

  const START_MAX: nat := 16384
  const BUCKETS_MAX: nat := 8192

  datatype StartInfo = StartInfo(tsNs: u64, stack: i32)
  datatype Key = Key(pid: u32, stack: i32)

  /** Where `flush_window` is: between flushes, reading the map into the
      snapshot, or removing snapshot entry number n. */
  datatype Phase = Quiet | Reading | Removing(n: nat)

  datatype State = State(
    start: map<u32, StartInfo>,
    buckets: map<Key, u64>,
    phase: Phase,
    snapshot: seq<(Key, u64)>,
    windows: seq<seq<(Key, u64)>>)

  const INIT: State := State(map[], map[], Quiet, [], [])

  /** Kernel handlers, then the steps of the drain. `target` is TARGET_TGID[0],
      `tgid` the current task's; `stack` is -1 when no stack could be captured. */
  datatype Label =
    | OnSwitch(now: u64, prevPid: i32, prevState: i64, tgid: u32, stack: i32, ok: bool)
    | OnWakeup(now: u64, pid: i32, ok: bool)
    | BeginFlush(now: u64)
    | ReadEntry(now: u64, key: Key)
    | BeginRemoval(now: u64)
    | RemoveNext(now: u64)
    | EndFlush(now: u64)

  /** `as u32` on a tracepoint's signed pid. */
  function AsU32(p: i32): u32 { p % TWO32 }

  function SwitchOp(target: u32, s: State, l: Label): Op<StartInfo> {
    match l
    case OnSwitch(now, prevPid, prevState, tgid, stack, ok) =>
      if prevState % 0x100 == 0 || target == 0 || target != tgid then Idle
      else Enter(AsU32(prevPid), StartInfo(now, stack), Stored(Kernel, s.start, AsU32(prevPid), START_MAX, ok))
    case OnWakeup(_, pid, _) => Leave(AsU32(pid))
    case _ => Idle
  }

  /** The wakeup that ends a recorded sleep, and what it is charged. */
  predicate Matches(s: State, l: Label) { l.OnWakeup? && AsU32(l.pid) in s.start }

  function ChargedKey(s: State, l: Label): Key
    requires Matches(s, l)
  {
    Key(AsU32(l.pid), s.start[AsU32(l.pid)].stack)
  }

  function Charge(s: State, l: Label): u64
    requires Matches(s, l)
  {
    SatSub(l.now, s.start[AsU32(l.pid)].tsNs)
  }

  function BucketsAfter(s: State, l: Label): map<Key, u64> {
    match l
    case OnWakeup(_, _, ok) =>
      if !Matches(s, l) then s.buckets
      else
        var k := ChargedKey(s, l);
        var total := if k in s.buckets then WrapAdd(s.buckets[k], Charge(s, l)) else Charge(s, l);
        Insert(Kernel, s.buckets, k, total, BUCKETS_MAX, ok)
    case RemoveNext(_) =>
      if s.phase.Removing? && s.phase.n < |s.snapshot| then Remove(s.buckets, s.snapshot[s.phase.n].0) else s.buckets
    case _ => s.buckets
  }

  predicate InSnapshot(snapshot: seq<(Key, u64)>, k: Key) {
    exists i :: 0 <= i < |snapshot| && snapshot[i].0 == k
  }

  function SnapshotAfter(s: State, l: Label): seq<(Key, u64)> {
    match l
    case BeginFlush(_) => if s.phase.Quiet? then [] else s.snapshot
    case ReadEntry(_, k) =>
      if s.phase.Reading? && k in s.buckets && !InSnapshot(s.snapshot, k) then s.snapshot + [(k, s.buckets[k])]
      else s.snapshot
    case EndFlush(_) => if s.phase == Removing(|s.snapshot|) then [] else s.snapshot
    case _ => s.snapshot
  }

  function PhaseAfter(s: State, l: Label): Phase {
    match l
    case BeginFlush(_) => if s.phase.Quiet? then Reading else s.phase
    case BeginRemoval(_) => if s.phase.Reading? then Removing(0) else s.phase
    case RemoveNext(_) =>
      if s.phase.Removing? && s.phase.n < |s.snapshot| then Removing(s.phase.n + 1) else s.phase
    case EndFlush(_) => if s.phase == Removing(|s.snapshot|) then Quiet else s.phase
    case _ => s.phase
  }

  function WindowsAfter(s: State, l: Label): seq<seq<(Key, u64)>> {
    if l.EndFlush? && s.phase == Removing(|s.snapshot|) then s.windows + [s.snapshot] else s.windows
  }

  function Step(target: u32, s: State, l: Label): State {
    State(Apply(s.start, SwitchOp(target, s, l)), BucketsAfter(s, l), PhaseAfter(s, l), SnapshotAfter(s, l),
          WindowsAfter(s, l))
  }

  function Run(target: u32, trace: seq<Label>): State {
    if |trace| == 0 then INIT
    else Step(target, Run(target, trace[..|trace| - 1]), trace[|trace| - 1])
  }

  /** The BPF maps together with the drain loop of `flush_window`, one method
      per atomic step. */
  class Profiler {
    const target: u32
    var start: map<u32, StartInfo>
    var buckets: map<Key, u64>
    var phase: Phase
    var snapshot: seq<(Key, u64)>
    var windows: seq<seq<(Key, u64)>>

    function View(): State
      reads this
    {
      State(start, buckets, phase, snapshot, windows)
    }

    constructor (target: u32)
      ensures View() == INIT && this.target == target
    {
      this.target := target;
      start, buckets, phase, snapshot, windows := map[], map[], Quiet, [], [];
    }

    method SchedSwitch(now: u64, prevPid: i32, prevState: i64, tgid: u32, stack: i32, ok: bool)
      modifies this
      ensures View() == Step(target, old(View()), OnSwitch(now, prevPid, prevState, tgid, stack, ok))
    {
      if prevState % 0x100 == 0 { return; }
      if target == 0 || target != tgid { return; }
      start := Insert(Kernel, start, AsU32(prevPid), StartInfo(now, stack), START_MAX, ok);
    }

    method SchedWakeup(now: u64, pid: i32, ok: bool)
      modifies this
      ensures View() == Step(target, old(View()), OnWakeup(now, pid, ok))
    {
      var key := AsU32(pid);
      if key !in start { return; }
      var info := start[key];
      start := Remove(start, key);
      var delta := SatSub(now, info.tsNs);
      var bkey := Key(key, info.stack);
      var newTotal := if bkey in buckets then WrapAdd(buckets[bkey], delta) else delta;
      buckets := Insert(Kernel, buckets, bkey, newTotal, BUCKETS_MAX, ok);
    }

    method StartFlush(now: u64)
      modifies this
      ensures View() == Step(target, old(View()), BeginFlush(now))
    {
      if phase.Quiet? {
        phase, snapshot := Reading, [];
      }
    }

    method SnapshotEntry(now: u64, key: Key)
      modifies this
      ensures View() == Step(target, old(View()), ReadEntry(now, key))
    {
      if phase.Reading? && key in buckets && !InSnapshot(snapshot, key) {
        snapshot := snapshot + [(key, buckets[key])];
      }
    }

    method StartRemoval(now: u64)
      modifies this
      ensures View() == Step(target, old(View()), BeginRemoval(now))
    {
      if phase.Reading? {
        phase := Removing(0);
      }
    }

    method RemoveEntry(now: u64)
      modifies this
      ensures View() == Step(target, old(View()), RemoveNext(now))
    {
      if phase.Removing? && phase.n < |snapshot| {
        buckets := Remove(buckets, snapshot[phase.n].0);
        phase := Removing(phase.n + 1);
      }
    }

    method FinishFlush(now: u64)
      modifies this
      ensures View() == Step(target, old(View()), EndFlush(now))
    {
      if phase == Removing(|snapshot|) {
        windows, snapshot, phase := windows + [snapshot], [], Quiet;
      }
    }
  }
}

/** Attachment lifecycle tracing: constructor and release probes over one LRU map. */
module Attach {
  import opened Machine

  const LIVE_MAX: nat := 1024

  datatype Live = Live(openTs: u64, pid: u32, tid: u32)
  datatype Kind = Opened | Closed
  datatype AttachEvent = AttachEvent(tsNs: u64, durationNs: u64, ptr: u64, pid: u32, tid: u32, kind: Kind)
  datatype State = State(live: map<u64, Live>, events: seq<AttachEvent>)

  datatype Label =
    | OnCtor(now: u64, ptr: u64, pid: u32, tid: u32, ok: bool, ring: bool)
    | OnRelease(now: u64, ptr: u64, pid: u32, tid: u32, ring: bool)
    | Evict(now: u64, ptr: u64)

  /** This step records an open of pointer p. */
  predicate RecordsAt(s: State, l: Label, p: u64) {
    l.OnCtor? && l.ptr == p && p != 0 && Stored(Kernel, s.live, p, LIVE_MAX, l.ok)
  }

  function LiveAfter(s: State, l: Label): map<u64, Live> {
    match l
    case OnCtor(now, p, pid, tid, ok, _) =>
      if p == 0 then s.live else Insert(Kernel, s.live, p, Live(now, pid, tid), LIVE_MAX, ok)
    case OnRelease(_, p, _, _, _) => if p == 0 then s.live else Remove(s.live, p)
    case Evict(_, p) => Remove(s.live, p)
  }

  /** The event handed to the ring, if any. A constructor whose insert fails
      reports nothing at all. */
  function Produced(s: State, l: Label): Option<AttachEvent> {
    match l
    case OnCtor(now, p, pid, tid, _, _) =>
      if RecordsAt(s, l, p) then Some(AttachEvent(now, 0, p, pid, tid, Opened)) else None
    case OnRelease(now, p, pid, tid, _) =>
      if p != 0 && p in s.live then Some(AttachEvent(now, SatSub(now, s.live[p].openTs), p, pid, tid, Closed))
      else None
    case Evict(_, _) => None
  }

  function EventsAfter(s: State, l: Label): seq<AttachEvent> {
    var e := Produced(s, l);
    if e.Some? && !l.Evict? && l.ring then s.events + [e.value] else s.events
  }

  function Step(s: State, l: Label): State { State(LiveAfter(s, l), EventsAfter(s, l)) }

  function Run(trace: seq<Label>): State {
    if |trace| == 0 then State(map[], [])
    else Step(Run(trace[..|trace| - 1]), trace[|trace| - 1])
  }

  class Tracer {
    var live: map<u64, Live>
    var events: seq<AttachEvent>

    function View(): State
      reads this
    {
      State(live, events)
    }

    constructor ()
      ensures View() == State(map[], [])
    {
      live, events := map[], [];
    }

    method CtorEntry(now: u64, ptr: u64, pid: u32, tid: u32, ok: bool, ring: bool)
      modifies this
      ensures View() == Step(old(View()), OnCtor(now, ptr, pid, tid, ok, ring))
    {
      if ptr == 0 { return; }
      if !Stored(Kernel, live, ptr, LIVE_MAX, ok) { return; }
      live := live[ptr := Live(now, pid, tid)];
      if ring {
        events := events + [AttachEvent(now, 0, ptr, pid, tid, Opened)];
      }
    }

    method ReleaseEntry(now: u64, ptr: u64, pid: u32, tid: u32, ring: bool)
      modifies this
      ensures View() == Step(old(View()), OnRelease(now, ptr, pid, tid, ring))
    {
      if ptr == 0 { return; }
      if ptr !in live { return; }
      var entry := live[ptr];
      live := Remove(live, ptr);
      var durationNs := SatSub(now, entry.openTs);
      if ring {
        events := events + [AttachEvent(now, durationNs, ptr, pid, tid, Closed)];
      }
    }
  }

  /** The latest recorded open of p, unless p was released or evicted since. */
  function OpenSince(trace: seq<Label>, p: u64): (r: Option<nat>)
    ensures r.Some? ==> r.value < |trace| && trace[r.value].OnCtor? && trace[r.value].ptr == p
  {
    if |trace| == 0 then None
    else
      var n := |trace| - 1;
      if RecordsAt(Run(trace[..n]), trace[n], p) then Some(n)
      else if trace[n].ptr == p && !trace[n].OnCtor? then None
      else OpenSince(trace[..n], p)
  }

  predicate Records(trace: seq<Label>, i: nat, p: u64)
    requires i < |trace|
  {
    RecordsAt(Run(trace[..i]), trace[i], p)
  }

  /** An open that recorded p, with nothing recording, releasing or evicting p since. */
  ghost predicate LatestOpen(trace: seq<Label>, p: u64, i: nat) {
    && i < |trace| && Records(trace, i, p)
    && forall m :: i < m < |trace| && trace[m].ptr == p ==> trace[m].OnCtor? && !Records(trace, m, p)
  }

  lemma LatestOpenIndex(trace: seq<Label>, p: u64, i: nat)
    ensures LatestOpen(trace, p, i) ==> i < |trace|
  {
  }

  lemma RecordsPrefix(trace: seq<Label>, n: nat, i: nat, p: u64)
    requires i < n <= |trace|
    ensures Records(trace[..n], i, p) == Records(trace, i, p)
  {
    hide Run;
    assert trace[..n][..i] == trace[..i];
  }

  lemma {:induction false} OpenSinceIsLatest(trace: seq<Label>, p: u64)
    requires OpenSince(trace, p).Some?
    ensures LatestOpen(trace, p, OpenSince(trace, p).value)
  {
    hide Run, RecordsAt;
    var n := |trace| - 1;
    if !Records(trace, n, p) {
      var before, i := trace[..n], OpenSince(trace, p).value;
      OpenSinceIsLatest(before, p);
      RecordsPrefix(trace, n, i, p);
      forall m | i < m < |trace| && trace[m].ptr == p ensures trace[m].OnCtor? && !Records(trace, m, p) {
        if m < n {
          assert before[m] == trace[m];
          RecordsPrefix(trace, n, m, p);
        }
      }
    }
  }

  /** LIVE holds exactly the unconsumed recorded opens, with their timestamps. */
  lemma {:induction false} LiveIsOpenSince(trace: seq<Label>, p: u64)
    requires p != 0
    ensures p in Run(trace).live <==> OpenSince(trace, p).Some?
    ensures p in Run(trace).live ==>
              var o := trace[OpenSince(trace, p).value];
              Run(trace).live[p] == Live(o.now, o.pid, o.tid)
  {
    if |trace| > 0 {
      LiveIsOpenSince(trace[..|trace| - 1], p);
    }
  }

  /** The time from start to now; zero should the clock have gone back. */
  function Elapsed(start: u64, now: u64): u64 { if start <= now then now - start else 0 }

  /** Every Closed event follows an unconsumed recorded open of the same
      pointer and reports the time since the latest one. */
  lemma ClosedExplained(trace: seq<Label>, l: Label) returns (i: nat)
    requires l.OnRelease? && Produced(Run(trace), l).Some?
    ensures LatestOpen(trace, l.ptr, i) && trace[i].OnCtor? && trace[i].ptr == l.ptr
    ensures Produced(Run(trace), l).value
            == AttachEvent(l.now, Elapsed(trace[i].now, l.now), l.ptr, l.pid, l.tid, Closed)
  {
    hide Run;
    LiveIsOpenSince(trace, l.ptr);
    OpenSinceIsLatest(trace, l.ptr);
    i := OpenSince(trace, l.ptr).value;
  }

  lemma EventsSnoc(trace: seq<Label>)
    requires |trace| > 0
    ensures var s, l := Run(trace[..|trace| - 1]), trace[|trace| - 1];
            && s.events <= Run(trace).events && |Run(trace).events| <= |s.events| + 1
            && (|Run(trace).events| > |s.events| ==> Produced(s, l) == Some(Run(trace).events[|s.events|]))
  {
    hide Produced;
  }

  /** Every event on the ring was produced by one step of the run. */
  lemma {:induction false} EveryEventIsProduced(trace: seq<Label>, j: nat) returns (n: nat)
    requires j < |Run(trace).events|
    ensures n < |trace| && Produced(Run(trace[..n]), trace[n]) == Some(Run(trace).events[j])
  {
    assert |trace| > 0;
    var before := trace[..|trace| - 1];
    EventsSnoc(trace);
    hide Run, Step, Produced;
    n := |trace| - 1;
    if j < |Run(before).events| {
      n := EveryEventIsProduced(before, j);
      assert before[..n] == trace[..n];
    }
  }

  lemma ClosedMeansRelease(s: State, l: Label)
    requires Produced(s, l).Some? && Produced(s, l).value.kind == Closed
    ensures l.OnRelease?
  {
  }

  /** Every Closed event on the ring: the release that produced it, and the open
      it is timed from, the latest one recorded for its pointer at that moment. */
  lemma RingClosedExplained(trace: seq<Label>, j: nat) returns (n: nat, i: nat)
    requires j < |Run(trace).events| && Run(trace).events[j].kind == Closed
    ensures i < n < |trace| && trace[n].OnRelease? && LatestOpen(trace[..n], trace[n].ptr, i)
    ensures Run(trace).events[j]
            == AttachEvent(trace[n].now, Elapsed(trace[i].now, trace[n].now), trace[n].ptr, trace[n].pid, trace[n].tid,
                           Closed)
  {
    hide Run, Produced, LatestOpen;
    n := EveryEventIsProduced(trace, j);
    ClosedMeansRelease(Run(trace[..n]), trace[n]);
    i := ClosedExplained(trace[..n], trace[n]);
    LatestOpenIndex(trace[..n], trace[n].ptr, i);
  }

  lemma OpenedMeansCtor(s: State, l: Label)
    requires Produced(s, l).Some? && Produced(s, l).value.kind == Opened
    ensures l.OnCtor? && l.ptr != 0 && l.ok && (l.ptr in s.live || |s.live| < 1024)
    ensures Produced(s, l).value == AttachEvent(l.now, 0, l.ptr, l.pid, l.tid, Opened)
  {
  }

  /** Every Opened event on the ring: the constructor that produced it, whose
      attachment was recorded and whose time, process and thread it carries. */
  lemma RingOpenedExplained(trace: seq<Label>, j: nat) returns (n: nat)
    requires j < |Run(trace).events| && Run(trace).events[j].kind == Opened
    ensures n < |trace| && trace[n].OnCtor? && trace[n].ptr != 0
    ensures trace[n].ok && (trace[n].ptr in Run(trace[..n]).live || |Run(trace[..n]).live| < 1024)
    ensures Run(trace).events[j]
            == AttachEvent(trace[n].now, 0, trace[n].ptr, trace[n].pid, trace[n].tid, Opened)
  {
    hide Run, Produced;
    n := EveryEventIsProduced(trace, j);
    OpenedMeansCtor(Run(trace[..n]), trace[n]);
  }

  /** A step puts exactly one event on the ring if it opens a recorded attachment or
      releases a live one and the ring has room; otherwise none. */
  lemma RingGrowsExactly(s: State, l: Label)
    ensures var opens := l.OnCtor? && l.ptr != 0 && l.ok && (l.ptr in s.live || |s.live| < 1024) && l.ring;
            var closes := l.OnRelease? && l.ptr != 0 && l.ptr in s.live && l.ring;
            && s.events <= Step(s, l).events
            && |Step(s, l).events| == |s.events| + if opens || closes then 1 else 0
  {
  }

  /** What a step does to LIVE (1024 entries): a constructor records its time,
      process and thread; a release and an eviction forget the attachment. */
  lemma LiveChangesExactly(s: State, l: Label)
    ensures var live := Step(s, l).live;
            && (l.OnCtor? ==>
                  live == if l.ptr != 0 && l.ok && (l.ptr in s.live || |s.live| < 1024)
                          then s.live[l.ptr := Live(l.now, l.pid, l.tid)] else s.live)
            && (l.OnRelease? && l.ptr == 0 ==> live == s.live)
            && ((l.OnRelease? && l.ptr != 0) || l.Evict? ==>
                  l.ptr !in live && forall p :: p != l.ptr ==>
                    (p in live <==> p in s.live) && (p in live ==> live[p] == s.live[p]))
  {
  }

  /** Two Closed events for one pointer always have a recorded open between. */
  lemma ClosesNeedOpensBetween(trace: seq<Label>, a: nat, b: nat)
    requires a < b < |trace| && trace[a].OnRelease? && trace[b].OnRelease? && trace[a].ptr == trace[b].ptr
    requires Produced(Run(trace[..a]), trace[a]).Some? && Produced(Run(trace[..b]), trace[b]).Some?
    ensures exists i :: a < i < b && Records(trace, i, trace[a].ptr)
  {
    hide Run, Produced, RecordsAt;
    var i := ClosedExplained(trace[..b], trace[b]);
    assert trace[..b][a] == trace[a];
    RecordsPrefix(trace, b, i, trace[a].ptr);
  }

  // ---------- N opens, N closes ----------

  function CountKind(events: seq<AttachEvent>, kind: Kind): nat {
    if |events| == 0 then 0
    else CountKind(events[..|events| - 1], kind) + if events[|events| - 1].kind == kind then 1 else 0
  }

  function Ctors(trace: seq<Label>): nat {
    if |trace| == 0 then 0 else Ctors(trace[..|trace| - 1]) + if trace[|trace| - 1].OnCtor? then 1 else 0
  }

  predicate NoLossAt(s: State, l: Label) {
    match l
    case OnCtor(_, p, _, _, ok, ring) => p != 0 && Stored(Kernel, s.live, p, LIVE_MAX, ok) && ring
    case OnRelease(_, p, _, _, ring) => p != 0 && ring
    case Evict(_, _) => false
  }

  /** Nothing is lost: no eviction, no refused insert, no full ring, no null pointer. */
  ghost predicate NoLoss(trace: seq<Label>) {
    forall k :: 0 <= k < |trace| ==> NoLossAt(Run(trace[..k]), trace[k])
  }

  /** Is p constructed and not yet released, going by the probed calls alone? */
  predicate IsOpen(trace: seq<Label>, p: u64) {
    if |trace| == 0 then false
    else if trace[|trace| - 1].ptr == p then trace[|trace| - 1].OnCtor?
    else IsOpen(trace[..|trace| - 1], p)
  }

  predicate DisciplinedAt(trace: seq<Label>, k: nat)
    requires k < |trace|
  {
    trace[k].OnCtor? <==> !IsOpen(trace[..k], trace[k].ptr)
  }

  /** Only closed pointers are opened and only open ones released. Reuse of a
      pointer after its release is allowed. */
  ghost predicate Disciplined(trace: seq<Label>) {
    forall k :: 0 <= k < |trace| ==> DisciplinedAt(trace, k)
  }

  lemma PrefixKeeps(trace: seq<Label>)
    requires |trace| > 0 && NoLoss(trace) && Disciplined(trace)
    ensures NoLoss(trace[..|trace| - 1]) && Disciplined(trace[..|trace| - 1])
    ensures NoLossAt(Run(trace[..|trace| - 1]), trace[|trace| - 1]) && DisciplinedAt(trace, |trace| - 1)
  {
    hide Run, IsOpen, NoLossAt;
    var before := trace[..|trace| - 1];
    forall k | 0 <= k < |before| ensures NoLossAt(Run(before[..k]), before[k]) && DisciplinedAt(before, k) {
      assert before[..k] == trace[..k];
      assert NoLossAt(Run(trace[..k]), trace[k]) && DisciplinedAt(trace, k);
    }
    assert NoLossAt(Run(trace[..|before|]), trace[|before|]);
  }

  /** Without loss a pointer is live exactly between its open and its release. */
  lemma {:induction false} LiveExactly(trace: seq<Label>, p: u64)
    requires NoLoss(trace) && Disciplined(trace)
    ensures p in Run(trace).live <==> IsOpen(trace, p)
  {
    if |trace| > 0 {
      PrefixKeeps(trace);
      LiveExactly(trace[..|trace| - 1], p);
      hide NoLoss, Disciplined;
    }
  }

  lemma BalanceStep(s: State, l: Label)
    requires NoLossAt(s, l) && (l.OnCtor? <==> l.ptr !in s.live)
    ensures Step(s, l).events == s.events + [Produced(s, l).value]
    ensures Produced(s, l).value.kind == if l.OnCtor? then Opened else Closed
    ensures |Step(s, l).live| == |s.live| + if l.OnCtor? then 1 else -1
  {
    if l.OnCtor? { assert LiveAfter(s, l).Keys == s.live.Keys + {l.ptr}; }
  }

  lemma CountKindSnoc(events: seq<AttachEvent>, e: AttachEvent, kind: Kind)
    ensures CountKind(events + [e], kind) == CountKind(events, kind) + if e.kind == kind then 1 else 0
  {
    assert (events + [e])[..|events|] == events;
  }

  /** Without loss, opens are in balance with closes and live attachments. */
  lemma {:induction false} Balance(trace: seq<Label>)
    requires NoLoss(trace) && Disciplined(trace)
    ensures CountKind(Run(trace).events, Opened) == Ctors(trace)
    ensures CountKind(Run(trace).events, Closed) + |Run(trace).live| == Ctors(trace)
  {
    if |trace| > 0 {
      var before, l := trace[..|trace| - 1], trace[|trace| - 1];
      var s := Run(before);
      assert Run(trace) == Step(s, l);
      hide Run, Step, NoLoss, Disciplined, NoLossAt, CountKind;
      PrefixKeeps(trace);
      Balance(before);
      LiveExactly(before, l.ptr);
      BalanceStep(s, l);
      CountKindSnoc(s.events, Produced(s, l).value, Opened);
      CountKindSnoc(s.events, Produced(s, l).value, Closed);
    }
  }

  /** The documented success criterion: N opens, each of a pointer not open at
      the time and each released, with nothing lost, give exactly N Opened and
      N Closed events. */
  lemma OpensAndClosesMatch(trace: seq<Label>)
    requires NoLoss(trace) && Disciplined(trace) && (forall p :: !IsOpen(trace, p))
    ensures CountKind(Run(trace).events, Opened) == Ctors(trace)
    ensures CountKind(Run(trace).events, Closed) == Ctors(trace)
  {
    Balance(trace);
    forall p ensures p !in Run(trace).live { LiveExactly(trace, p); }
    assert Run(trace).live == map[];
  }
}

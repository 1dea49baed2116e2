/** Where every field of every slowquery event comes from: which probe firings
    of the run it joins, and that they are the right ones. */
module SlowQueryProvenance {
  import opened Machine
  import Slots
  import opened SqlText
  import opened SlowQuery

  // ---------- each in-progress map is a slot machine ----------

  /** The firings of a run as seen by one in-progress map. */
  function Ops<V>(trace: seq<Label>, op: (State, Label) -> Slots.Op<V>): (r: seq<Slots.Op<V>>)
    ensures |r| == |trace|
    ensures forall k :: 0 <= k < |trace| ==> r[k] == op(Run(Kernel, trace[..k]), trace[k])
  {
    seq(|trace|, k requires 0 <= k < |trace| => op(Run(Kernel, trace[..k]), trace[k]))
  }

  function PrepareOps(trace: seq<Label>): seq<Slots.Op<WithSql>> { Ops(trace, (s, l) => PrepareOp(Kernel, s, l)) }
  function ExecuteOps(trace: seq<Label>): seq<Slots.Op<ExecuteRecord>> { Ops(trace, (s, l) => ExecuteOp(Kernel, s, l)) }
  function ImmediateOps(trace: seq<Label>): seq<Slots.Op<WithSql>> { Ops(trace, (s, l) => ImmediateOp(Kernel, s, l)) }
  function OpenOps(trace: seq<Label>): seq<Slots.Op<OpenCursor>> { Ops(trace, (s, l) => OpenOp(Kernel, s, l)) }
  function FetchOps(trace: seq<Label>): seq<Slots.Op<u64>> { Ops(trace, (s, l) => FetchOp(Kernel, s, l)) }

  lemma OpsPrefix<V>(trace: seq<Label>, op: (State, Label) -> Slots.Op<V>)
    requires |trace| > 0
    ensures Ops(trace, op)[..|trace| - 1] == Ops(trace[..|trace| - 1], op)
  {
    hide Step;
    var before := trace[..|trace| - 1];
    forall k | 0 <= k < |before| ensures Ops(trace, op)[k] == Ops(before, op)[k] {
      assert before[..k] == trace[..k];
    }
  }

  lemma SlotMapsStep(s: State, l: Label)
    ensures var s' := Step(Kernel, s, l);
            && s'.prepare == Slots.Apply(s.prepare, PrepareOp(Kernel, s, l))
            && s'.execute == Slots.Apply(s.execute, ExecuteOp(Kernel, s, l))
            && s'.immediate == Slots.Apply(s.immediate, ImmediateOp(Kernel, s, l))
            && s'.opening == Slots.Apply(s.opening, OpenOp(Kernel, s, l))
            && s'.fetching == Slots.Apply(s.fetching, FetchOp(Kernel, s, l))
  {
  }

  lemma {:induction false} MapsAreSlots(trace: seq<Label>)
    ensures Run(Kernel, trace).prepare == Slots.Run(PrepareOps(trace))
    ensures Run(Kernel, trace).execute == Slots.Run(ExecuteOps(trace))
    ensures Run(Kernel, trace).immediate == Slots.Run(ImmediateOps(trace))
    ensures Run(Kernel, trace).opening == Slots.Run(OpenOps(trace))
    ensures Run(Kernel, trace).fetching == Slots.Run(FetchOps(trace))
  {
    hide Step, Slots.Apply, PrepareOp, ExecuteOp, ImmediateOp, OpenOp, FetchOp;
    if |trace| > 0 {
      var before := trace[..|trace| - 1];
      MapsAreSlots(before);
      SlotMapsStep(Run(Kernel, before), trace[|trace| - 1]);
      OpsPrefix(trace, (s, l) => PrepareOp(Kernel, s, l));
      OpsPrefix(trace, (s, l) => ExecuteOp(Kernel, s, l));
      OpsPrefix(trace, (s, l) => ImmediateOp(Kernel, s, l));
      OpsPrefix(trace, (s, l) => OpenOp(Kernel, s, l));
      OpsPrefix(trace, (s, l) => FetchOp(Kernel, s, l));
    }
  }

  // ---------- pairing, for every probed function ----------

  predicate CapacityRefusalOnly(l: Label) {
    match l
    case OnPrepareEntry(_, _, _, _, _, ok) => ok
    case OnExecuteEntry(_, _, request, ok) => ok && request != 0
    case OnImmediateEntry(_, _, _, _, _, ok) => ok
    case OnOpenEntry(_, _, _, ok) => ok
    case OnFetchEntry(_, _, cursor, ok) => ok && cursor != 0
    case _ => true
  }

  /** The only refusals are those of a full map, and no pointer argument is null. */
  ghost predicate CapacityRefusalsOnly(trace: seq<Label>) {
    forall k :: 0 <= k < |trace| ==> CapacityRefusalOnly(trace[k])
  }

  predicate HonestOp<V>(op: Slots.Op<V>, slots: map<u32, V>) {
    op.Enter? && !op.stored ==> op.tid !in slots
  }

  lemma CapacityRefusalIsHonest(s: State, l: Label)
    requires CapacityRefusalOnly(l)
    ensures HonestOp(PrepareOp(Kernel, s, l), s.prepare) && HonestOp(ExecuteOp(Kernel, s, l), s.execute)
    ensures HonestOp(ImmediateOp(Kernel, s, l), s.immediate) && HonestOp(OpenOp(Kernel, s, l), s.opening)
    ensures HonestOp(FetchOp(Kernel, s, l), s.fetching)
  {
    hide CaptureOf;
  }

  lemma OpsTake<V>(trace: seq<Label>, n: nat, op: (State, Label) -> Slots.Op<V>)
    requires n <= |trace|
    ensures Ops(trace, op)[..n] == Ops(trace[..n], op)
  {
    hide Step;
    forall k | 0 <= k < n ensures Ops(trace, op)[k] == Ops(trace[..n], op)[k] {
      assert trace[..n][..k] == trace[..k];
    }
  }

  lemma CapacityRefusalsAreHonest(trace: seq<Label>)
    requires CapacityRefusalsOnly(trace)
    ensures Slots.Honest(PrepareOps(trace)) && Slots.Honest(ExecuteOps(trace)) && Slots.Honest(ImmediateOps(trace))
    ensures Slots.Honest(OpenOps(trace)) && Slots.Honest(FetchOps(trace))
  {
    forall k | 0 <= k < |trace|
      ensures Slots.HonestAt(PrepareOps(trace), k) && Slots.HonestAt(ExecuteOps(trace), k)
      ensures Slots.HonestAt(ImmediateOps(trace), k) && Slots.HonestAt(OpenOps(trace), k)
      ensures Slots.HonestAt(FetchOps(trace), k)
    {
      hide Step, Run, Slots.Run, CapacityRefusalOnly, PrepareOp, ExecuteOp, ImmediateOp, OpenOp, FetchOp;
      OpsTake(trace, k, (s, l) => PrepareOp(Kernel, s, l));
      OpsTake(trace, k, (s, l) => ExecuteOp(Kernel, s, l));
      OpsTake(trace, k, (s, l) => ImmediateOp(Kernel, s, l));
      OpsTake(trace, k, (s, l) => OpenOp(Kernel, s, l));
      OpsTake(trace, k, (s, l) => FetchOp(Kernel, s, l));
      MapsAreSlots(trace[..k]);
      CapacityRefusalIsHonest(Run(Kernel, trace[..k]), trace[k]);
    }
  }

  /** What an exit probe on `tid` will find in its slot: exactly the entry of
      the call now returning, if that call is a leaf whose entry was stored. */
  ghost predicate FindsOwnCall<V>(ops: seq<Slots.Op<V>>, tid: u32, slots: map<u32, V>) {
    var call := Slots.Top(ops, tid);
    && (tid in slots <==> call.Some? && Slots.Last(ops, tid) == call && ops[call.value].stored)
    && (tid in slots ==> slots[tid] == ops[call.value].v)
  }

  /** Nested-call pairing for all five probed functions, in every interleaving
      of threads, tracing possibly starting in the middle of calls. */
  lemma ExitsPairWithTheirOwnLeafCalls(trace: seq<Label>, tid: u32)
    requires CapacityRefusalsOnly(trace)
    ensures FindsOwnCall(PrepareOps(trace), tid, Run(Kernel, trace).prepare)
    ensures FindsOwnCall(ExecuteOps(trace), tid, Run(Kernel, trace).execute)
    ensures FindsOwnCall(ImmediateOps(trace), tid, Run(Kernel, trace).immediate)
    ensures FindsOwnCall(OpenOps(trace), tid, Run(Kernel, trace).opening)
    ensures FindsOwnCall(FetchOps(trace), tid, Run(Kernel, trace).fetching)
  {
    hide Step;
    CapacityRefusalsAreHonest(trace);
    MapsAreSlots(trace);
    Slots.LeafCallsPair(PrepareOps(trace), tid);
    Slots.LeafCallsPair(ExecuteOps(trace), tid);
    Slots.LeafCallsPair(ImmediateOps(trace), tid);
    Slots.LeafCallsPair(OpenOps(trace), tid);
    Slots.LeafCallsPair(FetchOps(trace), tid);
  }

  lemma EventTimes(now: u64, tid: u32, s: State, ring: bool)
    ensures var e := Produced(s, OnExecuteExit(now, tid, ring));
            && (e.Some? <==> tid in s.execute)
            && (e.Some? ==> e.value.executeNs == SatSub(now, s.execute[tid].tsNs))
  {
  }

  lemma ExecuteEntryAt(trace: seq<Label>, k: nat)
    requires k < |ExecuteOps(trace)| && ExecuteOps(trace)[k].Enter?
    ensures k < |trace| && trace[k].OnExecuteEntry? && trace[k].tid == ExecuteOps(trace)[k].tid
    ensures ExecuteOps(trace)[k].v == ExecuteRecord(trace[k].now, trace[k].request)
  {
    hide Step, Run, Stored;
  }

  /** An execute exit reports a call exactly when the returning call is a leaf
      that was recorded at entry, and with that call's own duration. */
  lemma ExecuteDurationIsItsOwnCalls(trace: seq<Label>, now: u64, tid: u32, ring: bool)
    requires CapacityRefusalsOnly(trace)
    ensures var call := Slots.Top(ExecuteOps(trace), tid);
            var e := Produced(Run(Kernel, trace), OnExecuteExit(now, tid, ring));
            && (e.Some? <==>
                  call.Some? && Slots.Last(ExecuteOps(trace), tid) == call && ExecuteOps(trace)[call.value].stored)
            && (e.Some? ==> trace[call.value].OnExecuteEntry? && trace[call.value].tid == tid
                            && e.value.executeNs == SatSub(now, trace[call.value].now))
  {
    hide Step, Run, Produced, CapacityRefusalsOnly, Slots.Top, Slots.Last, Slots.Run;
    hide Ops, PrepareOps, ExecuteOps, ImmediateOps, OpenOps, FetchOps;
    ExitsPairWithTheirOwnLeafCalls(trace, tid);
    EventTimes(now, tid, Run(Kernel, trace), ring);
    var call := Slots.Top(ExecuteOps(trace), tid);
    if call.Some? { ExecuteEntryAt(trace, call.value); }
  }

  // ---------- provenance of joined records, with no assumption at all ----------

  /** This step is a prepare exit that records request pointer r. */
  predicate RecordsPreparedAt(s: State, l: Label, r: u64) {
    l.OnPrepareExit? && l.ret == r && r != 0 && l.tid in s.prepare && Stored(Kernel, s.prepared, r, LRU_MAX, l.ok)
  }

  predicate RecordsPrepared(trace: seq<Label>, k: nat, r: u64)
    requires k < |trace|
  {
    RecordsPreparedAt(Run(Kernel, trace[..k]), trace[k], r)
  }

  /** The record now held for r was built by prepare exit k, the latest to
      record r, from prepare entry i, the latest stored on k's thread and not
      taken by an earlier exit. */
  predicate PreparedBy(trace: seq<Label>, r: u64, k: nat, i: nat) {
    && i < k < |trace|
    && RecordsPrepared(trace, k, r)
    && (forall m :: k < m < |trace| ==> !RecordsPrepared(trace, m, r))
    && Slots.LatestStored(PrepareOps(trace[..k]), trace[k].tid) == Some(i)
    && trace[i].OnPrepareEntry? && trace[i].tid == trace[k].tid
  }

  function CaptureAt(l: Label): WithSql
    requires l.OnPrepareEntry? || l.OnImmediateEntry?
  {
    CaptureOf(l.now, l.attachment, l.length, l.text)
  }

  // The entry each slot's contents come from.

  lemma PrepareSlot(trace: seq<Label>, tid: u32) returns (i: nat)
    requires tid in Run(Kernel, trace).prepare
    ensures Slots.LatestStored(PrepareOps(trace), tid) == Some(i) && i < |trace|
    ensures trace[i].OnPrepareEntry? && trace[i].tid == tid && Run(Kernel, trace).prepare[tid] == CaptureAt(trace[i])
  {
    hide Step, Run, Stored, Slots.Run, Slots.LatestStored;
    MapsAreSlots(trace);
    Slots.SlotHoldsLatestStored(PrepareOps(trace), tid);
    i := Slots.LatestStored(PrepareOps(trace), tid).value;
  }

  lemma ExecuteSlot(trace: seq<Label>, tid: u32) returns (i: nat)
    requires tid in Run(Kernel, trace).execute
    ensures Slots.LatestStored(ExecuteOps(trace), tid) == Some(i) && i < |trace|
    ensures trace[i].OnExecuteEntry? && trace[i].tid == tid
    ensures Run(Kernel, trace).execute[tid] == ExecuteRecord(trace[i].now, trace[i].request)
  {
    hide Step, Run, Stored, Slots.Run, Slots.LatestStored;
    MapsAreSlots(trace);
    Slots.SlotHoldsLatestStored(ExecuteOps(trace), tid);
    i := Slots.LatestStored(ExecuteOps(trace), tid).value;
  }

  lemma ImmediateSlot(trace: seq<Label>, tid: u32) returns (i: nat)
    requires tid in Run(Kernel, trace).immediate
    ensures Slots.LatestStored(ImmediateOps(trace), tid) == Some(i) && i < |trace|
    ensures trace[i].OnImmediateEntry? && trace[i].tid == tid
    ensures Run(Kernel, trace).immediate[tid] == CaptureAt(trace[i])
  {
    hide Step, Run, Stored, Slots.Run, Slots.LatestStored;
    MapsAreSlots(trace);
    Slots.SlotHoldsLatestStored(ImmediateOps(trace), tid);
    i := Slots.LatestStored(ImmediateOps(trace), tid).value;
  }

  lemma OpenSlot(trace: seq<Label>, tid: u32) returns (i: nat)
    requires tid in Run(Kernel, trace).opening
    ensures Slots.LatestStored(OpenOps(trace), tid) == Some(i) && i < |trace|
    ensures trace[i].OnOpenEntry? && trace[i].tid == tid
    ensures Run(Kernel, trace).opening[tid] == OpenCursor(trace[i].now, trace[i].request)
  {
    hide Step, Run, Stored, Slots.Run, Slots.LatestStored;
    MapsAreSlots(trace);
    Slots.SlotHoldsLatestStored(OpenOps(trace), tid);
    i := Slots.LatestStored(OpenOps(trace), tid).value;
  }

  lemma FetchSlot(trace: seq<Label>, tid: u32) returns (i: nat)
    requires tid in Run(Kernel, trace).fetching
    ensures Slots.LatestStored(FetchOps(trace), tid) == Some(i) && i < |trace|
    ensures trace[i].OnFetchEntry? && trace[i].tid == tid && Run(Kernel, trace).fetching[tid] == trace[i].cursor
  {
    hide Step, Run, Stored, Slots.Run, Slots.LatestStored;
    MapsAreSlots(trace);
    Slots.SlotHoldsLatestStored(FetchOps(trace), tid);
    i := Slots.LatestStored(FetchOps(trace), tid).value;
  }

  // Records change only by being recorded anew or removed.

  lemma PreparedAfterSource(s: State, l: Label, r: u64)
    requires r in PreparedAfter(Kernel, s, l)
    ensures if RecordsPreparedAt(s, l, r)
            then PreparedAfter(Kernel, s, l)[r] == PreparedOf(s.prepare[l.tid], l.now)
            else r in s.prepared && PreparedAfter(Kernel, s, l)[r] == s.prepared[r]
  {
  }

  /** This step is an openCursor exit that records cursor pointer c. */
  predicate RecordsCursorAt(s: State, l: Label, c: u64) {
    l.OnOpenExit? && l.ret == c && c != 0 && l.tid in s.opening && Stored(Kernel, s.cursors, c, LRU_MAX, l.ok)
  }

  lemma CursorsAfterSource(s: State, l: Label, c: u64)
    requires c in CursorsAfter(Kernel, s, l)
    ensures if RecordsCursorAt(s, l, c)
            then CursorsAfter(Kernel, s, l)[c] == s.opening[l.tid]
            else c in s.cursors && CursorsAfter(Kernel, s, l)[c] == s.cursors[c]
  {
  }

  lemma RunUnfolds(trace: seq<Label>)
    requires |trace| > 0
    ensures var s, l := Run(Kernel, trace[..|trace| - 1]), trace[|trace| - 1];
            && Run(Kernel, trace).prepared == PreparedAfter(Kernel, s, l)
            && Run(Kernel, trace).cursors == CursorsAfter(Kernel, s, l)
            && Run(Kernel, trace).events == Emit(s.events, Produced(s, l), RingTakes(Kernel, l))
  {
  }

  lemma RecordsPreparedPrefix(trace: seq<Label>, k: nat, r: u64)
    requires k < |trace| - 1
    ensures RecordsPrepared(trace[..|trace| - 1], k, r) == RecordsPrepared(trace, k, r)
  {
    hide Step, Run, Stored;
    assert trace[..|trace| - 1][..k] == trace[..k];
  }

  lemma PreparedByStillHolds(trace: seq<Label>, r: u64, k: nat, i: nat)
    requires |trace| > 0 && PreparedBy(trace[..|trace| - 1], r, k, i) && !RecordsPrepared(trace, |trace| - 1, r)
    ensures PreparedBy(trace, r, k, i)
  {
    hide Step, Run, Stored, Slots.LatestStored, PrepareOps, RecordsPrepared;
    var before := trace[..|trace| - 1];
    assert before[..k] == trace[..k];
    RecordsPreparedPrefix(trace, k, r);
    forall m | k < m < |trace| ensures !RecordsPrepared(trace, m, r) {
      if m < |before| { RecordsPreparedPrefix(trace, m, r); }
    }
  }

  /** The last step recorded r. */
  lemma PreparedNow(trace: seq<Label>, r: u64) returns (i: nat)
    requires |trace| > 0 && RecordsPrepared(trace, |trace| - 1, r)
    ensures PreparedBy(trace, r, |trace| - 1, i)
    ensures Run(Kernel, trace).prepared[r] == PreparedOf(CaptureAt(trace[i]), trace[|trace| - 1].now)
  {
    var n := |trace| - 1;
    RunUnfolds(trace);
    hide Step, Run, Stored, CursorsAfter, CaptureOf, PreparedOf, Slots.LatestStored, PrepareOps;
    i := PrepareSlot(trace[..n], trace[n].tid);
  }

  /** The last step did not record r. */
  lemma PreparedBefore(trace: seq<Label>, r: u64)
    requires |trace| > 0 && !RecordsPrepared(trace, |trace| - 1, r) && r in Run(Kernel, trace).prepared
    ensures r in Run(Kernel, trace[..|trace| - 1]).prepared
    ensures Run(Kernel, trace).prepared[r] == Run(Kernel, trace[..|trace| - 1]).prepared[r]
  {
    RunUnfolds(trace);
    hide Step, Run, Stored, PreparedAfter, CursorsAfter;
    PreparedAfterSource(Run(Kernel, trace[..|trace| - 1]), trace[|trace| - 1], r);
  }

  lemma PreparedByIndices(trace: seq<Label>, r: u64)
    ensures forall k: nat, i: nat :: PreparedBy(trace, r, k, i) ==> i < k < |trace| && trace[i].OnPrepareEntry?
  {
    hide RecordsPrepared, Slots.LatestStored, PrepareOps;
  }

  lemma {:induction false} PreparedProvenance(trace: seq<Label>, r: u64) returns (k: nat, i: nat)
    requires r in Run(Kernel, trace).prepared
    ensures PreparedBy(trace, r, k, i)
    ensures Run(Kernel, trace).prepared[r] == PreparedOf(CaptureAt(trace[i]), trace[k].now)
  {
    assert |trace| > 0;
    hide Step, Run, RecordsPrepared, CaptureOf, PreparedOf, PreparedBy;
    PreparedByIndices(trace, r);
    k := |trace| - 1;
    if RecordsPrepared(trace, k, r) {
      i := PreparedNow(trace, r);
    } else {
      PreparedBefore(trace, r);
      PreparedByIndices(trace[..k], r);
      k, i := PreparedProvenance(trace[..k], r);
      PreparedByStillHolds(trace, r, k, i);
    }
  }

  predicate RecordsCursor(trace: seq<Label>, k: nat, c: u64)
    requires k < |trace|
  {
    RecordsCursorAt(Run(Kernel, trace[..k]), trace[k], c)
  }

  /** The record now held for c was stored by openCursor exit k, the latest to
      record c, for the call entered at i. */
  predicate OpenedBy(trace: seq<Label>, c: u64, k: nat, i: nat) {
    && i < k < |trace|
    && RecordsCursor(trace, k, c)
    && (forall m :: k < m < |trace| ==> !RecordsCursor(trace, m, c))
    && Slots.LatestStored(OpenOps(trace[..k]), trace[k].tid) == Some(i)
    && trace[i].OnOpenEntry? && trace[i].tid == trace[k].tid
  }

  lemma RecordsCursorPrefix(trace: seq<Label>, k: nat, c: u64)
    requires k < |trace| - 1
    ensures RecordsCursor(trace[..|trace| - 1], k, c) == RecordsCursor(trace, k, c)
  {
    hide Step, Run, Stored;
    assert trace[..|trace| - 1][..k] == trace[..k];
  }

  lemma OpenedByStillHolds(trace: seq<Label>, c: u64, k: nat, i: nat)
    requires |trace| > 0 && OpenedBy(trace[..|trace| - 1], c, k, i) && !RecordsCursor(trace, |trace| - 1, c)
    ensures OpenedBy(trace, c, k, i)
  {
    hide Step, Run, Stored, PreparedAfter, CursorsAfter, Slots.LatestStored, OpenOps, RecordsCursor;
    var before := trace[..|trace| - 1];
    assert before[..k] == trace[..k];
    RecordsCursorPrefix(trace, k, c);
    forall m | k < m < |trace| ensures !RecordsCursor(trace, m, c) {
      if m < |before| { RecordsCursorPrefix(trace, m, c); }
    }
  }

  /** The last step recorded c. */
  lemma OpenedNow(trace: seq<Label>, c: u64) returns (i: nat)
    requires |trace| > 0 && RecordsCursor(trace, |trace| - 1, c)
    ensures OpenedBy(trace, c, |trace| - 1, i)
    ensures Run(Kernel, trace).cursors[c] == OpenCursor(trace[i].now, trace[i].request)
  {
    var n := |trace| - 1;
    RunUnfolds(trace);
    hide Step, Run, Stored, PreparedAfter, Slots.LatestStored, OpenOps;
    i := OpenSlot(trace[..n], trace[n].tid);
  }

  /** The last step did not record c. */
  lemma OpenedBefore(trace: seq<Label>, c: u64)
    requires |trace| > 0 && !RecordsCursor(trace, |trace| - 1, c) && c in Run(Kernel, trace).cursors
    ensures c in Run(Kernel, trace[..|trace| - 1]).cursors
    ensures Run(Kernel, trace).cursors[c] == Run(Kernel, trace[..|trace| - 1]).cursors[c]
  {
    RunUnfolds(trace);
    hide Step, Run, Stored, PreparedAfter, CursorsAfter;
    CursorsAfterSource(Run(Kernel, trace[..|trace| - 1]), trace[|trace| - 1], c);
  }

  lemma OpenedByIndices(trace: seq<Label>, c: u64)
    ensures forall k: nat, i: nat :: OpenedBy(trace, c, k, i) ==> i < k < |trace| && trace[i].OnOpenEntry?
  {
    hide RecordsCursor, Slots.LatestStored, OpenOps;
  }

  lemma {:induction false} CursorProvenance(trace: seq<Label>, c: u64) returns (k: nat, i: nat)
    requires c in Run(Kernel, trace).cursors
    ensures OpenedBy(trace, c, k, i)
    ensures Run(Kernel, trace).cursors[c] == OpenCursor(trace[i].now, trace[i].request)
  {
    assert |trace| > 0;
    hide Step, Run, RecordsCursor, OpenedBy;
    OpenedByIndices(trace, c);
    k := |trace| - 1;
    if RecordsCursor(trace, k, c) {
      i := OpenedNow(trace, c);
    } else {
      OpenedBefore(trace, c);
      OpenedByIndices(trace[..k], c);
      k, i := CursorProvenance(trace[..k], c);
      OpenedByStillHolds(trace, c, k, i);
    }
  }

  // ---------- every event explained ----------

  lemma EmitAt(events: seq<Event>, e: Option<Event>, ring: bool, j: nat)
    requires j < |Emit(events, e, ring)|
    ensures if j < |events| then Emit(events, e, ring)[j] == events[j] else e == Some(Emit(events, e, ring)[j])
  {
  }

  /** Every event on the ring was produced by one step of the run, the event the
      lemmas below explain. */
  lemma {:induction false} EveryEventIsProduced(trace: seq<Label>, j: nat) returns (n: nat)
    requires j < |Run(Kernel, trace).events|
    ensures n < |trace| && Produced(Run(Kernel, trace[..n]), trace[n]) == Some(Run(Kernel, trace).events[j])
  {
    assert |trace| > 0;
    var before := trace[..|trace| - 1];
    RunUnfolds(trace);
    n := |trace| - 1;
    var s := Run(Kernel, before);
    EmitAt(s.events, Produced(s, trace[n]), RingTakes(Kernel, trace[n]), j);
    hide Step, Run, Produced, Emit, RingTakes;
    if j < |Run(Kernel, before).events| {
      n := EveryEventIsProduced(before, j);
      assert before[..n] == trace[..n];
    }
  }

  /** The event carries the text captured at entry `l` and its flag: the intended
      text and the right flag, except exactly when the upper half of the length
      register is dirty and its lower half is zero over some text (for the text),
      or within the 511 bytes that were read (for the flag). */
  ghost predicate TextExplained(l: Label, e: Event)
    requires l.OnPrepareEntry? || l.OnImmediateEntry?
  {
    var declared, full := l.length % TWO32, |ReadUserStr(l.text)| == 511;
    && (SqlStr(e.sqlLen, e.sql) == Intended(l.text, declared)
        <==> !(l.length >= TWO32 && declared == 0 && |ReadUserStr(l.text)| > 0))
    && ((e.truncated != 0 <==> full && declared > 511)
        <==> !(l.length >= TWO32 && full && declared <= 511))
  }

  /** The time from start to now; zero should the clock have gone back. */
  predicate IsElapsed(ns: u64, start: u64, now: u64) { if start <= now then start + ns == now else ns == 0 }

  /** The statement part of an event for request r: unknown when no record is
      held; otherwise the attachment, prepare duration and text of the prepare
      call that last recorded r. */
  ghost predicate JoinExplained(trace: seq<Label>, r: u64, e: Event) {
    if r !in Run(Kernel, trace).prepared
    then e.attachment == 0 && e.prepareNs == 0 && e.truncated == 0 && SqlStr(e.sqlLen, e.sql) == []
    else exists k: nat, i: nat ::
      && PreparedBy(trace, r, k, i)
      && e.attachment == trace[i].attachment
      && IsElapsed(e.prepareNs, trace[i].now, trace[k].now)
      && TextExplained(trace[i], e)
  }

  lemma CaptureExplainsText(l: Label, e: Event)
    requires l.OnPrepareEntry? || l.OnImmediateEntry?
    requires var w := CaptureAt(l); e.sqlLen == w.sqlLen && e.truncated == w.truncated && e.sql == w.sql
    ensures TextExplained(l, e)
  {
    DecodedTextIsIntended(l.now, l.attachment, l.length, l.text);
    TruncatedFlagIsExact(l.now, l.attachment, l.length, l.text);
    hide CaptureOf, SqlStr, Intended, ReadUserStr;
  }

  lemma JoinIsExplained(trace: seq<Label>, r: u64, now: u64, tid: u32, executeNs: u64)
    ensures JoinExplained(trace, r, EventOf(now, tid, executeNs, Lookup(Run(Kernel, trace).prepared, r)))
  {
    hide Step, Run, Stored, PreparedAfter, CursorsAfter, Slots.LatestStored;
    hide PrepareOps, OpenOps, ExecuteOps, ImmediateOps, FetchOps;
    var e := EventOf(now, tid, executeNs, Lookup(Run(Kernel, trace).prepared, r));
    if r in Run(Kernel, trace).prepared {
      var k, i := PreparedProvenance(trace, r);
      CaptureExplainsText(trace[i], e);
    } else {
      assert e.sql[..0] == [];
    }
  }

  /** An execute event: timed from the latest stored execute entry of its
      thread, joined with that entry's request. */
  lemma ExecuteEventExplained(trace: seq<Label>, now: u64, tid: u32, ring: bool) returns (i: nat)
    requires Produced(Run(Kernel, trace), OnExecuteExit(now, tid, ring)).Some?
    ensures var e := Produced(Run(Kernel, trace), OnExecuteExit(now, tid, ring)).value;
            && Slots.LatestStored(ExecuteOps(trace), tid) == Some(i) && i < |trace|
            && trace[i].OnExecuteEntry? && trace[i].tid == tid == e.tid && e.tsNs == now
            && IsElapsed(e.executeNs, trace[i].now, now)
            && JoinExplained(trace, trace[i].request, e)
  {
    hide Step, Run, Stored, PreparedAfter, CursorsAfter, Slots.LatestStored;
    hide PrepareOps, OpenOps, ExecuteOps, ImmediateOps, FetchOps;
    i := ExecuteSlot(trace, tid);
    JoinIsExplained(trace, trace[i].request, now, tid, SatSub(now, trace[i].now));
  }

  /** An execute-immediate event: one call's own attachment, text and duration,
      with no prepare phase. */
  lemma ImmediateEventExplained(trace: seq<Label>, now: u64, tid: u32, ring: bool) returns (i: nat)
    requires Produced(Run(Kernel, trace), OnImmediateExit(now, tid, ring)).Some?
    ensures var e := Produced(Run(Kernel, trace), OnImmediateExit(now, tid, ring)).value;
            && Slots.LatestStored(ImmediateOps(trace), tid) == Some(i) && i < |trace|
            && trace[i].OnImmediateEntry? && trace[i].tid == tid == e.tid && e.tsNs == now
            && IsElapsed(e.executeNs, trace[i].now, now) && e.prepareNs == 0
            && e.attachment == trace[i].attachment && TextExplained(trace[i], e)
  {
    hide Step, Run, Stored, PreparedAfter, CursorsAfter, Slots.LatestStored;
    hide PrepareOps, OpenOps, ExecuteOps, ImmediateOps, FetchOps;
    i := ImmediateSlot(trace, tid);
    CaptureExplainsText(trace[i], Produced(Run(Kernel, trace), OnImmediateExit(now, tid, ring)).value);
  }

  /** A cursor event: produced by the end-of-file return of a fetch on cursor c
      entered at f; timed from the entry i of the openCursor call whose exit k is
      the latest to have recorded c; joined with that call's request. */
  lemma CursorEventExplained(trace: seq<Label>, now: u64, tid: u32, ret: u64, ring: bool)
    returns (f: nat, k: nat, i: nat)
    requires Produced(Run(Kernel, trace), OnFetchExit(now, tid, ret, ring)).Some?
    ensures ret == 1
    ensures var e := Produced(Run(Kernel, trace), OnFetchExit(now, tid, ret, ring)).value;
            && Slots.LatestStored(FetchOps(trace), tid) == Some(f) && f < |trace|
            && trace[f].OnFetchEntry? && trace[f].tid == tid == e.tid && e.tsNs == now
            && OpenedBy(trace, trace[f].cursor, k, i)
            && IsElapsed(e.executeNs, trace[i].now, now)
            && JoinExplained(trace, trace[i].request, e)
  {
    hide Step, Run, Stored, PreparedAfter, CursorsAfter, Slots.LatestStored;
    hide PrepareOps, OpenOps, ExecuteOps, ImmediateOps, FetchOps;
    f := FetchSlot(trace, tid);
    k, i := CursorProvenance(trace, trace[f].cursor);
    JoinIsExplained(trace, trace[i].request, now, tid, SatSub(now, trace[i].now));
  }
}

/** The bounded tracker is a lossy refinement of the ideal one. */
module SlowQueryRefinement {
  import opened Machine
  import Slots
  import opened SqlText
  import opened SlowQuery

  /** A kernel event and its ideal counterpart: equal, or the kernel event has
      lost its prepare record and reports attachment, prepare time and SQL as
      unknown. Time, thread and execute duration always agree. */
  predicate EqualOrErased(e: Event, ideal: Event) {
    e == ideal || e == ideal.(attachment := 0, prepareNs := 0, sqlLen := 0, truncated := 0, sql := Zeros(SQL_MAX))
  }

  /** `at` embeds `kernel` into `ideal` as a subsequence, event for event. */
  ghost predicate Embeds(kernel: seq<Event>, ideal: seq<Event>, at: seq<nat>) {
    && |at| == |kernel|
    && (forall i, j :: 0 <= i < j < |at| ==> at[i] < at[j])
    && (forall i :: 0 <= i < |at| ==> at[i] < |ideal| && EqualOrErased(kernel[i], ideal[at[i]]))
  }

  ghost predicate LossySubsequence(kernel: seq<Event>, ideal: seq<Event>) {
    exists at: seq<nat> :: Embeds(kernel, ideal, at)
  }

  /** The environment's part of the bargain for one step. A prepare, openCursor
      or fetchNext entry must be stored, for its exit is what replaces or removes
      a record under a reused pointer; any other refused insert must have found
      its key absent, as a refusal by a full map always does. */
  predicate NoStaleRecord(s: State, l: Label) {
    match l
    case OnPrepareEntry(_, tid, _, _, _, ok) => Stored(Kernel, s.prepare, tid, IN_PROGRESS_MAX, ok)
    case OnPrepareExit(_, tid, ret, ok) =>
      tid in s.prepare && ret != 0 ==> Stored(Kernel, s.prepared, ret, LRU_MAX, ok) || ret !in s.prepared
    case OnExecuteEntry(_, tid, request, ok) =>
      request != 0 ==> Stored(Kernel, s.execute, tid, IN_PROGRESS_MAX, ok) || tid !in s.execute
    case OnImmediateEntry(_, tid, _, _, _, ok) =>
      Stored(Kernel, s.immediate, tid, IN_PROGRESS_MAX, ok) || tid !in s.immediate
    case OnOpenEntry(_, tid, _, ok) => Stored(Kernel, s.opening, tid, IN_PROGRESS_MAX, ok)
    case OnOpenExit(_, tid, ret, ok) =>
      tid in s.opening && ret != 0 ==> Stored(Kernel, s.cursors, ret, LRU_MAX, ok) || ret !in s.cursors
    case OnFetchEntry(_, tid, cursor, ok) => cursor != 0 ==> Stored(Kernel, s.fetching, tid, IN_PROGRESS_MAX, ok)
    case _ => true
  }

  predicate NoStaleRecords(trace: seq<Label>) {
    |trace| == 0
    || (NoStaleRecords(trace[..|trace| - 1])
        && NoStaleRecord(Run(Kernel, trace[..|trace| - 1]), trace[|trace| - 1]))
  }

  /** The simulation relation: what eviction and refusals can cost is entries,
      never their values. */
  ghost predicate Simulates(k: State, i: State) {
    && k.prepare == i.prepare && k.opening == i.opening && k.fetching == i.fetching
    && SubMap(k.execute, i.execute) && SubMap(k.immediate, i.immediate)
    && SubMap(k.prepared, i.prepared) && SubMap(k.cursors, i.cursors)
  }

  lemma RemoveKeepsSubMap<K, V>(k: map<K, V>, i: map<K, V>, key: K)
    requires SubMap(k, i)
    ensures SubMap(Remove(k, key), Remove(i, key))
  {
  }

  /** An entry probe keeps the submap relation if it is stored, or found nothing
      that it should have replaced. */
  lemma EnterKeepsSubMap<V>(k: map<u32, V>, i: map<u32, V>, tid: u32, v: V, stored: bool)
    requires SubMap(k, i) && (stored || tid !in k)
    ensures SubMap(Slots.Apply(k, Slots.Enter(tid, v, stored)), Slots.Apply(i, Slots.Enter(tid, v, true)))
  {
  }

  lemma LeaveKeepsSubMap<V>(k: map<u32, V>, i: map<u32, V>, tid: u32)
    requires SubMap(k, i)
    ensures SubMap(Slots.Apply(k, Slots.Leave(tid)), Slots.Apply(i, Slots.Leave(tid)))
  {
    RemoveKeepsSubMap(k, i, tid);
    hide SubMap;
  }

  lemma IdleKeeps<V>(k: map<u32, V>, i: map<u32, V>)
    requires SubMap(k, i)
    ensures SubMap(Slots.Apply(k, Slots.Idle), Slots.Apply(i, Slots.Idle))
  {
    hide SubMap;
  }

  lemma SlotsSimulate(k: State, i: State, l: Label)
    requires Simulates(k, i) && NoStaleRecord(k, l)
    ensures Slots.Apply(k.prepare, PrepareOp(Kernel, k, l)) == Slots.Apply(i.prepare, PrepareOp(Ideal, i, l))
    ensures Slots.Apply(k.opening, OpenOp(Kernel, k, l)) == Slots.Apply(i.opening, OpenOp(Ideal, i, l))
    ensures Slots.Apply(k.fetching, FetchOp(Kernel, k, l)) == Slots.Apply(i.fetching, FetchOp(Ideal, i, l))
  {
    assert l.OnPrepareEntry? ==> PrepareOp(Kernel, k, l) == PrepareOp(Ideal, i, l);
    hide CaptureOf, SubMap;
  }

  lemma ExecuteSlotsSimulate(k: State, i: State, l: Label)
    requires Simulates(k, i) && NoStaleRecord(k, l)
    ensures SubMap(Slots.Apply(k.execute, ExecuteOp(Kernel, k, l)), Slots.Apply(i.execute, ExecuteOp(Ideal, i, l)))
  {
    match l
    case OnExecuteEntry(now, tid, request, ok) =>
      if request != 0 {
        EnterKeepsSubMap(k.execute, i.execute, tid, ExecuteRecord(now, request),
                         Stored(Kernel, k.execute, tid, IN_PROGRESS_MAX, ok));
      }
    case OnExecuteExit(_, tid, _) => LeaveKeepsSubMap(k.execute, i.execute, tid);
    case _ => IdleKeeps(k.execute, i.execute);
  }

  lemma ImmediateSlotsSimulate(k: State, i: State, l: Label)
    requires Simulates(k, i) && NoStaleRecord(k, l)
    ensures SubMap(Slots.Apply(k.immediate, ImmediateOp(Kernel, k, l)),
                   Slots.Apply(i.immediate, ImmediateOp(Ideal, i, l)))
  {
    hide SubMap, CaptureOf, Slots.Apply;
    match l
    case OnImmediateEntry(now, tid, attachment, length, text, ok) =>
      EnterKeepsSubMap(k.immediate, i.immediate, tid, CaptureOf(now, attachment, length, text),
                       Stored(Kernel, k.immediate, tid, IN_PROGRESS_MAX, ok));
    case OnImmediateExit(_, tid, _) => LeaveKeepsSubMap(k.immediate, i.immediate, tid);
    case _ => IdleKeeps(k.immediate, i.immediate);
  }

  lemma PreparedSimulates(k: State, i: State, l: Label)
    requires Simulates(k, i) && NoStaleRecord(k, l)
    ensures SubMap(PreparedAfter(Kernel, k, l), PreparedAfter(Ideal, i, l))
  {
  }

  lemma CursorsSimulate(k: State, i: State, l: Label)
    requires Simulates(k, i) && NoStaleRecord(k, l)
    ensures SubMap(CursorsAfter(Kernel, k, l), CursorsAfter(Ideal, i, l))
  {
    if l.OnFetchExit? && l.tid in k.fetching && l.ret == 1 {
      RemoveKeepsSubMap(k.cursors, i.cursors, k.fetching[l.tid]);
    }
  }

  lemma StepSimulates(k: State, i: State, l: Label)
    requires Simulates(k, i) && NoStaleRecord(k, l)
    ensures Simulates(Step(Kernel, k, l), Step(Ideal, i, l))
  {
    SlotsSimulate(k, i, l);
    ExecuteSlotsSimulate(k, i, l);
    ImmediateSlotsSimulate(k, i, l);
    PreparedSimulates(k, i, l);
    CursorsSimulate(k, i, l);
  }

  /** A kernel handler produces nothing, or the ideal handler produces the
      matching event. */
  lemma ProducedMatches(k: State, i: State, l: Label)
    requires Simulates(k, i)
    ensures Produced(k, l).Some? ==> Produced(i, l).Some? && EqualOrErased(Produced(k, l).value, Produced(i, l).value)
  {
  }

  lemma EmbedsIdealOnly(kernel: seq<Event>, ideal: seq<Event>, at: seq<nat>, e: Event)
    requires Embeds(kernel, ideal, at)
    ensures Embeds(kernel, ideal + [e], at)
  {
    hide EqualOrErased;
    assert forall i :: 0 <= i < |ideal| ==> (ideal + [e])[i] == ideal[i];
  }

  lemma EmbedsBoth(kernel: seq<Event>, ideal: seq<Event>, at: seq<nat>, e: Event, e': Event)
    requires Embeds(kernel, ideal, at) && EqualOrErased(e, e')
    ensures Embeds(kernel + [e], ideal + [e'], at + [|ideal|])
  {
    hide EqualOrErased;
    EmbedsIdealOnly(kernel, ideal, at, e');
  }

  lemma EmitEmbeds(kernel: seq<Event>, ideal: seq<Event>, e: Option<Event>, e': Option<Event>, ring: bool)
    requires LossySubsequence(kernel, ideal)
    requires e.Some? ==> e'.Some? && EqualOrErased(e.value, e'.value)
    ensures LossySubsequence(Emit(kernel, e, ring), Emit(ideal, e', true))
  {
    var at: seq<nat> :| Embeds(kernel, ideal, at);
    if e.Some? && ring {
      EmbedsBoth(kernel, ideal, at, e.value, e'.value);
    } else if e'.Some? {
      EmbedsIdealOnly(kernel, ideal, at, e'.value);
    }
  }

  /** Main result. For every interleaving of threads, every choice of evictions
      and every pattern of ring losses, the events the kernel tracker emits are
      a subsequence of the ideal tracker's, each equal to its counterpart or
      erased to "unknown". */
  lemma {:induction false} LossyRefinement(trace: seq<Label>)
    requires NoStaleRecords(trace)
    ensures Simulates(Run(Kernel, trace), Run(Ideal, trace))
    ensures LossySubsequence(Run(Kernel, trace).events, Run(Ideal, trace).events)
  {
    if |trace| == 0 {
      assert Embeds([], [], []);
    } else {
      var before, l := trace[..|trace| - 1], trace[|trace| - 1];
      LossyRefinement(before);
      var k, i := Run(Kernel, before), Run(Ideal, before);
      StepSimulates(k, i, l);
      ProducedMatches(k, i, l);
      EmitEmbeds(k.events, i.events, Produced(k, l), Produced(i, l), RingTakes(Kernel, l));
    }
  }
}

/** What each slowquery probe does to the maps and the ring, map by map, in terms
    of the state and the firing alone. */
module SlowQueryProbes {
  import opened Machine
  import Slots
  import opened SqlText
  import opened SlowQuery
  import opened SlowQueryProvenance

  /** The maps agree everywhere but at k. */
  ghost predicate SameBut<K(!new), V>(m: map<K, V>, m': map<K, V>, k: K) {
    forall j :: j != k ==> (j in m <==> j in m') && (j in m ==> m[j] == m'[j])
  }

  /** May the kernel's map take key k? The maps of calls in progress hold 8192
      entries, the LRU maps 1024. */
  predicate Takes<K, V>(m: map<K, V>, k: K, cap: nat, ok: bool) { ok && (k in m || |m| < cap) }

  ghost predicate Written<K(!new), V>(m: map<K, V>, m': map<K, V>, k: K, v: V) {
    k in m' && m'[k] == v && SameBut(m, m', k)
  }

  lemma LeaveEmpties<V>(m: map<u32, V>, tid: u32)
    ensures tid !in Slots.Apply(m, Slots.Leave(tid)) && SameBut(m, Slots.Apply(m, Slots.Leave(tid)), tid)
  {
  }

  lemma RemoveForgets<K(!new), V>(m: map<K, V>, k: K)
    ensures k !in Remove(m, k) && SameBut(m, Remove(m, k), k)
  {
  }

  lemma InsertWrites<K(!new), V>(m: map<K, V>, k: K, v: V, cap: nat, ok: bool)
    ensures if Takes(m, k, cap, ok) then Written(m, Insert(Kernel, m, k, v, cap, ok), k, v)
            else Insert(Kernel, m, k, v, cap, ok) == m
  {
  }

  lemma StepFields(mode: Mode, s: State, l: Label)
    ensures var s' := Step(mode, s, l);
            && s'.prepare == Slots.Apply(s.prepare, PrepareOp(mode, s, l))
            && s'.execute == Slots.Apply(s.execute, ExecuteOp(mode, s, l))
            && s'.immediate == Slots.Apply(s.immediate, ImmediateOp(mode, s, l))
            && s'.opening == Slots.Apply(s.opening, OpenOp(mode, s, l))
            && s'.fetching == Slots.Apply(s.fetching, FetchOp(mode, s, l))
            && s'.prepared == PreparedAfter(mode, s, l) && s'.cursors == CursorsAfter(mode, s, l)
            && s'.events == Emit(s.events, Produced(s, l), RingTakes(mode, l))
  {
    hide Slots.Apply, PrepareOp, ExecuteOp, ImmediateOp, OpenOp, FetchOp, PreparedAfter, CursorsAfter, Produced, Emit;
  }

  /** A return empties its own thread's slot, whatever else it does, and leaves the
      slots of other threads alone. */
  lemma ReturnsEmptyTheirSlot(mode: Mode, s: State, l: Label)
    ensures var s' := Step(mode, s, l);
            && (l.OnPrepareExit? ==> l.tid !in s'.prepare && SameBut(s.prepare, s'.prepare, l.tid))
            && (l.OnExecuteExit? ==> l.tid !in s'.execute && SameBut(s.execute, s'.execute, l.tid))
            && (l.OnImmediateExit? ==> l.tid !in s'.immediate && SameBut(s.immediate, s'.immediate, l.tid))
            && (l.OnOpenExit? ==> l.tid !in s'.opening && SameBut(s.opening, s'.opening, l.tid))
            && (l.OnFetchExit? ==> l.tid !in s'.fetching && SameBut(s.fetching, s'.fetching, l.tid))
  {
    StepFields(mode, s, l);
    hide Step, Slots.Apply, SameBut, CaptureOf, Stored;
    match l
    case OnPrepareExit(_, tid, _, _) => LeaveEmpties(s.prepare, tid);
    case OnExecuteExit(_, tid, _) => LeaveEmpties(s.execute, tid);
    case OnImmediateExit(_, tid, _) => LeaveEmpties(s.immediate, tid);
    case OnOpenExit(_, tid, _, _) => LeaveEmpties(s.opening, tid);
    case OnFetchExit(_, tid, _, _) => LeaveEmpties(s.fetching, tid);
    case _ =>
  }

  /** A probe changes no map but its own. */
  lemma ProbesKeepToTheirMaps(mode: Mode, s: State, l: Label)
    ensures var s' := Step(mode, s, l);
            && (!l.OnPrepareEntry? && !l.OnPrepareExit? ==> s'.prepare == s.prepare)
            && (!l.OnExecuteEntry? && !l.OnExecuteExit? ==> s'.execute == s.execute)
            && (!l.OnImmediateEntry? && !l.OnImmediateExit? ==> s'.immediate == s.immediate)
            && (!l.OnOpenEntry? && !l.OnOpenExit? ==> s'.opening == s.opening)
            && (!l.OnFetchEntry? && !l.OnFetchExit? ==> s'.fetching == s.fetching)
            && (!l.OnPrepareExit? && !l.EvictPrepared? ==> s'.prepared == s.prepared)
            && (!l.OnOpenExit? && !l.OnFetchExit? && !l.EvictCursor? ==> s'.cursors == s.cursors)
            && (!l.OnExecuteExit? && !l.OnImmediateExit? && !l.OnFetchExit? ==> s'.events == s.events)
  {
    hide CaptureOf, PreparedOf, EventOf;
  }

  /** An entry probe of execute, openCursor or fetchNext overwrites its thread's
      slot with this call's values when the map takes them, and otherwise changes
      nothing. Null requests and cursors are not recorded, except by openCursor. */
  lemma EntriesFillTheirSlot(s: State, l: Label)
    ensures var s' := Step(Kernel, s, l);
            && (l.OnExecuteEntry? ==>
                  if l.request != 0 && Takes(s.execute, l.tid, 8192, l.ok)
                  then Written(s.execute, s'.execute, l.tid, ExecuteRecord(l.now, l.request))
                  else s'.execute == s.execute)
            && (l.OnOpenEntry? ==>
                  if Takes(s.opening, l.tid, 8192, l.ok)
                  then Written(s.opening, s'.opening, l.tid, OpenCursor(l.now, l.request))
                  else s'.opening == s.opening)
            && (l.OnFetchEntry? ==>
                  if l.cursor != 0 && Takes(s.fetching, l.tid, 8192, l.ok)
                  then Written(s.fetching, s'.fetching, l.tid, l.cursor)
                  else s'.fetching == s.fetching)
  {
    hide CaptureOf, PreparedAfter, CursorsAfter, Produced, RingTakes, Emit;
  }

  /** The same for the two probes that capture text. */
  lemma CapturesFillTheirSlot(s: State, l: Label)
    ensures var s' := Step(Kernel, s, l);
            && (l.OnPrepareEntry? ==>
                  if Takes(s.prepare, l.tid, 8192, l.ok)
                  then Written(s.prepare, s'.prepare, l.tid, CaptureOf(l.now, l.attachment, l.length, l.text))
                  else s'.prepare == s.prepare)
            && (l.OnImmediateEntry? ==>
                  if Takes(s.immediate, l.tid, 8192, l.ok)
                  then Written(s.immediate, s'.immediate, l.tid, CaptureOf(l.now, l.attachment, l.length, l.text))
                  else s'.immediate == s.immediate)
  {
    hide CaptureOf, PreparedAfter, CursorsAfter, Produced, RingTakes, Emit;
  }

  /** A prepare return moves what its slot holds under the returned pointer, with
      the time since, if there is something, somewhere to put it, and room.
      Eviction removes one record. */
  lemma PreparedRecordsExactly(s: State, l: Label)
    ensures var s' := Step(Kernel, s, l);
            && (l.OnPrepareExit? ==>
                  if l.tid in s.prepare && l.ret != 0 && Takes(s.prepared, l.ret, 1024, l.ok)
                  then
                    var e := s.prepare[l.tid];
                    var ns := if e.tsNs <= l.now then l.now - e.tsNs else 0;
                    Written(s.prepared, s'.prepared, l.ret, Prepared(e.attachment, ns, e.sqlLen, e.truncated, e.sql))
                  else s'.prepared == s.prepared)
            && (l.EvictPrepared? ==> l.request !in s'.prepared && SameBut(s.prepared, s'.prepared, l.request))
  {
    StepFields(Kernel, s, l);
    hide Step, SameBut, Written, Remove, Insert, Stored;
    match l
    case OnPrepareExit(now, tid, ret, ok) =>
      if tid in s.prepare && ret != 0 { InsertWrites(s.prepared, ret, PreparedOf(s.prepare[tid], now), LRU_MAX, ok); }
    case EvictPrepared(_, request) => RemoveForgets(s.prepared, request);
    case _ =>
  }

  /** An openCursor return moves its slot under the returned pointer; an
      end-of-file return removes the fetched cursor; eviction removes one cursor. */
  lemma CursorRecordsExactly(s: State, l: Label)
    ensures var s' := Step(Kernel, s, l);
            && (l.OnOpenExit? ==>
                  if l.tid in s.opening && l.ret != 0 && Takes(s.cursors, l.ret, 1024, l.ok)
                  then Written(s.cursors, s'.cursors, l.ret, s.opening[l.tid])
                  else s'.cursors == s.cursors)
            && (l.OnFetchExit? ==>
                  if l.tid in s.fetching && l.ret == 1
                  then s.fetching[l.tid] !in s'.cursors && SameBut(s.cursors, s'.cursors, s.fetching[l.tid])
                  else s'.cursors == s.cursors)
            && (l.EvictCursor? ==> l.cursor !in s'.cursors && SameBut(s.cursors, s'.cursors, l.cursor))
  {
    StepFields(Kernel, s, l);
    hide Step, SameBut, Written, Remove, Insert, Stored;
    match l
    case OnOpenExit(now, tid, ret, ok) =>
      if tid in s.opening && ret != 0 { InsertWrites(s.cursors, ret, s.opening[tid], LRU_MAX, ok); }
    case OnFetchExit(_, tid, ret, _) =>
      if tid in s.fetching && ret == 1 { RemoveForgets(s.cursors, s.fetching[tid]); }
    case EvictCursor(_, cursor) => RemoveForgets(s.cursors, cursor);
    case _ =>
  }

  /** Has this return something to report? */
  predicate Reports(s: State, l: Label) {
    || (l.OnExecuteExit? && l.tid in s.execute)
    || (l.OnImmediateExit? && l.tid in s.immediate)
    || (l.OnFetchExit? && l.tid in s.fetching && l.ret == 1 && s.fetching[l.tid] in s.cursors)
  }

  predicate RingHasRoom(l: Label) {
    (l.OnExecuteExit? || l.OnImmediateExit? || l.OnFetchExit?) && l.ring
  }

  /** A step puts exactly one event on the ring, behind those already there, if it
      is a return with something to report and the ring has room; otherwise none. */
  lemma RingGrowsExactly(s: State, l: Label)
    ensures var s' := Step(Kernel, s, l);
            && s.events <= s'.events
            && |s'.events| == |s.events| + if Reports(s, l) && RingHasRoom(l) then 1 else 0
  {
    hide CaptureOf, PreparedAfter, CursorsAfter, EventOf, Slots.Apply;
  }

  // ---------- the firings of a run, as its in-progress maps see them ----------

  /** Op k of an in-progress map is an entry of a call exactly when firing k is its
      entry probe, a return exactly when it is its return probe, on that thread. */
  ghost predicate Mirrors<V>(op: Slots.Op<V>, entry: bool, exit: bool, tid: u32) {
    && (op.Enter? <==> entry) && (op.Leave? <==> exit)
    && (entry || exit ==> Slots.On(op, tid))
  }

  function TidOf(l: Label): u32 { if l.EvictPrepared? || l.EvictCursor? then 0 else l.tid }

  /** So the calls that pairing speaks of are the probed calls themselves. */
  lemma OpsMirrorProbes(trace: seq<Label>, k: nat)
    requires k < |trace|
    ensures var l := trace[k];
            && Mirrors(PrepareOps(trace)[k], l.OnPrepareEntry?, l.OnPrepareExit?, TidOf(l))
            && Mirrors(ExecuteOps(trace)[k], l.OnExecuteEntry?, l.OnExecuteExit?, TidOf(l))
            && Mirrors(ImmediateOps(trace)[k], l.OnImmediateEntry?, l.OnImmediateExit?, TidOf(l))
            && Mirrors(OpenOps(trace)[k], l.OnOpenEntry?, l.OnOpenExit?, TidOf(l))
            && Mirrors(FetchOps(trace)[k], l.OnFetchEntry?, l.OnFetchExit?, TidOf(l))
  {
    hide Step, Run, Stored, CaptureOf;
  }

  /** The latest stored entry lies after every earlier return of its thread. */
  lemma AfterReturns<V>(ops: seq<Slots.Op<V>>, tid: u32, a: nat, i: nat)
    requires a < |ops| && ops[a] == Slots.Leave(tid) && Slots.LatestStored(ops, tid) == Some(i)
    ensures a < i
  {
    hide Slots.LatestStored;
    assert Slots.On(ops[a], tid);
    assert ops[i].Enter?;
  }

  /** Each entry is reported once: between a return and a later producing return of
      execute-immediate on one thread lies an entry of that thread. */
  lemma ImmediateEventsNeedEntriesBetween(trace: seq<Label>, a: nat, b: nat) returns (i: nat)
    requires a < b < |trace| && trace[a].OnImmediateExit? && trace[b].OnImmediateExit? && trace[a].tid == trace[b].tid
    requires Produced(Run(Kernel, trace[..b]), trace[b]).Some?
    ensures a < i < b && trace[i].OnImmediateEntry? && trace[i].tid == trace[a].tid
  {
    hide Step, Run, Slots.LatestStored;
    var t := trace[..b];
    i := ImmediateSlot(t, trace[b].tid);
    OpsMirrorProbes(t, a);
    hide ImmediateOps;
    assert ImmediateOps(t)[a] == Slots.Leave(trace[b].tid);
    AfterReturns(ImmediateOps(t), trace[b].tid, a, i);
  }

  /** The same for execute. */
  lemma ExecuteEventsNeedEntriesBetween(trace: seq<Label>, a: nat, b: nat) returns (i: nat)
    requires a < b < |trace| && trace[a].OnExecuteExit? && trace[b].OnExecuteExit? && trace[a].tid == trace[b].tid
    requires Produced(Run(Kernel, trace[..b]), trace[b]).Some?
    ensures a < i < b && trace[i].OnExecuteEntry? && trace[i].tid == trace[a].tid
  {
    hide Step, Run, Slots.LatestStored;
    var t := trace[..b];
    i := ExecuteSlot(t, trace[b].tid);
    OpsMirrorProbes(t, a);
    hide ExecuteOps;
    assert ExecuteOps(t)[a] == Slots.Leave(trace[b].tid);
    AfterReturns(ExecuteOps(t), trace[b].tid, a, i);
  }
}

/** The slowquery tracker: ten probe handlers joining prepare to execute, and
    openCursor to fetchNext to end of file, through returned pointers. */
module SlowQuery {
  import opened Machine
  import opened Slots
  import opened SqlText

  const IN_PROGRESS_MAX: nat := 8192
  const LRU_MAX: nat := 1024

  datatype ExecuteRecord = ExecuteRecord(tsNs: u64, request: u64)
  datatype OpenCursor = OpenCursor(openTs: u64, request: u64)
  datatype Event = Event(tsNs: u64, prepareNs: u64, executeNs: u64, attachment: u64, tid: u32,
                         sqlLen: u32, truncated: u32, sql: Buffer)

  datatype State = State(
    prepare: map<u32, WithSql>,
    execute: map<u32, ExecuteRecord>,
    immediate: map<u32, WithSql>,
    opening: map<u32, OpenCursor>,
    fetching: map<u32, u64>,
    prepared: map<u64, Prepared>,
    cursors: map<u64, OpenCursor>,
    events: seq<Event>)

  const INIT: State := State(map[], map[], map[], map[], map[], map[], map[], [])

  /** One atomic step: a probe handler on one thread, or the kernel evicting an
      LRU entry of its choice. `now` is the monotonic clock, `ok` the kernel's
      verdict on the handler's insert, `ring` whether the ring has room. */
  datatype Label =
    | OnPrepareEntry(now: u64, tid: u32, attachment: u64, length: u64, text: UserText, ok: bool)
    | OnPrepareExit(now: u64, tid: u32, ret: u64, ok: bool)
    | OnExecuteEntry(now: u64, tid: u32, request: u64, ok: bool)
    | OnExecuteExit(now: u64, tid: u32, ring: bool)
    | OnImmediateEntry(now: u64, tid: u32, attachment: u64, length: u64, text: UserText, ok: bool)
    | OnImmediateExit(now: u64, tid: u32, ring: bool)
    | OnOpenEntry(now: u64, tid: u32, request: u64, ok: bool)
    | OnOpenExit(now: u64, tid: u32, ret: u64, ok: bool)
    | OnFetchEntry(now: u64, tid: u32, cursor: u64, ok: bool)
    | OnFetchExit(now: u64, tid: u32, ret: u64, ring: bool)
    | EvictPrepared(now: u64, request: u64)
    | EvictCursor(now: u64, cursor: u64)

  /** The wire event for a statement whose prepare record is `p`, or the
      "unknown" event when there is none. */
  function EventOf(now: u64, tid: u32, executeNs: u64, p: Option<Prepared>): Event {
    match p
    case Some(p) => Event(now, p.prepareNs, executeNs, p.attachment, tid, p.sqlLen, p.truncated, p.sql)
    case None => Event(now, 0, executeNs, 0, tid, 0, 0, Zeros(SQL_MAX))
  }

  function Lookup<K, V>(m: map<K, V>, k: K): Option<V> {
    if k in m then Some(m[k]) else None
  }

  /** The event a handler hands to the ring in this step, if any. */
  function Produced(s: State, l: Label): Option<Event> {
    match l
    case OnExecuteExit(now, tid, _) =>
      if tid !in s.execute then None
      else
        var e := s.execute[tid];
        Some(EventOf(now, tid, SatSub(now, e.tsNs), Lookup(s.prepared, e.request)))
    case OnImmediateExit(now, tid, _) =>
      if tid !in s.immediate then None
      else
        var e := s.immediate[tid];
        Some(Event(now, 0, SatSub(now, e.tsNs), e.attachment, tid, e.sqlLen, e.truncated, e.sql))
    case OnFetchExit(now, tid, ret, _) =>
      if tid !in s.fetching || ret != 1 || s.fetching[tid] !in s.cursors then None
      else
        var oc := s.cursors[s.fetching[tid]];
        Some(EventOf(now, tid, SatSub(now, oc.openTs), Lookup(s.prepared, oc.request)))
    case _ => None
  }

  /** Does the ring take an event at this step? */
  predicate RingTakes(mode: Mode, l: Label) {
    mode.Ideal? || (l.OnExecuteExit? && l.ring) || (l.OnImmediateExit? && l.ring) || (l.OnFetchExit? && l.ring)
  }

  // What each firing does to each in-progress map.

  function PrepareOp(mode: Mode, s: State, l: Label): Op<WithSql> {
    match l
    case OnPrepareEntry(now, tid, attachment, length, text, ok) =>
      Enter(tid, CaptureOf(now, attachment, length, text), Stored(mode, s.prepare, tid, IN_PROGRESS_MAX, ok))
    case OnPrepareExit(_, tid, _, _) => Leave(tid)
    case _ => Idle
  }

  function ExecuteOp(mode: Mode, s: State, l: Label): Op<ExecuteRecord> {
    match l
    case OnExecuteEntry(now, tid, request, ok) =>
      Enter(tid, ExecuteRecord(now, request), request != 0 && Stored(mode, s.execute, tid, IN_PROGRESS_MAX, ok))
    case OnExecuteExit(_, tid, _) => Leave(tid)
    case _ => Idle
  }

  function ImmediateOp(mode: Mode, s: State, l: Label): Op<WithSql> {
    match l
    case OnImmediateEntry(now, tid, attachment, length, text, ok) =>
      Enter(tid, CaptureOf(now, attachment, length, text), Stored(mode, s.immediate, tid, IN_PROGRESS_MAX, ok))
    case OnImmediateExit(_, tid, _) => Leave(tid)
    case _ => Idle
  }

  function OpenOp(mode: Mode, s: State, l: Label): Op<OpenCursor> {
    match l
    case OnOpenEntry(now, tid, request, ok) =>
      Enter(tid, OpenCursor(now, request), Stored(mode, s.opening, tid, IN_PROGRESS_MAX, ok))
    case OnOpenExit(_, tid, _, _) => Leave(tid)
    case _ => Idle
  }

  function FetchOp(mode: Mode, s: State, l: Label): Op<u64> {
    match l
    case OnFetchEntry(_, tid, cursor, ok) =>
      Enter(tid, cursor, cursor != 0 && Stored(mode, s.fetching, tid, IN_PROGRESS_MAX, ok))
    case OnFetchExit(_, tid, _, _) => Leave(tid)
    case _ => Idle
  }

  /** The prepare record a prepare exit builds from its thread's slot. */
  function PreparedOf(e: WithSql, now: u64): Prepared {
    Prepared(e.attachment, SatSub(now, e.tsNs), e.sqlLen, e.truncated, e.sql)
  }

  function PreparedAfter(mode: Mode, s: State, l: Label): map<u64, Prepared> {
    match l
    case OnPrepareExit(now, tid, ret, ok) =>
      if tid in s.prepare && ret != 0
      then Insert(mode, s.prepared, ret, PreparedOf(s.prepare[tid], now), LRU_MAX, ok)
      else s.prepared
    case EvictPrepared(_, request) => if mode.Ideal? then s.prepared else Remove(s.prepared, request)
    case _ => s.prepared
  }

  function CursorsAfter(mode: Mode, s: State, l: Label): map<u64, OpenCursor> {
    match l
    case OnOpenExit(_, tid, ret, ok) =>
      if tid in s.opening && ret != 0
      then Insert(mode, s.cursors, ret, s.opening[tid], LRU_MAX, ok)
      else s.cursors
    case OnFetchExit(_, tid, ret, _) =>
      if tid in s.fetching && ret == 1 then Remove(s.cursors, s.fetching[tid]) else s.cursors
    case EvictCursor(_, cursor) => if mode.Ideal? then s.cursors else Remove(s.cursors, cursor)
    case _ => s.cursors
  }

  function Emit(events: seq<Event>, e: Option<Event>, ring: bool): seq<Event> {
    if e.Some? && ring then events + [e.value] else events
  }

  function Step(mode: Mode, s: State, l: Label): State {
    State(
      Apply(s.prepare, PrepareOp(mode, s, l)),
      Apply(s.execute, ExecuteOp(mode, s, l)),
      Apply(s.immediate, ImmediateOp(mode, s, l)),
      Apply(s.opening, OpenOp(mode, s, l)),
      Apply(s.fetching, FetchOp(mode, s, l)),
      PreparedAfter(mode, s, l),
      CursorsAfter(mode, s, l),
      Emit(s.events, Produced(s, l), RingTakes(mode, l)))
  }

  /** The state after a run from attachment of the probes, when all maps are empty. */
  function Run(mode: Mode, trace: seq<Label>): State {
    if |trace| == 0 then INIT
    else Step(mode, Run(mode, trace[..|trace| - 1]), trace[|trace| - 1])
  }

  /** A fetch exit touches its own slot, the cursors and the ring, and nothing else. */
  lemma FetchExitFields(mode: Mode, s: State, l: Label)
    requires l.OnFetchExit?
    ensures Step(mode, s, l)
            == s.(fetching := Remove(s.fetching, l.tid), cursors := CursorsAfter(mode, s, l),
                  events := Emit(s.events, Produced(s, l), RingTakes(mode, l)))
  {
    hide CursorsAfter, Produced, RingTakes;
  }

  /** A fetch exit, case by case. */
  lemma FetchExitCases(mode: Mode, s: State, now: u64, tid: u32, ret: u64, ring: bool)
    ensures var s' := Step(mode, s, OnFetchExit(now, tid, ret, ring));
            if tid !in s.fetching then s' == s
            else
              var c, left := s.fetching[tid], s.(fetching := Remove(s.fetching, tid));
              if ret != 1 || c !in s.cursors then s' == left
              else
                var oc := s.cursors[c];
                var e := EventOf(now, tid, SatSub(now, oc.openTs), Lookup(s.prepared, oc.request));
                s' == left.(cursors := Remove(s.cursors, c), events := Emit(s.events, Some(e), mode.Ideal? || ring))
  {
    FetchExitFields(mode, s, OnFetchExit(now, tid, ret, ring));
    hide Step, EventOf;
  }

  /** The BPF program: static maps updated by the handlers in place. */
  class Tracker {
    var prepare: map<u32, WithSql>
    var execute: map<u32, ExecuteRecord>
    var immediate: map<u32, WithSql>
    var opening: map<u32, OpenCursor>
    var fetching: map<u32, u64>
    var prepared: map<u64, Prepared>
    var cursors: map<u64, OpenCursor>
    var events: seq<Event>

    function View(): State
      reads this
    {
      State(prepare, execute, immediate, opening, fetching, prepared, cursors, events)
    }

    constructor ()
      ensures View() == INIT
    {
      prepare, execute, immediate, opening, fetching := map[], map[], map[], map[], map[];
      prepared, cursors, events := map[], map[], [];
    }

    method EmitEvent(tsNs: u64, tid: u32, attachment: u64, prepareNs: u64, executeNs: u64,
                     sqlLen: u32, truncated: u32, src: Option<Buffer>, ring: bool)
      modifies this`events
      ensures var sql: Buffer := if src.Some? then src.value else Zeros(SQL_MAX);
              var e := Event(tsNs, prepareNs, executeNs, attachment, tid, sqlLen, truncated, sql);
              events == Emit(old(events), Some(e), ring)
    {
      if !ring { return; }
      var sql: Buffer := if src.Some? then src.value else Zeros(SQL_MAX);
      events := events + [Event(tsNs, prepareNs, executeNs, attachment, tid, sqlLen, truncated, sql)];
    }

    /** The tail shared by execute and fetch exits: join with the prepared
        statement, or report it as unknown. */
    method EmitJoined(now: u64, tid: u32, request: u64, executeNs: u64, ring: bool)
      modifies this`events
      ensures events == Emit(old(events), Some(EventOf(now, tid, executeNs, Lookup(prepared, request))), ring)
    {
      if request in prepared {
        var p := prepared[request];
        EmitEvent(now, tid, p.attachment, p.prepareNs, executeNs, p.sqlLen, p.truncated, Some(p.sql), ring);
      } else {
        EmitEvent(now, tid, 0, 0, executeNs, 0, 0, None, ring);
      }
    }

    /** `try_capture_sql_entry` against PREPARE_IN_PROGRESS. `scratch` is the
        current CPU's slot; its earlier contents do not matter. */
    method PrepareEntry(scratch: WithSqlScratch, now: u64, tid: u32, attachment: u64, length: u64, text: UserText,
                        ok: bool)
      requires scratch.Valid()
      modifies this, scratch, scratch.sql
      ensures View() == Step(Kernel, old(View()), OnPrepareEntry(now, tid, attachment, length, text, ok))
    {
      scratch.Capture(now, attachment, length, text);
      prepare := Insert(Kernel, prepare, tid, scratch.Value(), IN_PROGRESS_MAX, ok);
    }

    method PrepareExit(scratch: PreparedScratch, now: u64, tid: u32, ret: u64, ok: bool)
      requires scratch.Valid()
      modifies this, scratch, scratch.sql
      ensures View() == Step(Kernel, old(View()), OnPrepareExit(now, tid, ret, ok))
    {
      if tid !in prepare { return; }
      var entry := prepare[tid];
      var elapsed := SatSub(now, entry.tsNs);
      if ret == 0 {
        prepare := Remove(prepare, tid);
        return;
      }
      scratch.Fill(entry, elapsed);
      prepare := Remove(prepare, tid);
      prepared := Insert(Kernel, prepared, ret, scratch.Value(), LRU_MAX, ok);
    }

    method ExecuteEntry(now: u64, tid: u32, request: u64, ok: bool)
      modifies this
      ensures View() == Step(Kernel, old(View()), OnExecuteEntry(now, tid, request, ok))
    {
      if request == 0 { return; }
      execute := Insert(Kernel, execute, tid, ExecuteRecord(now, request), IN_PROGRESS_MAX, ok);
    }

    method ExecuteExit(now: u64, tid: u32, ring: bool)
      modifies this
      ensures View() == Step(Kernel, old(View()), OnExecuteExit(now, tid, ring))
    {
      if tid !in execute { return; }
      var entry := execute[tid];
      execute := Remove(execute, tid);
      var executeNs := SatSub(now, entry.tsNs);
      EmitJoined(now, tid, entry.request, executeNs, ring);
    }

    method ImmediateEntry(scratch: WithSqlScratch, now: u64, tid: u32, attachment: u64, length: u64, text: UserText,
                          ok: bool)
      requires scratch.Valid()
      modifies this, scratch, scratch.sql
      ensures View() == Step(Kernel, old(View()), OnImmediateEntry(now, tid, attachment, length, text, ok))
    {
      scratch.Capture(now, attachment, length, text);
      immediate := Insert(Kernel, immediate, tid, scratch.Value(), IN_PROGRESS_MAX, ok);
    }

    method ImmediateExit(now: u64, tid: u32, ring: bool)
      modifies this
      ensures View() == Step(Kernel, old(View()), OnImmediateExit(now, tid, ring))
    {
      if tid !in immediate { return; }
      var entry := immediate[tid];
      var executeNs := SatSub(now, entry.tsNs);
      EmitEvent(now, tid, entry.attachment, 0, executeNs, entry.sqlLen, entry.truncated, Some(entry.sql), ring);
      immediate := Remove(immediate, tid);
    }

    method OpenCursorEntry(now: u64, tid: u32, request: u64, ok: bool)
      modifies this
      ensures View() == Step(Kernel, old(View()), OnOpenEntry(now, tid, request, ok))
    {
      opening := Insert(Kernel, opening, tid, OpenCursor(now, request), IN_PROGRESS_MAX, ok);
    }

    method OpenCursorExit(now: u64, tid: u32, ret: u64, ok: bool)
      modifies this
      ensures View() == Step(Kernel, old(View()), OnOpenExit(now, tid, ret, ok))
    {
      if tid !in opening { return; }
      var entry := opening[tid];
      opening := Remove(opening, tid);
      if ret == 0 { return; }
      cursors := Insert(Kernel, cursors, ret, entry, LRU_MAX, ok);
    }

    method FetchNextEntry(now: u64, tid: u32, cursor: u64, ok: bool)
      modifies this
      ensures View() == Step(Kernel, old(View()), OnFetchEntry(now, tid, cursor, ok))
    {
      if cursor == 0 { return; }
      fetching := Insert(Kernel, fetching, tid, cursor, IN_PROGRESS_MAX, ok);
    }

    method FetchNextExit(now: u64, tid: u32, ret: u64, ring: bool)
      modifies this
      ensures View() == Step(Kernel, old(View()), OnFetchExit(now, tid, ret, ring))
    {
      FetchExitCases(Kernel, View(), now, tid, ret, ring);
      hide Step, EventOf, Lookup, Emit;
      if tid !in fetching { return; }
      var cursor := fetching[tid];
      fetching := Remove(fetching, tid);
      if ret != 1 { return; }
      if cursor !in cursors { return; }
      var oc := cursors[cursor];
      cursors := Remove(cursors, cursor);
      var executeNs := SatSub(now, oc.openTs);
      EmitJoined(now, tid, oc.request, executeNs, ring);
    }
  }
}

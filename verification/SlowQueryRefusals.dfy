/** Exactly which refused inserts the refinement can bear: for every place that
    inserts, whether it may be refused never, only over an absent key, or freely. */
module SlowQueryRefusals {
  import opened Machine
  import opened SqlText
  import opened SlowQuery
  import opened SlowQueryRefinement

  /** The places that insert into a map. */
  datatype Site = PrepareEntry | PrepareExit | ExecuteEntry | ImmediateEntry | OpenEntry | OpenExit | FetchEntry

  /** What an environment may do to the inserts of one place. */
  datatype Verdict = AlwaysStored | RefusedOverAbsent | RefusedFreely

  datatype Refusal = NoRefusal | OverAbsent(site: Site) | OverPresent(site: Site)

  /** The insert of this step at `site`, if it takes no effect. */
  function Refused<K, V>(site: Site, m: map<K, V>, k: K, cap: nat, ok: bool): Refusal {
    if Stored(Kernel, m, k, cap, ok) then NoRefusal
    else if k in m then OverPresent(site)
    else OverAbsent(site)
  }

  /** The refusal at this step, if it inserts at all. */
  function RefusalAt(s: State, l: Label): Refusal {
    match l
    case OnPrepareEntry(_, tid, _, _, _, ok) => Refused(PrepareEntry, s.prepare, tid, IN_PROGRESS_MAX, ok)
    case OnPrepareExit(_, tid, ret, ok) =>
      if tid in s.prepare && ret != 0 then Refused(PrepareExit, s.prepared, ret, LRU_MAX, ok) else NoRefusal
    case OnExecuteEntry(_, tid, request, ok) =>
      if request != 0 then Refused(ExecuteEntry, s.execute, tid, IN_PROGRESS_MAX, ok) else NoRefusal
    case OnImmediateEntry(_, tid, _, _, _, ok) => Refused(ImmediateEntry, s.immediate, tid, IN_PROGRESS_MAX, ok)
    case OnOpenEntry(_, tid, _, ok) => Refused(OpenEntry, s.opening, tid, IN_PROGRESS_MAX, ok)
    case OnOpenExit(_, tid, ret, ok) =>
      if tid in s.opening && ret != 0 then Refused(OpenExit, s.cursors, ret, LRU_MAX, ok) else NoRefusal
    case OnFetchEntry(_, tid, cursor, ok) =>
      if cursor != 0 then Refused(FetchEntry, s.fetching, tid, IN_PROGRESS_MAX, ok) else NoRefusal
    case _ => NoRefusal
  }

  predicate Permits(policy: Site -> Verdict, r: Refusal) {
    match r
    case NoRefusal => true
    case OverAbsent(site) => policy(site) != AlwaysStored
    case OverPresent(site) => policy(site) == RefusedFreely
  }

  /** Every refusal of the run is one that the policy permits. */
  predicate Follows(policy: Site -> Verdict, trace: seq<Label>) {
    |trace| == 0
    || (Follows(policy, trace[..|trace| - 1])
        && Permits(policy, RefusalAt(Run(Kernel, trace[..|trace| - 1]), trace[|trace| - 1])))
  }

  ghost predicate Lossy(trace: seq<Label>) {
    LossySubsequence(Run(Kernel, trace).events, Run(Ideal, trace).events)
  }

  /** Under this policy every run is lossy at worst. */
  ghost predicate Safe(policy: Site -> Verdict) {
    forall trace: seq<Label> :: Follows(policy, trace) ==> Lossy(trace)
  }

  /** Prepare, openCursor and fetchNext entries are always stored, the other four
      refused over absent keys at most. */
  predicate NeverStale(policy: Site -> Verdict) {
    && policy(PrepareEntry) == policy(OpenEntry) == policy(FetchEntry) == AlwaysStored
    && policy(PrepareExit) != RefusedFreely && policy(OpenExit) != RefusedFreely
    && policy(ExecuteEntry) != RefusedFreely && policy(ImmediateEntry) != RefusedFreely
  }

  lemma PermittedIsNotStale(policy: Site -> Verdict, s: State, l: Label)
    requires NeverStale(policy) && Permits(policy, RefusalAt(s, l))
    ensures NoStaleRecord(s, l)
  {
    hide Stored;
  }

  lemma {:induction false} FollowedIsNotStale(policy: Site -> Verdict, trace: seq<Label>)
    requires NeverStale(policy) && Follows(policy, trace)
    ensures NoStaleRecords(trace)
  {
    if |trace| > 0 {
      hide Run, RefusalAt, NoStaleRecord, NeverStale, Permits;
      FollowedIsNotStale(policy, trace[..|trace| - 1]);
      PermittedIsNotStale(policy, Run(Kernel, trace[..|trace| - 1]), trace[|trace| - 1]);
    }
  }

  // ---------- runs with a single kind of refusal ----------

  predicate IsOnly(r: Refusal, q: Refusal) { q == NoRefusal || q == r }

  /** The only refusal in the run, if any, is r. */
  predicate Only(r: Refusal, trace: seq<Label>) {
    |trace| == 0
    || (Only(r, trace[..|trace| - 1])
        && IsOnly(r, RefusalAt(Run(Kernel, trace[..|trace| - 1]), trace[|trace| - 1])))
  }

  lemma {:induction false} OnlyFollows(policy: Site -> Verdict, r: Refusal, trace: seq<Label>)
    requires Only(r, trace) && Permits(policy, r)
    ensures Follows(policy, trace)
  {
    hide Run, RefusalAt;
    if |trace| > 0 { OnlyFollows(policy, r, trace[..|trace| - 1]); }
  }

  lemma OnlySnoc(r: Refusal, trace: seq<Label>, l: Label)
    requires Only(r, trace) && IsOnly(r, RefusalAt(Run(Kernel, trace), l))
    ensures Only(r, trace + [l])
  {
    hide Run, RefusalAt, IsOnly;
    assert (trace + [l])[..|trace|] == trace;
  }

  lemma RunSnoc(mode: Mode, trace: seq<Label>, l: Label)
    ensures Run(mode, trace + [l]) == Step(mode, Run(mode, trace), l)
  {
    assert (trace + [l])[..|trace|] == trace;
  }

  lemma RunTwo(mode: Mode, trace: seq<Label>, l: Label, l': Label)
    ensures Run(mode, trace + [l, l']) == Step(mode, Step(mode, Run(mode, trace), l), l')
  {
    assert trace + [l, l'] == (trace + [l]) + [l'];
    RunSnoc(mode, trace, l);
    RunSnoc(mode, trace + [l], l');
  }

  lemma OnlyTwo(r: Refusal, trace: seq<Label>, l: Label, l': Label)
    requires Only(r, trace) && IsOnly(r, RefusalAt(Run(Kernel, trace), l))
    requires IsOnly(r, RefusalAt(Step(Kernel, Run(Kernel, trace), l), l'))
    ensures Only(r, trace + [l, l'])
  {
    hide Run, Step, Only, IsOnly, RefusalAt;
    assert trace + [l, l'] == (trace + [l]) + [l'];
    OnlySnoc(r, trace, l);
    RunSnoc(Kernel, trace, l);
    OnlySnoc(r, trace + [l], l');
  }

  lemma UnmatchedEventIsNotLossy(kernel: seq<Event>, ideal: seq<Event>)
    requires |kernel| == |ideal| == 1 && !EqualOrErased(kernel[0], ideal[0])
    ensures !LossySubsequence(kernel, ideal)
  {
    hide EqualOrErased;
    forall at: seq<nat> ensures !Embeds(kernel, ideal, at) {
      if |at| == 1 && at[0] == 0 {}
    }
  }

  lemma UnknownEventsDiffer(now: u64, now': u64, tid: u32, ns: u64, ns': u64)
    requires ns != ns'
    ensures !EqualOrErased(EventOf(now, tid, ns, None), EventOf(now', tid, ns', None))
  {
  }

  /** A run that starts with nothing, has r as its only refusal, and emits one
      event that is not the ideal one. */
  ghost predicate Breaks(r: Refusal, trace: seq<Label>) {
    Only(r, trace) && !NoStaleRecords(trace) && !Lossy(trace)
  }

  lemma OneWrongEvent(r: Refusal, trace: seq<Label>, e: Event, ideal: Event)
    requires Only(r, trace) && !EqualOrErased(e, ideal)
    requires Run(Kernel, trace).events == [e] && Run(Ideal, trace).events == [ideal]
    ensures Breaks(r, trace)
  {
    hide Run, Only, EqualOrErased, NoStaleRecords, LossySubsequence;
    UnmatchedEventIsNotLossy([e], [ideal]);
    if NoStaleRecords(trace) { LossyRefinement(trace); }
  }

  lemma Nothing(r: Refusal, none: seq<Label>)
    requires none == []
    ensures Run(Kernel, none) == Run(Ideal, none) == INIT && Only(r, none)
  {
    hide Step;
  }

  // ---------- statements ----------

  function PrepareOf(now: u64, tid: u32, a: u64, text: UserText, r: u64, ok: bool, ok': bool): seq<Label>
    requires now + 1 < TWO64
  {
    [OnPrepareEntry(now, tid, a, 0, text, ok), OnPrepareExit(now + 1, tid, r, ok')]
  }

  lemma PrepareEntered(mode: Mode, s: State, tid: u32, a: u64, text: UserText, now: u64, ok: bool)
    requires s.prepare == map[]
    ensures Step(mode, s, OnPrepareEntry(now, tid, a, 0, text, ok))
            == s.(prepare := if ok || mode.Ideal? then map[tid := CaptureOf(now, a, 0, text)] else map[])
  {
    hide CaptureOf;
  }

  lemma PrepareExited(mode: Mode, s: State, tid: u32, r: u64, now: u64, ok: bool)
    requires r != 0 && |s.prepared| <= 1
    ensures var s' := Step(mode, s, OnPrepareExit(now, tid, r, ok));
            if tid in s.prepare
            then s' == s.(prepare := Remove(s.prepare, tid),
                          prepared := if ok || mode.Ideal? then s.prepared[r := PreparedOf(s.prepare[tid], now)]
                                      else s.prepared)
            else s' == s
  {
    hide PreparedOf;
  }

  /** A prepare call whose entry is stored or not (ok) and whose record is or is
      not (ok'). */
  lemma RunPrepare(mode: Mode, trace: seq<Label>, tid: u32, a: u64, text: UserText, r: u64, now: u64,
                   ok: bool, ok': bool)
    requires now + 1 < TWO64 && r != 0 && Run(mode, trace).prepare == map[] && |Run(mode, trace).prepared| <= 1
    ensures var s, s' := Run(mode, trace), Run(mode, trace + PrepareOf(now, tid, a, text, r, ok, ok'));
            if (ok && ok') || mode.Ideal?
            then s' == s.(prepared := s.prepared[r := PreparedOf(CaptureOf(now, a, 0, text), now + 1)])
            else s' == s
  {
    hide Step, Run, CaptureOf, PreparedOf;
    var s, l, l' := Run(mode, trace), OnPrepareEntry(now, tid, a, 0, text, ok), OnPrepareExit(now + 1, tid, r, ok');
    RunTwo(mode, trace, l, l');
    PrepareEntered(mode, s, tid, a, text, now, ok);
    PrepareExited(mode, Step(mode, s, l), tid, r, now + 1, ok');
    assert Remove(map[tid := CaptureOf(now, a, 0, text)], tid) == map[];
  }

  lemma PrepareOnly(q: Refusal, trace: seq<Label>, tid: u32, a: u64, text: UserText, r: u64, now: u64,
                    ok: bool, ok': bool)
    requires now + 1 < TWO64 && r != 0 && Only(q, trace)
    requires var s := Run(Kernel, trace); s.prepare == map[] && |s.prepared| <= 1
    requires ok || q == OverAbsent(PrepareEntry)
    requires ok' || !ok || (r in Run(Kernel, trace).prepared && q == OverPresent(PrepareExit))
    ensures Only(q, trace + PrepareOf(now, tid, a, text, r, ok, ok'))
  {
    hide Step, Run, CaptureOf, Only;
    var s, l := Run(Kernel, trace), OnPrepareEntry(now, tid, a, 0, text, ok);
    PrepareEntered(Kernel, s, tid, a, text, now, ok);
    OnlyTwo(q, trace, l, OnPrepareExit(now + 1, tid, r, ok'));
  }

  lemma ExecuteCall(mode: Mode, s: State, tid: u32, r: u64, now: u64)
    requires now + 1 < TWO64 && r != 0 && s.execute == map[]
    ensures var s' := Step(mode, Step(mode, s, OnExecuteEntry(now, tid, r, true)), OnExecuteExit(now + 1, tid, true));
            s' == s.(events := s.events + [EventOf(now + 1, tid, 1, Lookup(s.prepared, r))])
  {
    hide EventOf;
    var s1 := Step(mode, s, OnExecuteEntry(now, tid, r, true));
    assert s1 == s.(execute := map[tid := ExecuteRecord(now, r)]);
    assert Remove(map[tid := ExecuteRecord(now, r)], tid) == map[];
  }

  lemma RunExecuteCall(mode: Mode, trace: seq<Label>, tid: u32, r: u64, now: u64)
    requires now + 1 < TWO64 && r != 0 && Run(mode, trace).execute == map[]
    ensures var s := Run(mode, trace);
            Run(mode, trace + [OnExecuteEntry(now, tid, r, true), OnExecuteExit(now + 1, tid, true)]).events
            == s.events + [EventOf(now + 1, tid, 1, Lookup(s.prepared, r))]
  {
    RunTwo(mode, trace, OnExecuteEntry(now, tid, r, true), OnExecuteExit(now + 1, tid, true));
    ExecuteCall(mode, Run(mode, trace), tid, r, now);
  }

  lemma ExecuteOnly(q: Refusal, trace: seq<Label>, tid: u32, r: u64, now: u64)
    requires now + 1 < TWO64 && Only(q, trace) && Run(Kernel, trace).execute == map[]
    ensures Only(q, trace + [OnExecuteEntry(now, tid, r, true), OnExecuteExit(now + 1, tid, true)])
  {
    hide Run, Step, Only;
    OnlyTwo(q, trace, OnExecuteEntry(now, tid, r, true), OnExecuteExit(now + 1, tid, true));
  }

  /** A request pointer is reused for a second statement, whose prepare entry (ok)
      or prepared record (ok') may be refused; then it is executed. */
  function TwoPrepares(none: seq<Label>, tid: u32, r: u64, a: u64, b: u64, text: UserText,
                       ok: bool, ok': bool): seq<Label>
  {
    none + PrepareOf(1, tid, a, text, r, true, true) + PrepareOf(3, tid, b, text, r, ok, ok')
  }

  function ReusedRequest(none: seq<Label>, tid: u32, r: u64, a: u64, b: u64, text: UserText,
                         ok: bool, ok': bool): seq<Label>
  {
    TwoPrepares(none, tid, r, a, b, text, ok, ok') + [OnExecuteEntry(5, tid, r, true), OnExecuteExit(6, tid, true)]
  }

  lemma AfterTwoPrepares(mode: Mode, none: seq<Label>, tid: u32, r: u64, a: u64, b: u64, text: UserText,
                         ok: bool, ok': bool)
    requires r != 0 && Run(mode, none) == INIT
    ensures var p := if (ok && ok') || mode.Ideal? then PreparedOf(CaptureOf(3, b, 0, text), 4)
                     else PreparedOf(CaptureOf(1, a, 0, text), 2);
            Run(mode, TwoPrepares(none, tid, r, a, b, text, ok, ok')) == INIT.(prepared := map[r := p])
  {
    hide Step, Run, PrepareOf, PreparedOf, CaptureOf;
    RunPrepare(mode, none, tid, a, text, r, 1, true, true);
    RunPrepare(mode, none + PrepareOf(1, tid, a, text, r, true, true), tid, b, text, r, 3, ok, ok');
  }

  lemma ReusedRequestEvents(mode: Mode, none: seq<Label>, tid: u32, r: u64, a: u64, b: u64, text: UserText,
                            ok: bool, ok': bool)
    requires r != 0 && Run(mode, none) == INIT
    ensures var events := Run(mode, ReusedRequest(none, tid, r, a, b, text, ok, ok')).events;
            |events| == 1 && events[0].attachment == if (ok && ok') || mode.Ideal? then b else a
  {
    hide Step, Run, TwoPrepares;
    AfterTwoPrepares(mode, none, tid, r, a, b, text, ok, ok');
    RunExecuteCall(mode, TwoPrepares(none, tid, r, a, b, text, ok, ok'), tid, r, 5);
  }

  lemma ReusedRequestOnly(q: Refusal, none: seq<Label>, tid: u32, r: u64, a: u64, b: u64, text: UserText,
                          ok: bool, ok': bool)
    requires r != 0 && Run(Kernel, none) == INIT && Only(q, none)
    requires ok || q == OverAbsent(PrepareEntry)
    requires ok' || !ok || q == OverPresent(PrepareExit)
    ensures Only(q, ReusedRequest(none, tid, r, a, b, text, ok, ok'))
  {
    hide Step, Run, Only, PrepareOf, CaptureOf, PreparedOf;
    PrepareOnly(q, none, tid, a, text, r, 1, true, true);
    RunPrepare(Kernel, none, tid, a, text, r, 1, true, true);
    PrepareOnly(q, none + PrepareOf(1, tid, a, text, r, true, true), tid, b, text, r, 3, ok, ok');
    AfterTwoPrepares(Kernel, none, tid, r, a, b, text, ok, ok');
    ExecuteOnly(q, TwoPrepares(none, tid, r, a, b, text, ok, ok'), tid, r, 5);
  }

  lemma OtherAttachmentDiffers(e: Event, ideal: Event)
    requires e.attachment != 0 && e.attachment != ideal.attachment
    ensures !EqualOrErased(e, ideal)
  {
  }

  lemma ReusedRequestBreaks(q: Refusal, none: seq<Label>, tid: u32, r: u64, a: u64, b: u64, text: UserText,
                            ok: bool, ok': bool)
    requires r != 0 && a != 0 && a != b && none == []
    requires if ok then !ok' && q == OverPresent(PrepareExit) else q == OverAbsent(PrepareEntry)
    ensures Breaks(q, ReusedRequest(none, tid, r, a, b, text, ok, ok'))
  {
    hide *;
    Nothing(q, none);
    var trace := ReusedRequest(none, tid, r, a, b, text, ok, ok');
    ReusedRequestOnly(q, none, tid, r, a, b, text, ok, ok');
    ReusedRequestEvents(Kernel, none, tid, r, a, b, text, ok, ok');
    ReusedRequestEvents(Ideal, none, tid, r, a, b, text, ok, ok');
    OtherAttachmentDiffers(Run(Kernel, trace).events[0], Run(Ideal, trace).events[0]);
    OneWrongEvent(q, trace, Run(Kernel, trace).events[0], Run(Ideal, trace).events[0]);
  }

  /** A refused prepare entry: a request pointer is reused for a second statement,
      and its execution is reported with the first statement's attachment. */
  lemma RefusedPrepareReportsStaleStatement(tid: u32, r: u64, a: u64, b: u64, text: UserText)
    requires r != 0 && a != 0 && a != b
    ensures Breaks(OverAbsent(PrepareEntry), ReusedRequest([], tid, r, a, b, text, false, true))
  {
    hide *;
    ReusedRequestBreaks(OverAbsent(PrepareEntry), [], tid, r, a, b, text, false, true);
  }

  /** A prepared record refused over the record of an earlier statement: the same. */
  lemma RefusedRecordReportsStaleStatement(tid: u32, r: u64, a: u64, b: u64, text: UserText)
    requires r != 0 && a != 0 && a != b
    ensures Breaks(OverPresent(PrepareExit), ReusedRequest([], tid, r, a, b, text, true, false))
  {
    hide *;
    ReusedRequestBreaks(OverPresent(PrepareExit), [], tid, r, a, b, text, true, false);
  }

  // ---------- nested calls ----------

  /** An execute inside an execute on one thread, its entry refused. */
  function NestedExecute(none: seq<Label>, tid: u32, r: u64): seq<Label> {
    none + [OnExecuteEntry(1, tid, r, true), OnExecuteEntry(2, tid, r, false)] + [OnExecuteExit(3, tid, true)]
  }

  lemma ExecuteEntered(mode: Mode, s: State, tid: u32, r: u64, now: u64, ok: bool)
    requires r != 0 && |s.execute| <= 1
    ensures Step(mode, s, OnExecuteEntry(now, tid, r, ok))
            == if ok || mode.Ideal? then s.(execute := s.execute[tid := ExecuteRecord(now, r)]) else s
  {
  }

  lemma ExecuteExitEvents(mode: Mode, s: State, tid: u32, now: u64)
    requires tid in s.execute
    ensures Step(mode, s, OnExecuteExit(now, tid, true)).events
            == var e := s.execute[tid];
               s.events + [EventOf(now, tid, SatSub(now, e.tsNs), Lookup(s.prepared, e.request))]
  {
    hide EventOf, Lookup;
  }

  lemma NestedExecuteRun(mode: Mode, none: seq<Label>, tid: u32, r: u64)
    requires r != 0 && Run(mode, none) == INIT
    ensures Run(mode, NestedExecute(none, tid, r)).events
            == [EventOf(3, tid, if mode.Ideal? then 1 else 2, None)]
    ensures mode.Kernel? && Only(OverPresent(ExecuteEntry), none)
            ==> Only(OverPresent(ExecuteEntry), NestedExecute(none, tid, r))
  {
    hide Step, Run, Only, EventOf;
    var l, l' := OnExecuteEntry(1, tid, r, true), OnExecuteEntry(2, tid, r, false);
    var q := OverPresent(ExecuteEntry);
    ExecuteEntered(mode, INIT, tid, r, 1, true);
    ExecuteEntered(mode, Step(mode, INIT, l), tid, r, 2, false);
    RunTwo(mode, none, l, l');
    RunSnoc(mode, none + [l, l'], OnExecuteExit(3, tid, true));
    ExecuteExitEvents(mode, Run(mode, none + [l, l']), tid, 3);
    if mode.Kernel? && Only(q, none) {
      OnlyTwo(q, none, l, l');
      OnlySnoc(q, none + [l, l'], OnExecuteExit(3, tid, true));
    }
  }

  /** A nested execute entry refused over its outer call's: the inner call is
      reported with the outer call's start. */
  lemma RefusedExecuteReportsOuterTime(tid: u32, r: u64)
    requires r != 0
    ensures Breaks(OverPresent(ExecuteEntry), NestedExecute([], tid, r))
  {
    hide *;
    Nothing(OverPresent(ExecuteEntry), []);
    NestedExecuteRun(Kernel, [], tid, r);
    NestedExecuteRun(Ideal, [], tid, r);
    UnknownEventsDiffer(3, 3, tid, 2, 1);
    OneWrongEvent(OverPresent(ExecuteEntry), NestedExecute([], tid, r),
                  EventOf(3, tid, 2, None), EventOf(3, tid, 1, None));
  }

  /** The same with execute-immediate calls. */
  function NestedImmediate(none: seq<Label>, tid: u32, a: u64, text: UserText): seq<Label> {
    none + [OnImmediateEntry(1, tid, a, 0, text, true), OnImmediateEntry(2, tid, a, 0, text, false)]
    + [OnImmediateExit(3, tid, true)]
  }

  function ImmediateEvent(now: u64, tid: u32, w: WithSql): Event {
    Event(now, 0, SatSub(now, w.tsNs), w.attachment, tid, w.sqlLen, w.truncated, w.sql)
  }

  lemma ImmediateEntered(mode: Mode, s: State, tid: u32, a: u64, text: UserText, now: u64, ok: bool)
    requires |s.immediate| <= 1
    ensures Step(mode, s, OnImmediateEntry(now, tid, a, 0, text, ok))
            == if ok || mode.Ideal? then s.(immediate := s.immediate[tid := CaptureOf(now, a, 0, text)]) else s
  {
    hide CaptureOf;
  }

  lemma ImmediateExitEvents(mode: Mode, s: State, tid: u32, now: u64)
    requires tid in s.immediate
    ensures Step(mode, s, OnImmediateExit(now, tid, true)).events
            == s.events + [ImmediateEvent(now, tid, s.immediate[tid])]
  {
  }

  lemma NestedImmediateRun(mode: Mode, none: seq<Label>, tid: u32, a: u64, text: UserText)
    requires Run(mode, none) == INIT
    ensures Run(mode, NestedImmediate(none, tid, a, text)).events
            == [ImmediateEvent(3, tid, CaptureOf(if mode.Ideal? then 2 else 1, a, 0, text))]
    ensures mode.Kernel? && Only(OverPresent(ImmediateEntry), none)
            ==> Only(OverPresent(ImmediateEntry), NestedImmediate(none, tid, a, text))
  {
    hide Step, Run, Only, CaptureOf, ImmediateEvent;
    var l, l' := OnImmediateEntry(1, tid, a, 0, text, true), OnImmediateEntry(2, tid, a, 0, text, false);
    var q := OverPresent(ImmediateEntry);
    ImmediateEntered(mode, INIT, tid, a, text, 1, true);
    ImmediateEntered(mode, Step(mode, INIT, l), tid, a, text, 2, false);
    RunTwo(mode, none, l, l');
    RunSnoc(mode, none + [l, l'], OnImmediateExit(3, tid, true));
    ImmediateExitEvents(mode, Run(mode, none + [l, l']), tid, 3);
    if mode.Kernel? && Only(q, none) {
      OnlyTwo(q, none, l, l');
      OnlySnoc(q, none + [l, l'], OnImmediateExit(3, tid, true));
    }
  }

  lemma ImmediateEventsDiffer(tid: u32, a: u64, text: UserText)
    ensures !EqualOrErased(ImmediateEvent(3, tid, CaptureOf(1, a, 0, text)),
                           ImmediateEvent(3, tid, CaptureOf(2, a, 0, text)))
  {
  }

  /** A nested immediate entry refused over its outer call's: likewise. */
  lemma RefusedImmediateReportsOuterTime(tid: u32, a: u64, text: UserText)
    ensures Breaks(OverPresent(ImmediateEntry), NestedImmediate([], tid, a, text))
  {
    hide *;
    Nothing(OverPresent(ImmediateEntry), []);
    NestedImmediateRun(Kernel, [], tid, a, text);
    NestedImmediateRun(Ideal, [], tid, a, text);
    ImmediateEventsDiffer(tid, a, text);
    OneWrongEvent(OverPresent(ImmediateEntry), NestedImmediate([], tid, a, text),
                  ImmediateEvent(3, tid, CaptureOf(1, a, 0, text)),
                  ImmediateEvent(3, tid, CaptureOf(2, a, 0, text)));
  }

  // ---------- cursors ----------

  function OpenOf(now: u64, tid: u32, r: u64, c: u64, ok: bool, ok': bool): seq<Label>
    requires now + 1 < TWO64
  {
    [OnOpenEntry(now, tid, r, ok), OnOpenExit(now + 1, tid, c, ok')]
  }

  function EofOf(now: u64, tid: u32, c: u64, ok: bool): seq<Label>
    requires now + 1 < TWO64
  {
    [OnFetchEntry(now, tid, c, ok), OnFetchExit(now + 1, tid, 1, true)]
  }

  lemma OpenEntered(mode: Mode, s: State, tid: u32, r: u64, now: u64, ok: bool)
    requires s.opening == map[]
    ensures Step(mode, s, OnOpenEntry(now, tid, r, ok))
            == s.(opening := if ok || mode.Ideal? then map[tid := OpenCursor(now, r)] else map[])
  {
  }

  lemma OpenExited(mode: Mode, s: State, tid: u32, c: u64, now: u64, ok: bool)
    requires c != 0 && |s.cursors| <= 1
    ensures var s' := Step(mode, s, OnOpenExit(now, tid, c, ok));
            if tid in s.opening
            then s' == s.(opening := Remove(s.opening, tid),
                          cursors := if ok || mode.Ideal? then s.cursors[c := s.opening[tid]] else s.cursors)
            else s' == s
  {
  }

  /** An openCursor call whose entry is stored or not (ok) and whose record is or
      is not (ok'). */
  lemma RunOpen(mode: Mode, trace: seq<Label>, tid: u32, r: u64, c: u64, now: u64, ok: bool, ok': bool)
    requires now + 1 < TWO64 && c != 0 && Run(mode, trace).opening == map[] && |Run(mode, trace).cursors| <= 1
    ensures var s := Run(mode, trace);
            Run(mode, trace + OpenOf(now, tid, r, c, ok, ok'))
            == if (ok && ok') || mode.Ideal? then s.(cursors := s.cursors[c := OpenCursor(now, r)]) else s
  {
    hide Step, Run;
    var s, l := Run(mode, trace), OnOpenEntry(now, tid, r, ok);
    RunTwo(mode, trace, l, OnOpenExit(now + 1, tid, c, ok'));
    OpenEntered(mode, s, tid, r, now, ok);
    OpenExited(mode, Step(mode, s, l), tid, c, now + 1, ok');
    assert Remove(map[tid := OpenCursor(now, r)], tid) == map[];
  }

  lemma OpenOnly(q: Refusal, trace: seq<Label>, tid: u32, r: u64, c: u64, now: u64, ok: bool, ok': bool)
    requires now + 1 < TWO64 && c != 0 && Only(q, trace)
    requires var s := Run(Kernel, trace); s.opening == map[] && |s.cursors| <= 1
    requires ok || q == OverAbsent(OpenEntry)
    requires ok' || !ok || (c in Run(Kernel, trace).cursors && q == OverPresent(OpenExit))
    ensures Only(q, trace + OpenOf(now, tid, r, c, ok, ok'))
  {
    hide Step, Run, Only;
    var s, l := Run(Kernel, trace), OnOpenEntry(now, tid, r, ok);
    OpenEntered(Kernel, s, tid, r, now, ok);
    OnlyTwo(q, trace, l, OnOpenExit(now + 1, tid, c, ok'));
  }

  function CursorEvent(s: State, tid: u32, c: u64, now: u64): Event
    requires c in s.cursors
  {
    EventOf(now, tid, SatSub(now, s.cursors[c].openTs), Lookup(s.prepared, s.cursors[c].request))
  }

  lemma EofEntered(mode: Mode, s: State, tid: u32, c: u64, now: u64, ok: bool)
    requires c != 0 && s.fetching == map[]
    ensures Step(mode, s, OnFetchEntry(now, tid, c, ok))
            == s.(fetching := if ok || mode.Ideal? then map[tid := c] else map[])
  {
  }

  lemma EofExited(mode: Mode, s: State, tid: u32, now: u64)
    ensures var s' := Step(mode, s, OnFetchExit(now, tid, 1, true));
            if tid !in s.fetching then s' == s
            else
              var c, left := s.fetching[tid], s.(fetching := Remove(s.fetching, tid));
              if c !in s.cursors then s' == left
              else s' == left.(cursors := Remove(s.cursors, c), events := s.events + [CursorEvent(s, tid, c, now)])
  {
    FetchExitCases(mode, s, now, tid, 1, true);
    hide Step, EventOf;
  }

  /** A fetch that returns end of file. */
  lemma EofCall(mode: Mode, s: State, tid: u32, c: u64, now: u64, ok: bool)
    requires now + 1 < TWO64 && c != 0 && s.fetching == map[]
    ensures var s' := Step(mode, Step(mode, s, OnFetchEntry(now, tid, c, ok)), OnFetchExit(now + 1, tid, 1, true));
            s' == if (ok || mode.Ideal?) && c in s.cursors
                  then s.(cursors := Remove(s.cursors, c), events := s.events + [CursorEvent(s, tid, c, now + 1)])
                  else s
  {
    hide Step, EventOf;
    EofEntered(mode, s, tid, c, now, ok);
    EofExited(mode, Step(mode, s, OnFetchEntry(now, tid, c, ok)), tid, now + 1);
    assert Remove(map[tid := c], tid) == map[];
  }

  lemma RunEofCall(mode: Mode, trace: seq<Label>, tid: u32, c: u64, now: u64, ok: bool)
    requires now + 1 < TWO64 && c != 0 && Run(mode, trace).fetching == map[]
    ensures var s := Run(mode, trace);
            Run(mode, trace + [OnFetchEntry(now, tid, c, ok), OnFetchExit(now + 1, tid, 1, true)])
            == if (ok || mode.Ideal?) && c in s.cursors
               then s.(cursors := Remove(s.cursors, c), events := s.events + [CursorEvent(s, tid, c, now + 1)])
               else s
  {
    hide Step, Run, CursorEvent;
    RunTwo(mode, trace, OnFetchEntry(now, tid, c, ok), OnFetchExit(now + 1, tid, 1, true));
    EofCall(mode, Run(mode, trace), tid, c, now, ok);
  }

  lemma EofOnly(q: Refusal, trace: seq<Label>, tid: u32, c: u64, now: u64, ok: bool)
    requires now + 1 < TWO64 && c != 0 && Only(q, trace) && Run(Kernel, trace).fetching == map[]
    requires ok || q == OverAbsent(FetchEntry)
    ensures Only(q, trace + EofOf(now, tid, c, ok))
  {
    hide Step, Run, Only;
    OnlyTwo(q, trace, OnFetchEntry(now, tid, c, ok), OnFetchExit(now + 1, tid, 1, true));
  }

  /** A cursor opened, and its pointer reused by an open whose entry (ok) or record
      (ok') may be refused. */
  function Reopened(none: seq<Label>, tid: u32, r: u64, c: u64, ok: bool, ok': bool): seq<Label> {
    none + OpenOf(1, tid, r, c, true, true) + OpenOf(3, tid, r, c, ok, ok')
  }

  /** A cursor opened, and its end-of-file fetch refused at entry. */
  function MissedEof(none: seq<Label>, tid: u32, r: u64, c: u64): seq<Label> {
    none + OpenOf(1, tid, r, c, true, true) + EofOf(3, tid, c, false)
  }

  function ThenEof(trace: seq<Label>, tid: u32, c: u64): seq<Label> { trace + EofOf(5, tid, c, true) }

  lemma ReopenedEvents(mode: Mode, none: seq<Label>, tid: u32, r: u64, c: u64, ok: bool, ok': bool)
    requires c != 0 && Run(mode, none) == INIT
    ensures Run(mode, ThenEof(Reopened(none, tid, r, c, ok, ok'), tid, c)).events
            == [EventOf(6, tid, if (ok && ok') || mode.Ideal? then 3 else 5, None)]
  {
    hide Step, Run, EventOf, OpenOf;
    var t1 := none + OpenOf(1, tid, r, c, true, true);
    RunOpen(mode, none, tid, r, c, 1, true, true);
    RunOpen(mode, t1, tid, r, c, 3, ok, ok');
    RunEofCall(mode, Reopened(none, tid, r, c, ok, ok'), tid, c, 5, true);
  }

  lemma ReopenedOnly(q: Refusal, none: seq<Label>, tid: u32, r: u64, c: u64, ok: bool, ok': bool)
    requires c != 0 && Run(Kernel, none) == INIT && Only(q, none)
    requires ok || q == OverAbsent(OpenEntry)
    requires ok' || !ok || q == OverPresent(OpenExit)
    ensures Only(q, ThenEof(Reopened(none, tid, r, c, ok, ok'), tid, c))
  {
    hide Step, Run, Only, OpenOf, EofOf;
    var t1 := none + OpenOf(1, tid, r, c, true, true);
    OpenOnly(q, none, tid, r, c, 1, true, true);
    RunOpen(Kernel, none, tid, r, c, 1, true, true);
    OpenOnly(q, t1, tid, r, c, 3, ok, ok');
    RunOpen(Kernel, t1, tid, r, c, 3, ok, ok');
    EofOnly(q, Reopened(none, tid, r, c, ok, ok'), tid, c, 5, true);
  }

  lemma MissedEofEvents(mode: Mode, none: seq<Label>, tid: u32, r: u64, c: u64)
    requires c != 0 && Run(mode, none) == INIT
    ensures Run(mode, ThenEof(MissedEof(none, tid, r, c), tid, c)).events
            == [if mode.Ideal? then EventOf(4, tid, 3, None) else EventOf(6, tid, 5, None)]
  {
    hide Step, Run, EventOf, OpenOf;
    var t1 := none + OpenOf(1, tid, r, c, true, true);
    RunOpen(mode, none, tid, r, c, 1, true, true);
    RunEofCall(mode, t1, tid, c, 3, false);
    RunEofCall(mode, MissedEof(none, tid, r, c), tid, c, 5, true);
  }

  lemma MissedEofOnly(q: Refusal, none: seq<Label>, tid: u32, r: u64, c: u64)
    requires c != 0 && Run(Kernel, none) == INIT && Only(q, none) && q == OverAbsent(FetchEntry)
    ensures Only(q, ThenEof(MissedEof(none, tid, r, c), tid, c))
  {
    hide Step, Run, Only, OpenOf;
    var t1 := none + OpenOf(1, tid, r, c, true, true);
    OpenOnly(q, none, tid, r, c, 1, true, true);
    RunOpen(Kernel, none, tid, r, c, 1, true, true);
    EofOnly(q, t1, tid, c, 3, false);
    RunEofCall(Kernel, t1, tid, c, 3, false);
    EofOnly(q, MissedEof(none, tid, r, c), tid, c, 5, true);
  }

  lemma ReopenedBreaks(q: Refusal, none: seq<Label>, tid: u32, r: u64, c: u64, ok: bool, ok': bool)
    requires c != 0 && none == []
    requires if ok then !ok' && q == OverPresent(OpenExit) else q == OverAbsent(OpenEntry)
    ensures Breaks(q, ThenEof(Reopened(none, tid, r, c, ok, ok'), tid, c))
  {
    hide *;
    Nothing(q, none);
    ReopenedOnly(q, none, tid, r, c, ok, ok');
    ReopenedEvents(Kernel, none, tid, r, c, ok, ok');
    ReopenedEvents(Ideal, none, tid, r, c, ok, ok');
    UnknownEventsDiffer(6, 6, tid, 5, 3);
    OneWrongEvent(q, ThenEof(Reopened(none, tid, r, c, ok, ok'), tid, c),
                  EventOf(6, tid, 5, None), EventOf(6, tid, 3, None));
  }

  /** A refused openCursor entry: under a reused cursor pointer the event is timed
      from the earlier open. */
  lemma RefusedOpenReportsStaleTime(tid: u32, r: u64, c: u64)
    requires c != 0
    ensures Breaks(OverAbsent(OpenEntry), ThenEof(Reopened([], tid, r, c, false, true), tid, c))
  {
    hide *;
    ReopenedBreaks(OverAbsent(OpenEntry), [], tid, r, c, false, true);
  }

  /** A cursor record refused over the record of an earlier open: the same. */
  lemma RefusedCursorReportsStaleTime(tid: u32, r: u64, c: u64)
    requires c != 0
    ensures Breaks(OverPresent(OpenExit), ThenEof(Reopened([], tid, r, c, true, false), tid, c))
  {
    hide *;
    ReopenedBreaks(OverPresent(OpenExit), [], tid, r, c, true, false);
  }

  /** A refused fetchNext entry before end of file: that end of file goes
      unreported, and a later one emits an event, longer and later than the ideal
      one, for a cursor that the ideal tracker no longer holds. */
  lemma RefusedFetchReportsFinishedCursor(tid: u32, r: u64, c: u64)
    requires c != 0
    ensures Breaks(OverAbsent(FetchEntry), ThenEof(MissedEof([], tid, r, c), tid, c))
  {
    hide *;
    var q := OverAbsent(FetchEntry);
    Nothing(q, []);
    MissedEofOnly(q, [], tid, r, c);
    MissedEofEvents(Kernel, [], tid, r, c);
    MissedEofEvents(Ideal, [], tid, r, c);
    UnknownEventsDiffer(6, 4, tid, 5, 3);
    OneWrongEvent(q, ThenEof(MissedEof([], tid, r, c), tid, c), EventOf(6, tid, 5, None), EventOf(4, tid, 3, None));
  }

  // ---------- which policies are safe ----------

  lemma BreaksIsUnsafe(policy: Site -> Verdict, r: Refusal, trace: seq<Label>)
    requires Breaks(r, trace) && Permits(policy, r)
    ensures !Safe(policy)
  {
    hide Run, Only, Lossy, Follows, Permits;
    OnlyFollows(policy, r, trace);
  }

  /** A refusal that some run cannot bear, wherever a policy permits it. */
  lemma StaleIsUnsafe(policy: Site -> Verdict)
    requires !NeverStale(policy)
    ensures !Safe(policy)
  {
    hide Safe, Breaks;
    RefusedPrepareReportsStaleStatement(1, 1, 1, 2, Null);
    RefusedOpenReportsStaleTime(1, 1, 1);
    RefusedFetchReportsFinishedCursor(1, 1, 1);
    RefusedRecordReportsStaleStatement(1, 1, 1, 2, Null);
    RefusedCursorReportsStaleTime(1, 1, 1);
    RefusedExecuteReportsOuterTime(1, 1);
    RefusedImmediateReportsOuterTime(1, 1, Null);
    hide ReusedRequest, Reopened, ThenEof, MissedEof, NestedExecute, NestedImmediate;
    if policy(PrepareEntry) != AlwaysStored {
      BreaksIsUnsafe(policy, OverAbsent(PrepareEntry), ReusedRequest([], 1, 1, 1, 2, Null, false, true));
    } else if policy(OpenEntry) != AlwaysStored {
      BreaksIsUnsafe(policy, OverAbsent(OpenEntry), ThenEof(Reopened([], 1, 1, 1, false, true), 1, 1));
    } else if policy(FetchEntry) != AlwaysStored {
      BreaksIsUnsafe(policy, OverAbsent(FetchEntry), ThenEof(MissedEof([], 1, 1, 1), 1, 1));
    } else if policy(PrepareExit) == RefusedFreely {
      BreaksIsUnsafe(policy, OverPresent(PrepareExit), ReusedRequest([], 1, 1, 1, 2, Null, true, false));
    } else if policy(OpenExit) == RefusedFreely {
      BreaksIsUnsafe(policy, OverPresent(OpenExit), ThenEof(Reopened([], 1, 1, 1, true, false), 1, 1));
    } else if policy(ExecuteEntry) == RefusedFreely {
      BreaksIsUnsafe(policy, OverPresent(ExecuteEntry), NestedExecute([], 1, 1));
    } else {
      BreaksIsUnsafe(policy, OverPresent(ImmediateEntry), NestedImmediate([], 1, 1, Null));
    }
  }

  /** Main result. Allow each inserting place to be refused never, only over an
      absent key, or freely. All runs are lossy at worst exactly when prepare,
      openCursor and fetchNext entries are always stored and the other four
      inserts are refused over absent keys at most. */
  lemma SafePoliciesExactly(policy: Site -> Verdict)
    ensures Safe(policy) <==> NeverStale(policy)
  {
    hide NeverStale;
    if NeverStale(policy) {
      hide Run, Follows;
      forall trace: seq<Label> | Follows(policy, trace) ensures Lossy(trace) {
        FollowedIsNotStale(policy, trace);
        LossyRefinement(trace);
      }
    } else {
      StaleIsUnsafe(policy);
    }
  }
}

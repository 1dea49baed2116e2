/** The cursor lifecycle: every recorded open is accounted for, exactly once. */
module SlowQueryCursors {
  import opened Machine
  import opened SlowQuery
  import opened SlowQueryProvenance

  /** Number of steps of a run satisfying `p` in the state they start from. */
  function Count(trace: seq<Label>, p: (State, Label) -> bool): nat {
    if |trace| == 0 then 0
    else
      var before, l := trace[..|trace| - 1], trace[|trace| - 1];
      Count(before, p) + if p(Run(Kernel, before), l) then 1 else 0
  }

  // What can happen to cursor pointer c in one step.

  predicate OpenReturns(l: Label, c: u64) {
    l.OnOpenExit? && l.ret == c && c != 0
  }

  /** An end-of-file return of a fetch on c. */
  predicate EofAt(s: State, l: Label, c: u64) {
    l.OnFetchExit? && l.tid in s.fetching && s.fetching[l.tid] == c && l.ret == 1
  }

  /** The step puts an event for c on the ring. */
  predicate EmitsAt(s: State, l: Label, c: u64) {
    EofAt(s, l, c) && |Step(Kernel, s, l).events| > |s.events|
  }

  /** The step consumes the record of c but the ring has no room. */
  predicate DropsAt(s: State, l: Label, c: u64) {
    EofAt(s, l, c) && c in s.cursors && |Step(Kernel, s, l).events| == |s.events|
  }

  predicate EvictsAt(s: State, l: Label, c: u64) {
    l.EvictCursor? && l.cursor == c && c in s.cursors
  }

  predicate OverwritesAt(s: State, l: Label, c: u64) {
    RecordsCursorAt(s, l, c) && c in s.cursors
  }

  lemma EmitsExactly(s: State, l: Label, c: u64)
    requires EofAt(s, l, c)
    ensures EmitsAt(s, l, c) <==> c in s.cursors && l.ring
    ensures DropsAt(s, l, c) <==> c in s.cursors && !l.ring
  {
    assert Step(Kernel, s, l).events == Emit(s.events, Produced(s, l), RingTakes(Kernel, l));
    hide Step;
  }

  lemma NothingWithoutEof(s: State, l: Label, c: u64)
    requires !EofAt(s, l, c)
    ensures !EmitsAt(s, l, c) && !DropsAt(s, l, c)
  {
    hide EofAt, Step;
  }

  /** When c is live after a step. */
  lemma CursorLive(s: State, l: Label, c: u64)
    ensures c in CursorsAfter(Kernel, s, l)
            <==> if RecordsCursorAt(s, l, c) then true
                 else if EofAt(s, l, c) || EvictsAt(s, l, c) then false
                 else c in s.cursors
  {
  }

  lemma FatesAreExclusive(s: State, l: Label, c: u64)
    ensures RecordsCursorAt(s, l, c) ==> !EofAt(s, l, c) && !EvictsAt(s, l, c)
    ensures EofAt(s, l, c) ==> !EvictsAt(s, l, c)
    ensures EvictsAt(s, l, c) ==> c in s.cursors
    ensures OverwritesAt(s, l, c) <==> RecordsCursorAt(s, l, c) && c in s.cursors
  {
  }

  function AsInt(b: bool): int { if b then 1 else 0 }

  /** One step moves the record of c between "live" and its possible fates. */
  lemma StepBalance(s: State, l: Label, c: u64)
    ensures AsInt(c in s.cursors) + AsInt(RecordsCursorAt(s, l, c))
            == AsInt(c in CursorsAfter(Kernel, s, l)) + AsInt(EmitsAt(s, l, c)) + AsInt(DropsAt(s, l, c))
               + AsInt(EvictsAt(s, l, c)) + AsInt(OverwritesAt(s, l, c))
  {
    hide Step, CursorsAfter, RecordsCursorAt, EofAt, EmitsAt, DropsAt, EvictsAt, OverwritesAt;
    CursorLive(s, l, c);
    FatesAreExclusive(s, l, c);
    if EofAt(s, l, c) { EmitsExactly(s, l, c); } else { NothingWithoutEof(s, l, c); }
  }

  /** Conservation: recorded opens of c are exactly those emitted, dropped by
      the ring, evicted, overwritten by a reopened pointer, or still live. */
  lemma {:induction false} CursorConservation(trace: seq<Label>, c: u64)
    ensures Count(trace, (s, l) => RecordsCursorAt(s, l, c))
            == Count(trace, (s, l) => EmitsAt(s, l, c)) + Count(trace, (s, l) => DropsAt(s, l, c))
               + Count(trace, (s, l) => EvictsAt(s, l, c)) + Count(trace, (s, l) => OverwritesAt(s, l, c))
               + AsInt(c in Run(Kernel, trace).cursors)
  {
    if |trace| > 0 {
      var before := trace[..|trace| - 1];
      RunUnfolds(trace);
      hide Step, Run, RecordsCursorAt, EmitsAt, DropsAt, EvictsAt, OverwritesAt, CursorsAfter;
      CursorConservation(before, c);
      StepBalance(Run(Kernel, before), trace[|trace| - 1], c);
    }
  }

  lemma {:induction false} CountMonotone(trace: seq<Label>, p: (State, Label) -> bool, q: (State, Label) -> bool)
    requires forall s, l :: p(s, l) ==> q(s, l)
    ensures Count(trace, p) <= Count(trace, q)
  {
    hide Run;
    if |trace| > 0 { CountMonotone(trace[..|trace| - 1], p, q); }
  }

  /** At most one event per successful openCursor return of the pointer. */
  lemma EventsBoundedByOpens(trace: seq<Label>, c: u64)
    ensures Count(trace, (s, l) => EmitsAt(s, l, c)) <= Count(trace, (s, l) => OpenReturns(l, c))
  {
    hide Run, Step, Count;
    CursorConservation(trace, c);
    CountMonotone(trace, (s, l) => RecordsCursorAt(s, l, c), (s, l) => OpenReturns(l, c));
  }

  lemma SilentStep(trace: seq<Label>, c: u64)
    requires |trace| > 0 && c !in Run(Kernel, trace[..|trace| - 1]).cursors
    requires !RecordsCursorAt(Run(Kernel, trace[..|trace| - 1]), trace[|trace| - 1], c)
    ensures c !in Run(Kernel, trace).cursors
    ensures !EmitsAt(Run(Kernel, trace[..|trace| - 1]), trace[|trace| - 1], c)
  {
    RunUnfolds(trace);
    hide Step, Run, RecordsCursorAt, EmitsAt, DropsAt, EvictsAt, OverwritesAt, CursorsAfter;
    StepBalance(Run(Kernel, trace[..|trace| - 1]), trace[|trace| - 1], c);
  }

  /** Without a live record and without a new open, end-of-file returns stay silent. */
  lemma {:induction false} SilentUntilReopened(trace: seq<Label>, from: nat, c: u64)
    requires from <= |trace| && c !in Run(Kernel, trace[..from]).cursors
    requires forall m :: from <= m < |trace| ==> !RecordsCursor(trace, m, c)
    ensures c !in Run(Kernel, trace).cursors
    ensures forall m :: from <= m < |trace| ==> !EmitsAt(Run(Kernel, trace[..m]), trace[m], c)
  {
    hide Step, Run, RecordsCursorAt, EmitsAt, CursorsAfter;
    if from == |trace| {
      assert trace[..from] == trace;
    } else {
      var n := |trace| - 1;
      var before := trace[..n];
      assert before[..from] == trace[..from];
      forall m | from <= m < n ensures !RecordsCursor(before, m, c) {
        RecordsCursorPrefix(trace, m, c);
        assert !RecordsCursor(trace, m, c);
      }
      SilentUntilReopened(before, from, c);
      forall m | from <= m < n ensures !EmitsAt(Run(Kernel, trace[..m]), trace[m], c) {
        assert before[..m] == trace[..m];
      }
      assert !RecordsCursor(trace, n, c);
      SilentStep(trace, c);
    }
  }

  lemma EmissionConsumes(trace: seq<Label>, c: u64)
    requires |trace| > 0 && EmitsAt(Run(Kernel, trace[..|trace| - 1]), trace[|trace| - 1], c)
    ensures c !in Run(Kernel, trace).cursors
  {
    var s := Run(Kernel, trace[..|trace| - 1]);
    RunUnfolds(trace);
    hide Step, Run;
    EmitsExactly(s, trace[|trace| - 1], c);
  }

  lemma EmitIsNotRecord(s: State, l: Label, c: u64)
    requires EmitsAt(s, l, c)
    ensures !RecordsCursorAt(s, l, c)
  {
    hide Step;
  }

  /** Two events for one cursor pointer have a recorded open between them. */
  lemma EventsNeedOpensBetween(trace: seq<Label>, c: u64, a: nat, b: nat)
    requires a < b < |trace|
    requires EmitsAt(Run(Kernel, trace[..a]), trace[a], c) && EmitsAt(Run(Kernel, trace[..b]), trace[b], c)
    ensures exists m :: a < m < b && RecordsCursor(trace, m, c)
  {
    hide Step, Run, EmitsAt, RecordsCursorAt, CursorsAfter;
    if forall m :: a < m < b ==> !RecordsCursor(trace, m, c) {
      var upto := trace[..b + 1];
      assert upto[..a + 1] == trace[..a + 1] && trace[..a + 1][..a] == trace[..a] && upto[..b] == trace[..b];
      EmissionConsumes(trace[..a + 1], c);
      forall m | a + 1 <= m < |upto| ensures !RecordsCursor(upto, m, c) {
        assert upto[..m] == trace[..m];
        if m < b { assert !RecordsCursor(trace, m, c); } else { EmitIsNotRecord(Run(Kernel, trace[..b]), trace[b], c); }
      }
      SilentUntilReopened(upto, a + 1, c);
    }
  }
}

# tragach: models and proofs

tragach is four eBPF tracers for Firebird. Each has probe handlers in the kernel
that update bounded maps, and a userspace half that decodes, aggregates and
indexes what those handlers produce. This project models both halves in Dafny
and proves what holds over every run: any interleaving of threads and CPUs, with
evictions, refused inserts, ring losses and userspace drains at any point.

## How the model is built

Each tracer has two descriptions of one step. A class (`SlowQuery.Tracker`,
`Attach.Tracer`, `IoWait.Profiler`, `PageIo.Monitor`) holds the maps as fields,
and each handler is a method that updates them in place. A function `Step` says
what state each labelled step leads to; every method is proved to leave exactly
that state. `Run` folds `Step` over a trace of labels, and the lemmas are about
`Run`, so they cover every reachable state.

| file | content |
|---|---|
| Machine.dfy | machine integers, wrapping and saturating arithmetic, bounded maps |
| Slots.dfy | the one-slot-per-thread protocol behind every "in progress" map |
| SqlText.dfy | SQL capture, scratch buffers, the final cut |
| SlowQuery.dfy | the prepare/execute/cursor join machine |
| SlowQueryProbes.dfy | what each probe does, map by map and on the ring |
| SlowQueryRefinement.dfy | lossy refinement of an unbounded tracker |
| SlowQueryRefusals.dfy | exactly which refused inserts the refinement can bear |
| SlowQueryProvenance.dfy | where every field of every event comes from |
| SlowQueryCursors.dfy | cursor lifecycle and conservation |
| SlowQueryConsumer.dfy | threshold filter and small-ID table |
| Symbols.dfy | probe offset resolution |
| Attach.dfy | attachment lifecycle |
| IoWait.dfy, IoWaitLedger.dfy | off-CPU accounting and its ledger |
| IoWaitSleeps.dfy | which sleeps are recorded, charged and reported |
| IoWaitFlush.dfy, Reasons.dfy, IoWaitTop.dfy | idle filter, aggregation, report |
| IoWaitWindows.dfy | windows of real runs, and one that saturates |
| Kallsyms.dfy, KallsymsText.dfy | kernel symbol index and the text it is read from |
| PageIo.dfy, PageIoTotals.dfy, PageIoRuns.dfy | page-I/O counters and windows |
| PageIoProvenance.dfy | where each fetch, wait and byte comes from |
| PageIoAverages.dfy | when a window's block average is within its maximum |

`dafny verify dfyconfig.toml` checks the whole project.

## Assumptions

- One handler firing is one atomic step, as is copying or removing one map entry
  from userspace.
- Time comes in with each label. Only the lemmas about off-CPU time and the exact
  bound on block averages ask for a monotonic clock, and say so. Every
  counterexample is a run whose clock never goes back.
- An insert takes effect when the kernel agrees (a flag on the label) and the key
  is present or the map has room. The kernel's choice of what to evict from an
  LRU map is a step of its own, which may remove any entry at any time; an insert
  that evicts is that step followed by the insert.
- Whether the ring has room is a flag on the label.
- The string read delivers nothing when it faults before the terminator, and
  leaves zeros behind what it delivers.
- A drain reads each map key at most once, in any order, and may miss keys
  inserted meanwhile.
- Pointers may be reused freely. Nothing assumes distinct statements or cursors
  have distinct pointers over time.

## Where a property needed a condition

- **Lossy refinement** needs prepare, openCursor and fetchNext entries to be
  stored, and every other refused insert to have found its key absent, which a
  refusal by a full map implies. As conditions on the seven inserting places these
  are exact (`SlowQueryRefusals.SafePoliciesExactly`): for each of them there is a
  run whose only refusal violates it and whose event is wrong.
- **Pairing** fails exactly when a leaf call's insert is refused over an occupied
  slot. A full map cannot cause that; a null request or cursor in a nested call
  can, because the handler returns before inserting. Exceptions that unwind a
  nested call break pairing as well (`Slots.UnwoundNestedCallMispairs`);
  `Slots.ReturnTakesAnotherEntryExactly` is the condition without any bracketing.
- **SQL text**: `length` is a 32-bit parameter read as a 64-bit register and
  compared as such. The upper half matters in two cases, which
  `SqlText.DecodedTextIsIntended` and `SqlText.TruncatedFlagIsExact` delimit and
  the explanation of every event repeats.
- **The truncated flag** is not always "the statement was cut":
  `SqlText.TruncatedFlagMeansCut` has the three exceptions.
- **Small IDs** identify attachments up to 2^32 distinct ones; the counter wraps.
- **Stack times** stay within the reported total unless the total saturates and at
  least two stacks have time (`IoWaitTop.StackSumWithinTotalExactly`). It cannot
  saturate while threads times elapsed time is below 2^64 ns.
- **Block average within block maximum** holds per run but not per window: a
  window guarantees it exactly when it matched no more completions than it
  counted issues, or counted none, or counted so many that the waits needed to
  exceed it do not fit in 64 bits (`PageIoAverages.BlockAverageBoundIsExact`).
- **Window differences** are exact when the window's own increments are below
  2^64; the cumulative counters may wrap.

## Where code and documentation differ

The model follows the code.

- SPECS.md (line 157) and the comment in `crates/tragach-iowait/src/main.rs`
  (lines 234-235) say idle buckets are those that exceed the threshold. The code
  also drops a bucket equal to it (line 241).
- SPECS.md (line 116) says a statement is shown if its execute time exceeds
  `--threshold`. The code also shows one equal to it
  (`crates/tragach-slowquery/src/main.rs`, line 233).
- The comment on TARGET_TGID in `crates/tragach-iowait/src/bpf/main.rs` (lines
  57-58) says 0 means "track all PIDs". The handler ignores everything then
  (line 97).
- `crates/tragach-common/src/event.rs` (lines 3-4), README.md (line 123) and
  docs/design-notes.md (line 77) say the truncated flag is set when the text
  exceeds 512 bytes. 511 bytes fit, the last is the terminator. When the caller
  passes length 0 the flag is never set, however long the text; when it declares
  more than 511 bytes over a string of exactly 511, the flag is set although
  nothing was cut (`crates/tragach-slowquery/src/bpf/main.rs`, lines 220-225).

## Model

| member | source | states |
|---|---|---|
| Slots.SlotHoldsLatestStored | crates/tragach-slowquery/src/bpf/main.rs:95-109 | whatever inserts are refused, a slot is full exactly when the thread's latest stored entry has not been taken by an exit, and holds that entry's payload |
| Slots.SlotHoldsLast | crates/tragach-slowquery/src/bpf/main.rs:231-342 | if a refused entry only ever found its slot empty, a slot is full exactly when the thread's latest firing is a stored entry: exact pairing for calls that do not nest, including calls that never return |
| Slots.LeafCallsPair | crates/tragach-slowquery/src/bpf/main.rs:231-342 | with nested calls, tracing possibly starting mid-call: a return finds its slot full if and only if the returning call is a leaf whose insert took effect, and the payload is then that call's own; no return takes another call's entry |
| Slots.MispairedExactlyWhenRefusedOverFullSlot | crates/tragach-slowquery/src/bpf/main.rs:231-342 | with refusals of any kind, a return takes an entry other than its own call's if and only if its call is a leaf whose insert was refused over a slot an outer call had filled |
| Slots.ReturnTakesAnotherEntryExactly | crates/tragach-slowquery/src/bpf/main.rs:231-342 | for every sequence of firings, bracketed or not and whatever the payloads, and every running call: its return is given the payload of an entry other than its own if and only if the thread's latest stored entry, not taken since, is not its own |
| Slots.UnwoundNestedCallMispairs | crates/tragach-slowquery/src/bpf/main.rs:274-295 | after any firings, a stored nested call that was unwound hands its entry to the outer call's return, and the outer call's own entry is gone |
| SqlText.WithSqlScratch.Capture | crates/tragach-slowquery/src/bpf/main.rs:203-229 | the per-CPU scratch after a capture depends on this call alone, never on what an earlier probe left there |
| SqlText.PreparedScratch.Fill | crates/tragach-slowquery/src/bpf/main.rs:254-266 | likewise for the prepared-statement scratch: all fields and all 512 bytes are overwritten |
| SqlText.ReadUserStr | crates/tragach-slowquery/src/bpf/main.rs:213-217 | what the user-string read delivers: at most 511 bytes, none of them NUL |
| SqlText.ReadIsPrefixToNul | crates/tragach-slowquery/src/bpf/main.rs:213-218 | unless the read faults, it delivers the user string cut at its first NUL and at 511 bytes |
| SqlText.FaultyReadIsEmpty | crates/tragach-slowquery/src/bpf/main.rs:213-217 | a read that runs off the mapped memory before a NUL and before 512 bytes delivers nothing |
| SqlText.DecodedTextIsIntended | crates/tragach-slowquery/src/bpf/main.rs:199-229 | capture followed by `sql_str` gives the user string cut at NUL, 511 bytes and (if non-zero) the declared 32-bit length, if and only if the register is not one with a dirty upper half and a zero lower half over non-empty text |
| SqlText.TruncatedFlagIsExact | crates/tragach-slowquery/src/bpf/main.rs:218-225 | for every register value, the truncated flag means "511 bytes read and more than 511 declared" if and only if the register is not one with a dirty upper half and at most 511 declared while 511 were read |
| SqlText.TruncatedFlagMeansCut | crates/tragach-slowquery/src/bpf/main.rs:212-229 | for every register value and readable string, the flag means "the statement has more than the 511 bytes that fit", except exactly when no length is declared and the string is longer, when more than 511 are declared over a string of 511, or when a dirty upper half hides a declared length within 511 that cut a longer string |
| SlowQuery.Tracker.PrepareEntry | crates/tragach-slowquery/src/bpf/main.rs:195-234 | the whole new state after a DSQL_prepare entry: capture into scratch, then one insert under the thread id |
| SlowQuery.Tracker.PrepareExit | crates/tragach-slowquery/src/bpf/main.rs:236-272 | the whole new state after a DSQL_prepare return: slot taken, and for a non-null request its record inserted with saturating prepare time |
| SlowQuery.Tracker.ExecuteEntry | crates/tragach-slowquery/src/bpf/main.rs:274-285 | the whole new state; a null request leaves everything as it was |
| SlowQuery.Tracker.ExecuteExit | crates/tragach-slowquery/src/bpf/main.rs:287-318 | the whole new state; slot taken, one event joined by request pointer or marked unknown |
| SlowQuery.Tracker.ImmediateEntry | crates/tragach-slowquery/src/bpf/main.rs:195-234 | the whole new state after an execute-immediate entry |
| SlowQuery.Tracker.ImmediateExit | crates/tragach-slowquery/src/bpf/main.rs:320-344 | the whole new state; slot taken even when the ring refuses the event |
| SlowQuery.Tracker.OpenCursorEntry | crates/tragach-slowquery/src/bpf/main.rs:346-355 | the whole new state; null requests are recorded too |
| SlowQuery.Tracker.OpenCursorExit | crates/tragach-slowquery/src/bpf/main.rs:357-370 | the whole new state; slot taken, a non-null cursor recorded with its open time |
| SlowQuery.Tracker.FetchNextEntry | crates/tragach-slowquery/src/bpf/main.rs:372-379 | the whole new state; a null cursor leaves everything as it was |
| SlowQuery.Tracker.FetchNextExit | crates/tragach-slowquery/src/bpf/main.rs:381-423 | the whole new state; only a return of 1 consumes the cursor record and produces an event |
| SlowQuery.Tracker.EmitJoined | crates/tragach-slowquery/src/bpf/main.rs:297-317 | the event appended for a request: its prepare record, or the all-unknown event |
| SlowQuery.Tracker.EmitEvent | crates/tragach-slowquery/src/bpf/main.rs:428-462 | the event appended if the ring has room; without a source the SQL buffer is zero |
| SlowQueryProbes.ReturnsEmptyTheirSlot | crates/tragach-slowquery/src/bpf/main.rs:236-422 | each of the five returns empties its own thread's slot, whatever it returns and whatever the ring does, and leaves every other thread's slot as it was |
| SlowQueryProbes.EntriesFillTheirSlot | crates/tragach-slowquery/src/bpf/main.rs:274-379 | an execute, openCursor or fetchNext entry overwrites its thread's slot (8192 entries) with this call's time and pointer when the map takes it, and otherwise changes nothing; null requests and cursors are skipped, except by openCursor |
| SlowQueryProbes.CapturesFillTheirSlot | crates/tragach-slowquery/src/bpf/main.rs:195-234 | the same for the two entries that capture text |
| SlowQueryProbes.ProbesKeepToTheirMaps | crates/tragach-slowquery/src/bpf/main.rs:236-422 | a probe changes no map but its own and the record map or ring it feeds |
| SlowQueryProbes.PreparedRecordsExactly | crates/tragach-slowquery/src/bpf/main.rs:236-272 | when a prepare return records something (1024 entries), what, and that nothing else changes; eviction removes one record |
| SlowQueryProbes.CursorRecordsExactly | crates/tragach-slowquery/src/bpf/main.rs:357-395 | when an openCursor return records a cursor (1024 entries) and when a fetch return removes one, and that nothing else changes |
| SlowQueryProbes.RingGrowsExactly | crates/tragach-slowquery/src/bpf/main.rs:287-462 | a step puts exactly one event on the ring if it is a return with something to report and the ring has room, and none otherwise |
| SlowQueryProbes.OpsMirrorProbes | crates/tragach-slowquery/src/bpf/main.rs:125-183 | the entries and returns that pairing speaks of are exactly the firings of the corresponding probes, on the same threads |
| SlowQueryProbes.ImmediateEventsNeedEntriesBetween | crates/tragach-slowquery/src/bpf/main.rs:320-344 | between a return and a later reporting return of execute-immediate on one thread lies an entry of that thread: no entry is reported twice |
| SlowQueryProbes.ExecuteEventsNeedEntriesBetween | crates/tragach-slowquery/src/bpf/main.rs:287-318 | the same for execute |
| SlowQueryRefinement.LossyRefinement | crates/tragach-slowquery/src/bpf/main.rs:236-423 | main result: for every interleaving, eviction and ring loss, the emitted events are a subsequence of those of a tracker with unbounded maps and ring, each equal to its counterpart or with attachment, prepare time and SQL erased; by forward simulation (bounded maps are submaps of the unbounded ones) |
| SlowQueryRefinement.StepSimulates | crates/tragach-slowquery/src/bpf/main.rs:231-423 | every handler and every eviction keeps the simulation relation |
| SlowQueryRefinement.ProducedMatches | crates/tragach-slowquery/src/bpf/main.rs:297-422 | an event of the bounded tracker is produced by the unbounded one in the same step, equal or erased to unknown |
| SlowQueryRefusals.SafePoliciesExactly | crates/tragach-slowquery/src/bpf/main.rs:231-379 | main result: allow each of the seven inserts to be refused never, only over an absent key, or freely; all runs are lossy at worst if and only if prepare, openCursor and fetchNext entries are always stored and the other four are refused over absent keys at most |
| SlowQueryRefusals.RefusedPrepareReportsStaleStatement | crates/tragach-slowquery/src/bpf/main.rs:231-272 | run whose only refusal is a prepare entry: under a reused request pointer the old statement's attachment is reported |
| SlowQueryRefusals.RefusedRecordReportsStaleStatement | crates/tragach-slowquery/src/bpf/main.rs:254-271 | run whose only refusal is a prepared record over the record of an earlier statement: the same |
| SlowQueryRefusals.RefusedExecuteReportsOuterTime | crates/tragach-slowquery/src/bpf/main.rs:274-295 | run whose only refusal is a nested execute entry over its outer call's: the inner call is reported with the outer call's start |
| SlowQueryRefusals.RefusedImmediateReportsOuterTime | crates/tragach-slowquery/src/bpf/main.rs:231-342 | the same for execute-immediate calls |
| SlowQueryRefusals.RefusedOpenReportsStaleTime | crates/tragach-slowquery/src/bpf/main.rs:346-370 | run whose only refusal is an openCursor entry: under a reused cursor pointer the event is timed from the earlier open |
| SlowQueryRefusals.RefusedCursorReportsStaleTime | crates/tragach-slowquery/src/bpf/main.rs:357-368 | run whose only refusal is a cursor record over the record of an earlier open: the same |
| SlowQueryRefusals.RefusedFetchReportsFinishedCursor | crates/tragach-slowquery/src/bpf/main.rs:372-395 | run whose only refusal is a fetchNext entry before end of file: that end of file goes unreported and a later one emits an event for a cursor the unbounded tracker no longer holds |
| SlowQueryProvenance.MapsAreSlots | crates/tragach-slowquery/src/bpf/main.rs:95-109 | in every run each of the five in-progress maps behaves as an independent slot machine over its own probe firings |
| SlowQueryProvenance.CapacityRefusalsAreHonest | crates/tragach-slowquery/src/bpf/main.rs:95-109 | refusals by a full map, with non-null pointers, never hit a thread whose slot is occupied |
| SlowQueryProvenance.ExitsPairWithTheirOwnLeafCalls | crates/tragach-slowquery/src/bpf/main.rs:231-423 | pairing for all five probed functions in every interleaving of threads: an exit finds exactly its own leaf call's entry, or nothing |
| SlowQueryProvenance.ExecuteDurationIsItsOwnCalls | crates/tragach-slowquery/src/bpf/main.rs:274-318 | an execute exit produces an event if and only if the returning call is a leaf recorded at entry, and reports that call's own duration |
| SlowQueryProvenance.PreparedProvenance | crates/tragach-slowquery/src/bpf/main.rs:236-272 | with no assumption on refusals: the record held for a request pointer was built by the latest prepare return recording that pointer, from the thread's latest stored prepare entry |
| SlowQueryProvenance.CursorProvenance | crates/tragach-slowquery/src/bpf/main.rs:346-370 | the record held for a cursor pointer was stored by the latest openCursor return recording it, with the time and request of that call's entry |
| SlowQueryProvenance.EveryEventIsProduced | crates/tragach-slowquery/src/bpf/main.rs:428-462 | every event on the ring is one that some step of the run produced |
| SlowQueryProvenance.ExecuteEventExplained | crates/tragach-slowquery/src/bpf/main.rs:287-318 | every field of an execute event: whose entry it times, whose prepare call its attachment, prepare time and text come from, and exactly when its text and flag are the intended ones, for every value of the length register |
| SlowQueryProvenance.ImmediateEventExplained | crates/tragach-slowquery/src/bpf/main.rs:320-344 | every field of an execute-immediate event comes from one entry, with prepare time 0, and exactly when its text and flag are the intended ones |
| SlowQueryProvenance.CursorEventExplained | crates/tragach-slowquery/src/bpf/main.rs:381-423 | a cursor event arises only from an end-of-file return; it runs from the entry of the openCursor call that last recorded the fetched cursor, joined with that call's request, its text and flag exactly as above |
| SlowQueryCursors.CursorConservation | crates/tragach-slowquery/src/bpf/main.rs:357-423 | in every run, recorded opens of a cursor pointer = emitted + dropped by the ring + evicted + overwritten + still live |
| SlowQueryCursors.EventsBoundedByOpens | crates/tragach-slowquery/src/bpf/main.rs:357-423 | events for a cursor pointer never outnumber successful openCursor returns of it |
| SlowQueryCursors.SilentUntilReopened | crates/tragach-slowquery/src/bpf/main.rs:387-395 | once consumed, a cursor stays silent through any number of end-of-file fetches until it is recorded again |
| SlowQueryCursors.EventsNeedOpensBetween | crates/tragach-slowquery/src/bpf/main.rs:368-395 | two events for one cursor pointer have a recorded open strictly between them |
| SlowQueryConsumer.RunEventLoop | crates/tragach-slowquery/src/main.rs:207-260 | rows show, in ring order, exactly the records of at least 560 bytes whose execute time reaches the threshold, if there is one; each row carries its attachment's rank of first appearance, none exactly when the attachment is unknown; the number of shorter records is counted |
| SlowQueryConsumer.SmallId | crates/tragach-slowquery/src/main.rs:239-246 | one lookup in the ID table keeps the table equal to the first-appearance ranks and returns the rank, or none for an unknown attachment |
| SlowQueryConsumer.FirstSeenMembers | crates/tragach-slowquery/src/main.rs:239-246 | the attachments given IDs are exactly the non-zero ones of printed events |
| SlowQueryConsumer.IdsAreDense | crates/tragach-slowquery/src/main.rs:242-245 | below 2^32 attachments, IDs are exactly 1..k in order of first appearance |
| SlowQueryConsumer.IdsAreStable | crates/tragach-slowquery/src/main.rs:242-245 | an attachment keeps its ID however the stream continues |
| SlowQueryConsumer.IdsIdentifyAttachments | crates/tragach-slowquery/src/main.rs:242-245 | equal IDs mean equal attachments if and only if at most 2^32 distinct attachments were printed |
| Symbols.PrefixesAreIncomparable | crates/tragach-slowquery/src/symbols.rs:11-14 | no name starts with two of the five mangled prefixes |
| Symbols.PrefixesAreManglings | crates/tragach-slowquery/src/symbols.rs:51-63 | the five prefixes are the length-prefixed manglings of the five probed functions |
| Symbols.ColdClonesAreIgnored | crates/tragach-slowquery/src/symbols.rs:42-48 | a text symbol with a target's prefix matches whatever its parameters, unless it ends in .cold; symbols that are not text or whose name does not decode never match |
| Symbols.DispatchIsMatching | crates/tragach-slowquery/src/symbols.rs:42-65 | the else-if chain selects a target if and only if the symbol is non-cold text with that target's prefix, so the order of the chain is irrelevant |
| Symbols.CheckUnique | crates/tragach-slowquery/src/symbols.rs:80-92 | a slot is filled once, accepts repeats of its address and refuses any other |
| Symbols.Resolve | crates/tragach-slowquery/src/symbols.rs:35-78 | succeeds if and only if every target has exactly one distinct address among its matching symbols, and returns those; otherwise reports the target of the first conflict in the table or, without one, the first target in order that has no address |
| Symbols.ResolvedOffsets | crates/tragach-slowquery/src/symbols.rs:68-77 | each field of a successful result is the one address of its own function |
| Symbols.ResolutionIsOrderIndependent | crates/tragach-slowquery/src/symbols.rs:41-78 | success and the offsets are the same for every permutation of the symbol table |
| Attach.Tracer.CtorEntry | crates/tragach-attach/src/bpf/main.rs:68-100 | the whole new state; a refused insert reports nothing, a full ring loses only the event |
| Attach.Tracer.ReleaseEntry | crates/tragach-attach/src/bpf/main.rs:102-133 | the whole new state; the record is consumed even when the ring is full |
| Attach.LiveChangesExactly | crates/tragach-attach/src/bpf/main.rs:68-112 | what each step does to LIVE (1024 entries): a constructor writes its time, process and thread under a non-null pointer, a release or an eviction removes it, nothing else changes |
| Attach.RingGrowsExactly | crates/tragach-attach/src/bpf/main.rs:83-131 | a step puts exactly one event on the ring if it opens a recorded attachment or releases a live one and the ring has room, and none otherwise |
| Attach.LiveIsOpenSince | crates/tragach-attach/src/bpf/main.rs:83-112 | in every run LIVE holds exactly the recorded opens not released or evicted since, with their time, pid and tid |
| Attach.ClosedExplained | crates/tragach-attach/src/bpf/main.rs:109-131 | every Closed event follows an unconsumed recorded open of the same pointer, the latest one, and reports the time since it |
| Attach.EveryEventIsProduced | crates/tragach-attach/src/bpf/main.rs:86-131 | every event on the ring is one that some step of the run produced |
| Attach.RingClosedExplained | crates/tragach-attach/src/bpf/main.rs:102-131 | every Closed event on the ring, in every run: the release that produced it and the open it is timed from, the latest one recorded for its pointer |
| Attach.RingOpenedExplained | crates/tragach-attach/src/bpf/main.rs:75-97 | every Opened event on the ring, in every run: the constructor that produced it, with its time, process and thread and duration 0 |
| Attach.ClosesNeedOpensBetween | crates/tragach-attach/src/bpf/main.rs:83-112 | two Closed events for one pointer have a recorded open strictly between them |
| Attach.LiveExactly | crates/tragach-attach/src/bpf/main.rs:83-112 | without loss a pointer is in LIVE exactly between its constructor and its release |
| Attach.Balance | crates/tragach-attach/src/bpf/main.rs:68-133 | without loss, at every moment: Opened events = constructor calls = Closed events + live attachments |
| Attach.OpensAndClosesMatch | SPECS.md:229 | N opens all released, with nothing lost, give exactly N Opened and N Closed events |
| IoWait.Profiler.SchedSwitch | crates/tragach-iowait/src/bpf/main.rs:83-113 | the whole new state: preempted tasks and other processes are ignored, otherwise the thread's start is overwritten |
| IoWait.Profiler.SchedWakeup | crates/tragach-iowait/src/bpf/main.rs:115-136 | the whole new state: the start is consumed and its time added to its thread-and-stack bucket with wrapping addition |
| IoWait.Profiler.StartFlush | crates/tragach-iowait/src/main.rs:225-225 | a flush starts with an empty snapshot |
| IoWait.Profiler.SnapshotEntry | crates/tragach-iowait/src/main.rs:226-229 | one entry is copied to the snapshot, each key at most once |
| IoWait.Profiler.StartRemoval | crates/tragach-iowait/src/main.rs:230-230 | reading ends and removal starts at the first snapshot entry |
| IoWait.Profiler.RemoveEntry | crates/tragach-iowait/src/main.rs:230-232 | one snapshot key is removed from BUCKETS, with whatever it then holds |
| IoWait.Profiler.FinishFlush | crates/tragach-iowait/src/main.rs:264-290 | the window is closed with the snapshot as read |
| IoWaitLedger.Conservation | crates/tragach-iowait/src/main.rs:224-232 | main result: with a monotonic clock and the drain interleaved step by step, all time matched to a bucket key = reported + in BUCKETS and unread + added between the key's read and its removal + refused by a full map |
| IoWaitLedger.OffCpuTimeBound | crates/tragach-iowait/src/bpf/main.rs:105-134 | main result: at every moment the live buckets of a thread over any set of stacks, plus all that was drained for it, fit in the elapsed time |
| IoWaitLedger.NeverWraps | crates/tragach-iowait/src/bpf/main.rs:123-133 | in such runs the wrapping addition never wraps and the saturating subtraction never clamps |
| IoWaitLedger.ThreadTimeFits | crates/tragach-iowait/src/bpf/main.rs:105-124 | matched sleeps of one thread do not overlap: they fit in the time before its current sleep began |
| IoWaitLedger.BucketWithinMatched | crates/tragach-iowait/src/bpf/main.rs:126-134 | a bucket never holds more than was matched to its key |
| IoWaitLedger.HeldWithinMatched | crates/tragach-iowait/src/main.rs:224-232 | bucket plus drained time of a key never exceeds what was matched to it, also between read and removal |
| IoWaitLedger.MatchedSum | crates/tragach-iowait/src/bpf/main.rs:126-134 | the stacks of a thread share its matched time: their sum is at most the thread's |
| IoWaitLedger.DrainInvAlways | crates/tragach-iowait/src/main.rs:224-232 | in every reachable state of the drain, snapshot keys are distinct and every key read but not yet removed is still in BUCKETS |
| IoWaitLedger.ChargeIsLatestSleep | crates/tragach-iowait/src/bpf/main.rs:83-124 | a wakeup charges the time since the thread's latest recorded sleep, to that sleep's stack: a voluntary switch of the target process with no wakeup of the thread since |
| IoWaitSleeps.ThreadIds | crates/tragach-iowait/src/bpf/main.rs:110-117 | thread ids are the two's complement of the tracepoint's signed pids |
| IoWaitSleeps.SleepsAreRecorded | crates/tragach-iowait/src/bpf/main.rs:83-113 | a switch records its thread, time and stack (16384 entries) exactly when its state has a non-zero low byte, a target is set and it is the current process, and the map takes it; any other switch changes nothing |
| IoWaitSleeps.WakeupsForget | crates/tragach-iowait/src/bpf/main.rs:116-121 | a wakeup removes its own thread's record and no other |
| IoWaitSleeps.WakeupsCharge | crates/tragach-iowait/src/bpf/main.rs:119-134 | what a wakeup adds to BUCKETS (8192 entries): the time since its thread's record, under the thread and the record's stack; nothing without a record |
| IoWaitSleeps.SleepIsCharged | crates/tragach-iowait/src/bpf/main.rs:83-134 | main result: every recorded sleep, of whatever kind, is charged by its thread's next wakeup with the time between the two, to the stack it slept on, whatever other threads and the drain do in between |
| IoWaitSleeps.WholeDrainReportsAll | crates/tragach-iowait/src/main.rs:224-232 | a drain without handlers in between reports every key it reads with its value and leaves exactly the others in BUCKETS |
| IoWaitFlush.ExcludeIdle | crates/tragach-iowait/src/main.rs:234-243 | keeps the buckets below the threshold, in order, and counts the others |
| IoWaitFlush.FilterPartitions | crates/tragach-iowait/src/main.rs:236-243 | retained and excluded buckets are together exactly the drained snapshot, strictly below and at or above the threshold |
| IoWaitFlush.Aggregate | crates/tragach-iowait/src/main.rs:245-262 | the aggregation loop computes the fold whose meaning the next rows state |
| IoWaitFlush.AggregateMeaning | crates/tragach-iowait/src/main.rs:245-262 | for every snapshot and reason: present exactly when an entry has it; total = min(2^64 - 1, true sum); threads = the distinct ids; stacks = exactly those so classified, each with its own saturated sum and frames |
| IoWaitFlush.ReportedFrames | crates/tragach-iowait/src/main.rs:248-260 | a stack is reported with one symbol name per instruction pointer of the stack-trace map, in its order, leaf first; without a captured or known stack it has none |
| IoWaitFlush.LeafMostPointerDecides | crates/tragach-iowait/src/main.rs:248-258 | main result: an entry is counted, with its thread and stack, under the reason of the first instruction pointer from the leaf whose symbol names block I/O or a futex |
| IoWaitFlush.NoSpecificPointer | crates/tragach-iowait/src/main.rs:248-258 | without such a pointer it is counted as scheduler delay if some pointer names the scheduler, else as other |
| IoWaitFlush.NoStackIsOther | crates/tragach-iowait/src/main.rs:248-256 | an entry without a captured or known stack is counted as other |
| IoWaitFlush.AggregationIsOrderIndependent | crates/tragach-iowait/src/main.rs:245-262 | two snapshots with the same entries in any order aggregate identically |
| IoWaitFlush.StackHasOneReason | crates/tragach-iowait/src/main.rs:256-260 | a stack id lands in exactly one reason |
| IoWaitFlush.ReasonsPartition | crates/tragach-iowait/src/main.rs:256-258 | the true sums of the four reasons add up to the true sum of the snapshot |
| Reasons.LeafMostSpecificDecides | crates/tragach-iowait/src/classify.rs:25-34 | the leaf-most block-I/O or futex frame decides the reason, block I/O first |
| Reasons.NoSpecificMeansScheduleOrOther | crates/tragach-iowait/src/classify.rs:35-42 | with no such frame, the reason is scheduler delay if and only if some frame is a scheduler frame, else other |
| Reasons.OneFrame | crates/tragach-iowait/src/classify.rs:25-57 | the names that make a single frame block I/O, futex or scheduler delay |
| Reasons.LabelTexts | crates/tragach-iowait/src/classify.rs:15-22 | the label of each reason |
| Reasons.LabelsAreInjective | crates/tragach-iowait/src/classify.rs:15-22 | distinct reasons have distinct labels |
| IoWaitTop.TopKTakesLargest | crates/tragach-iowait/src/main.rs:267-269 | emitted stacks are sorted descending, there are min(k, n) of them, none is smaller than an omitted one, and none is lost or invented |
| IoWaitTop.FlooredSum | crates/tragach-iowait/src/main.rs:273-276 | the sum of floored milliseconds is at most the floored sum |
| IoWaitTop.StacksWithinReason | crates/tragach-iowait/src/main.rs:257-261 | the stack times of a reason add up to at most its true time |
| IoWaitTop.StackSumWithinTotalExactly | crates/tragach-iowait/src/main.rs:257-262 | main result: the stack times of a reason add up to no more than its reported total if and only if its true time fits in 64 bits or at most one of its stacks has any time |
| IoWaitTop.ReportIsConsistent | crates/tragach-iowait/src/main.rs:266-280 | in a reported reason stacks descend and, under that condition, their floored milliseconds add up to at most the reported total |
| IoWaitWindows.ThreadFitsElapsed | crates/tragach-iowait/src/main.rs:224-232 | in a run with a monotonic clock, no window holds more than the elapsed time for any one thread |
| IoWaitWindows.WindowFitsThreadsTimesElapsed | crates/tragach-iowait/src/main.rs:224-262 | main result: every window of such a run adds up to at most its number of threads times the time since tracing began |
| IoWaitWindows.RunReportIsConsistent | crates/tragach-iowait/src/main.rs:224-281 | so while threads times elapsed time stays below 2^64 ns, no report of the run, filtered or not, shows stacks exceeding their reason's total |
| IoWaitWindows.SaturationBreaksTheSum | crates/tragach-iowait/src/main.rs:258-280 | counterexample without that bound, as a run: two threads asleep over the clock's whole range on two stacks of one reason are drained into a window whose stacks are reported to exceed the total |
| IoWaitTop.RenderReason | crates/tragach-iowait/src/main.rs:267-279 | one reason's JSON is its floored total, thread count and top stacks, for some iteration order of its map |
| IoWaitTop.ReportedStacksAreReal | crates/tragach-iowait/src/main.rs:266-280 | min(k, n) stacks are reported, each one of the reason's with its own frames and its time in whole milliseconds, as is the total; threads are counted once each |
| IoWaitTop.RenderReasons | crates/tragach-iowait/src/main.rs:264-281 | every aggregate is reported under its label, none overwrites another, and nothing else is reported |
| Kallsyms.Load | crates/tragach-iowait/src/kallsyms.rs:15-38 | loading gives the well-formed, non-zero entries of the file, module suffix cut, stably sorted by address |
| Kallsyms.PartitionPoint | crates/tragach-iowait/src/kallsyms.rs:49 | binary search splits a sorted table into addresses at or below and above ip |
| Kallsyms.SortIsStable | crates/tragach-iowait/src/kallsyms.rs:36 | sorting keeps file order among equal addresses and loses nothing |
| Kallsyms.ScanBestIsLastGreatest | crates/tragach-iowait/src/kallsyms.rs:44-54 | the reference scan finds the last file-order entry among those with the greatest address not above ip, or none when all are above |
| Kallsyms.LookupAgreesWithScan | crates/tragach-iowait/src/kallsyms.rs:15-54 | main result: for every file text and every ip, lookup in the loaded table equals the linear scan, including the hex and "?" fallbacks |
| Kallsyms.LoadOfRender | crates/tragach-iowait/src/kallsyms.rs:19-36 | round trip: loading a rendered list of symbol lines gives exactly its entries with a non-zero address, stably sorted, module suffixes stripped |
| KallsymsText.EntriesExactly | crates/tragach-iowait/src/kallsyms.rs:19-34 | exactly which lines are entries, and of what: an address that is a number other than zero, a kind and a name split at the first two spaces, the name ending at a tab |
| KallsymsText.NumbersExactly | crates/tragach-iowait/src/kallsyms.rs:25-28 | upper-case digits read as lower-case, one leading plus sign is allowed, no digit at all or any other character is not a number |
| KallsymsText.TooLargeIsNotANumber | crates/tragach-iowait/src/kallsyms.rs:25-28 | an address of 2^64 or more is not a number |
| KallsymsText.LineEnds | crates/tragach-iowait/src/kallsyms.rs:18-19 | lines end in LF or CR LF, the last one needs no end |
| KallsymsText.FallbackShowsTheAddress | crates/tragach-iowait/src/kallsyms.rs:49-52 | below all symbols a lookup shows the address in lower-case hexadecimal without leading zeros, so that reading it gives the address back |
| KallsymsText.NothingToLookUp | crates/tragach-iowait/src/kallsyms.rs:46-48 | without symbols or for address zero a lookup shows a question mark |
| PageIo.Monitor.CchEntry | crates/tragach-pageio/src/bpf/main.rs:88-111 | the whole new state after a page-fetch entry, on any CPU |
| PageIo.Monitor.CchExit | crates/tragach-pageio/src/bpf/main.rs:113-131 | the whole new state: the entry is consumed and counted on the CPU the exit runs on |
| PageIo.Monitor.Issue | crates/tragach-pageio/src/bpf/main.rs:147-172 | the whole new state: counted even when the in-flight map refuses the request |
| PageIo.Monitor.Complete | crates/tragach-pageio/src/bpf/main.rs:174-198 | the whole new state: counted only when the request is matched |
| PageIo.Monitor.SampleNext | crates/tragach-pageio/src/main.rs:219-221 | one more per-CPU slot is copied |
| PageIo.Monitor.FlushWindow | crates/tragach-pageio/src/main.rs:141-151 | the window is the difference of this snapshot to the previous one, which it replaces |
| PageIo.SnapshotCounters | crates/tragach-pageio/src/main.rs:216-237 | the summing loop computes the slot-wise wrapping sums and maxima |
| PageIoProvenance.FetchIsItsOwnTime | crates/tragach-pageio/src/bpf/main.rs:88-131 | main result: a fetch return adds one fetch and the time since its thread's latest recorded entry, a firing of the target process with no return since, to the CPU it runs on; without such an entry it adds nothing |
| PageIoProvenance.WaitIsItsOwnTime | crates/tragach-pageio/src/bpf/main.rs:147-198 | a completion adds the time since the latest recorded issue of its device and sector, a firing of the target process with no completion since, to the CPU it runs on; without one it adds nothing |
| PageIoProvenance.IssuesOfTargetCount | crates/tragach-pageio/src/bpf/main.rs:147-172 | one request and its bytes are added exactly by an issue of the target process, whether or not the in-flight map takes it |
| PageIoProvenance.FetchingIsLatest | crates/tragach-pageio/src/bpf/main.rs:109-117 | in every run the fetch map (8192 entries) holds exactly the threads with such an entry, with its time |
| PageIoProvenance.InflightIsLatest | crates/tragach-pageio/src/bpf/main.rs:162-184 | in every run the in-flight map (16384 entries) holds exactly the blocks with such an issue, with its time |
| PageIoProvenance.AveragesAreFloors | crates/tragach-pageio/src/main.rs:368-369 | averages are the floors of total over count, zero without a count |
| PageIoTotals.CountersShowTallies | crates/tragach-pageio/src/bpf/main.rs:122-196 | in every run each CPU's slot is the unbounded tally of what handlers did on that CPU, modulo 2^64, with exact maxima |
| PageIoTotals.SamplesShowTallies | crates/tragach-pageio/src/main.rs:216-237 | a snapshot taken slot by slot with handlers in between is the wrapped sum of the CPUs' tallies, each as of its own sampling time |
| PageIoTotals.SumsGrow | crates/tragach-pageio/src/bpf/main.rs:124-128 | between two such snapshots every total grows by at most the count's growth times the later maximum |
| PageIoTotals.WindowAverageWithinMax | crates/tragach-pageio/src/main.rs:239-251 | main result: at every flush, if the window's own increments fit in 64 bits, the window reports exact differences and the run's true maxima so far, and its engine average is at most that maximum; so is the block average unless the window matched more completions than it counted issues |
| PageIoAverages.BlockAverageBoundIsExact | crates/tragach-pageio/src/main.rs:361-386 | main result: the counts m of issues and n of matched completions that guarantee, in every run with a monotonic clock and every window whose own increments fit in 64 bits, a block average within the maximum are exactly those with n <= m, m = 0, or m * ((m - 1) / (n - m) + 2) >= 2^64, the least total wait that could exceed it |
| PageIoAverages.BlockAverageCanExceedMax | crates/tragach-pageio/src/main.rs:361-386 | for all other counts, a run with a monotonic clock whose window has these counts and an average above its maximum |
| PageIoRuns.WindowsTelescope | crates/tragach-pageio/src/main.rs:133-144 | over any run the wrapping sum of all windows equals the last snapshot, field by field |
| PageIoRuns.WindowsSumToWhatWasSampled | crates/tragach-pageio/src/main.rs:223-251 | main result: that sum is, modulo 2^64, exactly what handlers did before their CPU's latest sampling: matched fetches, traced issues, bytes and waits, none missed or counted twice, whatever CPU ran them |
| PageIoRuns.SlotsSumToTheRun | crates/tragach-pageio/src/bpf/main.rs:122-196 | the slots combined at any moment are the tally of the whole run; which CPU did what leaves no trace |
| PageIoRuns.InflightInequality | crates/tragach-pageio/src/bpf/main.rs:162-196 | main result: in every reachable state matched completions + requests in flight <= issues counted, despite overwrites and refusals; hence total wait <= issues * longest wait |

## Left out

- SlowQueryRefinement.LossyRefinement: its condition is exact by inserting place (SlowQueryRefusals.SafePoliciesExactly), not refusal by refusal; whether a single refusal does harm depends on which pointers are reused later in the run.
- Loading and attaching programs, `setrlimit`, process lookup, signal handling and timers: no logic of their own.
- ELF parsing: the resolver starts from a parsed list of symbols.
- Error texts of the resolver: a failure carries its kind and target only.
- Timestamps, JSON and human formatting, `meaningful_frame`, the block/engine ratio: formatting and floating point.
- UTF-8 decoding of SQL text: it is modelled as bytes.
- The idle threshold as a fraction of the window: taken as an already computed number of nanoseconds.
- Byte layout of ring records: a record is its length and the event it decodes to.
- Ring capacity in bytes: each event has a verdict on whether it fits.
- The kernel's LRU order and hash iteration order: any eviction, any order.
- Interleaving finer than one handler, such as a map value changing while it is read.
- Failing reads of probe arguments, tracepoint fields and scratch slots, and a drain aborted by a map error: the handlers or the flush then do nothing further.
- The page number read from `win` and the captured stack id: parameters of their handlers, as is the stack-trace map of a flush.
- The event loop of tragach-attach and the symbol resolvers of tragach-attach and tragach-pageio: one filter, and the same fold with fewer targets.
- The human-readable report of tragach-iowait: only the JSON report is modelled.

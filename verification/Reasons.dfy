/** Off-CPU reasons: classification of a kernel stack by its frame names. */
module Reasons {
  datatype Reason = BlockIo | Futex | SchedDelay | Other

  function Label(r: Reason): string {
    match r
    case BlockIo => "block I/O wait"
    case Futex => "futex wait"
    case SchedDelay => "scheduler delay"
    case Other => "other"
  }

  predicate StartsWith(name: string, prefix: string) { prefix <= name }

  predicate IsBlockIo(name: string) {
    StartsWith(name, "blk_") || StartsWith(name, "bio_") || StartsWith(name, "submit_bio")
    || StartsWith(name, "io_schedule") || StartsWith(name, "__io_schedule") || StartsWith(name, "wait_on_buffer")
  }

  predicate IsFutex(name: string) {
    StartsWith(name, "futex_") || StartsWith(name, "do_futex") || StartsWith(name, "__futex")
  }

  predicate IsSchedule(name: string) { StartsWith(name, "schedule") || name == "__schedule" }

  /** The first scan, leaf to root: the reason of the first specific frame, or
      SchedDelay when there is none. */
  function FirstSpecific(frames: seq<string>): Reason {
    if |frames| == 0 then SchedDelay
    else if IsBlockIo(frames[0]) then BlockIo
    else if IsFutex(frames[0]) then Futex
    else FirstSpecific(frames[1..])
  }

  predicate AnySchedule(frames: seq<string>) {
    |frames| > 0 && (IsSchedule(frames[0]) || AnySchedule(frames[1..]))
  }

  function Classify(frames: seq<string>): Reason {
    var specific := FirstSpecific(frames);
    if specific != SchedDelay then specific
    else if AnySchedule(frames) then SchedDelay
    else Other
  }

  predicate Specific(name: string) { IsBlockIo(name) || IsFutex(name) }

  /** The leaf-most specific frame decides. */
  lemma {:induction false} LeafMostSpecificDecides(frames: seq<string>, i: nat)
    requires i < |frames| && Specific(frames[i]) && forall j :: 0 <= j < i ==> !Specific(frames[j])
    ensures Classify(frames) == if IsBlockIo(frames[i]) then BlockIo else Futex
  {
    hide IsBlockIo, IsFutex;
    if i > 0 {
      assert !Specific(frames[0]);
      LeafMostSpecificDecides(frames[1..], i - 1);
    }
  }

  lemma {:induction false} AnyScheduleMeans(frames: seq<string>)
    ensures AnySchedule(frames) <==> exists i :: 0 <= i < |frames| && IsSchedule(frames[i])
  {
    hide IsSchedule;
    if |frames| > 0 {
      var rest := frames[1..];
      AnyScheduleMeans(rest);
      if AnySchedule(rest) {
        var k :| 0 <= k < |rest| && IsSchedule(rest[k]);
        assert IsSchedule(frames[k + 1]);
      }
      if i :| 0 <= i < |frames| && IsSchedule(frames[i]) {
        if i > 0 { assert IsSchedule(rest[i - 1]); }
      }
    }
  }

  lemma {:induction false} NoSpecificScansPast(frames: seq<string>)
    requires forall i :: 0 <= i < |frames| ==> !Specific(frames[i])
    ensures FirstSpecific(frames) == SchedDelay
  {
    hide IsBlockIo, IsFutex;
    if |frames| > 0 {
      assert !Specific(frames[0]);
      NoSpecificScansPast(frames[1..]);
    }
  }

  /** Without a specific frame, any scheduler frame makes it a scheduler delay. */
  lemma NoSpecificMeansScheduleOrOther(frames: seq<string>)
    requires forall i :: 0 <= i < |frames| ==> !Specific(frames[i])
    ensures Classify(frames) == if exists i :: 0 <= i < |frames| && IsSchedule(frames[i]) then SchedDelay else Other
  {
    NoSpecificScansPast(frames);
    AnyScheduleMeans(frames);
    hide FirstSpecific, AnySchedule, IsSchedule, Specific;
  }

  lemma FirstThree(prefix: string, name: string)
    requires |prefix| >= 3
    ensures prefix <= name ==> |name| >= 3 && name[0] == prefix[0] && name[1] == prefix[1] && name[2] == prefix[2]
  {
  }

  lemma Unfolded(name: string)
    ensures Classify([name]) == if IsBlockIo(name) then BlockIo
                                else if IsFutex(name) then Futex
                                else if IsSchedule(name) then SchedDelay
                                else Other
  {
    hide IsBlockIo, IsFutex, IsSchedule;
    var none: seq<string> := [];
    assert [name][1..] == none && [name][0] == name;
    assert FirstSpecific(none) == SchedDelay && !AnySchedule(none);
  }

  lemma BlockIoStarts(name: string)
    ensures IsBlockIo(name) ==>
              |name| >= 3 && (name[0] in ['b', 'w'] || (name[0] == 's' && name[1] == 'u')
                              || name[0] == 'i' || (name[0] == '_' && name[2] == 'i'))
  {
    FirstThree("blk_", name);
    FirstThree("bio_", name);
    FirstThree("submit_bio", name);
    FirstThree("io_schedule", name);
    FirstThree("__io_schedule", name);
    FirstThree("wait_on_buffer", name);
  }

  lemma FutexStarts(name: string)
    ensures IsFutex(name) ==>
              |name| >= 3 && (name[0] in ['f', 'd'] || (name[0] == '_' && name[2] == 'f'))
  {
    FirstThree("futex_", name);
    FirstThree("do_futex", name);
    FirstThree("__futex", name);
  }

  lemma ScheduleStarts(name: string)
    ensures IsSchedule(name) ==>
              |name| >= 3 && ((name[0] == 's' && name[1] == 'c') || (name[0] == '_' && name[2] == 's'))
  {
    FirstThree("schedule", name);
    if name == "__schedule" { assert name[0] == '_' && name[2] == 's'; }
  }

  /** No name is of two kinds. */
  lemma KindsAreDisjoint(name: string)
    ensures !(IsBlockIo(name) && IsFutex(name)) && !(IsBlockIo(name) && IsSchedule(name))
    ensures !(IsFutex(name) && IsSchedule(name))
  {
    hide *;
    BlockIoStarts(name);
    FutexStarts(name);
    ScheduleStarts(name);
  }

  /** What a single frame is classified as, name by name. */
  lemma OneFrame(name: string)
    ensures Classify([name]) == BlockIo
            <==> "blk_" <= name || "bio_" <= name || "submit_bio" <= name || "io_schedule" <= name
                 || "__io_schedule" <= name || "wait_on_buffer" <= name
    ensures Classify([name]) == Futex <==> "futex_" <= name || "do_futex" <= name || "__futex" <= name
    ensures Classify([name]) == SchedDelay <==> "schedule" <= name || name == "__schedule"
  {
    hide Classify;
    Unfolded(name);
    KindsAreDisjoint(name);
  }

  /** The labels of the report (SPECS.md, section 5.2). */
  lemma LabelTexts()
    ensures Label(BlockIo) == "block I/O wait" && Label(Futex) == "futex wait"
    ensures Label(SchedDelay) == "scheduler delay" && Label(Other) == "other"
  {
  }

  /** Distinct reasons print under distinct labels. */
  lemma LabelsAreInjective(a: Reason, b: Reason)
    requires Label(a) == Label(b)
    ensures a == b
  {
    assert Label(BlockIo)[0] == 'b' && Label(Futex)[0] == 'f' && Label(SchedDelay)[0] == 's' && Label(Other)[0] == 'o';
  }
}

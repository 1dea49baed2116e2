/** Whole-run claims about the page-I/O counters: telescoping windows, CPU
    independence and the block in-flight inequality. */
module PageIoRuns {
  import opened Machine
  import opened PageIo
  import opened PageIoTotals

  // ---------- telescoping ----------

  /** Same additive fields; maxima aside. */
  predicate SameSums(a: Counters, b: Counters) {
    && a.engineCount == b.engineCount && a.engineTotalNs == b.engineTotalNs && a.blockCount == b.blockCount
    && a.blockTotalBytes == b.blockTotalBytes && a.blockTotalWaitNs == b.blockTotalWaitNs
  }

  lemma SubThenAdd(p: u64, n: u64)
    ensures WrapAdd(p, WrapSub(n, p)) == n
  {
    assert WrapSub(n, p) == if n >= p then n - p else n - p + TWO64;
  }

  lemma PlusDelta(total: Counters, prev: Counters, now: Counters)
    requires SameSums(total, prev)
    ensures SameSums(Plus(total, Delta(prev, now)), now)
  {
    SubThenAdd(prev.engineCount, now.engineCount);
    SubThenAdd(prev.engineTotalNs, now.engineTotalNs);
    SubThenAdd(prev.blockCount, now.blockCount);
    SubThenAdd(prev.blockTotalBytes, now.blockTotalBytes);
    SubThenAdd(prev.blockTotalWaitNs, now.blockTotalWaitNs);
  }

  /** The wrapping sum of all windows printed so far is the last snapshot. */
  lemma {:induction false} WindowsTelescope(target: u32, cpus: nat, trace: seq<Label>)
    ensures SameSums(Combine(Run(target, cpus, trace).windows), Run(target, cpus, trace).prev)
  {
    if |trace| > 0 {
      var before, l := trace[..|trace| - 1], trace[|trace| - 1];
      var s := Run(target, cpus, before);
      assert Run(target, cpus, trace) == Step(target, s, l);
      WindowsTelescope(target, cpus, before);
      if l.Flush? && FlushReady(s) {
        var d := Delta(s.prev, Combine(s.partial));
        assert (s.windows + [d])[..|s.windows|] == s.windows;
        assert Combine(s.windows + [d]) == Plus(Combine(s.windows), d);
        hide Run, Combine, Delta, Plus, SameSums;
        PlusDelta(Combine(s.windows), s.prev, Combine(s.partial));
      }
    }
  }

  // ---------- CPU independence ----------

  /** What handlers did among the first n firings, counting a firing on CPU c
      only if it came before that CPU's sampling time at[c]. */
  function TallySampled(target: u32, cpus: nat, trace: seq<Label>, n: nat, at: seq<nat>): Tally
    requires n <= |trace|
  {
    if n == 0 then NONE
    else
      var t, l := TallySampled(target, cpus, trace, n - 1, at), trace[n - 1];
      if !l.Sample? && !l.Flush? && l.cpu < |at| && n - 1 < at[l.cpu]
      then Add(t, BumpOf(target, Run(target, cpus, trace[..n - 1]), l))
      else t
  }

  function Capped(at: seq<nat>, n: nat): seq<nat> { seq(|at|, c requires 0 <= c < |at| => Min(at[c], n)) }

  lemma PlusAdd(x: Tally, y: Tally, b: Bump)
    ensures PlusTally(Add(x, b), y) == Add(PlusTally(x, y), b) == PlusTally(x, Add(y, b))
  {
  }

  lemma {:induction false} SumReplace(ts: seq<Tally>, c: nat, b: Bump)
    requires c < |ts|
    ensures SumTallies(ts[c := Add(ts[c], b)]) == Add(SumTallies(ts), b)
  {
    hide Add, PlusTally;
    var last := |ts| - 1;
    var ts' := ts[c := Add(ts[c], b)];
    if c == last {
      assert ts'[..last] == ts[..last];
      PlusAdd(SumTallies(ts[..last]), ts[last], b);
    } else {
      SumReplace(ts[..last], c, b);
      assert ts'[..last] == ts[..last][c := Add(ts[c], b)];
      PlusAdd(SumTallies(ts[..last]), ts[last], b);
    }
  }

  /** One more firing changes at most the tally of its own CPU. */
  lemma CappedStep(target: u32, cpus: nat, trace: seq<Label>, n: nat, at: seq<nat>, c: nat)
    requires 0 < n <= |trace| && c < |at| && forall i :: 0 <= i < |at| ==> at[i] <= |trace|
    ensures var x := TalliesAt(target, cpus, trace, Capped(at, n - 1))[c];
            TalliesAt(target, cpus, trace, Capped(at, n))[c]
            == if n - 1 < at[c] && OnCpu(trace[n - 1], c)
               then Add(x, BumpOf(target, Run(target, cpus, trace[..n - 1]), trace[n - 1])) else x
  {
    hide Run, Step, Add, BumpOf;
    assert trace[..n][..n - 1] == trace[..n - 1];
    assert trace[..n][n - 1] == trace[n - 1];
    if n - 1 < at[c] {
      assert Capped(at, n)[c] == n && Capped(at, n - 1)[c] == n - 1;
    } else {
      assert Capped(at, n)[c] == Capped(at, n - 1)[c];
    }
  }

  /** The tallies of all CPUs, before and after one more firing. */
  lemma AllCappedStep(target: u32, cpus: nat, trace: seq<Label>, n: nat, at: seq<nat>)
    requires 0 < n <= |trace| && forall c :: 0 <= c < |at| ==> at[c] <= |trace|
    ensures var l := trace[n - 1];
            var x := TalliesAt(target, cpus, trace, Capped(at, n - 1));
            var y := TalliesAt(target, cpus, trace, Capped(at, n));
            && |x| == |at|
            && y == if !l.Sample? && !l.Flush? && l.cpu < |at| && n - 1 < at[l.cpu]
                    then x[l.cpu := Add(x[l.cpu], BumpOf(target, Run(target, cpus, trace[..n - 1]), l))]
                    else x
  {
    hide Run, Step, BumpOf, Add, TallyOn;
    var l := trace[n - 1];
    var x, y := TalliesAt(target, cpus, trace, Capped(at, n - 1)), TalliesAt(target, cpus, trace, Capped(at, n));
    var b := BumpOf(target, Run(target, cpus, trace[..n - 1]), l);
    assert |x| == |y| == |at|;
    forall c | 0 <= c < |at| ensures y[c] == if n - 1 < at[c] && OnCpu(l, c) then Add(x[c], b) else x[c] {
      CappedStep(target, cpus, trace, n, at, c);
    }
    hide TalliesAt, Capped;
  }

  /** The sum over CPUs of what each did before its sampling time is what was
      sampled, whatever CPU ran which handler. */
  lemma {:induction false} SumOverCpus(target: u32, cpus: nat, trace: seq<Label>, n: nat, at: seq<nat>)
    requires n <= |trace| && forall c :: 0 <= c < |at| ==> at[c] <= |trace|
    ensures SumTallies(TalliesAt(target, cpus, trace, Capped(at, n))) == TallySampled(target, cpus, trace, n, at)
  {
    hide Run, Step, BumpOf, Add, SumTallies, TallyOn;
    if n == 0 {
      SumOfNothing(target, cpus, trace, Capped(at, 0));
    } else {
      SumOverCpus(target, cpus, trace, n - 1, at);
      AllCappedStep(target, cpus, trace, n, at);
      var l := trace[n - 1];
      hide TalliesAt;
      if !l.Sample? && !l.Flush? && l.cpu < |at| && n - 1 < at[l.cpu] {
        SumReplace(TalliesAt(target, cpus, trace, Capped(at, n - 1)), l.cpu,
                   BumpOf(target, Run(target, cpus, trace[..n - 1]), l));
      }
    }
  }

  /** Main result. The wrapping sum of all windows equals, field by field modulo
      2^64, what handlers did before their CPU's latest sampling time: engine
      count the matched fetches, block count the traced issues, and so on. No
      handler is counted twice or missed, on any CPU. */
  lemma WindowsSumToWhatWasSampled(target: u32, cpus: nat, trace: seq<Label>)
    ensures SameSums(Combine(Run(target, cpus, trace).windows),
                     Wrapped(TallySampled(target, cpus, trace, |trace|, SampleTimes(cpus, trace).last)))
  {
    var at := SampleTimes(cpus, trace).last;
    WindowsTelescope(target, cpus, trace);
    SamplesShowTallies(target, cpus, trace);
    SumOverCpus(target, cpus, trace, |trace|, at);
    hide Run, Step, TallyOn, SumTallies, Combine, Wrapped, TallySampled, SampleTimes;
    assert Capped(at, |trace|) == at;
  }

  lemma {:induction false} SampledNowIsAll(target: u32, cpus: nat, trace: seq<Label>, n: nat, at: seq<nat>)
    requires n <= |trace| && OnRealCpus(trace, cpus) && |at| == cpus && forall c :: 0 <= c < cpus ==> at[c] == |trace|
    ensures TallySampled(target, cpus, trace, n, at) == TallyAll(target, cpus, trace[..n])
  {
    hide Run, Step;
    if n > 0 {
      SampledNowIsAll(target, cpus, trace, n - 1, at);
      assert trace[..n][..n - 1] == trace[..n - 1];
      assert trace[n - 1].Sample? || trace[n - 1].Flush? || trace[n - 1].cpu < cpus;
    }
  }

  lemma {:induction false} CountersLength(target: u32, cpus: nat, trace: seq<Label>)
    ensures |Run(target, cpus, trace).counters| == cpus
  {
    if |trace| > 0 {
      CountersLength(target, cpus, trace[..|trace| - 1]);
    }
  }

  /** The slots as they stand now, summed, are the tally of the whole run: no
      trace of which CPU did what remains. */
  lemma SlotsSumToTheRun(target: u32, cpus: nat, trace: seq<Label>)
    requires OnRealCpus(trace, cpus)
    ensures Combine(Run(target, cpus, trace).counters) == Wrapped(TallyAll(target, cpus, trace))
  {
    var at := seq(cpus, c => |trace|);
    var ts := TalliesAt(target, cpus, trace, at);
    assert Run(target, cpus, trace).counters == WrapAll(ts) by {
      hide Run, Step, TallyOn, Wrapped;
      CountersLength(target, cpus, trace);
      assert trace[..|trace|] == trace;
      forall c | 0 <= c < cpus ensures Run(target, cpus, trace).counters[c] == WrapAll(ts)[c] {
        CountersShowTallies(target, cpus, trace, c);
      }
    }
    assert SumTallies(ts) == TallyAll(target, cpus, trace) by {
      hide Run, Step, TallyOn, TallyAll, TallySampled, SumTallies;
      SumOverCpus(target, cpus, trace, |trace|, at);
      SampledNowIsAll(target, cpus, trace, |trace|, at);
      assert Capped(at, |trace|) == at && trace[..|trace|] == trace;
    }
    hide *;
    CombineIsSum(ts);
  }

  // ---------- block requests in flight ----------

  lemma InsertGrows(m: map<BlockKey, u64>, k: BlockKey, v: u64, ok: bool)
    ensures |Insert(Kernel, m, k, v, INFLIGHT_MAX, ok)| <= |m| + 1
  {
    assert m[k := v].Keys == m.Keys + {k};
  }

  lemma InflightStep(target: u32, s: State, l: Label)
    ensures var n, n' := |s.inflight|, |InflightAfter(target, s, l)|;
            match BumpOf(target, s, l)
            case Issued(_) => n' <= n + 1
            case Waited(_) => n' == n - 1
            case _ => n' == n
  {
    if l.BlockIssue? && Traced(target, l.tgid) {
      InsertGrows(s.inflight, BlockKey(l.dev, l.sector), l.now, l.ok);
    }
    hide Insert;
  }

  lemma WaitStep(t: Tally, b: Bump)
    requires t.wait <= t.completions * t.waitMax
    ensures Add(t, b).wait <= Add(t, b).completions * Add(t, b).waitMax
  {
    if b.Waited? {
      var top := Max(t.waitMax, b.ns);
      assert t.completions * t.waitMax <= t.completions * top;
      assert (t.completions + 1) * top == t.completions * top + top;
    }
  }

  /** Main result. In every reachable state the matched completions and the
      requests in flight together never exceed the issues counted, whatever keys
      were overwritten or refused; so total wait is at most issues times the
      longest wait. */
  lemma {:induction false} InflightInequality(target: u32, cpus: nat, trace: seq<Label>)
    ensures var t := TallyAll(target, cpus, trace);
            && t.completions + |Run(target, cpus, trace).inflight| <= t.blockCount
            && t.wait <= t.completions * t.waitMax <= t.blockCount * t.waitMax
  {
    if |trace| > 0 {
      var before, l := trace[..|trace| - 1], trace[|trace| - 1];
      var s := Run(target, cpus, before);
      assert Run(target, cpus, trace).inflight == InflightAfter(target, s, l);
      hide Run, Step, InflightAfter, BumpOf;
      InflightInequality(target, cpus, before);
      InflightStep(target, s, l);
      WaitStep(TallyAll(target, cpus, before), BumpOf(target, s, l));
      ScaleLe(TallyAll(target, cpus, trace).completions, TallyAll(target, cpus, trace).blockCount,
              TallyAll(target, cpus, trace).waitMax);
    }
  }
}

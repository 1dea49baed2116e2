/** The JSON report of `flush_window`: top stacks per reason, in whole milliseconds. */
module IoWaitTop {
  import opened Machine
  import opened Reasons
  import opened IoWaitFlush
  import K = Kallsyms

  const NS_PER_MS: nat := 1_000_000

  /** An element of `agg.by_stack.iter()`: stack id, time, frames. */
  type Item = (i32, (u64, seq<string>))

  /** `items` lists the map in some order, each key once. */
  ghost predicate Enumerates(items: seq<Item>, m: map<i32, (u64, seq<string>)>) {
    && (forall i, j :: 0 <= i < j < |items| ==> items[i].0 != items[j].0)
    && (forall i :: 0 <= i < |items| ==> items[i].0 in m && items[i].1 == m[items[i].0])
    && (forall id :: id in m ==> exists i :: 0 <= i < |items| && items[i].0 == id)
  }

  /** `sort_by_key(Reverse(ns))`, stable: each item goes after those not smaller. */
  function InsertDesc(s: seq<Item>, e: Item): seq<Item> {
    if |s| == 0 then [e]
    else if s[0].1.0 >= e.1.0 then [s[0]] + InsertDesc(s[1..], e)
    else [e] + s
  }

  function SortDesc(items: seq<Item>): seq<Item> {
    if |items| == 0 then [] else InsertDesc(SortDesc(items[..|items| - 1]), items[|items| - 1])
  }

  /** Sort, then `truncate(top_stacks)`. */
  function TopK(items: seq<Item>, k: nat): seq<Item> {
    SortDesc(items)[..Min(k, |SortDesc(items)|)]
  }

  ghost predicate Descending(s: seq<Item>) {
    forall i, j :: 0 <= i < j < |s| ==> s[i].1.0 >= s[j].1.0
  }

  function SumNs(s: seq<Item>): nat { if |s| == 0 then 0 else s[0].1.0 + SumNs(s[1..]) }

  function SumMs(s: seq<Item>): nat { if |s| == 0 then 0 else s[0].1.0 / NS_PER_MS + SumMs(s[1..]) }

  lemma {:induction false} InsertDescAdds(s: seq<Item>, e: Item)
    ensures multiset(InsertDesc(s, e)) == multiset(s) + multiset{e}
    ensures SumNs(InsertDesc(s, e)) == SumNs(s) + e.1.0
  {
    if |s| > 0 {
      assert s == [s[0]] + s[1..];
      if s[0].1.0 >= e.1.0 { InsertDescAdds(s[1..], e); } else { assert ([e] + s)[1..] == s; }
    }
  }

  lemma InsertDescMember(s: seq<Item>, e: Item, x: Item)
    requires x in InsertDesc(s, e)
    ensures x in s || x == e
  {
    InsertDescAdds(s, e);
    hide InsertDesc, SumNs;
    assert x in multiset(InsertDesc(s, e));
  }

  lemma {:induction false} InsertDescSorts(s: seq<Item>, e: Item)
    requires Descending(s)
    ensures Descending(InsertDesc(s, e))
  {
    if |s| > 0 && s[0].1.0 >= e.1.0 {
      var r := InsertDesc(s[1..], e);
      assert InsertDesc(s, e) == [s[0]] + r;
      InsertDescSorts(s[1..], e);
      hide InsertDesc, SumNs;
      forall j | 0 <= j < |r| ensures s[0].1.0 >= r[j].1.0 {
        InsertDescMember(s[1..], e, r[j]);
        if r[j] != e {
          var i :| 0 <= i < |s[1..]| && s[1..][i] == r[j];
          assert s[1..][i] == s[i + 1];
        }
      }
    }
  }

  lemma {:induction false} SumNsConcat(x: seq<Item>, y: seq<Item>)
    ensures SumNs(x + y) == SumNs(x) + SumNs(y)
  {
    if |x| == 0 {
      assert x + y == y;
    } else {
      assert (x + y)[1..] == x[1..] + y;
      SumNsConcat(x[1..], y);
    }
  }

  lemma {:induction false} SortDescKeeps(items: seq<Item>)
    ensures Descending(SortDesc(items)) && multiset(SortDesc(items)) == multiset(items)
    ensures SumNs(SortDesc(items)) == SumNs(items)
  {
    if |items| > 0 {
      var before, e := items[..|items| - 1], items[|items| - 1];
      assert items == before + [e];
      SortDescKeeps(before);
      InsertDescAdds(SortDesc(before), e);
      InsertDescSorts(SortDesc(before), e);
      hide InsertDesc;
      SumNsConcat(before, [e]);
    }
  }

  /** The emitted stacks are the largest: sorted descending, none smaller than an
      omitted one, and nothing lost or invented. */
  lemma TopKTakesLargest(items: seq<Item>, k: nat) returns (omitted: seq<Item>)
    ensures var top := TopK(items, k);
            && |top| == Min(k, |items|) && Descending(top)
            && multiset(top) + multiset(omitted) == multiset(items)
            && (forall i, j :: 0 <= i < |top| && 0 <= j < |omitted| ==> omitted[j].1.0 <= top[i].1.0)
  {
    SortDescKeeps(items);
    hide SortDesc, SumNs;
    var s := SortDesc(items);
    assert |s| == |multiset(s)| == |multiset(items)| == |items|;
    omitted := s[Min(k, |s|)..];
    assert s == TopK(items, k) + omitted;
    forall i, j | 0 <= i < |TopK(items, k)| && 0 <= j < |omitted| ensures omitted[j].1.0 <= TopK(items, k)[i].1.0 {
      assert omitted[j] == s[Min(k, |s|) + j] && TopK(items, k)[i] == s[i];
    }
  }

  lemma FloorAdd(a: nat, b: nat)
    ensures a / NS_PER_MS + b / NS_PER_MS <= (a + b) / NS_PER_MS
  {
  }

  lemma {:induction false} FlooredSum(s: seq<Item>)
    ensures SumMs(s) <= SumNs(s) / NS_PER_MS
  {
    if |s| > 0 {
      FlooredSum(s[1..]);
      FloorAdd(s[0].1.0, SumNs(s[1..]));
    }
  }

  // ---------- stacks share their reason's time ----------

  predicate HasId(items: seq<Item>, id: i32) { exists i :: 0 <= i < |items| && items[i].0 == id }

  function OfIds(items: seq<Item>): Entry -> bool { (e: Entry) => HasId(items, e.0.stack) }

  lemma {:induction false} OfIdsSplit(entries: seq<Entry>, items: seq<Item>, x: Item)
    requires !HasId(items, x.0)
    ensures Total(entries, OfIds(items + [x])) == Total(entries, OfIds(items)) + Total(entries, OfStack(x.0))
  {
    if |entries| > 0 {
      OfIdsSplit(entries[..|entries| - 1], items, x);
      var id := entries[|entries| - 1].0.stack;
      assert (items + [x])[|items|] == x;
      if HasId(items, id) {
        var i :| 0 <= i < |items| && items[i].0 == id;
        assert (items + [x])[i].0 == id;
      }
    }
  }

  lemma {:induction false} TotalMonotone(entries: seq<Entry>, p: Entry -> bool, q: Entry -> bool)
    requires forall e :: p(e) ==> q(e)
    ensures Total(entries, p) <= Total(entries, q)
  {
    if |entries| > 0 { TotalMonotone(entries[..|entries| - 1], p, q); }
  }

  lemma {:induction false} StacksSum(entries: seq<Entry>, items: seq<Item>)
    requires forall i, j :: 0 <= i < j < |items| ==> items[i].0 != items[j].0
    requires forall i :: 0 <= i < |items| ==> items[i].1.0 <= Total(entries, OfStack(items[i].0))
    ensures SumNs(items) <= Total(entries, OfIds(items))
  {
    if |items| > 0 {
      var before, x := items[..|items| - 1], items[|items| - 1];
      assert items == before + [x];
      StacksSum(entries, before);
      SumNsConcat(before, [x]);
      OfIdsSplit(entries, before, x);
    }
  }

  /** Stack times of a reason add up to no more than the reason's true time. */
  lemma StacksWithinReason(env: Env, entries: seq<Entry>, r: Reason, items: seq<Item>)
    requires K.Sorted(env.syms) && r in AggAll(env, entries)
    requires Enumerates(items, AggAll(env, entries)[r].byStack)
    ensures SumNs(items) <= Total(entries, OfReason(env, r))
  {
    var byStack := AggAll(env, entries)[r].byStack;
    AggregateMeaning(env, entries, r);
    hide AggAll, ReasonOf, FramesOf, Count, Total;
    forall i | 0 <= i < |items|
      ensures items[i].1.0 <= Total(entries, OfStack(items[i].0)) && ReasonOf(env, items[i].0) == r
    {
      assert StackMeans(env, entries, byStack, r, items[i].0);
    }
    StacksSum(entries, items);
    TotalMonotone(entries, OfIds(items), OfReason(env, r));
  }

  // ---------- exactly when they add up to no more than the reported total ----------

  lemma {:induction false} NothingSelected(entries: seq<Entry>, p: Entry -> bool)
    requires forall e :: !p(e)
    ensures Total(entries, p) == 0
  {
    if |entries| > 0 { NothingSelected(entries[..|entries| - 1], p); }
  }

  lemma {:induction false} StacksSumExact(entries: seq<Entry>, items: seq<Item>)
    requires forall i, j :: 0 <= i < j < |items| ==> items[i].0 != items[j].0
    requires forall i :: 0 <= i < |items| ==> items[i].1.0 == Total(entries, OfStack(items[i].0))
    ensures SumNs(items) == Total(entries, OfIds(items))
  {
    if |items| > 0 {
      var before, x := items[..|items| - 1], items[|items| - 1];
      assert items == before + [x];
      StacksSumExact(entries, before);
      SumNsConcat(before, [x]);
      OfIdsSplit(entries, before, x);
    } else {
      NothingSelected(entries, OfIds(items));
    }
  }

  lemma {:induction false} TotalAgrees(entries: seq<Entry>, p: Entry -> bool, q: Entry -> bool)
    requires forall e :: e in entries ==> p(e) == q(e)
    ensures Total(entries, p) == Total(entries, q)
  {
    if |entries| > 0 { TotalAgrees(entries[..|entries| - 1], p, q); }
  }

  lemma {:induction false} MemberIsCounted(entries: seq<Entry>, e: Entry)
    requires e in entries
    ensures Count(entries, OfStack(e.0.stack)) > 0
  {
    var last := |entries| - 1;
    if entries[last] != e { MemberIsCounted(entries[..last], e); }
  }

  /** The stacks of a reason between them cover exactly its entries. */
  lemma StacksCoverReason(env: Env, entries: seq<Entry>, r: Reason, items: seq<Item>)
    requires K.Sorted(env.syms) && r in AggAll(env, entries)
    requires Enumerates(items, AggAll(env, entries)[r].byStack)
    ensures Total(entries, OfIds(items)) == Total(entries, OfReason(env, r))
  {
    var byStack := AggAll(env, entries)[r].byStack;
    AggregateMeaning(env, entries, r);
    hide AggAll, ReasonOf, FramesOf, Count, Total;
    forall e | e in entries ensures OfIds(items)(e) == OfReason(env, r)(e) {
      MemberIsCounted(entries, e);
      assert StackMeans(env, entries, byStack, r, e.0.stack);
      assert HasId(items, e.0.stack) <==> e.0.stack in byStack;
    }
    TotalAgrees(entries, OfIds(items), OfReason(env, r));
  }

  /** No two stacks have time. */
  ghost predicate AtMostOneBusy(items: seq<Item>) {
    forall i, j :: 0 <= i < j < |items| ==> items[i].1.0 == 0 || items[j].1.0 == 0
  }

  lemma {:induction false} OneBusyFits(items: seq<Item>)
    requires AtMostOneBusy(items)
    ensures SumNs(items) < TWO64
    ensures (forall i :: 0 <= i < |items| ==> items[i].1.0 == 0) ==> SumNs(items) == 0
  {
    if |items| > 0 {
      OneBusyFits(items[1..]);
      assert forall i :: 0 <= i < |items| - 1 ==> items[1..][i] == items[i + 1];
    }
  }

  lemma {:induction false} SumAtLeast(items: seq<Item>, i: nat)
    requires i < |items|
    ensures SumNs(items) >= items[i].1.0
  {
    if i > 0 { SumAtLeast(items[1..], i - 1); }
  }

  lemma {:induction false} SumAtLeastTwo(items: seq<Item>, i: nat, j: nat)
    requires i < j < |items|
    ensures var x: nat, y: nat := items[i].1.0, items[j].1.0; SumNs(items) >= x + y
  {
    if i == 0 { SumAtLeast(items[1..], j - 1); } else { SumAtLeastTwo(items[1..], i - 1, j - 1); }
  }

  /** What the items of a reason hold: the saturated true sums of their stacks. */
  lemma ItemsAreSaturated(env: Env, entries: seq<Entry>, r: Reason, items: seq<Item>)
    requires K.Sorted(env.syms) && r in AggAll(env, entries)
    requires Enumerates(items, AggAll(env, entries)[r].byStack)
    ensures forall i :: 0 <= i < |items| ==> items[i].1.0 == Saturated(Total(entries, OfStack(items[i].0)))
    ensures AggAll(env, entries)[r].totalNs == Saturated(Total(entries, OfReason(env, r)))
  {
    AggregateMeaning(env, entries, r);
    hide AggAll, ReasonOf, FramesOf, Count, Total, Saturated;
    forall i | 0 <= i < |items| ensures items[i].1.0 == Saturated(Total(entries, OfStack(items[i].0))) {
      assert StackMeans(env, entries, AggAll(env, entries)[r].byStack, r, items[i].0);
    }
  }

  /** Two busy stacks of an overflowing reason exceed any 64-bit total. */
  lemma TwoBusyOverflow(entries: seq<Entry>, items: seq<Item>)
    requires forall i, j :: 0 <= i < j < |items| ==> items[i].0 != items[j].0
    requires forall i :: 0 <= i < |items| ==> items[i].1.0 == Saturated(Total(entries, OfStack(items[i].0)))
    requires !AtMostOneBusy(items) && Total(entries, OfIds(items)) >= TWO64
    ensures SumNs(items) >= TWO64
  {
    hide Total, SumNs;
    var i, j :| 0 <= i < j < |items| && items[i].1.0 > 0 && items[j].1.0 > 0;
    if k :| 0 <= k < |items| && Total(entries, OfStack(items[k].0)) >= TWO64 {
      var m := if k == i then j else i;
      if k < m { SumAtLeastTwo(items, k, m); } else { SumAtLeastTwo(items, m, k); }
    } else {
      StacksSumExact(entries, items);
    }
  }

  /** Main result. Exactly when the reported stack times add up to no more than
      the reported total: the reason's true time fits in 64 bits, or at most one
      of its stacks has any time. */
  lemma StackSumWithinTotalExactly(env: Env, entries: seq<Entry>, r: Reason, items: seq<Item>)
    requires K.Sorted(env.syms) && r in AggAll(env, entries)
    requires Enumerates(items, AggAll(env, entries)[r].byStack)
    ensures SumNs(items) <= AggAll(env, entries)[r].totalNs
            <==> Total(entries, OfReason(env, r)) < TWO64 || AtMostOneBusy(items)
  {
    ItemsAreSaturated(env, entries, r, items);
    StacksWithinReason(env, entries, r, items);
    StacksCoverReason(env, entries, r, items);
    hide AggAll, ReasonOf, FramesOf, Count, Total, SumNs;
    if AtMostOneBusy(items) {
      OneBusyFits(items);
    } else if Total(entries, OfReason(env, r)) >= TWO64 {
      TwoBusyOverflow(entries, items);
    }
  }

  // ---------- the report ----------

  datatype JsonReason = JsonReason(totalMs: u64, threads: nat, topStacks: seq<(u64, seq<string>)>)

  function Milliseconds(s: seq<Item>): seq<(u64, seq<string>)> {
    seq(|s|, i requires 0 <= i < |s| => (s[i].1.0 / NS_PER_MS, s[i].1.1))
  }

  /** `j` reports `agg`, for some iteration order of its stacks. */
  ghost predicate Reports(agg: ReasonAgg, k: nat, j: JsonReason) {
    && j.totalMs == agg.totalNs / NS_PER_MS
    && j.threads == |agg.pids|
    && exists items: seq<Item> :: Enumerates(items, agg.byStack) && j.topStacks == Milliseconds(TopK(items, k))
  }

  function SumReported(s: seq<(u64, seq<string>)>): nat { if |s| == 0 then 0 else s[0].0 + SumReported(s[1..]) }

  lemma {:induction false} SumOfMilliseconds(s: seq<Item>)
    ensures SumReported(Milliseconds(s)) == SumMs(s)
  {
    if |s| > 0 {
      SumOfMilliseconds(s[1..]);
      assert Milliseconds(s)[1..] == Milliseconds(s[1..]);
    }
  }

  lemma TopKIsPrefix(items: seq<Item>, k: nat) returns (rest: seq<Item>)
    ensures SortDesc(items) == TopK(items, k) + rest
  {
    rest := SortDesc(items)[|TopK(items, k)|..];
  }

  lemma FloorMonotone(a: nat, b: nat)
    ensures a <= b ==> a / NS_PER_MS <= b / NS_PER_MS
  {
  }

  lemma TopKSum(items: seq<Item>, k: nat)
    ensures SumReported(Milliseconds(TopK(items, k))) <= SumNs(items) / NS_PER_MS
  {
    hide *;
    var top := TopK(items, k);
    var rest := TopKIsPrefix(items, k);
    SortDescKeeps(items);
    SumNsConcat(top, rest);
    FlooredSum(top);
    SumOfMilliseconds(top);
    FloorMonotone(SumNs(top), SumNs(items));
  }

  lemma TopKDescends(items: seq<Item>, k: nat, a: nat, b: nat)
    requires a < b < |TopK(items, k)|
    ensures Milliseconds(TopK(items, k))[a].0 >= Milliseconds(TopK(items, k))[b].0
  {
    SortDescKeeps(items);
    hide SortDesc, SumNs;
    assert TopK(items, k)[a].1.0 >= TopK(items, k)[b].1.0;
  }

  /** No two stacks of the map have time. */
  ghost predicate OneBusyStack(byStack: map<i32, (u64, seq<string>)>) {
    forall a, b :: a in byStack && b in byStack && a != b ==> byStack[a].0 == 0 || byStack[b].0 == 0
  }

  /** Main result. In a reported reason the stacks are in descending order and
      their floored milliseconds add up to no more than the reported total, if
      the reason's true time fits in 64 bits or only one of its stacks has time. */
  lemma ReportIsConsistent(env: Env, entries: seq<Entry>, r: Reason, k: nat, j: JsonReason)
    requires K.Sorted(env.syms) && r in AggAll(env, entries)
    requires Reports(AggAll(env, entries)[r], k, j)
    ensures forall a, b :: 0 <= a < b < |j.topStacks| ==> j.topStacks[a].0 >= j.topStacks[b].0
    ensures Total(entries, OfReason(env, r)) < TWO64 || OneBusyStack(AggAll(env, entries)[r].byStack)
            ==> SumReported(j.topStacks) <= j.totalMs
  {
    var agg := AggAll(env, entries)[r];
    var items: seq<Item> :| Enumerates(items, agg.byStack) && j.topStacks == Milliseconds(TopK(items, k));
    StackSumWithinTotalExactly(env, entries, r, items);
    assert OneBusyStack(agg.byStack) ==> AtMostOneBusy(items);
    hide AggAll, ReasonOf, FramesOf, Count, Total, Enumerates, TopK, SortDesc, SumNs, SumReported;
    hide OneBusyStack, AtMostOneBusy;
    TopKSum(items, k);
    FloorMonotone(SumNs(items), agg.totalNs);
    forall a, b | 0 <= a < b < |j.topStacks| ensures j.topStacks[a].0 >= j.topStacks[b].0 {
      TopKDescends(items, k, a, b);
    }
  }

  method Enumerate(m: map<i32, (u64, seq<string>)>) returns (items: seq<Item>)
    ensures Enumerates(items, m)
  {
    items := [];
    var rest := m.Keys;
    while rest != {}
      invariant rest <= m.Keys
      invariant forall i, j :: 0 <= i < j < |items| ==> items[i].0 != items[j].0
      invariant forall i :: 0 <= i < |items| ==> items[i].0 in m && items[i].0 !in rest && items[i].1 == m[items[i].0]
      invariant forall id :: id in m && id !in rest ==> exists i :: 0 <= i < |items| && items[i].0 == id
    {
      var id :| id in rest;
      ghost var before := items;
      items := items + [(id, m[id])];
      rest := rest - {id};
      assert items[|before|].0 == id;
      assert forall i :: 0 <= i < |before| ==> items[i] == before[i];
    }
  }

  method RenderReason(agg: ReasonAgg, topStacks: u32) returns (j: JsonReason)
    ensures Reports(agg, topStacks, j)
  {
    var items := Enumerate(agg.byStack);
    var top := SortDesc(items);
    top := top[..Min(topStacks, |top|)];
    j := JsonReason(agg.totalNs / NS_PER_MS, |agg.pids|, Milliseconds(top));
  }

  predicate IsMilliseconds(ms: nat, ns: nat) { ms * 1_000_000 <= ns < (ms + 1) * 1_000_000 }

  lemma WholeMilliseconds(ns: nat)
    ensures IsMilliseconds(ns / NS_PER_MS, ns)
  {
  }

  lemma {:induction false} IdsCount(items: seq<Item>, n: nat)
    requires n <= |items| && forall i, j :: 0 <= i < j < |items| ==> items[i].0 != items[j].0
    ensures |set i | 0 <= i < n :: items[i].0| == n
  {
    if n > 0 {
      IdsCount(items, n - 1);
      assert (set i | 0 <= i < n :: items[i].0) == (set i | 0 <= i < n - 1 :: items[i].0) + {items[n - 1].0};
    }
  }

  lemma EnumerationSize(items: seq<Item>, m: map<i32, (u64, seq<string>)>)
    requires Enumerates(items, m)
    ensures |items| == |m|
  {
    var ids := set i | 0 <= i < |items| :: items[i].0;
    IdsCount(items, |items|);
    assert ids == m.Keys;
  }

  /** Every reported stack is one of the reason's, with its own frames and its time
      in whole milliseconds, as is the total; as many as asked for are reported. */
  lemma ReportedStacksAreReal(agg: ReasonAgg, k: nat, j: JsonReason)
    requires Reports(agg, k, j)
    ensures IsMilliseconds(j.totalMs, agg.totalNs) && j.threads == |agg.pids|
    ensures |j.topStacks| == Min(k, |agg.byStack|)
    ensures forall i :: 0 <= i < |j.topStacks| ==>
              exists id :: id in agg.byStack && agg.byStack[id].1 == j.topStacks[i].1
                           && IsMilliseconds(j.topStacks[i].0, agg.byStack[id].0)
  {
    var items: seq<Item> :| Enumerates(items, agg.byStack) && j.topStacks == Milliseconds(TopK(items, k));
    WholeMilliseconds(agg.totalNs);
    EnumerationSize(items, agg.byStack);
    SortDescKeeps(items);
    hide SortDesc, SumNs, IsMilliseconds;
    assert |SortDesc(items)| == |multiset(SortDesc(items))| == |multiset(items)| == |items|;
    forall i | 0 <= i < |j.topStacks|
      ensures exists id :: id in agg.byStack && agg.byStack[id].1 == j.topStacks[i].1
                           && IsMilliseconds(j.topStacks[i].0, agg.byStack[id].0)
    {
      var item := SortDesc(items)[i];
      assert item in multiset(SortDesc(items));
      assert item in items;
      WholeMilliseconds(item.1.0);
      assert item.0 in agg.byStack && agg.byStack[item.0] == item.1;
    }
  }

  /** `json` reports exactly the reasons in `done`, each under its label. */
  ghost predicate Rendered(aggs: map<Reason, ReasonAgg>, done: set<Reason>, k: nat, json: map<string, JsonReason>) {
    && (forall r :: r in done ==> r in aggs && Label(r) in json && Reports(aggs[r], k, json[Label(r)]))
    && json.Keys == set r | r in done :: Label(r)
  }

  lemma RenderedNone(aggs: map<Reason, ReasonAgg>, k: nat)
    ensures Rendered(aggs, {}, k, map[])
  {
  }

  lemma RenderedMore(aggs: map<Reason, ReasonAgg>, done: set<Reason>, k: nat, json: map<string, JsonReason>,
                     r: Reason, j: JsonReason)
    requires Rendered(aggs, done, k, json) && r in aggs && r !in done && Reports(aggs[r], k, j)
    ensures Rendered(aggs, done + {r}, k, json[Label(r) := j])
  {
    hide Label, Reports;
    forall q | q in done ensures Label(q) != Label(r) {
      if Label(q) == Label(r) { LabelsAreInjective(q, r); }
    }
  }

  /** The JSON object keyed by label. Labels are distinct, so no reason
      overwrites another: every aggregate is reported, and nothing else is. */
  method RenderReasons(aggs: map<Reason, ReasonAgg>, topStacks: u32) returns (json: map<string, JsonReason>)
    ensures Rendered(aggs, aggs.Keys, topStacks, json)
  {
    hide *;
    json := map[];
    var rest := aggs.Keys;
    ghost var done: set<Reason> := {};
    RenderedNone(aggs, topStacks);
    while rest != {}
      invariant done + rest == aggs.Keys && done !! rest
      invariant Rendered(aggs, done, topStacks, json)
    {
      var r :| r in rest;
      var j := RenderReason(aggs[r], topStacks);
      RenderedMore(aggs, done, topStacks, json, r, j);
      json := json[Label(r) := j];
      rest, done := rest - {r}, done + {r};
    }
    assert done == aggs.Keys;
  }
}

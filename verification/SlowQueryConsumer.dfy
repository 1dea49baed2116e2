/** The userspace event loop of slowquery: decoding, the threshold filter and
    the table of small attachment IDs. */
module SlowQueryConsumer {
  import opened Machine
  import opened SlowQuery

  /** Size of SlowQueryEvent on the wire. */
  const EVENT_SIZE: nat := 560

  /** A ring-buffer record: its length and the event its bytes decode to. */
  datatype Item = Item(len: nat, event: Event)

  datatype Row = Row(event: Event, id: Option<u32>)

  predicate Passes(item: Item, threshold: Option<u64>) {
    item.len >= EVENT_SIZE && (threshold.Some? ==> item.event.executeNs >= threshold.value)
  }

  /** The events printed, in ring order. */
  function Printed(items: seq<Item>, threshold: Option<u64>): seq<Event> {
    if |items| == 0 then []
    else
      var rest := Printed(items[..|items| - 1], threshold);
      if Passes(items[|items| - 1], threshold) then rest + [items[|items| - 1].event] else rest
  }

  function ShortRecords(items: seq<Item>): nat {
    if |items| == 0 then 0
    else ShortRecords(items[..|items| - 1]) + if items[|items| - 1].len < EVENT_SIZE then 1 else 0
  }

  /** The distinct known attachments in order of first appearance. */
  function FirstSeen(events: seq<Event>): (r: seq<u64>)
    ensures forall i, j :: 0 <= i < j < |r| ==> r[i] != r[j]
  {
    if |events| == 0 then []
    else
      var p := events[|events| - 1].attachment;
      var before := FirstSeen(events[..|events| - 1]);
      if p == 0 || p in before then before else before + [p]
  }

  lemma {:induction false} FirstSeenMembers(events: seq<Event>, p: u64)
    ensures p in FirstSeen(events) <==> p != 0 && exists i :: 0 <= i < |events| && events[i].attachment == p
  {
    if |events| > 0 {
      var before := events[..|events| - 1];
      FirstSeenMembers(before, p);
      assert forall i :: 0 <= i < |before| ==> before[i] == events[i];
    }
  }

  function IndexOf(s: seq<u64>, p: u64): (i: nat)
    requires p in s
    ensures i < |s| && s[i] == p
  {
    if s[0] == p then 0 else 1 + IndexOf(s[1..], p)
  }

  /** The ID shown for attachment p: its rank of first appearance, from 1, in
      the 32 bits the counter has; none when the attachment is unknown. */
  function IdOf(seen: seq<u64>, p: u64): Option<u32>
  {
    if p == 0 || p !in seen then None else Some((IndexOf(seen, p) + 1) % TWO32)
  }

  lemma {:induction false} FirstSeenGrows(events: seq<Event>, n: nat)
    requires n <= |events|
    ensures FirstSeen(events[..n]) <= FirstSeen(events)
  {
    if n == |events| {
      assert events[..n] == events;
    } else {
      var before := events[..|events| - 1];
      assert before[..n] == events[..n];
      FirstSeenGrows(before, n);
    }
  }

  /** The table after the events `seen` was computed from. */
  ghost predicate TableFor(idTable: map<u64, u32>, nextId: u32, seen: seq<u64>) {
    && nextId == |seen| % TWO32
    && (forall p :: p in idTable <==> p in seen)
    && (forall p :: p in seen ==> Some(idTable[p]) == IdOf(seen, p))
  }

  ghost predicate RowFor(row: Row, ev: Event, seen: seq<u64>) {
    row.event == ev && (ev.attachment == 0 || ev.attachment in seen) && row.id == IdOf(seen, ev.attachment)
  }

  /** Every printed event with the ID its attachment has in `seen`. */
  ghost predicate RowsFor(rows: seq<Row>, events: seq<Event>, seen: seq<u64>) {
    && |rows| == |events|
    && forall i :: 0 <= i < |rows| ==> RowFor(rows[i], events[i], seen)
  }

  lemma FirstSeenSnoc(events: seq<Event>, ev: Event)
    ensures var seen, p := FirstSeen(events), ev.attachment;
            FirstSeen(events + [ev]) == if p == 0 || p in seen then seen else seen + [p]
  {
    assert (events + [ev])[..|events|] == events;
  }

  lemma {:induction false} IndexStable(a: seq<u64>, b: seq<u64>, p: u64)
    requires a <= b && p in a
    ensures p in b && IndexOf(b, p) == IndexOf(a, p)
  {
    assert a[0] == b[0];
    if a[0] != p { IndexStable(a[1..], b[1..], p); }
  }

  /** Printing one more event. */
  lemma RowsForAppend(rows: seq<Row>, events: seq<Event>, ev: Event, id: Option<u32>)
    requires RowsFor(rows, events, FirstSeen(events))
    requires id == IdOf(FirstSeen(events + [ev]), ev.attachment)
    ensures RowsFor(rows + [Row(ev, id)], events + [ev], FirstSeen(events + [ev]))
  {
    var seen, seen' := FirstSeen(events), FirstSeen(events + [ev]);
    FirstSeenSnoc(events, ev);
    hide FirstSeen;
    forall i | 0 <= i < |rows| ensures RowFor(rows[i], events[i], seen') {
      assert RowFor(rows[i], events[i], seen);
      if events[i].attachment != 0 { IndexStable(seen, seen', events[i].attachment); }
    }
  }

  lemma PrintedSnoc(items: seq<Item>, n: nat, threshold: Option<u64>)
    requires n < |items|
    ensures var before := Printed(items[..n], threshold);
            Printed(items[..n + 1], threshold)
            == if Passes(items[n], threshold) then before + [items[n].event] else before
    ensures ShortRecords(items[..n + 1]) == ShortRecords(items[..n]) + if items[n].len < EVENT_SIZE then 1 else 0
  {
    assert items[..n + 1][..n] == items[..n];
  }

  lemma {:induction false} IndexOfLast(s: seq<u64>, p: u64)
    requires p !in s
    ensures IndexOf(s + [p], p) == |s|
  {
    if |s| > 0 {
      assert (s + [p])[1..] == s[1..] + [p];
      IndexOfLast(s[1..], p);
    }
  }

  /** `id_table.entry(..).or_insert_with(..)` for one printed event. */
  method SmallId(idTable: map<u64, u32>, nextId: u32, p: u64, ghost seen: seq<u64>)
    returns (idTable': map<u64, u32>, nextId': u32, id: Option<u32>)
    requires TableFor(idTable, nextId, seen) && 0 !in seen
    ensures var seen' := if p == 0 || p in seen then seen else seen + [p];
            TableFor(idTable', nextId', seen') && id == IdOf(seen', p)
  {
    idTable', nextId', id := idTable, nextId, None;
    if p != 0 {
      if p !in idTable {
        nextId' := (nextId + 1) % TWO32;
        idTable' := idTable[p := nextId'];
        IndexOfLast(seen, p);
        forall q | q in seen ensures IdOf(seen + [p], q) == IdOf(seen, q) { IndexStable(seen, seen + [p], q); }
      }
      id := Some(idTable'[p]);
    }
  }

  ghost predicate Increasing(at: seq<nat>) { forall i, j :: 0 <= i < j < |at| ==> at[i] < at[j] }

  /** Event j is that of record at[j], records in order: exactly those that are
      complete and, if there is a threshold, whose execute time reaches it. */
  ghost predicate Selects(items: seq<Item>, threshold: Option<u64>, events: seq<Event>, at: seq<nat>) {
    && |at| == |events| && Increasing(at)
    && (forall j :: 0 <= j < |at| ==> at[j] < |items| && events[j] == items[at[j]].event)
    && (forall i :: 0 <= i < |items| ==>
          (i in at <==> items[i].len >= 560 && (threshold.None? || items[i].event.executeNs >= threshold.value)))
  }

  /** The rows show the selected records, each attachment with an ID exactly when
      it is known. */
  ghost predicate Shows(items: seq<Item>, threshold: Option<u64>, rows: seq<Row>, at: seq<nat>) {
    && Selects(items, threshold, seq(|rows|, j requires 0 <= j < |rows| => rows[j].event), at)
    && (forall j :: 0 <= j < |rows| ==> (rows[j].id.None? <==> rows[j].event.attachment == 0))
  }

  /** Selecting from one more record. */
  lemma SelectsMore(items: seq<Item>, threshold: Option<u64>, events: seq<Event>, at: seq<nat>)
    requires |items| > 0 && Selects(items[..|items| - 1], threshold, events, at)
    ensures var n := |items| - 1;
            if items[n].len >= 560 && (threshold.None? || items[n].event.executeNs >= threshold.value)
            then Selects(items, threshold, events + [items[n].event], at + [n])
            else Selects(items, threshold, events, at)
  {
    var n := |items| - 1;
    assert forall i :: 0 <= i < n ==> items[..n][i] == items[i];
    assert forall j :: 0 <= j < |at| ==> at[j] < n;
    assert n !in at;
  }

  lemma {:induction false} PrintedSelects(items: seq<Item>, threshold: Option<u64>) returns (at: seq<nat>)
    ensures Selects(items, threshold, Printed(items, threshold), at)
  {
    at := [];
    if |items| > 0 {
      var n := |items| - 1;
      at := PrintedSelects(items[..n], threshold);
      hide Selects;
      SelectsMore(items, threshold, Printed(items[..n], threshold), at);
      if Passes(items[n], threshold) { at := at + [n]; }
    }
  }

  lemma RowsShow(items: seq<Item>, threshold: Option<u64>, rows: seq<Row>)
    requires RowsFor(rows, Printed(items, threshold), FirstSeen(Printed(items, threshold)))
    ensures exists at: seq<nat> :: Shows(items, threshold, rows, at)
  {
    var events := Printed(items, threshold);
    var at := PrintedSelects(items, threshold);
    hide Printed, FirstSeen, Increasing;
    forall j | 0 <= j < |rows|
      ensures rows[j].event == events[j] && (rows[j].id.None? <==> rows[j].event.attachment == 0)
    {
      assert RowFor(rows[j], events[j], FirstSeen(events));
      FirstSeenMembers(events, events[j].attachment);
    }
    assert seq(|rows|, j requires 0 <= j < |rows| => rows[j].event) == events;
    assert Shows(items, threshold, rows, at);
  }

  lemma {:induction false} ShortRecordsCount(items: seq<Item>)
    ensures ShortRecords(items) == |set i | 0 <= i < |items| && items[i].len < 560|
  {
    if |items| > 0 {
      var n := |items| - 1;
      ShortRecordsCount(items[..n]);
      var a, b := set i | 0 <= i < n && items[..n][i].len < 560, set i | 0 <= i < |items| && items[i].len < 560;
      assert b == if items[n].len < 560 then a + {n} else a;
    }
  }

  /** `run_event_loop` on the records of a whole run. Filtered and short records
      leave no trace in the table. */
  method RunEventLoop(items: seq<Item>, threshold: Option<u64>) returns (rows: seq<Row>, dropped: nat)
    ensures dropped == |set i | 0 <= i < |items| && items[i].len < 560|
    ensures exists at: seq<nat> :: Shows(items, threshold, rows, at)
    ensures RowsFor(rows, Printed(items, threshold), FirstSeen(Printed(items, threshold)))
  {
    var idTable: map<u64, u32> := map[];
    var nextId: u32 := 0;
    rows, dropped := [], 0;
    for n := 0 to |items|
      invariant dropped == ShortRecords(items[..n])
      invariant var printed := Printed(items[..n], threshold);
                RowsFor(rows, printed, FirstSeen(printed)) && TableFor(idTable, nextId, FirstSeen(printed))
    {
      hide FirstSeen, Printed, ShortRecords, RowsFor, TableFor, IdOf;
      ghost var printed := Printed(items[..n], threshold);
      PrintedSnoc(items, n, threshold);
      if items[n].len < EVENT_SIZE {
        dropped := dropped + 1;
        continue;
      }
      var ev := items[n].event;
      if threshold.Some? && ev.executeNs < threshold.value { continue; }
      var smallId;
      FirstSeenMembers(printed, 0);
      FirstSeenSnoc(printed, ev);
      idTable, nextId, smallId := SmallId(idTable, nextId, ev.attachment, FirstSeen(printed));
      RowsForAppend(rows, printed, ev, smallId);
      rows := rows + [Row(ev, smallId)];
    }
    assert items[..|items|] == items;
    ShortRecordsCount(items);
    RowsShow(items, threshold, rows);
  }

  lemma {:induction false} IndexUnique(s: seq<u64>, i: nat)
    requires i < |s| && forall a, b :: 0 <= a < b < |s| ==> s[a] != s[b]
    ensures IndexOf(s, s[i]) == i
  {
    if i > 0 {
      assert s[0] != s[i];
      IndexUnique(s[1..], i - 1);
    }
  }

  /** IDs are dense: fewer than 2^32 attachments get exactly 1..k, in order of
      first appearance. */
  lemma IdsAreDense(events: seq<Event>, i: nat)
    requires var seen := FirstSeen(events); i < |seen| < TWO32
    ensures IdOf(FirstSeen(events), FirstSeen(events)[i]) == Some(i + 1)
  {
    FirstSeenMembers(events, 0);
    IndexUnique(FirstSeen(events), i);
  }

  /** IDs are stable: what an attachment was shown as in a prefix of the stream
      is what it is shown as in the whole. */
  lemma IdsAreStable(events: seq<Event>, n: nat, p: u64)
    requires n <= |events| && (p == 0 || p in FirstSeen(events[..n]))
    ensures IdOf(FirstSeen(events), p) == IdOf(FirstSeen(events[..n]), p)
  {
    FirstSeenGrows(events, n);
    hide FirstSeen;
    if p != 0 { IndexStable(FirstSeen(events[..n]), FirstSeen(events), p); }
  }

  /** IDs identify attachments exactly as long as no more than 2^32 are seen;
      one more, and the wrapped counter gives two attachments the same ID. */
  lemma IdsIdentifyAttachments(events: seq<Event>)
    ensures var seen := FirstSeen(events);
            (forall p, q :: p in seen && q in seen && IdOf(seen, p) == IdOf(seen, q) ==> p == q)
            <==> |seen| <= TWO32
  {
    hide FirstSeen;
    var seen := FirstSeen(events);
    FirstSeenMembers(events, 0);
    if |seen| > TWO32 {
      var p, q := seen[0], seen[TWO32];
      IndexUnique(seen, 0);
      IndexUnique(seen, TWO32);
      assert IdOf(seen, p) == Some(1 % TWO32) && IdOf(seen, q) == Some((TWO32 + 1) % TWO32);
      assert p != q && IdOf(seen, p) == IdOf(seen, q);
    } else {
      forall p, q | p in seen && q in seen && IdOf(seen, p) == IdOf(seen, q) ensures p == q {
        assert IndexOf(seen, p) == IndexOf(seen, q);
      }
    }
  }
}

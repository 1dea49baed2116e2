/** The one-slot-per-thread protocol behind every "in progress" map: an entry
    probe overwrites the thread's slot, an exit probe takes what it finds there. */
module Slots {
  import opened Machine

  /** What one probe firing does to one in-progress map. `stored` says whether
      the entry probe's insert took effect. */
  datatype Op<V> = Enter(tid: u32, v: V, stored: bool) | Leave(tid: u32) | Idle

  function Apply<V>(m: map<u32, V>, op: Op<V>): map<u32, V> {
    match op
    case Enter(tid, v, stored) => if stored then m[tid := v] else m
    case Leave(tid) => Remove(m, tid)
    case Idle => m
  }

  function Run<V>(ops: seq<Op<V>>): map<u32, V> {
    if |ops| == 0 then map[] else Apply(Run(ops[..|ops| - 1]), ops[|ops| - 1])
  }

  predicate On<V>(op: Op<V>, tid: u32) {
    (op.Enter? || op.Leave?) && op.tid == tid
  }

  /** Index of the thread's latest probe firing. */
  function Last<V>(ops: seq<Op<V>>, tid: u32): (r: Option<nat>)
    ensures r.Some? ==> r.value < |ops| && On(ops[r.value], tid)
    ensures r.Some? ==> forall k :: r.value < k < |ops| ==> !On(ops[k], tid)
    ensures r.None? ==> forall k :: 0 <= k < |ops| ==> !On(ops[k], tid)
  {
    if |ops| == 0 then None
    else if On(ops[|ops| - 1], tid) then Some(|ops| - 1)
    else Last(ops[..|ops| - 1], tid)
  }

  /** The thread's call stack as the processor sees it: indices of the entries
      of calls still running. A return with no running call belongs to a call
      that began before tracing did. */
  function Stack<V>(ops: seq<Op<V>>, tid: u32): (r: seq<nat>)
    ensures forall k :: 0 <= k < |r| ==> r[k] < |ops| && ops[r[k]].Enter? && ops[r[k]].tid == tid
  {
    if |ops| == 0 then []
    else
      var below := Stack(ops[..|ops| - 1], tid);
      var op := ops[|ops| - 1];
      if !On(op, tid) then below
      else if op.Enter? then below + [|ops| - 1]
      else if |below| == 0 then [] else below[..|below| - 1]
  }

  /** The call now on top of the thread's stack. */
  function Top<V>(ops: seq<Op<V>>, tid: u32): (r: Option<nat>)
    ensures r.Some? ==> r.value < |ops| && ops[r.value].Enter? && ops[r.value].tid == tid
  {
    var s := Stack(ops, tid);
    if |s| == 0 then None else Some(s[|s| - 1])
  }

  /** The latest entry of the thread that was stored, unless it was taken since. */
  function LatestStored<V>(ops: seq<Op<V>>, tid: u32): (r: Option<nat>)
    ensures r.Some? ==> r.value < |ops| && ops[r.value].Enter? && ops[r.value].tid == tid && ops[r.value].stored
    ensures r.Some? ==> forall k :: r.value < k < |ops| && On(ops[k], tid) ==> ops[k].Enter? && !ops[k].stored
  {
    if |ops| == 0 then None
    else
      var op := ops[|ops| - 1];
      if !On(op, tid) then LatestStored(ops[..|ops| - 1], tid)
      else if op.Leave? then None
      else if op.stored then Some(|ops| - 1)
      else LatestStored(ops[..|ops| - 1], tid)
  }

  ghost predicate HonestAt<V>(ops: seq<Op<V>>, k: nat)
    requires k < |ops|
  {
    ops[k].Enter? && !ops[k].stored ==> ops[k].tid !in Run(ops[..k])
  }

  /** A refused entry only ever finds its thread's slot empty. A full map
      refuses only absent keys, so capacity alone never breaks this. */
  ghost predicate Honest<V>(ops: seq<Op<V>>) {
    forall k :: 0 <= k < |ops| ==> HonestAt(ops, k)
  }

  /** Whatever fails along the way, a slot holds the payload of the thread's
      latest stored entry, and nothing once an exit has taken it. */
  lemma {:induction false} SlotHoldsLatestStored<V>(ops: seq<Op<V>>, tid: u32)
    ensures tid in Run(ops) <==> LatestStored(ops, tid).Some?
    ensures tid in Run(ops) ==> Run(ops)[tid] == ops[LatestStored(ops, tid).value].v
  {
    if |ops| > 0 {
      SlotHoldsLatestStored(ops[..|ops| - 1], tid);
    }
  }

  lemma HonestPrefix<V>(ops: seq<Op<V>>, n: nat)
    requires Honest(ops) && n <= |ops|
    ensures Honest(ops[..n])
  {
    forall k | 0 <= k < n ensures HonestAt(ops[..n], k) {
      assert HonestAt(ops, k);
      assert ops[..n][..k] == ops[..k];
    }
  }

  /** With honest refusals the slot is full exactly when the thread's latest
      firing is a stored entry, and then it holds that entry. This already is
      exact pairing for calls that do not nest, including calls that never return. */
  lemma {:induction false} SlotHoldsLast<V>(ops: seq<Op<V>>, tid: u32)
    requires Honest(ops)
    ensures var i := Last(ops, tid);
            && (tid in Run(ops) <==> i.Some? && ops[i.value].Enter? && ops[i.value].stored)
            && (tid in Run(ops) ==> Run(ops)[tid] == ops[i.value].v)
  {
    if |ops| > 0 {
      var n := |ops| - 1;
      HonestPrefix(ops, n);
      SlotHoldsLast(ops[..n], tid);
      assert HonestAt(ops, n);
      hide Honest, HonestAt;
      assert Run(ops) == Apply(Run(ops[..n]), ops[n]);
    }
  }

  /** The entry fired last is the top of the stack. */
  lemma {:induction false} LastEntryIsTop<V>(ops: seq<Op<V>>, tid: u32)
    requires var i := Last(ops, tid); i.Some? && ops[i.value].Enter?
    ensures Top(ops, tid) == Last(ops, tid)
  {
    if !On(ops[|ops| - 1], tid) {
      LastEntryIsTop(ops[..|ops| - 1], tid);
    }
  }

  /** Nested calls. At a return on `tid`, the slot is full exactly when the
      returning call (the top of the stack) is a leaf, that is, nothing fired on
      the thread since its entry, and its own insert took effect; the payload is
      then that call's own. Every other return finds the slot empty, so no
      return is ever paired with another call's entry. */
  lemma LeafCallsPair<V>(ops: seq<Op<V>>, tid: u32)
    requires Honest(ops)
    ensures var call := Top(ops, tid);
            && (tid in Run(ops) <==>
                  call.Some? && Last(ops, tid) == call && ops[call.value].stored)
            && (tid in Run(ops) ==> Run(ops)[tid] == ops[call.value].v)
  {
    SlotHoldsLast(ops, tid);
    var i := Last(ops, tid);
    if i.Some? && ops[i.value].Enter? {
      LastEntryIsTop(ops, tid);
    }
  }

  /** Exactly when pairing goes wrong without the honesty assumption: a return
      takes an entry other than its own call's if and only if its call is a leaf
      whose insert was refused over a slot that an outer call had filled. */
  lemma {:induction false} MispairedExactlyWhenRefusedOverFullSlot<V>(ops: seq<Op<V>>, tid: u32)
    ensures var call := Top(ops, tid);
            (tid in Run(ops) && LatestStored(ops, tid) != call)
            <==> (call.Some? && Last(ops, tid) == call && !ops[call.value].stored && LatestStored(ops, tid).Some?)
  {
    SlotHoldsLatestStored(ops, tid);
    var i := Last(ops, tid);
    if tid in Run(ops) {
      var k := LatestStored(ops, tid).value;
      assert On(ops[k], tid);
      assert i.Some? && i.value >= k;
      assert ops[i.value].Enter?;
      LastEntryIsTop(ops, tid);
    }
  }

  /** The same firings with every entry storing its own index, so that a slot
      tells whose entry it holds. */
  function Tagged<V>(ops: seq<Op<V>>): (r: seq<Op<nat>>)
    ensures |r| == |ops|
  {
    seq(|ops|, k requires 0 <= k < |ops| =>
      match ops[k]
      case Enter(tid, _, stored) => Enter(tid, k, stored)
      case Leave(tid) => Leave(tid)
      case Idle => Idle)
  }

  /** Whose entry each slot holds. */
  function Owners<V>(ops: seq<Op<V>>): map<u32, nat> { Run(Tagged(ops)) }

  lemma {:induction false} TaggedLatest<V>(ops: seq<Op<V>>, tid: u32)
    ensures LatestStored(Tagged(ops), tid) == LatestStored(ops, tid)
  {
    if |ops| > 0 {
      var n := |ops| - 1;
      assert Tagged(ops)[..n] == Tagged(ops[..n]);
      TaggedLatest(ops[..n], tid);
    }
  }

  /** A slot holds the payload of its owner, the thread's latest stored entry. */
  lemma OwnerIsLatestStored<V>(ops: seq<Op<V>>, tid: u32)
    ensures tid in Run(ops) <==> tid in Owners(ops)
    ensures tid in Owners(ops) <==> LatestStored(ops, tid).Some?
    ensures tid in Owners(ops) ==>
              var k := Owners(ops)[tid];
              LatestStored(ops, tid) == Some(k) && Run(ops)[tid] == ops[k].v
  {
    hide Run;
    SlotHoldsLatestStored(ops, tid);
    SlotHoldsLatestStored(Tagged(ops), tid);
    TaggedLatest(ops, tid);
  }

  /** Exactly when a return is given another call's entry, with no assumption on
      bracketing (calls may have been unwound), on refusals or on payloads: the
      call entered at c takes an entry other than its own if and only if the
      thread's latest stored entry, not taken since, is not c. */
  lemma ReturnTakesAnotherEntryExactly<V>(ops: seq<Op<V>>, tid: u32, c: nat)
    requires c < |ops| && ops[c].Enter? && ops[c].tid == tid
    ensures tid in Run(ops) <==> tid in Owners(ops)
    ensures tid in Run(ops) ==>
              var k := Owners(ops)[tid];
              k < |ops| && ops[k].Enter? && ops[k].tid == tid && Run(ops)[tid] == ops[k].v
    ensures (tid in Owners(ops) && Owners(ops)[tid] != c)
            <==> (LatestStored(ops, tid).Some? && LatestStored(ops, tid).value != c)
  {
    hide Run;
    OwnerIsLatestStored(ops, tid);
  }

  lemma {:induction false} LatestStoredIs<V>(ops: seq<Op<V>>, tid: u32, k: nat)
    requires k < |ops| && ops[k].Enter? && ops[k].tid == tid && ops[k].stored
    requires forall m :: k < m < |ops| ==> !On(ops[m], tid)
    ensures LatestStored(ops, tid) == Some(k)
  {
    if k < |ops| - 1 {
      LatestStoredIs(ops[..|ops| - 1], tid, k);
    }
  }

  /** Unwinding mispairs: if the call entered at k inside the one entered at c was
      stored and left without returning, the return of c takes k's entry, and
      its own is gone. */
  lemma UnwoundNestedCallMispairs<V>(ops: seq<Op<V>>, tid: u32, c: nat, k: nat)
    requires c < k < |ops| && ops[c].Enter? && ops[c].tid == tid
    requires ops[k].Enter? && ops[k].tid == tid && ops[k].stored
    requires forall m :: k < m < |ops| ==> !On(ops[m], tid)
    ensures tid in Run(ops) && Run(ops)[tid] == ops[k].v
    ensures tid in Owners(ops) && Owners(ops)[tid] == k != c
    ensures tid !in Run(ops + [Leave(tid)])
  {
    OwnerIsLatestStored(ops, tid);
    LatestStoredIs(ops, tid, k);
    assert (ops + [Leave(tid)])[..|ops|] == ops;
  }
}

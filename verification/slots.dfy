/** The last-in-first-out slot allocator and the batch retype that relies on its order. */
module Slots {
  import opened Words

  const RESERVED := 6      // slots `create_user_task` takes for itself from the empty region
  const MAX_RETYPE := 256  // CONFIG_RETYPE_FAN_OUT_LIMIT

  function Ascending(lo: int, n: nat): (s: seq<int>)
    ensures |s| == n
  {
    seq(n, i => lo + i)
  }

  function Descending(lo: int, n: nat): (s: seq<int>)
    ensures |s| == n
  {
    seq(n, i => lo + n - 1 - i)
  }

  /** What `n` allocations return, first one first. */
  function Taken(stack: seq<int>, n: nat): (s: seq<int>)
    requires n <= |stack|
    ensures |s| == n
  {
    seq(n, i requires 0 <= i < n => stack[|stack| - 1 - i])
  }

  class ObjectAllocator {
    var recycled: seq<int>

    constructor ()
      ensures recycled == []
    {
      recycled := [];
    }

    method Alloc() returns (r: Option<int>)
      modifies this
      ensures old(recycled) == [] ==> r == None && recycled == []
      ensures old(recycled) != [] ==>
                r == Some(old(recycled)[|old(recycled)| - 1]) && recycled == old(recycled)[..|old(recycled)| - 1]
    {
      if recycled == [] { return None; }
      r := Some(recycled[|recycled| - 1]);
      recycled := recycled[..|recycled| - 1];
    }

    method ExtendSlot(slot: int)
      modifies this
      ensures recycled == old(recycled) + [slot]
    {
      recycled := recycled + [slot];
    }

    /** `for slot in start..end { extend_slot(slot) }`, done once at boot. */
    method AddAscending(start: Word, end: Word)
      modifies this
      ensures recycled == old(recycled) + Ascending(start, if start <= end then end - start else 0)
    {
      var slot := start;
      while slot < end
        invariant start <= slot && (slot <= end || slot == start)
        invariant recycled == old(recycled) + Ascending(start, slot - start)
      {
        ExtendSlot(slot);
        slot := slot + 1;
      }
    }

    /** `for slot in (start..end).rev() { extend_slot(slot) }`, so that the smallest is popped first. */
    method AddReversed(start: Word, end: Word)
      modifies this
      ensures recycled == old(recycled) + Descending(start, if start <= end then end - start else 0)
    {
      if end < start { return; }
      var slot: int := end;
      while slot > start
        invariant start <= slot <= end
        invariant recycled == old(recycled) + Descending(start, end - start)[..end - slot]
      {
        slot := slot - 1;
        ExtendSlot(slot);
      }
    }

    /** `n` allocations in a row; `ok` is false when the allocator ran dry. */
    method AllocMany(n: nat) returns (ok: bool, slots: seq<int>)
      modifies this
      ensures ok == (n <= |old(recycled)|)
      ensures ok ==> slots == Taken(old(recycled), n) && recycled == old(recycled)[..|old(recycled)| - n]
    {
      slots := [];
      for k := 0 to n
        invariant k <= |old(recycled)| && recycled == old(recycled)[..|old(recycled)| - k]
        invariant slots == Taken(old(recycled), k)
      {
        var s := Alloc();
        if s == None { return false, slots; }
        slots := slots + [s.value];
      }
      return true, slots;
    }
  }

  /** Whatever lies below, the reverse push makes the k-th allocation return `next + k`. */
  lemma ReversePushAllocatesUpwards(below: seq<int>, next: Word, size: nat, n: nat)
    requires n <= size
    ensures Taken(below + Descending(next, size), n) == Ascending(next, n)
  {}

  predicate Distinct(s: seq<int>) {
    forall i, j :: 0 <= i < j < |s| ==> s[i] != s[j]
  }

  predicate Avoids(s: seq<int>, lo: int, hi: int) {
    forall i :: 0 <= i < |s| ==> !(lo <= s[i] < hi)
  }

  /** The boot code had already pushed the whole empty region, so below the reversed
      range lies the same range once more: allocations are distinct and miss the six
      reserved slots exactly as long as they fit into the reversed range. */
  lemma FreshUntilReversedRangeIsUsed(start: Word, end: Word, n: nat)
    requires start + RESERVED <= end
    requires n <= |Ascending(start, end - start) + Descending(start + RESERVED, end - start - RESERVED)|
    ensures var stack := Ascending(start, end - start) + Descending(start + RESERVED, end - start - RESERVED);
            Distinct(Taken(stack, n)) && Avoids(Taken(stack, n), start, start + RESERVED)
            <==> n <= end - (start + RESERVED)
  {
    var size := end - start - RESERVED;
    var below := Ascending(start, end - start);
    var stack := below + Descending(start + RESERVED, size);
    if n <= size {
      ReversePushAllocatesUpwards(below, start + RESERVED, size, n);
    } else {
      var t := Taken(stack, n);
      assert t[size] == end - 1;
      if size > 0 { assert t[size - 1] == end - 1; }
    }
  }

  // ---- batch retype ----

  /** `seL4_Untyped_Retype` of `count` frames fills `count` consecutive slots. */
  datatype Retype = Retype(first: int, count: nat)

  function Filled(calls: seq<Retype>): seq<int> {
    if calls == [] then []
    else Filled(calls[..|calls| - 1]) + Ascending(calls[|calls| - 1].first, calls[|calls| - 1].count)
  }

  predicate CountsUp(slots: seq<int>, lo: int) {
    forall i :: 0 <= i < |slots| ==> slots[i] == lo + i
  }

  /** Where frame i ends up: each batch counts up from the slot of its first frame. */
  function BatchSlot(slots: seq<int>, i: nat): int
    requires i < |slots|
  {
    slots[i - i % MAX_RETYPE] + i % MAX_RETYPE
  }

  function BatchSlots(slots: seq<int>): (r: seq<int>)
    ensures |r| == |slots|
  {
    seq(|slots|, i requires 0 <= i < |slots| => BatchSlot(slots, i))
  }

  /** Batches of at most 256 objects. Every batch fills consecutive slots, so the frames get
      the slots they were given exactly when those are consecutive within each batch. */
  method RetypeInBatches(slots: seq<int>) returns (calls: seq<Retype>)
    ensures Filled(calls) == BatchSlots(slots)
    ensures forall i :: 0 <= i < |slots| ==> Filled(calls)[i] == slots[i - i % 256] + i % 256
    ensures forall k :: 0 <= k < |calls| ==> 1 <= calls[k].count <= MAX_RETYPE && calls[k].first in slots
    ensures Filled(calls) == slots <==> forall i :: 0 <= i < |slots| ==> slots[i] == BatchSlot(slots, i)
  {
    calls := [];
    var done := 0;
    while done < |slots|
      invariant 0 <= done <= |slots| && (done % MAX_RETYPE == 0 || done == |slots|)
      invariant Filled(calls) == BatchSlots(slots)[..done]
      invariant forall k :: 0 <= k < |calls| ==> 1 <= calls[k].count <= MAX_RETYPE && calls[k].first in slots
    {
      var batch := if |slots| - done < MAX_RETYPE then |slots| - done else MAX_RETYPE;
      ghost var was := calls;
      calls := calls + [Retype(slots[done], batch)];
      assert calls[..|calls| - 1] == was;
      OneBatch(slots, done, batch);
      done := done + batch;
    }
    assert BatchSlots(slots)[..done] == BatchSlots(slots);
  }

  lemma OneBatch(slots: seq<int>, done: nat, batch: nat)
    requires done % MAX_RETYPE == 0 && 0 < batch <= MAX_RETYPE && done + batch <= |slots|
    ensures BatchSlots(slots)[..done + batch] == BatchSlots(slots)[..done] + Ascending(slots[done], batch)
  {
    forall i | 0 <= i < batch
      ensures BatchSlots(slots)[done + i] == Ascending(slots[done], batch)[i]
    {
      InBatch(done, i);
    }
  }

  lemma InBatch(done: nat, i: nat)
    requires done % MAX_RETYPE == 0 && i < MAX_RETYPE
    ensures (done + i) % MAX_RETYPE == i
  {}

  /** Slots that count up all along are filled as given. */
  lemma CountingUpFillsAll(slots: seq<int>, lo: int)
    requires CountsUp(slots, lo)
    ensures BatchSlots(slots) == slots
  {}
}

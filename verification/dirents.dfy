/** `EXT4FSImpl::getdents64`: packing directory entries into a buffer, and reading a
    directory through repeated calls. */
module Dirents {
  import opened Words
  import opened LittleEndian
  import Bits

  const DIRENT_SIZE := 280 // size_of::<Dirent64>(): 8 + 8 + 2 + 1 + 256, aligned to 8
  const NAME_AT := 19

  type Name = seq<Byte>

  function RecordLength(name: Name): (n: nat)
    ensures n % 8 == 0 && |name| + DIRENT_SIZE <= n < |name| + DIRENT_SIZE + 8
  {
    (|name| + DIRENT_SIZE + 7) / 8 * 8
  }

  function StoredName(name: Name): Name {
    if |name| <= 255 then name else name[..255]
  }

  /** One record: ino, off, reclen, type, name, and the zeros the buffer held before. */
  function Record(name: Name, off: nat): (r: seq<Byte>)
    ensures |r| == RecordLength(name)
  {
    LeBytes(0, 8) + LeBytes(off, 8) + LeBytes(RecordLength(name), 2) + [0]
    + StoredName(name) + Zeros(RecordLength(name) - NAME_AT - |StoredName(name)|)
  }

  /** Record lengths, entry by entry. */
  function Lengths(names: seq<Name>): (lens: seq<nat>)
    ensures |lens| == |names| && forall i :: 0 <= i < |names| ==> lens[i] == RecordLength(names[i])
  {
    seq(|names|, i requires 0 <= i < |names| => RecordLength(names[i]))
  }

  /** How many records from `offset` on fit into `room` bytes. */
  function FitCount(lens: seq<nat>, offset: nat, room: nat): nat
    decreases |lens| - offset
  {
    if offset >= |lens| || lens[offset] > room then 0
    else 1 + FitCount(lens, offset + 1, room - lens[offset])
  }

  lemma {:induction false} FitCountInRange(lens: seq<nat>, offset: nat, room: nat)
    ensures offset <= |lens| ==> offset + FitCount(lens, offset, room) <= |lens|
    ensures offset > |lens| ==> FitCount(lens, offset, room) == 0
    decreases |lens| - offset
  {
    if offset < |lens| && lens[offset] <= room {
      FitCountInRange(lens, offset + 1, room - lens[offset]);
    }
  }

  /** One more record; it carries the position where it ends. */
  function Extend(packed: seq<Byte>, name: Name): seq<Byte> {
    packed + Record(name, |packed| + RecordLength(name))
  }

  /** The records of the `n` entries from `offset` on. */
  function Records(names: seq<Name>, offset: nat, n: nat): seq<Byte>
    requires offset + n <= |names|
  {
    if n == 0 then [] else Extend(Records(names, offset, n - 1), names[offset + n - 1])
  }

  /** Records are 8-aligned, so whatever a call returns is too. */
  lemma {:induction false} RecordsAligned(names: seq<Name>, offset: nat, n: nat)
    requires offset + n <= |names|
    ensures |Records(names, offset, n)| % 8 == 0
  {
    hide Record, RecordLength;
    if n > 0 {
      RecordsAligned(names, offset, n - 1);
      SumOfEights(|Records(names, offset, n - 1)|, RecordLength(names[offset + n - 1]));
    }
  }

  lemma SumOfEights(a: nat, b: nat)
    requires a % 8 == 0 && b % 8 == 0
    ensures (a + b) % 8 == 0
  {}

  lemma {:induction false} FirstRecordCounts(names: seq<Name>, offset: nat, n: nat)
    requires 0 < n && offset + n <= |names|
    ensures |Records(names, offset, n)| == RecordLength(names[offset]) + |Records(names, offset + 1, n - 1)|
  {
    hide Record, RecordLength;
    if n > 1 { FirstRecordCounts(names, offset, n - 1); }
  }

  /** The records that fit do fit together, and with the next one they would not. */
  lemma {:induction false} PackedFits(names: seq<Name>, offset: nat, room: nat)
    ensures var n := FitCount(Lengths(names), offset, room);
            offset <= |names| ==>
              && offset + n <= |names| && |Records(names, offset, n)| <= room
              && (offset + n < |names| ==> |Records(names, offset, n + 1)| > room)
    decreases |names| - offset
  {
    hide Record, RecordLength;
    FitCountInRange(Lengths(names), offset, room);
    if offset < |names| && Lengths(names)[offset] <= room {
      var n := FitCount(Lengths(names), offset, room);
      PackedFits(names, offset + 1, room - Lengths(names)[offset]);
      FirstRecordCounts(names, offset, n);
      if offset + n < |names| { FirstRecordCounts(names, offset, n + 1); }
    } else if offset < |names| {
      assert Records(names, offset, 0) == [];
    }
  }

  lemma {:induction false} RecordPlace(names: seq<Name>, offset: nat, n: nat, k: nat)
    requires k < n && offset + n <= |names|
    ensures |Records(names, offset, k)| < |Records(names, offset, k + 1)| <= |Records(names, offset, n)|
    ensures var (base, end) := (|Records(names, offset, k)|, |Records(names, offset, k + 1)|);
            end == base + RecordLength(names[offset + k])
            && Records(names, offset, n)[base..end] == Record(names[offset + k], end)
    decreases n
  {
    hide Record, RecordLength;
    RecordIsLong(names[offset + k]);
    if k < n - 1 {
      RecordPlace(names, offset, n - 1, k);
      var base, end := |Records(names, offset, k)|, |Records(names, offset, k + 1)|;
      assert Records(names, offset, n)[base..end] == Records(names, offset, n - 1)[base..end];
    }
  }

  lemma RecordIsLong(name: Name)
    ensures RecordLength(name) > 0
  {}

  /** Where a record lies in what a call packs, and every field of it: no inode, the position
      where it ends, its own length rounded up to 8, no type, at most 255 bytes of the name,
      and zeros. */
  lemma RecordFields(names: seq<Name>, offset: nat, n: nat, k: nat)
    requires k < n && offset + n <= |names|
    ensures |Records(names, offset, k)| < |Records(names, offset, k + 1)| <= |Records(names, offset, n)|
    ensures var (base, end) := (|Records(names, offset, k)|, |Records(names, offset, k + 1)|);
            var (r, name) := (Records(names, offset, n)[base..end], names[offset + k]);
            && |r| % 8 == 0 && |name| + 280 <= |r| < |name| + 288
            && r[..8] == LeBytes(0, 8) && r[8..16] == LeBytes(end, 8) && r[16..18] == LeBytes(|r|, 2) && r[18] == 0
            && r[19..19 + Min(|name|, 255)] == name[..Min(|name|, 255)]
            && forall i :: 19 + Min(|name|, 255) <= i < |r| ==> r[i] == 0
  {
    hide Record, Records, LeBytes;
    RecordPlace(names, offset, n, k);
    FieldsOfRecord(names[offset + k], |Records(names, offset, k + 1)|);
  }

  lemma FieldsOfRecord(name: Name, end: nat)
    ensures var r := Record(name, end);
            && r[..8] == LeBytes(0, 8) && r[8..16] == LeBytes(end, 8) && r[16..18] == LeBytes(|r|, 2) && r[18] == 0
            && r[19..19 + Min(|name|, 255)] == name[..Min(|name|, 255)]
            && forall i :: 19 + Min(|name|, 255) <= i < |r| ==> r[i] == 0
  {
    hide LeBytes;
  }

  // ---- the packing loop ----

  /** Every record begins with an inode number of zero. */
  lemma {:induction false} RecordsBeginWithZeros(names: seq<Name>, offset: nat, n: nat)
    requires 0 < n && offset + n <= |names|
    ensures |Records(names, offset, n)| >= 8 && Records(names, offset, n)[..8] == LeBytes(0, 8)
  {
    hide LeBytes;
    if n > 1 { RecordsBeginWithZeros(names, offset, n - 1); }
  }

  /** The fields a record sets, before the bytes it leaves alone. */
  function Head(name: Name, off: nat): seq<Byte> {
    LeBytes(0, 8) + LeBytes(off, 8) + LeBytes(RecordLength(name), 2) + [0] + StoredName(name)
  }

  lemma HeadOfRecord(name: Name, off: nat)
    ensures |Head(name, off)| <= RecordLength(name)
    ensures Record(name, off) == Head(name, off) + Zeros(RecordLength(name) - |Head(name, off)|)
  {}

  function Over(buf: seq<Byte>, base: nat, head: seq<Byte>): (r: seq<Byte>)
    requires base + |head| <= |buf|
    ensures |r| == |buf|
  {
    buf[..base] + head + buf[base + |head|..]
  }

  /** A buffer after the fields of n records went over its contents. */
  function PackedInto(buf: seq<Byte>, names: seq<Name>, start: nat, n: nat): (r: seq<Byte>)
    requires start + n <= |names| && |Records(names, start, n)| <= |buf|
    ensures |r| == |buf|
  {
    if n == 0 then buf
    else
      HeadOfRecord(names[start + n - 1], |Records(names, start, n)|);
      Over(PackedInto(buf, names, start, n - 1), |Records(names, start, n - 1)|,
           Head(names[start + n - 1], |Records(names, start, n)|))
  }

  /** In a zeroed buffer those are the records, and the rest stays zero. */
  lemma {:induction false} PackedIntoZeros(size: nat, names: seq<Name>, start: nat, n: nat)
    requires start + n <= |names| && |Records(names, start, n)| <= size
    ensures PackedInto(Zeros(size), names, start, n) ==
            Records(names, start, n) + Zeros(size - |Records(names, start, n)|)
  {
    hide Record, RecordLength, Head, Over, Zeros;
    if n == 0 {
      assert [] + Zeros(size) == Zeros(size);
    } else {
      PackedIntoZeros(size, names, start, n - 1);
      var packed := Records(names, start, n - 1);
      var name := names[start + n - 1];
      HeadOfRecord(name, |packed| + RecordLength(name));
      OverZeros(packed, Head(name, |packed| + RecordLength(name)), RecordLength(name), size);
    }
  }

  lemma OverZeros(packed: seq<Byte>, head: seq<Byte>, len: nat, size: nat)
    requires |head| <= len && |packed| + len <= size
    ensures Over(packed + Zeros(size - |packed|), |packed|, head) ==
            packed + (head + Zeros(len - |head|)) + Zeros(size - |packed| - len)
  {}

  /** Copies the fields of whole records while they fit. An offset past the end packs nothing. */
  method Getdents64(names: seq<Name>, start: nat, buf: array<Byte>) returns (realRlen: nat, offset: nat)
    modifies buf
    ensures offset == start + FitCount(Lengths(names), start, buf.Length)
    ensures start <= |names| ==>
              && offset <= |names| && realRlen == |Records(names, start, offset - start)| <= buf.Length
              && buf[..] == PackedInto(old(buf[..]), names, start, offset - start)
    ensures start > |names| ==> realRlen == 0 && buf[..] == old(buf[..])
  {
    hide Record, RecordLength, Records, FitCount, Lengths, PackedInto;
    realRlen, offset := 0, start;
    ghost var lens := Lengths(names);
    FitCountInRange(lens, start, buf.Length);
    if start > |names| { return; }
    RecordsStart(names, start, buf[..]);
    while offset < |names|
      invariant start <= offset <= |names|
      invariant realRlen == |Records(names, start, offset - start)| <= buf.Length
      invariant FitCount(lens, start, buf.Length) == offset - start + FitCount(lens, offset, buf.Length - realRlen)
      invariant buf[..] == PackedInto(old(buf[..]), names, start, offset - start)
      decreases |names| - offset
    {
      var aligned := RecordLength(names[offset]);
      OneStep(names, start, offset, buf.Length - realRlen);
      if realRlen + aligned > buf.Length { break; }
      OneMoreRecord(old(buf[..]), names, start, offset);
      PutHead(buf, realRlen, Head(names[offset], realRlen + aligned));
      realRlen := realRlen + aligned;
      offset := offset + 1;
    }
    AtTheEnd(names, offset, buf.Length - realRlen);
  }

  lemma OneMoreRecord(buf: seq<Byte>, names: seq<Name>, start: nat, offset: nat)
    requires start <= offset < |names|
    requires |Records(names, start, offset - start)| + RecordLength(names[offset]) <= |buf|
    ensures var base := |Records(names, start, offset - start)|; var len := RecordLength(names[offset]);
            && |Records(names, start, offset + 1 - start)| == base + len
            && base + |Head(names[offset], base + len)| <= |buf|
            && PackedInto(buf, names, start, offset + 1 - start) ==
               Over(PackedInto(buf, names, start, offset - start), base, Head(names[offset], base + len))
  {
    hide Record, RecordLength, Head, Over;
    HeadOfRecord(names[offset], |Records(names, start, offset - start)| + RecordLength(names[offset]));
  }

  /** The stores through the `Dirent64` reference at `base`. */
  method PutHead(buf: array<Byte>, base: nat, head: seq<Byte>)
    requires base + |head| <= buf.Length
    modifies buf
    ensures buf[..] == Over(old(buf[..]), base, head)
  {
    for i := 0 to |head|
      invariant forall k :: 0 <= k < buf.Length ==>
                  buf[k] == if base <= k < base + i then head[k - base] else old(buf[k])
    {
      buf[base + i] := head[i];
    }
  }

  lemma RecordsStart(names: seq<Name>, start: nat, buf: seq<Byte>)
    requires start <= |names|
    ensures Records(names, start, 0) == [] && PackedInto(buf, names, start, 0) == buf
  {}

  /** One more entry, in both the count and the records. */
  lemma OneStep(names: seq<Name>, start: nat, offset: nat, room: nat)
    requires start <= offset < |names|
    ensures var lens := Lengths(names); var len := RecordLength(names[offset]);
            && FitCount(lens, offset, room) == (if len > room then 0 else 1 + FitCount(lens, offset + 1, room - len))
    ensures Records(names, start, offset + 1 - start) == Extend(Records(names, start, offset - start), names[offset])
  {
    hide Record, RecordLength;
  }

  lemma AtTheEnd(names: seq<Name>, offset: nat, room: nat)
    ensures offset >= |names| ==> FitCount(Lengths(names), offset, room) == 0
  {}

  // ---- reading records back ----

  function NulTerminated(s: seq<Byte>): Name {
    if s == [] || s[0] == 0 then [] else [s[0]] + NulTerminated(s[1..])
  }

  /** The record lengths a reader follows; 0 where the bytes hold no further record. */
  function RecLenAt(bytes: seq<Byte>): nat {
    if |bytes| < NAME_AT then 0 else FromLe(bytes[16..18])
  }

  /** The names a reader finds by following `d_reclen`. */
  function ParseNames(bytes: seq<Byte>): seq<Name>
    decreases |bytes|
  {
    var len := RecLenAt(bytes);
    if len < NAME_AT || len > |bytes| then []
    else [NulTerminated(bytes[NAME_AT..len])] + ParseNames(bytes[len..])
  }

  predicate GoodName(name: Name) {
    |name| <= 255 && 0 !in name
  }

  lemma {:induction false} NulTerminatedReads(name: Name, rest: seq<Byte>)
    requires 0 !in name && (rest == [] || rest[0] == 0)
    ensures NulTerminated(name + rest) == name
  {
    if name == [] {
      assert name + rest == rest;
    } else {
      assert (name + rest)[1..] == name[1..] + rest && (name + rest)[0] == name[0] && name[0] in name;
      NulTerminatedReads(name[1..], rest);
    }
  }

  lemma RecordParses(name: Name, off: nat, rest: seq<Byte>)
    requires GoodName(name)
    ensures RecLenAt(Record(name, off) + rest) == RecordLength(name)
    ensures NulTerminated((Record(name, off) + rest)[NAME_AT..RecordLength(name)]) == name
    ensures (Record(name, off) + rest)[RecordLength(name)..] == rest
  {
    var bytes := Record(name, off) + rest;
    assert bytes[16..18] == LeBytes(RecordLength(name), 2);
    TwoBytes(RecordLength(name));
    var pad := Zeros(RecordLength(name) - NAME_AT - |name|);
    assert bytes[NAME_AT..RecordLength(name)] == name + pad;
    NulTerminatedReads(name, pad);
  }

  lemma TwoBytes(w: nat)
    requires w < 0x1_0000
    ensures FromLe(LeBytes(w, 2)) == w
  {
    Bits.Pow2Small();
    assert Bits.Pow2(16) == 0x1_0000;
    FromLeOfBytes(w, 2);
  }

  predicate GoodNames(names: seq<Name>, offset: nat, n: nat)
    requires offset + n <= |names|
  {
    forall i :: offset <= i < offset + n ==> GoodName(names[i])
  }

  lemma ParseStep(name: Name, off: nat, rest: seq<Byte>)
    requires GoodName(name)
    ensures ParseNames(Record(name, off) + rest) == [name] + ParseNames(rest)
  {
    RecordParses(name, off, rest);
  }

  /** A reader that follows the record lengths finds exactly the packed entries, in
      order, and then whatever comes after them. */
  lemma {:induction false} RecordsParse(names: seq<Name>, offset: nat, n: nat, rest: seq<Byte>)
    requires offset + n <= |names| && GoodNames(names, offset, n)
    ensures ParseNames(Records(names, offset, n) + rest) == names[offset..offset + n] + ParseNames(rest)
    decreases n
  {
    hide Record, RecordLength, ParseNames;
    if n == 0 {
      assert [] + rest == rest;
    } else {
      var name := names[offset + n - 1];
      var before := Records(names, offset, n - 1);
      RecordsParse(names, offset, n - 1, Record(name, |before| + RecordLength(name)) + rest);
      ExtendParses(before, name, rest, names[offset..offset + n - 1]);
      SliceSnoc(names, offset, n);
    }
  }

  lemma SliceSnoc(names: seq<Name>, offset: nat, n: nat)
    requires 0 < n && offset + n <= |names|
    ensures names[offset..offset + n] == names[offset..offset + n - 1] + [names[offset + n - 1]]
  {}

  lemma ExtendParses(before: seq<Byte>, name: Name, rest: seq<Byte>, found: seq<Name>)
    requires GoodName(name)
    requires var tail := Record(name, |before| + RecordLength(name)) + rest;
             ParseNames(before + tail) == found + ParseNames(tail)
    ensures ParseNames(Extend(before, name) + rest) == (found + [name]) + ParseNames(rest)
  {
    hide Record, RecordLength;
    ParseStep(name, |before| + RecordLength(name), rest);
    Chain(bytes => ParseNames(bytes), before, Record(name, |before| + RecordLength(name)), rest, found, name);
  }

  /** The sequence algebra of one more record, for any reader. */
  lemma Chain(read: seq<Byte> -> seq<Name>, before: seq<Byte>, last: seq<Byte>, rest: seq<Byte>,
              found: seq<Name>, name: Name)
    requires read(before + (last + rest)) == found + read(last + rest)
    requires read(last + rest) == [name] + read(rest)
    ensures read((before + last) + rest) == (found + [name]) + read(rest)
  {
    assert before + (last + rest) == (before + last) + rest;
  }

  // ---- paging through a directory ----

  /** The offset after calls with buffers of the given sizes. */
  function OffsetAfter(lens: seq<nat>, offset: nat, sizes: seq<nat>): nat
    decreases |sizes|
  {
    if sizes == [] then offset
    else OffsetAfter(lens, offset + FitCount(lens, offset, sizes[0]), sizes[1..])
  }

  /** All names those calls deliver, one call after the other. */
  function Delivered(names: seq<Name>, offset: nat, sizes: seq<nat>): seq<Name>
    decreases |sizes|
  {
    if sizes == [] then []
    else
      var n := FitCount(Lengths(names), offset, sizes[0]);
      (if offset + n <= |names| then names[offset..offset + n] else [])
      + Delivered(names, offset + n, sizes[1..])
  }

  /** Whatever the buffer sizes, the calls deliver one contiguous run of entries: nothing
      twice, nothing skipped, in order. */
  lemma {:induction false} PagingIsContiguous(names: seq<Name>, offset: nat, sizes: seq<nat>)
    requires offset <= |names|
    ensures offset <= OffsetAfter(Lengths(names), offset, sizes) <= |names|
    ensures Delivered(names, offset, sizes) == names[offset..OffsetAfter(Lengths(names), offset, sizes)]
    decreases |sizes|
  {
    if sizes != [] {
      var lens := Lengths(names);
      var n := FitCount(lens, offset, sizes[0]);
      FitCountInRange(lens, offset, sizes[0]);
      PagingIsContiguous(names, offset + n, sizes[1..]);
      var mid, end := offset + n, OffsetAfter(lens, offset, sizes);
      assert names[offset..mid] + names[mid..end] == names[offset..end];
    }
  }

  /** A directory after an entry has been created in it, at a place of lwext4's choosing. */
  function Inserted(names: seq<Name>, at: nat, name: Name): seq<Name> {
    names[..Min(at, |names|)] + [name] + names[Min(at, |names|)..]
  }

  /** When an entry is created between two calls, what was listed before and what is left to
      list are together the new directory, each entry once, if and only if the new entry came
      at or behind the offset. In front of it, it is missed and its predecessor of the offset
      listed again. */
  lemma InsertDuringListing(names: seq<Name>, offset: nat, at: nat, name: Name)
    requires offset <= |names| && name !in names
    ensures names[..offset] + Inserted(names, at, name)[offset..] == Inserted(names, at, name)
            <==> Min(at, |names|) >= offset
    ensures Min(at, |names|) < offset ==>
              name !in names[..offset] + Inserted(names, at, name)[offset..]
              && Inserted(names, at, name)[offset] == names[offset - 1]
  {
    var i, after := Min(at, |names|), Inserted(names, at, name);
    if i >= offset {
      assert after[..offset] == names[..offset];
      assert after == after[..offset] + after[offset..];
    } else {
      assert after[i] == name && (names[..offset] + after[offset..])[i] == names[i];
      assert after[offset..] == names[offset - 1..];
    }
  }

  /** A call makes progress exactly when the next entry's record fits; otherwise it
      returns 0 bytes, which a reader takes for the end of the directory. */
  lemma ProgressNeedsRoom(lens: seq<nat>, offset: nat, size: nat)
    ensures FitCount(lens, offset, size) > 0 <==> offset < |lens| && lens[offset] <= size
  {}

  predicate AllFit(lens: seq<nat>, offset: nat, size: nat) {
    forall i :: offset <= i < |lens| ==> lens[i] <= size
  }

  /** The offset after `calls` calls with one buffer size. */
  function OffsetAfterCalls(lens: seq<nat>, offset: nat, size: nat, calls: nat): nat
    decreases calls
  {
    if calls == 0 then offset
    else OffsetAfterCalls(lens, offset + FitCount(lens, offset, size), size, calls - 1)
  }

  /** Calls with one buffer size visit the whole rest of the directory, in at most as many
      calls as there are entries, exactly when the buffer holds the record of every
      remaining entry. */
  lemma {:induction false} PagingCompletes(lens: seq<nat>, offset: nat, size: nat, calls: nat)
    requires offset <= |lens| && calls >= |lens| - offset
    ensures OffsetAfterCalls(lens, offset, size, calls) == |lens| <==> AllFit(lens, offset, size)
    decreases calls
  {
    if calls > 0 {
      var n := FitCount(lens, offset, size);
      FitCountInRange(lens, offset, size);
      ProgressNeedsRoom(lens, offset, size);
      if n == 0 {
        StaysAt(lens, offset, size, calls);
      } else {
        PagingCompletes(lens, offset + n, size, calls - 1);
        DeliveredFit(lens, offset, size, size);
      }
    }
  }

  lemma {:induction false} StaysAt(lens: seq<nat>, offset: nat, size: nat, calls: nat)
    requires FitCount(lens, offset, size) == 0
    ensures OffsetAfterCalls(lens, offset, size, calls) == offset
    decreases calls
  {
    if calls > 0 { StaysAt(lens, offset, size, calls - 1); }
  }

  /** Entries a call delivers do fit, so only the undelivered ones can still be too long. */
  lemma {:induction false} DeliveredFit(lens: seq<nat>, offset: nat, room: nat, size: nat)
    requires room <= size
    ensures AllFit(lens, offset, size) == AllFit(lens, offset + FitCount(lens, offset, room), size)
    decreases |lens| - offset
  {
    if offset < |lens| && lens[offset] <= room {
      DeliveredFit(lens, offset + 1, room - lens[offset], size);
      assert AllFit(lens, offset, size) == AllFit(lens, offset + 1, size);
    }
  }

  function Repeat(size: nat, n: nat): (s: seq<nat>)
    ensures |s| == n
  {
    if n == 0 then [] else [size] + Repeat(size, n - 1)
  }

  lemma {:induction false} RepeatedCalls(lens: seq<nat>, offset: nat, size: nat, calls: nat)
    ensures OffsetAfter(lens, offset, Repeat(size, calls)) == OffsetAfterCalls(lens, offset, size, calls)
    decreases calls
  {
    if calls > 0 {
      assert Repeat(size, calls)[1..] == Repeat(size, calls - 1);
      RepeatedCalls(lens, offset + FitCount(lens, offset, size), size, calls - 1);
    }
  }

  /** Reading a directory from the start with one buffer size, as often as it has entries,
      delivers exactly its entries if and only if every single record fits the buffer. */
  lemma WholeDirectoryVisited(names: seq<Name>, size: nat, calls: nat)
    requires calls >= |names|
    ensures Delivered(names, 0, Repeat(size, calls)) == names <==> AllFit(Lengths(names), 0, size)
  {
    PagingIsContiguous(names, 0, Repeat(size, calls));
    RepeatedCalls(Lengths(names), 0, size, calls);
    PagingCompletes(Lengths(names), 0, size, calls);
    var end := OffsetAfterCalls(Lengths(names), 0, size, calls);
    assert |names[0..end]| == end;
    if end == |names| { assert names[0..end] == names; }
  }
}

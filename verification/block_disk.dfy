/** The ramdisk and the cursor that adapts it for lwext4: 512-byte blocks under a byte
    position. The loops over blocks are proved against one flat device of 4 MiB. */
module BlockDisk {
  import opened Words

  const BLOCK_SIZE := 512
  const RAMDISK_SIZE := 4194304

  // ---- the flat device ----

  /** A buffer after a read at `pos`: bytes past the end of the device stay as they were. */
  function Fetched(dev: seq<Byte>, pos: nat, into: seq<Byte>): (r: seq<Byte>)
    ensures |r| == |into|
  {
    seq(|into|, k requires 0 <= k < |into| => if pos + k < |dev| then dev[pos + k] else into[k])
  }

  /** The device after a write at `pos`: bytes past its end are dropped. */
  function Stored(dev: seq<Byte>, pos: nat, data: seq<Byte>): (r: seq<Byte>)
    ensures |r| == |dev|
  {
    seq(|dev|, k requires 0 <= k < |dev| => if pos <= k < pos + |data| then data[k - pos] else dev[k])
  }

  /** When a transfer finishes: whole blocks from a block boundary, of which at most the
      last starts at the very end of the device. Anything else panics. */
  predicate Transfers(pos: nat, len: nat) {
    && len % BLOCK_SIZE == 0 && pos % BLOCK_SIZE == 0
    && (len == 0 || pos + len <= RAMDISK_SIZE + BLOCK_SIZE)
  }

  /** Where a seek wants to go, as an exact number; an unknown `whence` counts from the start. */
  function SeekTarget(pos: nat, off: I64, whence: I32): int {
    if whence == 1 then pos + off else if whence == 2 then RAMDISK_SIZE + off else off
  }

  class Ramdisk {
    const data: array<Byte>

    constructor ()
      ensures fresh(data) && data.Length == RAMDISK_SIZE && forall k :: 0 <= k < RAMDISK_SIZE ==> data[k] == 0
    {
      data := new Byte[RAMDISK_SIZE](_ => 0);
    }

    /** As much of the image as fits; the rest of the device keeps its contents. */
    method InitFromImage(image: seq<Byte>)
      requires data.Length == RAMDISK_SIZE
      modifies data
      ensures data[..] == Stored(old(data[..]), 0, image)
    {
      var len := Min(|image|, RAMDISK_SIZE);
      forall k | 0 <= k < len { data[k] := image[k]; }
    }

    /** Copies one block into `buf[at..at + 512]`; slicing past the end of the device panics. */
    method ReadBlock(blockId: nat, buf: array<Byte>, at: nat) returns (ok: bool)
      requires data.Length == RAMDISK_SIZE && at + BLOCK_SIZE <= buf.Length && buf != data
      modifies buf
      ensures ok <==> blockId * BLOCK_SIZE <= RAMDISK_SIZE
      ensures forall k :: 0 <= k < buf.Length ==>
                buf[k] == if ok && at <= k < at + BLOCK_SIZE && blockId * BLOCK_SIZE + (k - at) < RAMDISK_SIZE
                          then data[blockId * BLOCK_SIZE + (k - at)] else old(buf[k])
    {
      var start := blockId * BLOCK_SIZE;
      if start > RAMDISK_SIZE { return false; }
      var len := Min(BLOCK_SIZE, RAMDISK_SIZE - start);
      forall k | 0 <= k < len { buf[at + k] := data[start + k]; }
      ok := true;
      assert forall k :: at <= k < at + len ==> buf[k] == buf[at + (k - at)];
    }

    method WriteBlock(blockId: nat, buf: seq<Byte>) returns (ok: bool)
      requires data.Length == RAMDISK_SIZE && |buf| == BLOCK_SIZE
      modifies data
      ensures ok <==> blockId * BLOCK_SIZE <= RAMDISK_SIZE
      ensures data[..] == if ok then Stored(old(data[..]), blockId * BLOCK_SIZE, buf) else old(data[..])
    {
      var start := blockId * BLOCK_SIZE;
      if start > RAMDISK_SIZE { return false; }
      var len := Min(BLOCK_SIZE, RAMDISK_SIZE - start);
      forall k | 0 <= k < len { data[start + k] := buf[k]; }
      ok := true;
      assert forall k :: start <= k < start + len ==> data[k] == data[start + (k - start)];
    }
  }

  class Ext4Disk {
    var blockId: nat
    var offset: nat
    const blk: Ramdisk

    ghost predicate Valid()
      reads this
    {
      blk.data.Length == RAMDISK_SIZE && offset < BLOCK_SIZE && blockId * BLOCK_SIZE + offset < WORD
    }

    function Position(): nat
      reads this
    {
      blockId * BLOCK_SIZE + offset
    }

    constructor (ramdisk: Ramdisk)
      requires ramdisk.data.Length == RAMDISK_SIZE
      ensures Valid() && blk == ramdisk && Position() == 0
    {
      blockId, offset, blk := 0, 0, ramdisk;
    }

    /** Splitting a position into block and offset loses nothing, whatever the position. */
    method SetPosition(pos: Word)
      requires blk.data.Length == RAMDISK_SIZE
      modifies this
      ensures Valid() && Position() == pos
    {
      blockId := pos / BLOCK_SIZE;
      offset := pos % BLOCK_SIZE;
    }

    /** A seek succeeds exactly when its target lies in [0, capacity], for every `whence`
        and every offset, however close to overflow; otherwise the cursor stays put. */
    method Seek(off: I64, whence: I32) returns (r: Option<I64>)
      requires Valid()
      modifies this
      ensures Valid()
      ensures whence == 1 ==>
                (r.Some? <==> 0 <= old(Position()) + off <= 4194304)
                && (r.Some? ==> r.value == Position() == old(Position()) + off)
      ensures whence == 2 ==>
                (r.Some? <==> -4194304 <= off <= 0) && (r.Some? ==> r.value == Position() == 4194304 + off)
      ensures whence != 1 && whence != 2 ==>
                (r.Some? <==> 0 <= off <= 4194304) && (r.Some? ==> r.value == Position() == off)
      ensures r.None? ==> Position() == old(Position())
      ensures Cursor(old(Position()), [SeekTo(off, whence)]) == Some(Position())
    {
      var newPos: I64 := off;
      if whence == 1 {
        var sum := Position() + off;
        if sum < 0 || sum >= WORD { return None; }
        newPos := Signed(sum);
      } else if whence == 2 {
        if RAMDISK_SIZE + off >= 0x8000_0000_0000_0000 { return None; }
        newPos := RAMDISK_SIZE + off;
      }
      var unsigned := Wrap(newPos);
      if unsigned > RAMDISK_SIZE { return None; }
      SetPosition(unsigned);
      return Some(newPos);
    }

    /** `ok == false` stands for a panic: a failed assertion or a slice out of range. */
    method ReadOne(buf: array<Byte>) returns (ok: bool)
      requires Valid() && buf != blk.data
      modifies this, buf
      ensures ok <==>
                && buf.Length % 512 == 0 && old(Position()) % 512 == 0
                && (buf.Length == 0 || old(Position()) + buf.Length <= 4194304 + 512)
      ensures ok ==> Valid() && Position() == old(Position()) + buf.Length
      ensures Cursor(old(Position()), [Transfer(buf.Length)]) == if ok then Some(Position()) else None
      ensures ok ==> buf[..] == Fetched(blk.data[..], old(Position()), old(buf[..]))
    {
      if buf.Length % BLOCK_SIZE != 0 { return false; }
      if offset != 0 { NotOnBoundary(blockId, offset); return false; }
      ghost var pos := Position();
      OnBoundary(blockId);
      var blockNum := buf.Length / BLOCK_SIZE;
      for i := 0 to blockNum
        invariant blockId == old(blockId) && offset == 0
        invariant i > 0 ==> pos + (i - 1) * BLOCK_SIZE <= RAMDISK_SIZE
        invariant forall k :: 0 <= k < buf.Length ==>
                    buf[k] == if k < i * BLOCK_SIZE && pos + k < RAMDISK_SIZE then blk.data[pos + k] else old(buf[k])
      {
        var done := blk.ReadBlock(blockId + i, buf, i * BLOCK_SIZE);
        if !done { return false; }
      }
      SetPosition(Position() + buf.Length);
      return true;
    }

    method WriteOne(buf: seq<Byte>) returns (ok: bool)
      requires Valid()
      modifies this, blk.data
      ensures ok <==>
                && |buf| % 512 == 0 && old(Position()) % 512 == 0
                && (|buf| == 0 || old(Position()) + |buf| <= 4194304 + 512)
      ensures ok ==> Valid() && Position() == old(Position()) + |buf|
      ensures Cursor(old(Position()), [Transfer(|buf|)]) == if ok then Some(Position()) else None
      ensures ok ==> blk.data[..] == Stored(old(blk.data[..]), old(Position()), buf)
    {
      hide Stored;
      if |buf| % BLOCK_SIZE != 0 { return false; }
      if offset != 0 { NotOnBoundary(blockId, offset); return false; }
      ghost var pos, dev := Position(), blk.data[..];
      OnBoundary(blockId);
      var blockNum := |buf| / BLOCK_SIZE;
      NothingStored(dev, pos);
      assert buf[..0] == [];
      for i := 0 to blockNum
        invariant blockId == old(blockId) && offset == 0
        invariant i > 0 ==> pos + (i - 1) * BLOCK_SIZE <= RAMDISK_SIZE
        invariant blk.data[..] == Stored(dev, pos, buf[..i * BLOCK_SIZE])
      {
        var from := i * BLOCK_SIZE;
        var done := blk.WriteBlock(blockId + i, buf[from..from + BLOCK_SIZE]);
        if !done { return false; }
        WritesJoin(dev, pos, buf[..from], buf[from..from + BLOCK_SIZE]);
        assert buf[..from] + buf[from..from + BLOCK_SIZE] == buf[..(i + 1) * BLOCK_SIZE];
      }
      assert buf[..blockNum * BLOCK_SIZE] == buf;
      SetPosition(Position() + |buf|);
      return true;
    }
  }

  lemma NothingStored(dev: seq<Byte>, pos: nat)
    ensures Stored(dev, pos, []) == dev
  {}

  lemma OnBoundary(block: nat)
    ensures block * BLOCK_SIZE % BLOCK_SIZE == 0
  {}

  lemma NotOnBoundary(block: nat, offset: nat)
    requires 0 < offset < BLOCK_SIZE
    ensures (block * BLOCK_SIZE + offset) % BLOCK_SIZE != 0
  {}

  // ---- what the flat device promises ----

  /** A read that finishes is the slice of the device exactly when it ends inside it. One
      that runs over the end by a block finishes too, and leaves that block of the buffer
      with whatever it held. */
  lemma ReadIsSlice(dev: seq<Byte>, pos: nat, into: seq<Byte>)
    requires |dev| == RAMDISK_SIZE && Transfers(pos, |into|) && into != []
    ensures pos + |into| <= RAMDISK_SIZE ==> Fetched(dev, pos, into) == dev[pos..pos + |into|]
    ensures pos + |into| > RAMDISK_SIZE ==>
              Fetched(dev, pos, into) == dev[pos..] + into[|into| - BLOCK_SIZE..]
  {
    if pos + |into| > RAMDISK_SIZE {
      LastBlock(pos, |into|);
    }
  }

  lemma LastBlock(pos: nat, len: nat)
    requires Transfers(pos, len) && pos + len > RAMDISK_SIZE && len > 0
    ensures pos + len == RAMDISK_SIZE + BLOCK_SIZE
  {
    SumOfBlocks(pos, len);
  }

  lemma SumOfBlocks(a: nat, b: nat)
    requires a % BLOCK_SIZE == 0 && b % BLOCK_SIZE == 0
    ensures (a + b) % BLOCK_SIZE == 0
  {}

  /** Two writes in a row are one write of both pieces. */
  lemma WritesJoin(dev: seq<Byte>, pos: nat, a: seq<Byte>, b: seq<Byte>)
    ensures Stored(Stored(dev, pos, a), pos + |a|, b) == Stored(dev, pos, a + b)
  {
    forall k | 0 <= k < |dev|
      ensures Stored(Stored(dev, pos, a), pos + |a|, b)[k] == Stored(dev, pos, a + b)[k]
    {
      if pos + |a| <= k < pos + |a| + |b| { assert (a + b)[k - pos] == b[k - pos - |a|]; }
    }
  }

  /** Data written inside the device reads back, and other places read as before. */
  lemma WriteReadsBack(dev: seq<Byte>, pos: nat, data: seq<Byte>, into: seq<Byte>)
    requires |into| == |data|
    ensures Fetched(Stored(dev, pos, data), pos, into) == data <==>
            forall k :: 0 <= k < |data| && pos + k >= |dev| ==> into[k] == data[k]
  {
    var back := Fetched(Stored(dev, pos, data), pos, into);
    assert forall k :: 0 <= k < |data| ==> back[k] == if pos + k < |dev| then data[k] else into[k];
  }

  lemma WriteLeavesRestAlone(dev: seq<Byte>, pos: nat, data: seq<Byte>, at: nat, into: seq<Byte>)
    requires at + |into| <= pos || pos + |data| <= at
    ensures Fetched(Stored(dev, pos, data), at, into) == Fetched(dev, at, into)
  {}

  // ---- runs of transfers ----

  function Flatten(pieces: seq<seq<Byte>>): seq<Byte> {
    if pieces == [] then [] else pieces[0] + Flatten(pieces[1..])
  }

  /** Successive writes, the cursor advancing by each piece. */
  function WriteAll(dev: seq<Byte>, pos: nat, pieces: seq<seq<Byte>>): seq<Byte>
    decreases |pieces|
  {
    if pieces == [] then dev else WriteAll(Stored(dev, pos, pieces[0]), pos + |pieces[0]|, pieces[1..])
  }

  /** Successive reads into buffers, the cursor advancing by each buffer. */
  function ReadAll(dev: seq<Byte>, pos: nat, buffers: seq<seq<Byte>>): (r: seq<seq<Byte>>)
    decreases |buffers|
  {
    if buffers == [] then [] else [Fetched(dev, pos, buffers[0])] + ReadAll(dev, pos + |buffers[0]|, buffers[1..])
  }

  lemma {:induction false} WritingInPieces(dev: seq<Byte>, pos: nat, pieces: seq<seq<Byte>>)
    ensures WriteAll(dev, pos, pieces) == Stored(dev, pos, Flatten(pieces))
    decreases |pieces|
  {
    if pieces != [] {
      WritingInPieces(Stored(dev, pos, pieces[0]), pos + |pieces[0]|, pieces[1..]);
      WritesJoin(dev, pos, pieces[0], Flatten(pieces[1..]));
    }
  }

  lemma {:induction false} ReadingInPieces(dev: seq<Byte>, pos: nat, buffers: seq<seq<Byte>>)
    ensures Flatten(ReadAll(dev, pos, buffers)) == Fetched(dev, pos, Flatten(buffers))
    decreases |buffers|
  {
    if buffers != [] {
      var b := buffers[0];
      ReadingInPieces(dev, pos + |b|, buffers[1..]);
      FetchJoins(dev, pos, b, Flatten(buffers[1..]));
      assert ReadAll(dev, pos, buffers)[0] == Fetched(dev, pos, b);
      assert ReadAll(dev, pos, buffers)[1..] == ReadAll(dev, pos + |b|, buffers[1..]);
    }
  }

  lemma FetchJoins(dev: seq<Byte>, pos: nat, a: seq<Byte>, b: seq<Byte>)
    ensures Fetched(dev, pos, a) + Fetched(dev, pos + |a|, b) == Fetched(dev, pos, a + b)
  {}

  /** Written in any pieces and read back in any others, a stretch inside the device comes
      back as it was written. */
  lemma PiecesReadBack(dev: seq<Byte>, pos: nat, pieces: seq<seq<Byte>>, buffers: seq<seq<Byte>>)
    requires |Flatten(buffers)| == |Flatten(pieces)| && pos + |Flatten(pieces)| <= |dev|
    ensures Flatten(ReadAll(WriteAll(dev, pos, pieces), pos, buffers)) == Flatten(pieces)
  {
    WritingInPieces(dev, pos, pieces);
    ReadingInPieces(WriteAll(dev, pos, pieces), pos, buffers);
    WriteReadsBack(dev, pos, Flatten(pieces), Flatten(buffers));
  }

  datatype Op = SeekTo(off: I64, whence: I32) | Transfer(len: nat)

  /** Where a run takes the cursor; None once it panics. */
  function Cursor(pos: nat, ops: seq<Op>): Option<nat>
    decreases |ops|
  {
    if ops == [] then Some(pos)
    else match ops[0]
      case SeekTo(off, whence) =>
        var t := SeekTarget(pos, off, whence);
        Cursor(if 0 <= t <= RAMDISK_SIZE then t else pos, ops[1..])
      case Transfer(len) => if Transfers(pos, len) then Cursor(pos + len, ops[1..]) else None
  }

  /** Over any run the cursor is on the device, or one block past its end, from where only
      a seek leads back. */
  lemma {:induction false} CursorStaysNear(pos: nat, ops: seq<Op>)
    requires pos <= RAMDISK_SIZE || pos == RAMDISK_SIZE + BLOCK_SIZE
    ensures var end := Cursor(pos, ops);
            end.Some? ==> end.value <= RAMDISK_SIZE || end.value == RAMDISK_SIZE + BLOCK_SIZE
    decreases |ops|
  {
    if ops != [] {
      match ops[0]
      case SeekTo(off, whence) =>
        var t := SeekTarget(pos, off, whence);
        CursorStaysNear(if 0 <= t <= RAMDISK_SIZE then t else pos, ops[1..]);
      case Transfer(len) =>
        if Transfers(pos, len) {
          if pos + len > RAMDISK_SIZE && len > 0 { LastBlock(pos, len); }
          CursorStaysNear(pos + len, ops[1..]);
        }
    }
  }
}

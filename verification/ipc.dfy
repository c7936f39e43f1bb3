/** Message registers and the byte packing both sides of the filesystem protocol use. */
module Ipc {
  import opened Words
  import opened Bits
  import opened LittleEndian

  const MSG_REGS := 120
  const PATH_MR_START := 5
  const DATA_MR_START := 2

  type Msg = m: seq<Word> | |m| == 120 witness seq(120, _ => 0)

  /** Reading past the 120 registers yields zero; writing past them does nothing. */
  function ReadMr(m: Msg, idx: nat): Word {
    if idx < MSG_REGS then m[idx] else 0
  }

  function WriteMr(m: Msg, idx: nat, val: Word): Msg {
    if idx < MSG_REGS then m[idx := val] else m
  }

  function Mrs(len: nat): nat {
    (len + 7) / 8
  }

  /** The up to eight bytes that go into register i. */
  function Chunk(data: seq<Byte>, i: nat): (c: seq<Byte>)
    requires 8 * i <= |data|
    ensures |c| <= 8
  {
    data[8 * i..if |data| < 8 * i + 8 then |data| else 8 * i + 8]
  }

  lemma ChunkFits(c: seq<Byte>)
    requires |c| <= 8
    ensures FromLe(c) < WORD
  {
    Pow2Monotone(8 * |c|, 64);
    Pow2Word();
  }

  lemma {:induction false} Pow2Monotone(a: nat, b: nat)
    requires a <= b
    ensures Pow2(a) <= Pow2(b)
  {
    if a < b { Pow2Monotone(a, b - 1); }
  }

  /** The registers after packing `data` from `start` on; what passes register 119 is dropped. */
  ghost predicate Packed(m: Msg, m': Msg, data: seq<Byte>, start: nat) {
    forall k :: 0 <= k < MSG_REGS ==>
      m'[k] == if start <= k < start + Mrs(|data|) then FromLe(Chunk(data, k - start)) else m[k]
  }

  /** Byte k of the string that starts at register `start`. */
  function PackedByte(m: Msg, start: nat, k: nat): Byte {
    ByteOf(ReadMr(m, start + k / 8), k % 8)
  }

  function Unpacked(m: Msg, start: nat, len: nat): (d: seq<Byte>)
    ensures |d| == len
  {
    seq(len, k requires 0 <= k => PackedByte(m, start, k))
  }

  lemma OrNextByte(data: seq<Byte>, from: nat, idx: nat, j: nat)
    requires from <= idx < |data| && j == idx - from
    ensures Or(FromLe(data[from..idx]), data[idx] * Pow2(8 * j)) == FromLe(data[from..idx + 1])
  {
    hide Or, Pow2, FromLe;
    assert data[from..idx + 1] == data[from..idx] + [data[idx]];
    AppendByteIsOr(data[from..idx], data[idx]);
  }

  /** The inner loop of the packing: bytes 8i, 8i + 1, ... OR-ed together, lowest first. */
  method PackWord(data: seq<Byte>, i: nat) returns (word: Word)
    requires 8 * i < |data|
    ensures word == FromLe(Chunk(data, i))
  {
    hide Or, Pow2;
    var w: nat := 0;
    for j := 0 to 8
      invariant w == FromLe(data[8 * i..Min(8 * i + j, |data|)])
    {
      var idx := i * 8 + j;
      if idx < |data| {
        OrNextByte(data, 8 * i, idx, j);
        w := Or(w, data[idx] * Pow2(8 * j));
      }
    }
    ChunkFits(Chunk(data, i));
    word := w;
  }

  class IpcBuffer {
    const msg: array<Word>

    constructor ()
      ensures msg.Length == MSG_REGS && fresh(msg)
    {
      msg := new Word[120](_ => 0);
    }

    method Read(idx: nat) returns (w: Word)
      requires msg.Length == MSG_REGS
      ensures w == ReadMr(msg[..], idx)
    {
      w := if idx < MSG_REGS then msg[idx] else 0;
    }

    method Write(idx: nat, val: Word)
      requires msg.Length == MSG_REGS
      modifies msg
      ensures msg[..] == WriteMr(old(msg[..]), idx, val)
    {
      if idx < MSG_REGS { msg[idx] := val; }
    }

    /** Eight bytes a register, each one OR-ed in at its shift. */
    method EncodeBytes(data: seq<Byte>, start: nat) returns (numMrs: nat)
      requires msg.Length == MSG_REGS
      modifies msg
      ensures numMrs == Mrs(|data|) && Packed(old(msg[..]), msg[..], data, start)
    {
      numMrs := (|data| + 7) / 8;
      for i := 0 to numMrs
        invariant forall k :: 0 <= k < MSG_REGS ==>
                    msg[k] == if start <= k < start + i then FromLe(Chunk(data, k - start)) else old(msg[k])
      {
        var word := PackWord(data, i);
        Write(start + i, word);
      }
    }

    /** Eight bytes a register, each one shifted down and masked out. */
    method DecodeBytes(start: nat, len: nat) returns (bytes: seq<Byte>)
      requires msg.Length == MSG_REGS
      ensures bytes == Unpacked(msg[..], start, len)
    {
      hide ByteOf, ReadMr;
      bytes := [];
      var numMrs := (len + 7) / 8;
      for i := 0 to numMrs
        invariant bytes == Unpacked(msg[..], start, Min(8 * i, len))
      {
        var word := Read(start + i);
        for j := 0 to 8
          invariant bytes == Unpacked(msg[..], start, Min(8 * i + j, len))
        {
          if i * 8 + j < len {
            EightPerRegister(i, j);
            bytes := bytes + [ByteOf(word, j)];
          }
        }
      }
    }
  }

  lemma EightPerRegister(i: nat, j: nat)
    requires j < 8
    ensures (8 * i + j) / 8 == i && (8 * i + j) % 8 == j
  {}

  // ---- round trip ----

  lemma ChunkByte(data: seq<Byte>, k: nat)
    requires k < |data|
    ensures ByteOf(FromLe(Chunk(data, k / 8)), k % 8) == data[k]
  {
    var c := Chunk(data, k / 8);
    BytesOfFromLe(c);
    assert k % 8 < |c| && c[k % 8] == data[k];
    assert LeBytes(FromLe(c), |c|)[k % 8] == ByteOf(FromLe(c), k % 8);
  }

  lemma ZeroBytes(j: nat)
    ensures ByteOf(0, j) == 0
  {}

  /** A packed byte comes back if its register exists, and reads as zero otherwise. */
  lemma PackedByteAt(m: Msg, m': Msg, data: seq<Byte>, start: nat, k: nat)
    requires Packed(m, m', data, start) && k < |data|
    ensures PackedByte(m', start, k) == if start + k / 8 < MSG_REGS then data[k] else 0
  {
    hide ByteOf, FromLe;
    if start + k / 8 < MSG_REGS {
      assert m'[start + k / 8] == FromLe(Chunk(data, k / 8));
      ChunkByte(data, k);
    } else {
      ZeroBytes(k % 8);
    }
  }

  /** Unpacking what one side packed gives the bytes back exactly when they fit into the
      registers from `start` on, or are zero wherever they do not. */
  lemma RoundTrip(m: Msg, m': Msg, data: seq<Byte>, start: nat)
    requires Packed(m, m', data, start) && start <= MSG_REGS
    ensures Unpacked(m', start, |data|) == data
            <==> (forall k :: 8 * (MSG_REGS - start) <= k < |data| ==> data[k] == 0)
  {
    hide PackedByte;
    var back := Unpacked(m', start, |data|);
    forall k | 0 <= k < |data|
      ensures back[k] == if k < 8 * (MSG_REGS - start) then data[k] else 0
    {
      PackedByteAt(m, m', data, start, k);
    }
  }

  /** Packing from register 5 or 2 on leaves the arguments before it alone. */
  lemma PackingKeepsArguments(m: Msg, m': Msg, data: seq<Byte>, start: nat, k: nat)
    requires Packed(m, m', data, start) && k < MSG_REGS && (k < start || k >= start + Mrs(|data|))
    ensures m'[k] == m[k]
  {}

  // ---- the kernel's copy ----

  /** The kernel copies as many registers as the 7-bit length field says, at most 120. */
  function Copied(sender: Msg, receiver: Msg, total: nat): Msg {
    var n := Min(total % 0x80, MSG_REGS);
    sender[..n] + receiver[n..]
  }

  lemma CopiedAt(sender: Msg, receiver: Msg, total: nat, k: nat)
    requires k < total <= MSG_REGS
    ensures Copied(sender, receiver, total)[k] == sender[k]
  {}

  const MAX_PATH_IPC := 920 // (120 - PATH_MR_START) * 8
  const MAX_DATA_IPC := 944 // (120 - DATA_MR_START) * 8

  /** The length of a path request covers every register the server reads, and fits the
      field, exactly for the paths the client lets through. */
  lemma PathRequestFits(len: nat)
    ensures PATH_MR_START + Mrs(len) <= MSG_REGS <==> len <= MAX_PATH_IPC
    ensures len <= MAX_PATH_IPC ==> (PATH_MR_START + Mrs(len)) % 0x80 == PATH_MR_START + Mrs(len)
  {}

  /** Bytes packed by one side, sent with a length that covers them, unpack on the other
      side, whatever was left in the receiver's registers. */
  lemma BytesArrive(m: Msg, sent: Msg, receiver: Msg, data: seq<Byte>, start: nat)
    requires Packed(m, sent, data, start) && start + Mrs(|data|) <= MSG_REGS
    ensures Unpacked(Copied(sent, receiver, start + Mrs(|data|)), start, |data|) == data
  {
    hide ByteOf, FromLe;
    var arrived := Copied(sent, receiver, start + Mrs(|data|));
    forall k | 0 <= k < |data|
      ensures Unpacked(arrived, start, |data|)[k] == data[k]
    {
      CopiedAt(sent, receiver, start + Mrs(|data|), start + k / 8);
      PackedByteAt(m, sent, data, start, k);
    }
  }
}

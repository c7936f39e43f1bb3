/** The client: its descriptor table, its message registers, and calls that travel through
    both buffers to the server and back. Each call is proved to take one step of FsModel. */
module FsClient {
  import opened Words
  import opened Ipc
  import opened FsModel
  import opened FsService
  import opened LittleEndian
  import Bits
  import Dirents

  // ---- what a message means on the other side ----

  /** A request for a descriptor: five registers. */
  ghost predicate FdRequest(m: Msg, reqType: Word, arg1: Word, arg2: Word, arg3: Word) {
    m[0] == reqType && m[1] == arg1 && m[2] == arg2 && m[3] == arg3
  }

  /** A request with a path packed from register 5 on. */
  ghost predicate PathRequest(m: Msg, reqType: Word, path: Path, arg3: Word) {
    && m[0] == reqType && m[2] == |path| && m[3] == arg3
    && exists before: Msg :: Packed(before, m, path, PATH_MR_START)
  }

  lemma FdRequestArrives(sent: Msg, server: Msg, reqType: Word, arg1: Word, arg2: Word, arg3: Word)
    requires FdRequest(sent, reqType, arg1, arg2, arg3)
    ensures FdRequest(Copied(sent, server, 5), reqType, arg1, arg2, arg3)
  {
    CopiedAt(sent, server, 5, 0);
    CopiedAt(sent, server, 5, 1);
    CopiedAt(sent, server, 5, 2);
    CopiedAt(sent, server, 5, 3);
  }

  /** The registers the length field covers are enough for the server to decode the same path. */
  lemma PathRequestArrives(sent: Msg, server: Msg, reqType: Word, path: Path, arg3: Word)
    requires PathRequest(sent, reqType, path, arg3) && |path| <= MAX_PATH_IPC
    ensures var m := Copied(sent, server, PATH_MR_START + Mrs(|path|));
            m[0] == reqType && m[2] == |path| && m[3] == arg3 && Unpacked(m, PATH_MR_START, m[2]) == path
  {
    hide Unpacked, Copied, Packed;
    var total := PATH_MR_START + Mrs(|path|);
    PathRequestFits(|path|);
    CopiedAt(sent, server, total, 0);
    CopiedAt(sent, server, total, 2);
    CopiedAt(sent, server, total, 3);
    var before: Msg :| Packed(before, sent, path, PATH_MR_START);
    BytesArrive(before, sent, server, path, PATH_MR_START);
  }

  /** What the client finds in its own registers when the reply is there. */
  ghost predicate Replied(m: Msg, r: Response) {
    match r
    case Ok(v) => m[0] == 0 && m[1] == Wrap(v)
    case Err(e) => m[0] == 1 && m[1] == Wrap(e)
    case OkWithData(d) => |d| <= MAX_DATA_IPC ==> m[0] == 0 && m[1] == |d| && Unpacked(m, DATA_MR_START, |d|) == d
    case OkWithData2(d, x) =>
      |d| <= MAX_DATA_IPC ==> m[0] == 0 && m[1] == |d| && Unpacked(m, DATA_MR_START, |d|) == Shifted(d, x)
  }

  /** The client's registers after the reply, which were `mine` before it. */
  ghost predicate CameBack(received: Msg, mine: Msg, back: Msg, r: Response) {
    exists answer: Msg :: Answers(received, answer, r) && back == Copied(answer, mine, AnswerMrs(r))
  }

  /** The server packs a listing from register 3 on, behind its new offset; the client unpacks
      from register 2 on. */
  function Shifted(d: seq<Byte>, x: nat): seq<Byte> {
    (LeBytes(Wrap(x), 8) + d)[..|d|]
  }

  lemma ShiftedByte(m: Msg, answer: Msg, client: Msg, d: seq<Byte>, x: nat, k: nat)
    requires Answers(m, answer, OkWithData2(d, x)) && k < |d| <= MAX_DATA_IPC
    ensures PackedByte(Copied(answer, client, 3 + Mrs(|d|)), DATA_MR_START, k) == (LeBytes(Wrap(x), 8) + d)[k]
  {
    hide ByteOf, FromLe, Wrap;
    var before: Msg := m[0 := 0][1 := Wrap(|d|)][2 := Wrap(x)];
    var back := Copied(answer, client, 3 + Mrs(|d|));
    assert back[2 + k / 8] == answer[2 + k / 8];
    if k < 8 {
      PackingKeepsArguments(before, answer, d, 3, 2);
    } else {
      PackedByteAt(before, answer, d, 3, k - 8);
    }
  }

  lemma ListingArrivesShifted(m: Msg, answer: Msg, client: Msg, d: seq<Byte>, x: nat)
    requires Answers(m, answer, OkWithData2(d, x)) && |d| <= MAX_DATA_IPC
    ensures Unpacked(Copied(answer, client, 3 + Mrs(|d|)), DATA_MR_START, |d|) == Shifted(d, x)
  {
    hide PackedByte, Copied, LeBytes;
    forall k | 0 <= k < |d|
      ensures Unpacked(Copied(answer, client, 3 + Mrs(|d|)), DATA_MR_START, |d|)[k] == Shifted(d, x)[k]
    {
      ShiftedByte(m, answer, client, d, x, k);
    }
  }

  /** So the client gets the listing as it was packed if and only if that is empty. */
  lemma ListingIntactIffEmpty(names: seq<Dirents.Name>, offset: nat, n: nat)
    requires offset + n <= |names| && offset + n < WORD
    ensures Shifted(Dirents.Records(names, offset, n), offset + n) == Dirents.Records(names, offset, n) <==> n == 0
  {
    hide LeBytes, FromLe, Dirents.Records, Wrap;
    var d, x := Dirents.Records(names, offset, n), offset + n;
    if n > 0 {
      Dirents.RecordsBeginWithZeros(names, offset, n);
      assert Shifted(d, x)[..8] == LeBytes(Wrap(x), 8);
      WordWraps(x);
      WordFits(x);
      WordFits(0);
      FromLeOfBytes(x, 8);
      FromLeOfBytes(0, 8);
    } else {
      NothingListed(names, offset);
    }
  }

  lemma NothingListed(names: seq<Dirents.Name>, offset: nat)
    requires offset <= |names|
    ensures Dirents.Records(names, offset, 0) == []
  {}

  /** Answers, payload included, cross the 7-bit length field unharmed up to 944 bytes. */
  lemma AnswerArrives(m: Msg, answer: Msg, client: Msg, r: Response)
    requires Answers(m, answer, r)
    ensures Replied(Copied(answer, client, AnswerMrs(r)), r)
  {
    hide Unpacked, Copied;
    var total := AnswerMrs(r);
    if r.OkWithData? && |r.data| <= MAX_DATA_IPC {
      CopiedAt(answer, client, total, 0);
      CopiedAt(answer, client, total, 1);
      PackingKeepsArguments(m[0 := 0][1 := Wrap(|r.data|)], answer, r.data, 2, 0);
      PackingKeepsArguments(m[0 := 0][1 := Wrap(|r.data|)], answer, r.data, 2, 1);
      BytesArrive(m[0 := 0][1 := Wrap(|r.data|)], answer, client, r.data, DATA_MR_START);
    } else if r.OkWithData2? && |r.data| <= MAX_DATA_IPC {
      ListingRegisters(m, answer, client, r.data, r.extra);
      ListingArrivesShifted(m, answer, client, r.data, r.extra);
    } else if r.Ok? || r.Err? {
      CopiedAt(answer, client, 2, 0);
      CopiedAt(answer, client, 2, 1);
    }
  }

  lemma ListingRegisters(m: Msg, answer: Msg, client: Msg, d: seq<Byte>, x: nat)
    requires Answers(m, answer, OkWithData2(d, x)) && |d| <= MAX_DATA_IPC
    ensures var back := Copied(answer, client, 3 + Mrs(|d|)); back[0] == 0 && back[1] == |d|
  {
    hide FromLe;
    var before: Msg := m[0 := 0][1 := Wrap(|d|)][2 := Wrap(x)];
    PackingKeepsArguments(before, answer, d, 3, 0);
    PackingKeepsArguments(before, answer, d, 3, 1);
  }

  // ---- stat, as the client reads it ----

  datatype Status = Fields(mode: U32, size: Word, ino: Word, nlink: U32) | Refused(errno: I32)

  /** The client takes registers 1 to 5 for five fields, where the server put the length and
      twenty packed bytes into registers 1 to 4; register 5 still holds the path it asked for. */
  function Misread(d: seq<Byte>, path: Path): Status
    requires |d| == 20
  {
    ChunkFits(Chunk(d, 0)); ChunkFits(Chunk(d, 1)); ChunkFits(Chunk(d, 2)); ChunkFits(Chunk(path, 0));
    OrFits(Wrap(FromLe(Chunk(d, 1)) * 0x1_0000_0000), FromLe(Chunk(d, 0)));
    Fields(20, Bits.Or(Wrap(FromLe(Chunk(d, 1)) * 0x1_0000_0000), FromLe(Chunk(d, 0))), FromLe(Chunk(d, 2)),
           AsU32(FromLe(Chunk(path, 0))))
  }

  lemma OrFits(x: Word, y: Word)
    ensures Bits.Or(x, y) < WORD
  {
    Pow2Word();
    Bits.OrStaysBelow(x, y, 64);
  }

  lemma StatRegisters(received: Msg, mine: Msg, back: Msg, d: seq<Byte>)
    requires CameBack(received, mine, back, OkWithData(d)) && |d| == 20
    ensures back[0] == 0 && back[1] == 20 && back[5] == mine[5]
    ensures back[2] == FromLe(Chunk(d, 0)) && back[3] == FromLe(Chunk(d, 1)) && back[4] == FromLe(Chunk(d, 2))
  {
    hide FromLe, Chunk;
    var answer: Msg :| Answers(received, answer, OkWithData(d)) && back == Copied(answer, mine, 5);
    assert Packed(received[0 := 0][1 := Wrap(20)], answer, d, 2);
    assert answer[2] == FromLe(Chunk(d, 0)) && answer[3] == FromLe(Chunk(d, 1)) && answer[4] == FromLe(Chunk(d, 2));
  }

  /** So the client's stat reports 20 as the mode, one as the inode, the first bytes of the
      path as the number of links, and in the size the two halves of the true size ORed
      together above the true mode. */
  lemma StatIsMisread(mode: U32, size: Word, inode: nat, path: Path)
    requires inode < STORE_CAP
    ensures |StatBytes(mode, size, inode)| == 20
    ensures var f := Misread(StatBytes(mode, size, inode), path);
            var (hi, lo) := (size / 0x1_0000_0000, size % 0x1_0000_0000);
            && f.mode == 20 && f.ino == 1
            && f.size == mode + 0x1_0000_0000 * Bits.Or(hi, lo)
            && f.nlink == FromLe(path[..Min(8, |path|)]) % 0x1_0000_0000
            && (f.size == size <==> mode == lo && Bits.Or(hi, lo) == hi)
  {
    hide Bits.Or, FromLe, LeBytes;
    var d, hi, lo := StatBytes(mode, size, inode), size / 0x1_0000_0000, size % 0x1_0000_0000;
    TwoHalves(mode, lo);
    TwoHalves(hi, inode);
    FourBytes(1);
    assert Chunk(d, 0) == LeBytes(mode, 4) + LeBytes(lo, 4);
    assert Chunk(d, 1) == LeBytes(hi, 4) + LeBytes(inode, 4);
    assert Chunk(d, 2) == LeBytes(1, 4);
    assert Chunk(path, 0) == path[..Min(8, |path|)];
    HighHalfOnly(hi, inode);
    OrOfHalves(hi, lo, mode);
    OrIsHalf(hi, lo);
  }

  lemma TwoHalves(lo: U32, hi: U32)
    ensures FromLe(LeBytes(lo, 4) + LeBytes(hi, 4)) == lo + 0x1_0000_0000 * hi
  {
    hide FromLe, LeBytes;
    Bits.Pow2Small();
    assert Bits.Pow2(32) == 0x1_0000_0000;
    FourBytes(lo);
    FourBytes(hi);
    FromLeJoin(LeBytes(lo, 4), LeBytes(hi, 4));
  }

  /** Shifting by 32 bits keeps the low half of the register. */
  lemma HighHalfOnly(lo: U32, hi: U32)
    ensures Wrap((lo + 0x1_0000_0000 * hi) * 0x1_0000_0000) == lo * 0x1_0000_0000
  {}

  lemma OrOfHalves(x: U32, y: U32, low: U32)
    ensures Bits.Or(x * 0x1_0000_0000, low + 0x1_0000_0000 * y) == low + 0x1_0000_0000 * Bits.Or(x, y)
  {
    hide Bits.Or;
    Bits.Pow2Small();
    assert Bits.Pow2(32) == 0x1_0000_0000;
    Bits.OrAboveLowPart(x, y, low, 32);
  }

  lemma OrIsHalf(x: U32, y: U32)
    ensures Bits.Or(x, y) < 0x1_0000_0000
  {
    Bits.Pow2Small();
    assert Bits.Pow2(32) == 0x1_0000_0000;
    Bits.OrStaysBelow(x, y, 32);
  }

  // ---- write, as the server receives it ----

  /** What the server decodes of a payload. The client packs it from register 2 on, over its own
      count in register 3, and up to eight bytes leave register 3 out of the message; then the
      server takes what `was` there before. */
  function Received(payload: seq<Byte>, was: Msg): seq<Byte> {
    ChunkFits(payload[Min(8, |payload|)..Min(16, |payload|)]);
    var count := if |payload| > 8 then FromLe(payload[8..Min(16, |payload|)]) else was[3];
    seq(count, k requires 0 <= k =>
      if k < |payload| then payload[k] else if k < 8 * Mrs(|payload|) then 0 else PackedByte(was, DATA_MR_START, k))
  }

  /** The server gets the payload as it was sent if and only if its bytes 8 to 15, read as a
      word, happen to be its length, or, up to eight bytes, an earlier message left that number. */
  lemma WriteArrivesIff(payload: seq<Byte>, was: Msg)
    ensures Received(payload, was) == payload
            <==> |payload| == if |payload| > 8 then FromLe(payload[8..Min(16, |payload|)]) else was[3]
  {
    hide FromLe, PackedByte;
  }

  lemma ServesWrite(s: Server, m: Msg, below: Below)
    requires m[0] == 3
    ensures Serve(s, m, below) ==
            HandleWrite(s, m[1], below.asText(Unpacked(m, DATA_MR_START, m[3])), below.write)
  {
    hide HandleWrite, Unpacked;
  }

  lemma WriteArrives(before: Msg, sent: Msg, was: Msg, remote: Word, payload: seq<Byte>)
    requires |payload| <= MAX_DATA_IPC && FdRequest(before, 3, remote, 0, |payload|)
    requires Packed(before, sent, payload, DATA_MR_START)
    ensures var m := Copied(sent, was, DATA_MR_START + Mrs(|payload|));
            m[0] == 3 && m[1] == remote && Unpacked(m, DATA_MR_START, m[3]) == Received(payload, was)
  {
    hide FromLe, PackedByte;
    var m := Copied(sent, was, DATA_MR_START + Mrs(|payload|));
    if |payload| > 8 {
      assert m[3] == sent[3] == FromLe(Chunk(payload, 1));
    } else {
      assert m[3] == was[3];
    }
    forall k | 0 <= k < m[3]
      ensures Unpacked(m, DATA_MR_START, m[3])[k] == Received(payload, was)[k]
    {
      ReceivedByte(before, sent, was, payload, k);
    }
  }

  lemma ReceivedByte(before: Msg, sent: Msg, was: Msg, payload: seq<Byte>, k: nat)
    requires Packed(before, sent, payload, DATA_MR_START) && |payload| <= MAX_DATA_IPC
    ensures PackedByte(Copied(sent, was, DATA_MR_START + Mrs(|payload|)), DATA_MR_START, k) ==
            if k < |payload| then payload[k]
            else if k < 8 * Mrs(|payload|) then 0
            else PackedByte(was, DATA_MR_START, k)
  {
    hide FromLe, ByteOf;
    var m := Copied(sent, was, DATA_MR_START + Mrs(|payload|));
    if k < |payload| {
      CopiedAt(sent, was, DATA_MR_START + Mrs(|payload|), DATA_MR_START + k / 8);
      PackedByteAt(before, sent, payload, DATA_MR_START, k);
    } else if k < 8 * Mrs(|payload|) {
      var c := Chunk(payload, k / 8);
      CopiedAt(sent, was, DATA_MR_START + Mrs(|payload|), DATA_MR_START + k / 8);
      assert m[DATA_MR_START + k / 8] == FromLe(c) && |c| <= k % 8;
      HighByteIsZero(c, k % 8);
    }
  }

  lemma HighByteIsZero(c: seq<Byte>, j: nat)
    requires |c| <= j
    ensures ByteOf(FromLe(c), j) == 0
  {
    Pow2Monotone(8 * |c|, 8 * j);
    SmallQuotient(FromLe(c), Bits.Pow2(8 * j));
  }

  lemma SmallQuotient(x: nat, d: nat)
    requires x < d
    ensures x / d == 0
  {}

  lemma ReadAtBounded(s: Server, inode: nat, offset: nat, count: nat)
    ensures |ReadAt(s, inode, offset, count)| <= count
  {}

  class FsClient {
    var fdTable: seq<Option<Word>>
    var nextFd: nat
    const ib: IpcBuffer
    const server: FsService

    ghost predicate Valid() {
      ib.msg.Length == MSG_REGS && server.ib.msg.Length == MSG_REGS && ib.msg != server.ib.msg
    }

    ghost function View(): World
      reads this, server
    {
      World(Client(Live(fdTable), nextFd), server.View())
    }

    constructor (service: FsService)
      requires service.ib.msg.Length == MSG_REGS
      ensures Valid() && server == service && View().client == Client(map[], 3)
    {
      ib := new IpcBuffer();
      server := service;
      fdTable, nextFd := [None, None, None], 3;
    }

    method WriteFdRequest(reqType: Word, arg1: Word, arg2: Word, arg3: Word)
      requires Valid()
      modifies ib.msg
      ensures FdRequest(ib.msg[..], reqType, arg1, arg2, arg3)
    {
      ib.Write(0, reqType);
      ib.Write(1, arg1);
      ib.Write(2, arg2);
      ib.Write(3, arg3);
      ib.Write(4, 0);
    }

    method WritePathRequest(reqType: Word, path: Path, arg3: Word)
      requires Valid() && |path| <= MAX_PATH_IPC
      modifies ib.msg
      ensures PathRequest(ib.msg[..], reqType, path, arg3)
    {
      WriteFdRequest(reqType, 0, |path|, arg3);
      ghost var before: Msg := ib.msg[..];
      var n := ib.EncodeBytes(path, PATH_MR_START);
      PackingKeepsArguments(before, ib.msg[..], path, PATH_MR_START, 0);
      PackingKeepsArguments(before, ib.msg[..], path, PATH_MR_START, 2);
      PackingKeepsArguments(before, ib.msg[..], path, PATH_MR_START, 3);
    }

    /** The kernel carries `total` registers over, the server takes its turn, and the kernel
        carries the reply's registers back. */
    method DoCall(total: nat, below: Below) returns (status: Word, result: Word, ghost resp: Response)
      requires Valid() && 0 < total < 0x80
      modifies server, server.ib.msg, ib.msg
      ensures (server.View(), resp)
              == Serve(old(server.View()), Copied(old(ib.msg[..]), old(server.ib.msg[..]), total), below)
      ensures Replied(ib.msg[..], resp) && status == ib.msg[0] && result == ib.msg[1]
      ensures CameBack(Copied(old(ib.msg[..]), old(server.ib.msg[..]), total), old(ib.msg[..]), ib.msg[..], resp)
    {
      hide Serve, Answers, AnswerMrs, Replied, Copied;
      ghost var received := Copied(ib.msg[..], server.ib.msg[..], total);
      CopyRegisters(ib.msg, server.ib.msg, total);
      assert server.ib.msg[..] == received;
      var mrs;
      mrs, resp := server.Dispatch(below);
      ghost var answer, mine := server.ib.msg[..], ib.msg[..];
      CopyRegisters(server.ib.msg, ib.msg, mrs);
      AnswerArrives(received, answer, mine, resp);
      status := ib.Read(0);
      result := ib.Read(1);
    }

    method Open(path: Path, flags: U32, below: Below) returns (r: Reply)
      requires Valid() && server.nextFd < WORD
      modifies this, server, server.ib.msg, ib.msg
      ensures (View(), r) == Step(old(View()), Op.Open(path, flags, below.lower))
    {
      hide HandleOpen, Live, Unpacked, Copied, CameBack;
      if |path| > MAX_PATH_IPC { return Error(-36); }
      WritePathRequest(1, path, flags);
      PathRequestArrives(ib.msg[..], server.ib.msg[..], 1, path, flags);
      OpenAnswers(server.View(), path, flags, below.lower);
      PathRequestFits(|path|);
      var status, result, resp := DoCall(PATH_MR_START + Mrs(|path|), below);
      assert (server.View(), resp) == HandleOpen(old(View()).server, path, flags, below.lower);
      if status == 0 {
        var localFd := nextFd;
        nextFd := nextFd + 1;
        fdTable := Store(fdTable, localFd, result);
        return Done(localFd);
      }
      I32RoundTrip(resp.errno);
      return Error(AsI32(result));
    }

    /** The server takes the model's step, and the client misreads what it answers. */
    method Stat(path: Path, below: Below) returns (r: Status)
      requires Valid()
      modifies server, server.ib.msg, ib.msg
      ensures View() == Step(old(View()), Op.Stat(path, below.lower, below.mode)).0
      ensures match Step(old(View()), Op.Stat(path, below.lower, below.mode)).1
              case Data(d) => |d| == 20 && r == Misread(d, path)
              case Error(errno) => r == Refused(errno)
              case Done(_) => false
    {
      hide HandleStat, Live, Unpacked, Copied, CameBack, Misread, Chunk;
      if |path| > MAX_PATH_IPC { return Refused(-36); }
      WritePathRequest(5, path, 0);
      PathRequestArrives(ib.msg[..], server.ib.msg[..], 5, path, 0);
      StatAnswers(server.View(), path, below.lower, below.mode);
      PathRequestFits(|path|);
      ghost var sent, received := ib.msg[..], Copied(ib.msg[..], server.ib.msg[..], PATH_MR_START + Mrs(|path|));
      var status, r1, resp := DoCall(PATH_MR_START + Mrs(|path|), below);
      assert (server.View(), resp) == HandleStat(old(View()).server, path, below.lower, below.mode);
      if status == 0 {
        var r2 := ib.Read(2);
        var sizeHi := ib.Read(3);
        var ino := ib.Read(4);
        var nlink := ib.Read(5);
        FirstPathRegister(sent, path);
        StatRegisters(received, sent, ib.msg[..], resp.data);
        OrFits(Wrap(sizeHi as int * 0x1_0000_0000), r2);
        StatMisread(resp.data, path, r1, r2, sizeHi, ino, nlink);
        return Fields(AsU32(r1), Bits.Or(Wrap(sizeHi as int * 0x1_0000_0000), r2), ino, AsU32(nlink));
      }
      I32RoundTrip(resp.errno);
      return Refused(AsI32(r1));
    }

    method Mkdir(path: Path, below: Below) returns (r: Reply)
      requires Valid()
      modifies server, server.ib.msg, ib.msg
      ensures r == if |path| > 920 then Error(-36) else if path == [] then Error(-22) else Done(0)
      ensures View() == if r.Done? then ChangedBy(old(View()), path, below.mkdir) else old(View())
    {
      r := ChangePath(7, path, below);
    }

    method Unlink(path: Path, below: Below) returns (r: Reply)
      requires Valid()
      modifies server, server.ib.msg, ib.msg
      ensures r == if |path| > 920 then Error(-36) else if path == [] then Error(-22) else Done(0)
      ensures View() == if r.Done? then ChangedBy(old(View()), path, below.unlink) else old(View())
    {
      r := ChangePath(8, path, below);
    }

    method ChangePath(reqType: Word, path: Path, below: Below) returns (r: Reply)
      requires Valid() && reqType in {7, 8}
      modifies server, server.ib.msg, ib.msg
      ensures r == if |path| > 920 then Error(-36) else if path == [] then Error(-22) else Done(0)
      ensures View() == if !r.Done? then old(View())
                        else ChangedBy(old(View()), path, if reqType == 7 then below.mkdir else below.unlink)
    {
      hide Live, Unpacked, Copied, CameBack;
      if |path| > MAX_PATH_IPC { return Error(-36); }
      WritePathRequest(reqType, path, 0);
      PathRequestArrives(ib.msg[..], server.ib.msg[..], reqType, path, 0);
      PathRequestFits(|path|);
      var status, result, resp := DoCall(PATH_MR_START + Mrs(|path|), below);
      assert (server.View(), resp) ==
             HandleChange(old(View()).server, path, if reqType == 7 then below.mkdir else below.unlink);
      if status == 0 { return Done(0); }
      I32RoundTrip(resp.errno);
      return Error(AsI32(result));
    }

    /** A write to a live number is lwext4's write of whatever the server decoded, as text, at
        the number's offset. */
    method Write(fd: nat, data: seq<Byte>, below: Below) returns (r: Reply)
      requires Valid()
      modifies server, server.ib.msg, ib.msg
      ensures fd !in old(View()).client.fds || fd in {0, 1, 2} ==>
                View() == old(View()) && r == if fd in {1, 2} then Done(|data|) else Error(-9)
      ensures fd > 2 && fd in old(View()).client.fds && ServerCoherent(old(View()).server)
              && old(View()).client.fds[fd] in old(View()).server.fds ==>
                var s := old(View()).server; var e := s.fds[old(View()).client.fds[fd]];
                var got := below.asText(Received(data[..Asked(|data|)], old(server.ib.msg[..])));
                && e.inode in s.store
                && (var (written, after) := below.write(s.disk, s.store[e.inode].path, e.offset, got);
                    View() == old(View()).(server := s.(disk := after)) && r == Done(written))
    {
      hide HandleWrite, Live, Unpacked, Copied, CameBack, ServerCoherent, Received, Serve, Packed;
      if fd == 0 { return Error(-9); }
      if fd == 1 || fd == 2 { return Done(|data|); }
      var remote := RemoteFd(fd);
      if remote.None? { return Error(-9); }
      var payload := data[..Asked(|data|)];
      WriteFdRequest(3, remote.value, 0, |payload|);
      ghost var before: Msg := ib.msg[..];
      var n := ib.EncodeBytes(payload, DATA_MR_START);
      WriteArrives(before, ib.msg[..], server.ib.msg[..], remote.value, payload);
      ghost var s := server.View();
      ghost var got := below.asText(Received(payload, server.ib.msg[..]));
      if ServerCoherent(s) && remote.value in s.fds {
        WriteGoesToTheOffset(s, remote.value, got, below.write);
        var e := s.fds[remote.value];
        WordWraps(below.write(s.disk, s.store[e.inode].path, e.offset, got).0);
      }
      ServesWrite(s, Copied(ib.msg[..], server.ib.msg[..], DATA_MR_START + Mrs(|payload|)), below);
      var status, result, resp := DoCall(DATA_MR_START + Mrs(|payload|), below);
      assert (server.View(), resp) == HandleWrite(s, remote.value, got, below.write);
      if status == 0 { return Done(result); }
      return Error(AsI32(result));
    }

    method Access(path: Path, mode: U32, below: Below) returns (r: Reply)
      requires Valid()
      modifies server, server.ib.msg, ib.msg
      ensures (View(), r) == Step(old(View()), Op.Access(path, below.lower))
    {
      hide HandleAccess, Live, Unpacked, Copied, CameBack;
      if |path| > MAX_PATH_IPC { return Error(-36); }
      WritePathRequest(9, path, mode);
      PathRequestArrives(ib.msg[..], server.ib.msg[..], 9, path, mode);
      AccessAnswers(server.View(), path, below.lower);
      PathRequestFits(|path|);
      var status, result, resp := DoCall(PATH_MR_START + Mrs(|path|), below);
      assert (server.View(), resp) == HandleAccess(old(View()).server, path, below.lower);
      if status == 0 { return Done(0); }
      I32RoundTrip(resp.errno);
      return Error(AsI32(result));
    }

    /** `fd_table.get(fd)` being `Some(Some(entry))`. */
    method RemoteFd(fd: nat) returns (e: Option<Word>)
      ensures e == if fd in View().client.fds then Some(View().client.fds[fd]) else None
    {
      LiveMeans(fdTable, fd);
      e := if fd < |fdTable| then fdTable[fd] else None;
    }

    /** The first bytes of the buffer are what the server delivered; the rest stays. */
    method Read(fd: nat, buf: array<Byte>, below: Below) returns (r: Reply)
      requires Valid() && buf as object != ib.msg && buf as object != server.ib.msg
      modifies server, server.ib.msg, ib.msg, buf
      ensures View() == Step(old(View()), Op.Read(fd, buf.Length)).0
      ensures match Step(old(View()), Op.Read(fd, buf.Length)).1
              case Data(d) => |d| <= buf.Length && r == Done(|d|) && buf[..] == d + old(buf[..])[|d|..]
              case other => r == other && buf[..] == old(buf[..])
    {
      hide HandleRead, Live, Unpacked, Copied, CameBack;
      if fd == 0 { return Done(0); }
      if fd == 1 || fd == 2 { return Error(-9); }
      var remote := RemoteFd(fd);
      if remote.None? { return Error(-9); }
      WriteFdRequest(2, remote.value, 0, Asked(buf.Length));
      FdRequestArrives(ib.msg[..], server.ib.msg[..], 2, remote.value, 0, Asked(buf.Length));
      ReadAnswers(server.View(), remote.value, Asked(buf.Length));
      var status, result, resp := DoCall(5, below);
      assert (server.View(), resp) == HandleRead(old(View()).server, remote.value, Asked(buf.Length));
      if status == 0 && result > 0 {
        var data := ib.DecodeBytes(DATA_MR_START, result);
        var n := Min(Min(result, buf.Length), |data|);
        CopyBytes(data, n, buf);
        return Done(n);
      } else if status == 0 {
        return Done(0);
      }
      I32RoundTrip(resp.errno);
      return Error(AsI32(result));
    }

    /** Returns what the server packed, but the buffer receives it behind the eight bytes of
        the directory's new offset, cut off at the same length. */
    method Getdents64(fd: nat, buf: array<Byte>, below: Below) returns (r: Reply)
      requires Valid() && buf as object != ib.msg && buf as object != server.ib.msg
      modifies server, server.ib.msg, ib.msg, buf
      ensures View() == Step(old(View()), Op.Getdents(fd, buf.Length)).0
      ensures match Step(old(View()), Op.Getdents(fd, buf.Length)).1
              case Data(d) =>
                && |d| <= buf.Length && r == Done(|d|)
                && fd in old(View()).client.fds && old(View()).client.fds[fd] in View().server.fds
                && buf[..] == Shifted(d, View().server.fds[old(View()).client.fds[fd]].offset) + old(buf[..])[|d|..]
              case other => r == other && buf[..] == old(buf[..])
    {
      hide HandleGetdents, Live, Unpacked, Copied, CameBack;
      var remote := RemoteFd(fd);
      if remote.None? { return Error(-9); }
      WriteFdRequest(6, remote.value, 0, Asked(buf.Length));
      FdRequestArrives(ib.msg[..], server.ib.msg[..], 6, remote.value, 0, Asked(buf.Length));
      ListingAnswers(server.View(), remote.value, Asked(buf.Length));
      var status, result, resp := DoCall(5, below);
      assert (server.View(), resp) == HandleGetdents(old(View()).server, remote.value, Asked(buf.Length));
      if status == 0 && result > 0 {
        var data := ib.DecodeBytes(DATA_MR_START, result);
        var n := Min(Min(result, buf.Length), |data|);
        CopyBytes(data, n, buf);
        return Done(result);
      } else if status == 0 {
        return Done(0);
      }
      I32RoundTrip(resp.errno);
      return Error(AsI32(result));
    }

    method Close(fd: nat, below: Below) returns (r: Reply)
      requires Valid()
      modifies this, server, server.ib.msg, ib.msg
      ensures (View(), r) == Step(old(View()), Op.Close(fd))
    {
      hide HandleClose, Live, Unpacked, Copied, CameBack;
      if fd <= 2 { return Done(0); }
      var remote := RemoteFd(fd);
      if remote.None? { return Error(-9); }
      WriteFdRequest(4, remote.value, 0, 0);
      FdRequestArrives(ib.msg[..], server.ib.msg[..], 4, remote.value, 0, 0);
      CloseAnswers(server.View(), remote.value);
      var status, result, resp := DoCall(5, below);
      assert (server.View(), resp) == HandleClose(old(View()).server, remote.value);
      if status == 0 {
        LiveMeans(fdTable, fd);
        LiveClear(fdTable, fd);
        fdTable := fdTable[fd := None];
        return Done(0);
      }
      I32RoundTrip(resp.errno);
      return Error(AsI32(result));
    }

    method FileSize(fd: nat, below: Below) returns (r: Reply)
      requires Valid()
      modifies server, server.ib.msg, ib.msg
      ensures (View(), r) == Step(old(View()), Op.FileSize(fd))
    {
      hide HandleFileSize, Live, Unpacked, Copied, CameBack;
      var remote := RemoteFd(fd);
      if remote.None? { return Error(-9); }
      WriteFdRequest(10, remote.value, 0, 0);
      FdRequestArrives(ib.msg[..], server.ib.msg[..], 10, remote.value, 0, 0);
      NumberAnswers(server.View(), remote.value, 0, 0);
      var status, result, resp := DoCall(5, below);
      assert (server.View(), resp) == HandleFileSize(old(View()).server, remote.value);
      if status == 0 { return Done(result); }
      I32RoundTrip(resp.errno);
      return Error(AsI32(result));
    }

    method Lseek(fd: nat, offset: I64, whence: I32, below: Below) returns (r: Reply)
      requires Valid()
      modifies server, server.ib.msg, ib.msg
      ensures (View(), r) == Step(old(View()), Op.Lseek(fd, offset, whence))
    {
      hide HandleLseek, Live, Unpacked, Copied, CameBack;
      var remote := RemoteFd(fd);
      if remote.None? { return Error(-9); }
      WriteFdRequest(11, remote.value, Wrap(offset), Wrap(whence));
      FdRequestArrives(ib.msg[..], server.ib.msg[..], 11, remote.value, Wrap(offset), Wrap(whence));
      NumberAnswers(server.View(), remote.value, offset, whence);
      SignedRoundTrip(offset);
      I32RoundTrip(whence);
      var status, result, resp := DoCall(5, below);
      assert (server.View(), resp) == HandleLseek(old(View()).server, remote.value, offset, whence);
      if status == 0 { return Done(result); }
      I32RoundTrip(resp.errno);
      return Error(AsI32(result));
    }
  }

  /** The message transfer of `seL4_Call` and `seL4_Reply`. */
  method CopyRegisters(from: array<Word>, to: array<Word>, total: nat)
    requires from.Length == MSG_REGS && to.Length == MSG_REGS && from != to
    modifies to
    ensures to[..] == Copied(from[..], old(to[..]), total)
  {
    for i := 0 to Min(total % 0x80, MSG_REGS)
      invariant forall k :: 0 <= k < MSG_REGS ==> to[k] == if k < i then from[k] else old(to[k])
    {
      to[i] := from[i];
    }
  }

  method CopyBytes(data: seq<Byte>, n: nat, buf: array<Byte>)
    requires n <= |data| && n <= buf.Length
    modifies buf
    ensures buf[..] == data[..n] + old(buf[..])[n..]
  {
    for i := 0 to n
      invariant forall k :: 0 <= k < buf.Length ==> buf[k] == if k < i then data[k] else old(buf[k])
    {
      buf[i] := data[i];
    }
  }

  // ---- which answers can come ----

  lemma OpenAnswers(s: Server, path: Path, flags: U32, lower: Lower)
    ensures var r := HandleOpen(s, path, flags, lower).1; r.Err? || r == Ok(s.next)
  {
    hide StoreOpen;
    StoreOpenMeans(s, path, flags, lower);
  }

  lemma StatAnswers(s: Server, path: Path, lower: Lower, mode: U32)
    ensures var r := HandleStat(s, path, lower, mode).1; r.Err? || (r.OkWithData? && |r.data| == 20 && path != [])
  {
    hide StoreOpen;
  }

  lemma FirstPathRegister(sent: Msg, path: Path)
    requires PathRequest(sent, 5, path, 0) && path != []
    ensures sent[5] == FromLe(Chunk(path, 0))
  {
    var before: Msg :| Packed(before, sent, path, PATH_MR_START);
  }

  lemma StatMisread(d: seq<Byte>, path: Path, r1: Word, r2: Word, sizeHi: Word, ino: Word, nlink: Word)
    requires |d| == 20 && r1 == 20 && r2 == FromLe(Chunk(d, 0)) && sizeHi == FromLe(Chunk(d, 1))
    requires ino == FromLe(Chunk(d, 2)) && nlink == FromLe(Chunk(path, 0))
    ensures Bits.Or(Wrap(sizeHi as int * 0x1_0000_0000), r2) < WORD
    ensures Misread(d, path) == Fields(AsU32(r1), Bits.Or(Wrap(sizeHi as int * 0x1_0000_0000), r2), ino, AsU32(nlink))
  {
    OrFits(Wrap(sizeHi as int * 0x1_0000_0000), r2);
  }

  /** The world after lwext4 has changed the disk at a path. */
  function ChangedBy(w: World, path: Path, change: Changing): World {
    w.(server := w.server.(disk := change(w.server.disk, path)))
  }

  lemma AccessAnswers(s: Server, path: Path, lower: Lower)
    ensures var r := HandleAccess(s, path, lower).1; r.Err? || r == Ok(0)
  {
    hide StoreOpen;
  }

  lemma ReadAnswers(s: Server, fd: nat, count: nat)
    ensures var r := HandleRead(s, fd, count).1; r.Err? || r == Ok(0) || (r.OkWithData? && |r.data| <= count)
  {
    hide ReadAt;
    if fd in s.fds { ReadAtBounded(s, s.fds[fd].inode, s.fds[fd].offset, count); }
  }

  lemma ListingAnswers(s: Server, fd: nat, count: nat)
    ensures var (s', r) := HandleGetdents(s, fd, count);
            r.Err? || (r.OkWithData2? && |r.data| <= count && fd in s'.fds && r.extra == s'.fds[fd].offset)
  {
    hide Dirents.Records, Dirents.Lengths, Dirents.FitCount;
    if fd in s.fds {
      var e := s.fds[fd];
      if e.inode in s.store && s.store[e.inode].path in s.disk && s.disk[s.store[e.inode].path].Dir? {
        Dirents.PackedFits(s.disk[s.store[e.inode].path].names, e.offset, count);
      }
    }
  }

  lemma CloseAnswers(s: Server, fd: nat)
    ensures var r := HandleClose(s, fd).1; r.Err? || r == Ok(0)
  {}

  lemma NumberAnswers(s: Server, fd: nat, offset: I64, whence: I32)
    ensures var r := HandleFileSize(s, fd).1; r.Err? || (r.Ok? && r.value < WORD)
    ensures var r := HandleLseek(s, fd, offset, whence).1; r.Err? || (r.Ok? && r.value < WORD)
  {}
}

/** The server process: `FsService` with its descriptor table, the store it owns, and the
    dispatch from message registers and back. Every method is proved to take the step that
    FsModel describes. */
module FsService {
  import opened Words
  import opened Ipc
  import opened FsModel
  import Dirents

  // ---- a table of optional entries, as a map ----

  function Live<T>(table: seq<Option<T>>): map<nat, T> {
    map i: nat | i < |table| && table[i].Some? :: table[i].value
  }

  lemma LiveMeans<T>(table: seq<Option<T>>, i: nat)
    ensures i in Live(table) <==> i < |table| && table[i].Some?
    ensures i in Live(table) ==> Live(table)[i] == table[i].value
  {}

  lemma LivePad<T>(table: seq<Option<T>>)
    ensures Live(table + [None]) == Live(table)
  {}

  lemma LiveSet<T>(table: seq<Option<T>>, i: nat, e: T)
    requires i < |table|
    ensures Live(table[i := Some(e)]) == Live(table)[i := e]
  {}

  lemma LiveClear<T>(table: seq<Option<T>>, i: nat)
    requires i < |table|
    ensures Live(table[i := None]) == Live(table) - {i}
  {}

  /** `while table.len() <= fd { push(None) }; table[fd] = Some(e)`. */
  method Store<T>(table: seq<Option<T>>, fd: nat, e: T) returns (t: seq<Option<T>>)
    ensures Live(t) == Live(table)[fd := e]
  {
    hide Live;
    t := table;
    while |t| <= fd
      invariant Live(t) == Live(table)
    {
      LivePad(t);
      t := t + [None];
    }
    LiveSet(t, fd, e);
    t := t[fd := Some(e)];
  }

  // ---- one message in, one message out ----

  type Changing = (Disk, Path) -> Disk

  /** What comes from below: lwext4's outcomes of create and open, a file's mode, its writing,
      and what mkdir and unlink make of the disk; and what the decoding of bytes as UTF-8 text,
      with replacements, makes of the payload of a write. */
  datatype Below = Below(
    lower: Lower, mode: U32, write: Writing, mkdir: Changing, unlink: Changing, asText: seq<Byte> -> seq<Byte>)

  function HandleChange(s: Server, path: Path, change: Changing): (Server, Response) {
    if path == [] then (s, Err(-22)) else (s.(disk := change(s.disk, path)), Ok(0))
  }

  /** Decoding and handling of one request, by its type in register 0. */
  function Serve(s: Server, m: Msg, below: Below): (Server, Response) {
    var path := Unpacked(m, PATH_MR_START, m[2]);
    if m[0] == 1 then HandleOpen(s, path, AsU32(m[3]), below.lower)
    else if m[0] == 5 then HandleStat(s, path, below.lower, below.mode)
    else if m[0] == 7 then HandleChange(s, path, below.mkdir)
    else if m[0] == 8 then HandleChange(s, path, below.unlink)
    else if m[0] == 9 then HandleAccess(s, path, below.lower)
    else if m[0] == 3 then
      HandleWrite(s, m[1], below.asText(Unpacked(m, DATA_MR_START, m[3])), below.write)
    else if m[0] == 2 then HandleRead(s, m[1], m[3])
    else if m[0] == 4 then HandleClose(s, m[1])
    else if m[0] == 6 then HandleGetdents(s, m[1], m[3])
    else if m[0] == 10 then HandleFileSize(s, m[1])
    else if m[0] == 11 then HandleLseek(s, m[1], Signed(m[2]), AsI32(m[3]))
    else (s, Err(38))
  }

  /** Only the types 1 to 11 are known. */
  lemma UnknownTypesAreRefused(s: Server, m: Msg, below: Below)
    requires m[0] == 0 || m[0] > 11
    ensures Serve(s, m, below) == (s, Err(38))
  {}

  /** The registers that carry a response, written over whatever was there. */
  ghost predicate Answers(m: Msg, m': Msg, r: Response) {
    match r
    case Ok(v) => m' == m[0 := 0][1 := Wrap(v)]
    case Err(e) => m' == m[0 := 1][1 := Wrap(e)]
    case OkWithData(d) => Packed(m[0 := 0][1 := Wrap(|d|)], m', d, 2)
    case OkWithData2(d, x) => Packed(m[0 := 0][1 := Wrap(|d|)][2 := Wrap(x)], m', d, 3)
  }

  function AnswerMrs(r: Response): nat {
    match r
    case Ok(_) => 2
    case Err(_) => 2
    case OkWithData(d) => 2 + Mrs(|d|)
    case OkWithData2(d, _) => 3 + Mrs(|d|)
  }

  class FsService {
    var fdTable: seq<Option<Entry>>
    var nextFd: nat
    var stores: map<nat, OpenFile>
    var disk: Disk
    const ib: IpcBuffer

    ghost function View(): Server
      reads this
    {
      Server(Live(fdTable), nextFd, stores, disk)
    }

    constructor (image: Disk)
      ensures View() == Fresh(image).server && fresh(ib) && fresh(ib.msg) && ib.msg.Length == MSG_REGS
    {
      ib := new IpcBuffer();
      fdTable, nextFd, stores, disk := [None, None, None], 3, map[], image;
    }

    /** `EXT4FSImpl::open`: an index and a size, or an error number. */
    method OpenInStore(path: Path, flags: U32, lower: Lower) returns (r: Option<(nat, Word)>, errno: I32)
      modifies this
      ensures (View(), r, errno) == StoreOpen(old(View()), path, flags, lower)
      ensures fdTable == old(fdTable) && nextFd == old(nextFd)
    {
      var o := Lookup(disk, path, flags, lower);
      disk := o.disk;
      if o.Failed? { return None, o.errno; }
      var slot := LowestFree(stores, 0);
      if slot.None? { return None, -1; }
      stores := stores[slot.value := o.file];
      return Some((slot.value, o.size)), 0;
    }

    method CloseInStore(inode: nat)
      modifies this
      ensures View() == StoreClose(old(View()), inode) && fdTable == old(fdTable)
    {
      stores := stores - {inode};
    }

    method OpenPath(path: Path, flags: U32, lower: Lower) returns (r: Response)
      modifies this
      ensures (View(), r) == HandleOpen(old(View()), path, flags, lower)
    {
      hide StoreOpen, Live;
      if path == [] { return Err(-22); }
      var found, errno := OpenInStore(path, flags, lower);
      if found.None? { return Err(errno); }
      var fd := nextFd;
      nextFd := nextFd + 1;
      fdTable := Store(fdTable, fd, Entry(found.value.0, found.value.1, 0));
      return Ok(fd);
    }

    method AccessPath(path: Path, lower: Lower) returns (r: Response)
      modifies this
      ensures (View(), r) == HandleAccess(old(View()), path, lower)
    {
      hide StoreOpen, Live;
      if path == [] { return Err(-22); }
      var found, errno := OpenInStore(path, 0, lower);
      if found.None? { return Err(-2); }
      CloseInStore(found.value.0);
      return Ok(0);
    }

    method StatPath(path: Path, lower: Lower, mode: U32) returns (r: Response)
      modifies this
      ensures (View(), r) == HandleStat(old(View()), path, lower, mode)
    {
      hide StoreOpen, Live;
      if path == [] { return Err(-22); }
      var found, errno := OpenInStore(path, 0, lower);
      if found.None? { return Err(errno); }
      CloseInStore(found.value.0);
      return OkWithData(StatBytes(mode, found.value.1, found.value.0));
    }

    method ChangePath(path: Path, change: Changing) returns (r: Response)
      modifies this
      ensures (View(), r) == HandleChange(old(View()), path, change)
    {
      if path == [] { return Err(-22); }
      disk := change(disk, path);
      return Ok(0);
    }

    method SetOffset(fd: nat, offset: nat)
      requires fd in View().fds
      modifies this
      ensures View() == old(View()).(fds := old(View()).fds[fd := old(View()).fds[fd].(offset := offset)])
    {
      LiveMeans(fdTable, fd);
      var e := fdTable[fd].value.(offset := offset);
      LiveSet(fdTable, fd, e);
      fdTable := fdTable[fd := Some(e)];
    }

    /** `fd_table.get(fd)` being `Some(Some(entry))`. */
    method LiveEntry(fd: nat) returns (e: Option<Entry>)
      ensures e == if fd in View().fds then Some(View().fds[fd]) else None
    {
      LiveMeans(fdTable, fd);
      e := if fd < |fdTable| then fdTable[fd] else None;
    }

    method Read(fd: nat, count: nat) returns (r: Response)
      modifies this
      ensures (View(), r) == HandleRead(old(View()), fd, count)
    {
      hide Live, ReadAt;
      if fd == 0 { return Ok(0); }
      if fd == 1 || fd == 2 { return Err(-9); }
      var entry := LiveEntry(fd);
      if entry.None? { return Err(-9); }
      var data := ReadAt(Server(map[], 0, stores, disk), entry.value.inode, entry.value.offset, count);
      SameBytes(Server(map[], 0, stores, disk), View(), entry.value.inode, entry.value.offset, count);
      SetOffset(fd, entry.value.offset + |data|);
      return OkWithData(data);
    }

    method Write(fd: nat, data: seq<Byte>, write: Writing) returns (r: Response)
      modifies this
      ensures (View(), r) == HandleWrite(old(View()), fd, data, write)
    {
      hide Live;
      if fd == 0 { return Err(-9); }
      if fd == 1 || fd == 2 { return Ok(|data|); }
      var entry := LiveEntry(fd);
      if entry.None? { return Err(-9); }
      if entry.value.inode !in stores { return Ok(0); }
      var (written, after) := write(disk, stores[entry.value.inode].path, entry.value.offset, data);
      disk := after;
      return Ok(written);
    }

    method Close(fd: nat) returns (r: Response)
      modifies this
      ensures (View(), r) == HandleClose(old(View()), fd)
    {
      hide Live;
      if fd <= 2 { return Ok(0); }
      var entry := LiveEntry(fd);
      if entry.None? { return Err(-9); }
      LiveMeans(fdTable, fd);
      LiveClear(fdTable, fd);
      CloseInStore(entry.value.inode);
      fdTable := fdTable[fd := None];
      return Ok(0);
    }

    method ReadDirectory(fd: nat, count: nat) returns (r: Response)
      modifies this
      ensures (View(), r) == HandleGetdents(old(View()), fd, count)
    {
      hide Live, Dirents.Lengths, Dirents.Records, Dirents.FitCount, Dirents.PackedInto;
      var entry := LiveEntry(fd);
      if entry.None? { return Err(-9); }
      var inode, offset := entry.value.inode, entry.value.offset;
      if inode in stores && stores[inode].path in disk && disk[stores[inode].path].Dir? {
        var names := disk[stores[inode].path].names;
        var buf := new Byte[count](_ => 0);
        assert buf[..] == Zeros(count);
        var bytesRead, newOffset := Dirents.Getdents64(names, offset, buf);
        if offset <= |names| { Dirents.PackedIntoZeros(count, names, offset, newOffset - offset); }
        SetOffset(fd, newOffset);
        return OkWithData2(buf[..bytesRead], newOffset);
      }
      ghost var fds := View().fds;
      assert fds[fd := fds[fd].(offset := offset)] == fds;
      SetOffset(fd, offset);
      return OkWithData2([], offset);
    }

    method FileSize(fd: nat) returns (r: Response)
      ensures (View(), r) == HandleFileSize(View(), fd)
    {
      hide Live;
      var entry := LiveEntry(fd);
      if entry.None? { return Err(-9); }
      return Ok(entry.value.size);
    }

    method Lseek(fd: nat, offset: I64, whence: I32) returns (r: Response)
      modifies this
      ensures (View(), r) == HandleLseek(old(View()), fd, offset, whence)
    {
      hide Live;
      if fd <= 2 { return Err(-29); }
      var entry := LiveEntry(fd);
      if entry.None? { return Err(-9); }
      var target: nat := 0;
      if whence == 0 {
        if offset < 0 { return Err(-22); }
        target := offset;
      } else if whence == 1 {
        target := Wrap(entry.value.offset + offset);
      } else if whence == 2 {
        if offset > 0 { return Err(-22); }
        target := Wrap(entry.value.size + offset);
      } else {
        return Err(-22);
      }
      SetOffset(fd, target);
      return Ok(target);
    }

    /** `write_response` and `write_response_maybe_data`, which write the same registers. */
    method WriteResponse(r: Response) returns (mrs: nat)
      requires ib.msg.Length == MSG_REGS
      modifies ib.msg
      ensures Answers(old(ib.msg[..]), ib.msg[..], r) && mrs == AnswerMrs(r)
    {
      match r {
        case Ok(v) => ib.Write(0, 0); ib.Write(1, Wrap(v)); mrs := 2;
        case Err(e) => ib.Write(0, 1); ib.Write(1, Wrap(e)); mrs := 2;
        case OkWithData(d) =>
          ib.Write(0, 0);
          ib.Write(1, Wrap(|d|));
          var n := ib.EncodeBytes(d, DATA_MR_START);
          mrs := DATA_MR_START + n;
        case OkWithData2(d, extra) =>
          ib.Write(0, 0);
          ib.Write(1, Wrap(|d|));
          ib.Write(2, Wrap(extra));
          var n := ib.EncodeBytes(d, 3);
          mrs := 3 + n;
      }
    }

    method HandlePath(reqType: Word, path: Path, flags: U32, below: Below) returns (r: Response)
      requires reqType in [1, 5, 7, 8, 9]
      modifies this
      ensures (View(), r) == (if reqType == 1 then HandleOpen(old(View()), path, flags, below.lower)
                              else if reqType == 5 then HandleStat(old(View()), path, below.lower, below.mode)
                              else if reqType == 9 then HandleAccess(old(View()), path, below.lower)
                              else HandleChange(old(View()), path, if reqType == 7 then below.mkdir else below.unlink))
    {
      hide HandleOpen, HandleStat, HandleAccess, HandleChange, Live;
      match reqType {
        case 1 => r := OpenPath(path, flags, below.lower);
        case 5 => r := StatPath(path, below.lower, below.mode);
        case 9 => r := AccessPath(path, below.lower);
        case 7 => r := ChangePath(path, below.mkdir);
        case _ => r := ChangePath(path, below.unlink);
      }
    }

    method HandleFd(reqType: Word, arg1: Word, arg2: Word, arg3: Word) returns (r: Response)
      requires reqType in [2, 4, 6, 10, 11]
      modifies this
      ensures (View(), r) == (if reqType == 2 then HandleRead(old(View()), arg1, arg3)
                              else if reqType == 4 then HandleClose(old(View()), arg1)
                              else if reqType == 6 then HandleGetdents(old(View()), arg1, arg3)
                              else if reqType == 10 then HandleFileSize(old(View()), arg1)
                              else HandleLseek(old(View()), arg1, Signed(arg2), AsI32(arg3)))
    {
      hide HandleRead, HandleClose, HandleGetdents, HandleFileSize, HandleLseek, Live;
      match reqType {
        case 2 => r := Read(arg1, arg3);
        case 4 => r := Close(arg1);
        case 6 => r := ReadDirectory(arg1, arg3);
        case 10 => r := FileSize(arg1);
        case _ => r := Lseek(arg1, Signed(arg2), AsI32(arg3));
      }
    }

    /** One turn of the service loop, from the received registers to the reply's. */
    method Dispatch(below: Below) returns (mrs: nat, ghost resp: Response)
      requires ib.msg.Length == MSG_REGS
      modifies this, ib.msg
      ensures (View(), resp) == Serve(old(View()), old(ib.msg[..]), below)
      ensures Answers(old(ib.msg[..]), ib.msg[..], resp) && mrs == AnswerMrs(resp)
    {
      hide HandleOpen, HandleStat, HandleAccess, HandleChange, Live;
      hide HandleRead, HandleWrite, HandleClose, HandleGetdents, HandleFileSize, HandleLseek;
      hide Answers, AnswerMrs, Unpacked;
      var reqType := ib.Read(0);
      var arg1 := ib.Read(1);
      var arg2 := ib.Read(2);
      var arg3 := ib.Read(3);
      var r;
      if reqType in [1, 5, 7, 8, 9] {
        var path := ib.DecodeBytes(PATH_MR_START, arg2);
        r := HandlePath(reqType, path, AsU32(arg3), below);
      } else if reqType == 3 {
        var payload := ib.DecodeBytes(DATA_MR_START, arg3);
        r := Write(arg1, below.asText(payload), below.write);
      } else if reqType in [2, 4, 6, 10, 11] {
        r := HandleFd(reqType, arg1, arg2, arg3);
      } else {
        r := Err(38);
      }
      resp := r;
      mrs := WriteResponse(r);
    }
  }

  lemma SameBytes(s: Server, t: Server, inode: nat, offset: nat, count: nat)
    requires s.store == t.store && s.disk == t.disk
    ensures ReadAt(s, inode, offset, count) == ReadAt(t, inode, offset, count)
  {}
}

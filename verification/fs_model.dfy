/** The filesystem service, its open-file store and one client, as a state machine on
    maps. The classes in FsService and FsClient are proved to take exactly these steps. */
module FsModel {
  import opened Words
  import Bits
  import Dirents
  import opened Ipc
  import opened LittleEndian

  type Path = seq<Byte>

  /** Directories report a size of their own when opened; files have bytes. */
  datatype Node = Dir(names: seq<Dirents.Name>, reported: Word) | File(bytes: seq<Byte>)
  type Disk = map<Path, Node>

  datatype OpenFile = OpenFile(path: Path, isDir: bool)
  datatype Entry = Entry(inode: nat, size: Word, offset: nat)

  datatype Server = Server(fds: map<nat, Entry>, next: nat, store: map<nat, OpenFile>, disk: Disk)
  datatype Client = Client(fds: map<nat, nat>, next: nat)
  datatype World = World(client: Client, server: Server)

  datatype Response =
    | Ok(value: nat)
    | OkWithData(data: seq<Byte>)
    | OkWithData2(data: seq<Byte>, extra: nat)
    | Err(errno: I32)

  const STORE_CAP := 500
  const O_CREAT := 6       // bit of 0o100
  const O_TRUNC := 9       // bit of 0o1000
  const O_DIRECTORY := 14  // bit of 0o40000

  // ---- the open-file store ----

  /** The lowest free index of the 500-slot table. */
  function LowestFree(store: map<nat, OpenFile>, from: nat): (r: Option<nat>)
    requires from <= STORE_CAP
    ensures r.Some? ==>
              && from <= r.value < STORE_CAP && r.value !in store
              && forall i :: from <= i < r.value ==> i in store
    ensures r.None? ==> forall i :: from <= i < STORE_CAP ==> i in store
    decreases STORE_CAP - from
  {
    if from == STORE_CAP then None else if from !in store then Some(from) else LowestFree(store, from + 1)
  }

  /** What lwext4 itself does when a file is created or opened: its errors, where in the
      directory it puts a new entry and what size that then reports. */
  datatype Lower = Lower(createErrno: Option<I32>, openErrno: Option<I32>, entryAt: nat, dirSize: Word)

  const SLASH: Byte := 0x2f

  /** The last slash among the first n bytes. */
  function SlashBefore(path: Path, n: nat): (i: int)
    requires n <= |path|
    ensures -1 <= i < n && (i >= 0 ==> path[i] == SLASH) && forall k :: i < k < n ==> path[k] != SLASH
  {
    if n == 0 then -1 else if path[n - 1] == SLASH then n - 1 else SlashBefore(path, n - 1)
  }

  /** The directory a path lies in, by its spelling. */
  function ParentOf(path: Path): (p: Option<Path>)
    ensures p.Some? ==> |p.value| < |path|
  {
    var i := SlashBefore(path, |path|);
    if i < 0 || i == |path| - 1 then None else if i == 0 then Some([SLASH]) else Some(path[..i])
  }

  function NameOf(path: Path): Dirents.Name {
    path[SlashBefore(path, |path|) + 1..]
  }

  /** Put together again with a slash, directory and name are the path; the name is the part
      behind the last slash. */
  lemma DirectoryAndName(path: Path)
    ensures var (dir, name) := (ParentOf(path), NameOf(path));
            && SLASH !in name
            && (dir.Some? ==>
                  name != [] && (path == dir.value + [SLASH] + name || path == [SLASH] + name == dir.value + name))
            && (dir.None? ==> SLASH !in path || path[|path| - 1] == SLASH)
  {
    var i := SlashBefore(path, |path|);
    if i >= 0 { assert path == path[..i] + [path[i]] + path[i + 1..]; }
  }

  /** The disk after creating a file: the path is an empty file, and if it is new its
      directory has one more entry. */
  function Created(disk: Disk, path: Path, lower: Lower): Disk {
    var emptied := disk[path := File([])];
    var dir := ParentOf(path);
    if path !in disk && dir.Some? && dir.value in disk && disk[dir.value].Dir? then
      emptied[dir.value := Dir(Dirents.Inserted(disk[dir.value].names, lower.entryAt, NameOf(path)), lower.dirSize)]
    else emptied
  }

  datatype Opened = Opened(file: OpenFile, size: Word, disk: Disk) | Failed(errno: I32, disk: Disk)

  /** The lookup part of `EXT4FSImpl::open`. */
  function Lookup(disk: Disk, path: Path, flags: U32, lower: Lower): Opened {
    if Bits.Bit(flags, O_CREAT) then
      if Bits.Bit(flags, O_DIRECTORY) then Failed(-1, disk)
      else if lower.createErrno.Some? then Failed(lower.createErrno.value, disk)
      else Opened(OpenFile(path, false), 0, Created(disk, path, lower))
    else if path in disk && disk[path].Dir? then Opened(OpenFile(path, true), disk[path].reported, disk)
    else if path in disk && disk[path].File? then
      if lower.openErrno.Some? then Failed(lower.openErrno.value, disk)
      else if Bits.Bit(flags, O_TRUNC) then Opened(OpenFile(path, false), 0, disk[path := File([])])
      else Opened(OpenFile(path, false), Wrap(|disk[path].bytes|), disk)
    else Failed(-2, disk)
  }

  /** `open` of the store: (index, size) or an error. */
  function StoreOpen(s: Server, path: Path, flags: U32, lower: Lower): (Server, Option<(nat, Word)>, I32) {
    match Lookup(s.disk, path, flags, lower)
    case Failed(errno, disk) => (s.(disk := disk), None, errno)
    case Opened(file, size, disk) =>
      match LowestFree(s.store, 0)
      case None => (s.(disk := disk), None, -1)
      case Some(i) => (s.(disk := disk, store := s.store[i := file]), Some((i, size)), 0)
  }

  function StoreClose(s: Server, inode: nat): Server {
    s.(store := s.store - {inode})
  }

  /** The bytes of an open file from `offset` on, at most `count` of them. */
  function ReadAt(s: Server, inode: nat, offset: nat, count: nat): seq<Byte> {
    if inode in s.store && s.store[inode].path in s.disk && s.disk[s.store[inode].path].File? then
      var bytes := s.disk[s.store[inode].path].bytes;
      var lo := if offset < |bytes| then offset else |bytes|;
      var hi := if lo + count < |bytes| then lo + count else |bytes|;
      bytes[lo..hi]
    else []
  }

  // ---- the server's handlers ----

  function HandleOpen(s: Server, path: Path, flags: U32, lower: Lower): (Server, Response) {
    if path == [] then (s, Err(-22))
    else
      var (s1, r, errno) := StoreOpen(s, path, flags, lower);
      if r.Some? then
        (s1.(fds := s1.fds[s1.next := Entry(r.value.0, r.value.1, 0)], next := s1.next + 1), Ok(s1.next))
      else (s1, Err(errno))
  }

  function HandleAccess(s: Server, path: Path, lower: Lower): (Server, Response) {
    if path == [] then (s, Err(-22))
    else
      var (s1, r, errno) := StoreOpen(s, path, 0, lower);
      if r.Some? then (StoreClose(s1, r.value.0), Ok(0)) else (s1, Err(-2))
  }

  /** The five packed fields of a stat reply: mode, the two halves of the size, the slot, one link. */
  function StatBytes(mode: U32, size: Word, inode: nat): seq<Byte> {
    LeBytes(mode, 4) + LeBytes(size % 0x1_0000_0000, 4) + LeBytes(size / 0x1_0000_0000, 4)
    + LeBytes(inode % 0x1_0000_0000, 4) + LeBytes(1, 4)
  }

  /** The mode comes from lwext4. */
  function HandleStat(s: Server, path: Path, lower: Lower, mode: U32): (Server, Response) {
    if path == [] then (s, Err(-22))
    else
      var (s1, r, errno) := StoreOpen(s, path, 0, lower);
      if r.Some? then (StoreClose(s1, r.value.0), OkWithData(StatBytes(mode, r.value.1, r.value.0)))
      else (s1, Err(errno))
  }

  /** What lwext4 makes of writing bytes to a file at an offset: how many it wrote, and the
      disk afterwards. */
  type Writing = (Disk, Path, nat, seq<Byte>) -> (Word, Disk)

  function HandleWrite(s: Server, fd: nat, data: seq<Byte>, write: Writing): (Server, Response) {
    if fd == 0 then (s, Err(-9))
    else if fd == 1 || fd == 2 then (s, Ok(|data|))
    else if fd in s.fds then
      var e := s.fds[fd];
      if e.inode in s.store then
        var (written, after) := write(s.disk, s.store[e.inode].path, e.offset, data);
        (s.(disk := after), Ok(written))
      else (s, Ok(0))
    else (s, Err(-9))
  }

  function HandleRead(s: Server, fd: nat, count: nat): (Server, Response) {
    if fd == 0 then (s, Ok(0))
    else if fd == 1 || fd == 2 then (s, Err(-9))
    else if fd in s.fds then
      var e := s.fds[fd];
      var data := ReadAt(s, e.inode, e.offset, count);
      (s.(fds := s.fds[fd := e.(offset := e.offset + |data|)]), OkWithData(data))
    else (s, Err(-9))
  }

  function HandleClose(s: Server, fd: nat): (Server, Response) {
    if fd <= 2 then (s, Ok(0))
    else if fd in s.fds then (StoreClose(s, s.fds[fd].inode).(fds := s.fds - {fd}), Ok(0))
    else (s, Err(-9))
  }

  function HandleGetdents(s: Server, fd: nat, count: nat): (Server, Response) {
    if fd in s.fds then
      var e := s.fds[fd];
      if e.inode in s.store && s.store[e.inode].path in s.disk && s.disk[s.store[e.inode].path].Dir? then
        var names := s.disk[s.store[e.inode].path].names;
        var n := Dirents.FitCount(Dirents.Lengths(names), e.offset, count);
        Dirents.FitCountInRange(Dirents.Lengths(names), e.offset, count);
        (s.(fds := s.fds[fd := e.(offset := e.offset + n)]),
         OkWithData2(if e.offset <= |names| then Dirents.Records(names, e.offset, n) else [], e.offset + n))
      else (s, OkWithData2([], e.offset))
    else (s, Err(-9))
  }

  function HandleFileSize(s: Server, fd: nat): (Server, Response) {
    if fd in s.fds then (s, Ok(s.fds[fd].size)) else (s, Err(-9))
  }

  function HandleLseek(s: Server, fd: nat, offset: I64, whence: I32): (Server, Response) {
    if fd <= 2 then (s, Err(-29))
    else if fd in s.fds then
      var e := s.fds[fd];
      if whence == 0 && offset >= 0 then (s.(fds := s.fds[fd := e.(offset := offset)]), Ok(offset))
      else if whence == 1 then
        (s.(fds := s.fds[fd := e.(offset := Wrap(e.offset + offset))]), Ok(Wrap(e.offset + offset)))
      else if whence == 2 && offset <= 0 then
        (s.(fds := s.fds[fd := e.(offset := Wrap(e.size + offset))]), Ok(Wrap(e.size + offset)))
      else (s, Err(-22))
    else (s, Err(-9))
  }

  // ---- one client call ----

  datatype Op =
    | Open(path: Path, flags: U32, lower: Lower)
    | Close(fd: nat)
    | Read(fd: nat, len: nat)
    | Access(path: Path, accessLower: Lower)
    | Stat(path: Path, statLower: Lower, mode: U32)
    | Getdents(fd: nat, len: nat)
    | FileSize(fd: nat)
    | Lseek(fd: nat, offset: I64, whence: I32)
    | DiskChange(disk: Disk)   // a write, mkdir or unlink: no table entry changes

  datatype Reply = Done(value: nat) | Data(bytes: seq<Byte>) | Error(errno: I32)

  function ToReply(r: Response): Reply {
    match r
    case Ok(v) => Done(v)
    case OkWithData(d) => Data(d)
    case OkWithData2(d, _) => Data(d)
    case Err(e) => Error(e)
  }

  function Asked(len: nat): nat {
    Min(len, MAX_DATA_IPC)
  }

  function Step(w: World, op: Op): (World, Reply) {
    match op
    case Open(path, flags, lower) =>
      if |path| > MAX_PATH_IPC then (w, Error(-36))
      else
        var (s, r) := HandleOpen(w.server, path, flags, lower);
        if r.Ok? then
          (World(w.client.(fds := w.client.fds[w.client.next := r.value], next := w.client.next + 1), s),
           Done(w.client.next))
        else (w.(server := s), ToReply(r))
    case Close(fd) =>
      if fd <= 2 then (w, Done(0))
      else if fd in w.client.fds then
        var (s, r) := HandleClose(w.server, w.client.fds[fd]);
        if r.Ok? then (World(w.client.(fds := w.client.fds - {fd}), s), Done(0))
        else (w.(server := s), ToReply(r))
      else (w, Error(-9))
    case Read(fd, len) =>
      if fd == 0 then (w, Done(0))
      else if fd == 1 || fd == 2 then (w, Error(-9))
      else if fd in w.client.fds then
        var (s, r) := HandleRead(w.server, w.client.fds[fd], Asked(len));
        (w.(server := s), ToReply(r))
      else (w, Error(-9))
    case Access(path, lower) =>
      if |path| > MAX_PATH_IPC then (w, Error(-36))
      else var (s, r) := HandleAccess(w.server, path, lower); (w.(server := s), ToReply(r))
    case Stat(path, lower, mode) =>
      if |path| > MAX_PATH_IPC then (w, Error(-36))
      else var (s, r) := HandleStat(w.server, path, lower, mode); (w.(server := s), ToReply(r))
    case Getdents(fd, len) =>
      if fd in w.client.fds then
        var (s, r) := HandleGetdents(w.server, w.client.fds[fd], Asked(len)); (w.(server := s), ToReply(r))
      else (w, Error(-9))
    case FileSize(fd) =>
      if fd in w.client.fds then
        var (s, r) := HandleFileSize(w.server, w.client.fds[fd]); (w.(server := s), ToReply(r))
      else (w, Error(-9))
    case Lseek(fd, offset, whence) =>
      if fd in w.client.fds then
        var (s, r) := HandleLseek(w.server, w.client.fds[fd], offset, whence); (w.(server := s), ToReply(r))
      else (w, Error(-9))
    case DiskChange(disk) => (w.(server := w.server.(disk := disk)), Done(0))
  }

  // ---- coherence ----

  ghost predicate Injective<K, V>(m: map<K, V>) {
    forall a, b :: a in m && b in m && m[a] == m[b] ==> a == b
  }

  function Inodes(fds: map<nat, Entry>): set<nat> {
    set r | r in fds :: fds[r].inode
  }

  ghost predicate DistinctInodes(fds: map<nat, Entry>) {
    forall a, b :: a in fds && b in fds && fds[a].inode == fds[b].inode ==> a == b
  }

  /** Live server fds stand one to one for the occupied store slots. */
  ghost predicate ServerCoherent(s: Server) {
    && (forall r :: r in s.fds ==> 3 <= r < s.next)
    && DistinctInodes(s.fds)
    && Inodes(s.fds) == s.store.Keys
    && (forall i :: i in s.store ==> i < STORE_CAP)
    && s.next >= 3
  }

  /** Live local fds stand one to one for the live server fds. */
  ghost predicate Coherent(w: World) {
    && ServerCoherent(w.server)
    && (forall l :: l in w.client.fds ==> 3 <= l < w.client.next)
    && Injective(w.client.fds)
    && w.client.fds.Values == w.server.fds.Keys
    && w.client.next >= 3
  }

  function Fresh(disk: Disk): World {
    World(Client(map[], 3), Server(map[], 3, map[], disk))
  }

  /** Opening takes one free slot and leaves every other one alone; failing takes none. */
  lemma StoreOpenMeans(s: Server, path: Path, flags: U32, lower: Lower)
    ensures var (s1, r, errno) := StoreOpen(s, path, flags, lower);
            && s1 == s.(disk := s1.disk, store := s1.store)
            && (r.None? ==> s1.store == s.store)
            && (r.Some? ==> r.value.0 !in s.store && r.value.0 < STORE_CAP
                            && s1.store.Keys == s.store.Keys + {r.value.0}
                            && s1.store - {r.value.0} == s.store)
  {}

  lemma InodesAdd(fds: map<nat, Entry>, k: nat, e: Entry)
    requires k !in fds || fds[k].inode == e.inode
    ensures Inodes(fds[k := e]) == Inodes(fds) + {e.inode}
  {
    var fds' := fds[k := e];
    forall x
      ensures x in Inodes(fds') <==> x in Inodes(fds) || x == e.inode
    {
      if x in Inodes(fds) {
        var q :| q in fds && fds[q].inode == x;
        assert fds'[q].inode == x;
      }
      if x == e.inode { assert fds'[k].inode == x; }
    }
  }

  lemma InodesRemove(fds: map<nat, Entry>, k: nat)
    requires k in fds && DistinctInodes(fds)
    ensures Inodes(fds - {k}) == Inodes(fds) - {fds[k].inode}
  {
    var fds' := fds - {k};
    forall x
      ensures x in Inodes(fds') <==> x in Inodes(fds) && x != fds[k].inode
    {
      if x in Inodes(fds) && x != fds[k].inode {
        var q :| q in fds && fds[q].inode == x;
        assert fds'[q].inode == x;
      }
    }
  }

  lemma HandleOpenMeans(s: Server, path: Path, flags: U32, lower: Lower)
    ensures var (s1, r) := HandleOpen(s, path, flags, lower);
            && (r.Ok? || r.Err?)
            && (r.Err? ==> s1 == s.(disk := s1.disk))
            && (r.Ok? ==>
                  && r.value == s.next && s1.next == s.next + 1 && s.next in s1.fds
                  && s1.fds == s.fds[s.next := s1.fds[s.next]] && s1.fds[s.next].offset == 0
                  && s1.fds[s.next].inode !in s.store && s1.fds[s.next].inode < STORE_CAP
                  && s1.store.Keys == s.store.Keys + {s1.fds[s.next].inode})
  {
    hide StoreOpen;
    StoreOpenMeans(s, path, flags, lower);
    if path != [] {
      var (s1, r, errno) := StoreOpen(s, path, flags, lower);
      if r.None? { assert s1.store == s.store && s1 == s.(disk := s1.disk); }
    }
  }

  lemma OpenKeepsServerCoherent(s: Server, path: Path, flags: U32, lower: Lower)
    requires ServerCoherent(s)
    ensures var (s1, r) := HandleOpen(s, path, flags, lower);
            && ServerCoherent(s1)
            && (r.Ok? ==> r.value == s.next && s1.next == s.next + 1 && s1.fds.Keys == s.fds.Keys + {s.next}
                          && |s1.store| == |s.store| + 1)
            && (!r.Ok? ==> r.Err? && s1 == s.(disk := s1.disk))
  {
    hide HandleOpen, ServerCoherent;
    HandleOpenMeans(s, path, flags, lower);
    var (s1, r) := HandleOpen(s, path, flags, lower);
    if r.Ok? {
      AddedEntry(s, s1, s1.fds[s.next]);
      OneMore(s.store.Keys, s1.store.Keys, s1.fds[s.next].inode);
    } else {
      DiskDoesNotMatter(s, s1.disk);
    }
  }

  lemma AddedEntry(s: Server, s1: Server, e: Entry)
    requires ServerCoherent(s) && e.inode !in s.store && e.inode < STORE_CAP
    requires s1.fds == s.fds[s.next := e] && s1.next == s.next + 1 && s1.store.Keys == s.store.Keys + {e.inode}
    ensures ServerCoherent(s1)
  {
    hide Inodes, DistinctInodes;
    assert s.next !in s.fds;
    InodesAdd(s.fds, s.next, e);
    DistinctAdd(s.fds, s.next, e);
  }

  lemma OneMore(before: set<nat>, after: set<nat>, x: nat)
    requires x !in before && after == before + {x}
    ensures |after| == |before| + 1
  {}

  lemma DistinctAdd(fds: map<nat, Entry>, k: nat, e: Entry)
    requires DistinctInodes(fds) && k !in fds && e.inode !in Inodes(fds)
    ensures DistinctInodes(fds[k := e])
  {
    forall q | q in fds
      ensures fds[q].inode != e.inode
    {
      assert fds[q].inode in Inodes(fds);
    }
  }

  lemma DiskDoesNotMatter(s: Server, disk: Disk)
    requires ServerCoherent(s)
    ensures ServerCoherent(s.(disk := disk))
  {}

  /** Probing a path for access or stat leaves the tables and the store exactly as they were. */
  lemma ProbesRestoreStore(s: Server, path: Path, lower: Lower, mode: U32)
    ensures var (s1, _) := HandleAccess(s, path, lower); s1 == s.(disk := s1.disk)
    ensures var (s2, _) := HandleStat(s, path, lower, mode); s2 == s.(disk := s2.disk)
  {
    hide StoreOpen;
    StoreOpenMeans(s, path, 0, lower);
    var (s1, r, errno) := StoreOpen(s, path, 0, lower);
    if r.Some? { assert StoreClose(s1, r.value.0) == s.(disk := s1.disk); }
  }

  lemma CloseKeepsServerCoherent(s: Server, fd: nat)
    requires ServerCoherent(s)
    ensures var (s1, r) := HandleClose(s, fd);
            && ServerCoherent(s1) && s1.next == s.next
            && (fd in s.fds ==> r == Ok(0) && s1.fds == s.fds - {fd} && |s1.store| == |s.store| - 1)
            && (fd !in s.fds ==> s1 == s && (fd > 2 ==> r == Err(-9)))
  {
    if fd in s.fds {
      var (s1, r) := HandleClose(s, fd);
      var i := s.fds[fd].inode;
      assert i in Inodes(s.fds);
      InodesRemove(s.fds, fd);
      assert s1.store.Keys == s.store.Keys - {i};
      assert |s1.store.Keys| == |s.store.Keys| - 1;
    }
  }

  /** A handler that only moves an offset keeps the server coherent. */
  lemma OffsetsDoNotMatter(s: Server, fd: nat, e: Entry)
    requires ServerCoherent(s) && fd in s.fds && e.inode == s.fds[fd].inode
    ensures ServerCoherent(s.(fds := s.fds[fd := e]))
  {
    InodesAdd(s.fds, fd, e);
    assert e.inode in Inodes(s.fds);
    assert DistinctInodes(s.fds[fd := e]);
  }

  /** Without a live entry every handler answers at once and changes nothing: the standard
      streams by their own rules, any other number with -9. */
  lemma DeadNumbersAreRefused(s: Server, fd: nat, count: nat, data: seq<Byte>, write: Writing, offset: I64, whence: I32)
    requires ServerCoherent(s) && fd !in s.fds
    ensures HandleRead(s, fd, count) == (s, if fd == 0 then Ok(0) else Err(-9))
    ensures HandleWrite(s, fd, data, write) == (s, if fd in {1, 2} then Ok(|data|) else Err(-9))
    ensures HandleClose(s, fd) == (s, if fd in {0, 1, 2} then Ok(0) else Err(-9))
    ensures HandleLseek(s, fd, offset, whence) == (s, if fd in {0, 1, 2} then Err(-29) else Err(-9))
    ensures HandleGetdents(s, fd, count) == HandleFileSize(s, fd) == (s, Err(-9))
  {}

  /** A write to a live number is lwext4's write of those bytes to the file of its slot, at its
      offset, which stays. */
  lemma WriteGoesToTheOffset(s: Server, fd: nat, data: seq<Byte>, write: Writing)
    requires ServerCoherent(s) && fd in s.fds
    ensures s.fds[fd].inode in s.store
    ensures var e := s.fds[fd]; var (written, after) := write(s.disk, s.store[e.inode].path, e.offset, data);
            HandleWrite(s, fd, data, write) == (s.(disk := after), Ok(written))
  {
    assert s.fds[fd].inode in Inodes(s.fds);
  }

  // ---- every client call keeps the three tables coherent ----

  function FdArg(op: Op): Option<nat> {
    match op
    case Close(fd) => Some(fd)
    case Read(fd, _) => Some(fd)
    case Getdents(fd, _) => Some(fd)
    case FileSize(fd) => Some(fd)
    case Lseek(fd, _, _) => Some(fd)
    case _ => None
  }

  /** Handlers that move an offset or nothing: same live fds, same inodes, same store. */
  ghost predicate OnlyOffsets(s: Server, t: Server, fd: nat) {
    && t.next == s.next && t.store == s.store && t.disk == s.disk
    && (t.fds == s.fds ||
        (fd in s.fds && fd in t.fds && t.fds == s.fds[fd := t.fds[fd]] && t.fds[fd].inode == s.fds[fd].inode))
  }

  lemma FdHandlersMoveOffsets(s: Server, fd: nat, count: nat, offset: I64, whence: I32)
    ensures OnlyOffsets(s, HandleRead(s, fd, count).0, fd)
    ensures OnlyOffsets(s, HandleGetdents(s, fd, count).0, fd)
    ensures OnlyOffsets(s, HandleFileSize(s, fd).0, fd)
    ensures OnlyOffsets(s, HandleLseek(s, fd, offset, whence).0, fd)
  {
    hide ReadAt;
  }

  lemma OnlyOffsetsCoherent(s: Server, t: Server, fd: nat)
    requires ServerCoherent(s) && OnlyOffsets(s, t, fd)
    ensures ServerCoherent(t) && t.fds.Keys == s.fds.Keys
  {
    if t.fds != s.fds {
      OffsetsDoNotMatter(s, fd, t.fds[fd]);
      assert t == s.(fds := t.fds);
    }
  }

  lemma ClientAdds(fds: map<nat, nat>, l: nat, r: nat)
    requires Injective(fds) && l !in fds && r !in fds.Values
    ensures Injective(fds[l := r]) && fds[l := r].Values == fds.Values + {r}
  {
    var fds' := fds[l := r];
    forall q | q in fds
      ensures fds[q] != r && fds'[q] == fds[q]
    {
      assert fds[q] in fds.Values;
    }
    forall x
      ensures x in fds'.Values <==> x in fds.Values || x == r
    {
      if x in fds.Values {
        var q :| q in fds && fds[q] == x;
        assert fds'[q] == x;
      }
      if x == r { assert fds'[l] == r; }
    }
  }

  lemma ClientRemoves(fds: map<nat, nat>, l: nat)
    requires Injective(fds) && l in fds
    ensures Injective(fds - {l}) && (fds - {l}).Values == fds.Values - {fds[l]}
  {
    var fds' := fds - {l};
    forall x
      ensures x in fds'.Values <==> x in fds.Values && x != fds[l]
    {
      if x in fds.Values && x != fds[l] {
        var q :| q in fds && fds[q] == x;
        assert fds'[q] == x;
      }
    }
  }

  lemma StepKeepsCoherent(w: World, op: Op)
    requires Coherent(w)
    ensures Coherent(Step(w, op).0)
  {
    hide HandleOpen, HandleAccess, HandleStat, HandleRead, HandleGetdents, HandleFileSize, HandleLseek, HandleClose;
    hide ServerCoherent, Injective;
    match op
    case Open(path, flags, lower) => OpenStep(w, path, flags, lower);
    case Close(fd) => CloseStep(w, fd);
    case Access(path, lower) =>
      ProbesRestoreStore(w.server, path, lower, 0);
      DiskDoesNotMatter(w.server, HandleAccess(w.server, path, lower).0.disk);
    case Stat(path, lower, mode) =>
      ProbesRestoreStore(w.server, path, lower, mode);
      DiskDoesNotMatter(w.server, HandleStat(w.server, path, lower, mode).0.disk);
    case DiskChange(disk) => DiskDoesNotMatter(w.server, disk);
    case Read(fd, len) => if fd in w.client.fds { OffsetStep(w, w.client.fds[fd], Asked(len), 0, 0); }
    case Getdents(fd, len) => if fd in w.client.fds { OffsetStep(w, w.client.fds[fd], Asked(len), 0, 0); }
    case FileSize(fd) => if fd in w.client.fds { OffsetStep(w, w.client.fds[fd], 0, 0, 0); }
    case Lseek(fd, offset, whence) => if fd in w.client.fds { OffsetStep(w, w.client.fds[fd], 0, offset, whence); }
  }

  lemma OffsetStep(w: World, r: nat, count: nat, offset: I64, whence: I32)
    requires Coherent(w)
    ensures Coherent(w.(server := HandleRead(w.server, r, count).0))
    ensures Coherent(w.(server := HandleGetdents(w.server, r, count).0))
    ensures Coherent(w.(server := HandleFileSize(w.server, r).0))
    ensures Coherent(w.(server := HandleLseek(w.server, r, offset, whence).0))
  {
    hide HandleRead, HandleGetdents, HandleFileSize, HandleLseek, ServerCoherent, OnlyOffsets, Injective;
    FdHandlersMoveOffsets(w.server, r, count, offset, whence);
    OnlyOffsetsCoherent(w.server, HandleRead(w.server, r, count).0, r);
    OnlyOffsetsCoherent(w.server, HandleGetdents(w.server, r, count).0, r);
    OnlyOffsetsCoherent(w.server, HandleFileSize(w.server, r).0, r);
    OnlyOffsetsCoherent(w.server, HandleLseek(w.server, r, offset, whence).0, r);
  }

  /** A successful open adds exactly one entry at each level, under numbers never used
      before; a failed one changes no table. */
  lemma OpenStep(w: World, path: Path, flags: U32, lower: Lower)
    requires Coherent(w)
    ensures var (w', r) := Step(w, Open(path, flags, lower));
            && Coherent(w')
            && (r.Error? ==> w' == w.(server := w.server.(disk := w'.server.disk)))
            && (!r.Error? ==>
                  && r == Done(w.client.next)
                  && w'.client.fds == w.client.fds[w.client.next := w.server.next]
                  && w'.server.fds.Keys == w.server.fds.Keys + {w.server.next}
                  && w'.server.fds[w.server.next].offset == 0
                  && |w'.server.store| == |w.server.store| + 1)
  {
    hide HandleOpen, Injective, ServerCoherent;
    if |path| <= MAX_PATH_IPC {
      HandleOpenMeans(w.server, path, flags, lower);
      OpenKeepsServerCoherent(w.server, path, flags, lower);
      var (s1, r) := HandleOpen(w.server, path, flags, lower);
      if r.Ok? { NewPair(w, s1); }
    }
  }

  lemma NewPair(w: World, s1: Server)
    requires Coherent(w) && ServerCoherent(s1) && s1.fds.Keys == w.server.fds.Keys + {w.server.next}
    ensures Coherent(
              World(w.client.(fds := w.client.fds[w.client.next := w.server.next], next := w.client.next + 1), s1))
  {
    hide Injective, DistinctInodes, Inodes;
    assert w.server.next !in w.client.fds.Values;
    ClientAdds(w.client.fds, w.client.next, w.server.next);
  }

  /** Closing a live fd always succeeds and frees exactly one entry at each level. */
  lemma CloseStep(w: World, fd: nat)
    requires Coherent(w)
    ensures var (w', r) := Step(w, Close(fd));
            && Coherent(w')
            && (fd in w.client.fds ==>
                  && r == Done(0) && w'.client.fds == w.client.fds - {fd}
                  && w'.server.fds == w.server.fds - {w.client.fds[fd]}
                  && |w'.server.store| == |w.server.store| - 1)
            && (fd !in w.client.fds ==> w' == w)
  {
    hide HandleClose, Injective;
    if fd in w.client.fds {
      assert w.client.fds[fd] in w.client.fds.Values;
      CloseKeepsServerCoherent(w.server, w.client.fds[fd]);
      ClientRemoves(w.client.fds, fd);
    }
  }

  ghost function Run(w: World, ops: seq<Op>): World
    decreases |ops|
  {
    if ops == [] then w else Run(Step(w, ops[0]).0, ops[1..])
  }

  /** Over any run of one client, the live local fds, the live server fds and the occupied
      store slots stay in one-to-one correspondence. */
  lemma {:induction false} RunKeepsCoherent(w: World, ops: seq<Op>)
    requires Coherent(w)
    ensures Coherent(Run(w, ops))
    decreases |ops|
  {
    hide Coherent, Step;
    if ops != [] {
      StepKeepsCoherent(w, ops[0]);
      RunKeepsCoherent(Step(w, ops[0]).0, ops[1..]);
    }
  }

  lemma FreshIsCoherent(disk: Disk)
    ensures Coherent(Fresh(disk))
  {}

  /** A number that was handed out before and is dead now, at either level. */
  predicate Retired(w: World, l: nat, r: nat) {
    l < w.client.next && l !in w.client.fds && r < w.server.next && r !in w.server.fds
  }

  /** Only open hands out numbers. */
  predicate NoNewFds(w: World, w': World) {
    && w'.client.next == w.client.next && w'.client.fds.Keys <= w.client.fds.Keys
    && w'.server.next == w.server.next && w'.server.fds.Keys <= w.server.fds.Keys
  }

  lemma FdCallsAddNothing(w: World, op: Op)
    requires op.Read? || op.Getdents? || op.FileSize? || op.Lseek?
    ensures NoNewFds(w, Step(w, op).0)
  {
    hide HandleRead, HandleGetdents, HandleFileSize, HandleLseek;
    var fd := FdArg(op).value;
    if fd in w.client.fds {
      var r := w.client.fds[fd];
      match op
      case Read(_, len) => FdHandlersMoveOffsets(w.server, r, Asked(len), 0, 0);
      case Getdents(_, len) => FdHandlersMoveOffsets(w.server, r, Asked(len), 0, 0);
      case FileSize(_) => FdHandlersMoveOffsets(w.server, r, 0, 0, 0);
      case Lseek(_, offset, whence) => FdHandlersMoveOffsets(w.server, r, 0, offset, whence);
    }
  }

  lemma OtherCallsAddNothing(w: World, op: Op)
    requires Coherent(w) && (op.Close? || op.Access? || op.Stat? || op.DiskChange?)
    ensures NoNewFds(w, Step(w, op).0)
  {
    hide HandleAccess, HandleStat, ServerCoherent, Injective;
    match op
    case Close(fd) =>
    case Access(path, lower) => ProbesRestoreStore(w.server, path, lower, 0);
    case Stat(path, lower, mode) => ProbesRestoreStore(w.server, path, lower, mode);
    case DiskChange(disk) =>
  }

  lemma StepKeepsRetired(w: World, op: Op, l: nat, r: nat)
    requires Coherent(w) && Retired(w, l, r)
    ensures Retired(Step(w, op).0, l, r)
  {
    hide Coherent, Step;
    if op.Open? {
      OpenStep(w, op.path, op.flags, op.lower);
      OpenCounts(w, op.path, op.flags, op.lower);
    } else if op.Close? || op.Access? || op.Stat? || op.DiskChange? {
      OtherCallsAddNothing(w, op);
    } else {
      FdCallsAddNothing(w, op);
    }
  }

  lemma OpenCounts(w: World, path: Path, flags: U32, lower: Lower)
    requires Coherent(w)
    ensures var w' := Step(w, Open(path, flags, lower)).0;
            w.client.next <= w'.client.next && w.server.next <= w'.server.next
  {
    hide HandleOpen, Coherent;
    HandleOpenMeans(w.server, path, flags, lower);
  }

  /** Fd numbers are never reused: once dead, dead for the rest of any run, on both sides. */
  lemma {:induction false} NumbersAreNeverReused(w: World, ops: seq<Op>, l: nat, r: nat)
    requires Coherent(w) && Retired(w, l, r)
    ensures Retired(Run(w, ops), l, r)
    decreases |ops|
  {
    hide Coherent, Step, Retired;
    if ops != [] {
      StepKeepsCoherent(w, ops[0]);
      StepKeepsRetired(w, ops[0], l, r);
      NumbersAreNeverReused(Step(w, ops[0]).0, ops[1..], l, r);
    }
  }

  // ---- the tables have the same size ----

  lemma {:induction false} InjectiveSize(m: map<nat, nat>)
    requires Injective(m)
    ensures |m.Values| == |m|
    decreases |m|
  {
    if m == map[] {
      assert m.Values == {};
    } else {
      var k :| k in m;
      ClientRemoves(m, k);
      InjectiveSize(m - {k});
      assert m[k] in m.Values;
      assert (m - {k}).Keys == m.Keys - {k};
    }
  }

  lemma TablesHaveOneSize(w: World)
    requires Coherent(w)
    ensures |w.client.fds| == |w.server.fds| == |w.server.store| <= STORE_CAP
  {
    InjectiveSize(w.client.fds);
    var inodes := map r | r in w.server.fds :: w.server.fds[r].inode;
    assert Injective(inodes);
    InjectiveSize(inodes);
    assert inodes.Keys == w.server.fds.Keys && inodes.Values == Inodes(w.server.fds);
    BoundedSet(w.server.store.Keys, STORE_CAP);
    assert |w.server.store| == |w.server.store.Keys| && |inodes| == |inodes.Keys|;
    assert |w.server.fds| == |w.server.fds.Keys|;
  }

  lemma {:induction false} BoundedSet(s: set<nat>, n: nat)
    requires forall x :: x in s ==> x < n
    ensures |s| <= n
    decreases n
  {
    if n > 0 {
      BoundedSet(s - {n - 1}, n - 1);
      if n - 1 in s { assert |s| == |s - {n - 1}| + 1; } else { assert s - {n - 1} == s; }
    } else {
      assert s == {};
    }
  }
}

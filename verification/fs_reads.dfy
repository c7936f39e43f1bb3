/** What a client's calls amount to: reading a file piece by piece, interleaved with any
    other calls, seeking in it, and asking whether it exists. */
module FsReads {
  import opened Words
  import opened FsModel
  import Bits
  import Dirents
  import opened Ipc
  import opened LittleEndian

  /** `fd` is live and stands, through both tables and the store, for this file or directory. */
  ghost predicate IsOpenOn(w: World, fd: nat, path: Path, node: Node) {
    && fd in w.client.fds && w.client.fds[fd] in w.server.fds
    && w.server.fds[w.client.fds[fd]].inode in w.server.store
    && w.server.store[w.server.fds[w.client.fds[fd]].inode].path == path
    && path in w.server.disk && w.server.disk[path] == node
  }

  ghost function Offset(w: World, fd: nat): nat
    requires fd in w.client.fds && w.client.fds[fd] in w.server.fds
  {
    w.server.fds[w.client.fds[fd]].offset
  }

  predicate Overwrites(flags: U32) {
    Bits.Bit(flags, O_CREAT) || Bits.Bit(flags, O_TRUNC)
  }

  /** An open of `p` that neither overwrites `path` nor, if that is a directory, creates in it. */
  predicate Spares(p: Path, flags: U32, path: Path, node: Node) {
    && (p != path || !Overwrites(flags))
    && !(node.Dir? && Bits.Bit(flags, O_CREAT) && ParentOf(p) == Some(path))
  }

  /** Calls that neither move the offset of `fd` other than by reading or listing it, nor
      change what it stands for. */
  predicate LeavesAlone(op: Op, fd: nat, path: Path, node: Node) {
    match op
    case Close(f) => f != fd
    case Lseek(f, _, _) => f != fd
    case Read(f, _) => f != fd || node.File?
    case Getdents(f, _) => f != fd || node.Dir?
    case Open(p, flags, _) => Spares(p, flags, path, node)
    case DiskChange(disk) => path in disk && disk[path] == node
    case _ => true
  }

  predicate ReadsFrom(op: Op, fd: nat) {
    op.Read? && op.fd == fd
  }

  predicate Lists(op: Op, fd: nat) {
    op.Getdents? && op.fd == fd
  }

  /** The payloads of the reads of `fd` along a run, one after the other. */
  ghost function Delivered(w: World, ops: seq<Op>, fd: nat): seq<Byte>
    decreases |ops|
  {
    if ops == [] then []
    else
      var (w', reply) := Step(w, ops[0]);
      (if ReadsFrom(ops[0], fd) && reply.Data? then reply.bytes else []) + Delivered(w', ops[1..], fd)
  }

  /** What the client asks for in all, each call capped at 944 bytes. */
  function TotalAsked(ops: seq<Op>, fd: nat): nat {
    if ops == [] then 0
    else (if ReadsFrom(ops[0], fd) then Asked(ops[0].len) else 0) + TotalAsked(ops[1..], fd)
  }

  // ---- one call ----

  lemma ReadStep(w: World, fd: nat, len: nat, path: Path, bytes: seq<Byte>)
    requires Coherent(w) && IsOpenOn(w, fd, path, File(bytes)) && Offset(w, fd) <= |bytes|
    ensures var (w', reply) := Step(w, Read(fd, len));
            && IsOpenOn(w', fd, path, File(bytes))
            && Offset(w', fd) == Min(|bytes|, Offset(w, fd) + Asked(len))
            && reply == Data(bytes[Offset(w, fd)..Offset(w', fd)])
  {
    hide ServerCoherent, Injective;
    assert 3 <= fd;
    assert w.client.fds[fd] >= 3 by { LiveRemote(w, fd); }
  }

  lemma LiveRemote(w: World, fd: nat)
    requires Coherent(w) && fd in w.client.fds
    ensures w.client.fds[fd] in w.server.fds && 3 <= w.client.fds[fd] < w.server.next
  {
    assert w.client.fds[fd] in w.client.fds.Values;
  }

  lemma TwoRemotes(w: World, a: nat, b: nat)
    requires Coherent(w) && a in w.client.fds && b in w.client.fds && a != b
    ensures w.client.fds[a] != w.client.fds[b]
  {}

  /** Moving another entry's offset does not touch `fd`. */
  lemma OtherEntry(w: World, t: Server, other: nat, fd: nat, path: Path, node: Node)
    requires IsOpenOn(w, fd, path, node) && OnlyOffsets(w.server, t, other) && other != w.client.fds[fd]
    ensures IsOpenOn(w.(server := t), fd, path, node) && Offset(w.(server := t), fd) == Offset(w, fd)
  {}

  lemma OtherFdStep(w: World, op: Op, fd: nat, path: Path, node: Node)
    requires Coherent(w) && IsOpenOn(w, fd, path, node) && LeavesAlone(op, fd, path, node)
    requires op.Read? || op.Getdents? || op.Lseek? || op.FileSize?
    requires !ReadsFrom(op, fd) && !Lists(op, fd)
    ensures var w' := Step(w, op).0; IsOpenOn(w', fd, path, node) && Offset(w', fd) == Offset(w, fd)
  {
    hide HandleRead, HandleGetdents, HandleFileSize, HandleLseek, Coherent, IsOpenOn, OnlyOffsets;
    var f := FdArg(op).value;
    if f in w.client.fds && f != fd {
      assert fd in w.client.fds by { IsLive(w, fd, path, node); }
      var r := w.client.fds[f];
      TwoRemotes(w, f, fd);
      match op
      case Read(_, len) =>
        FdHandlersMoveOffsets(w.server, r, Asked(len), 0, 0);
        OtherEntry(w, HandleRead(w.server, r, Asked(len)).0, r, fd, path, node);
      case Getdents(_, len) =>
        FdHandlersMoveOffsets(w.server, r, Asked(len), 0, 0);
        OtherEntry(w, HandleGetdents(w.server, r, Asked(len)).0, r, fd, path, node);
      case FileSize(_) =>
        FdHandlersMoveOffsets(w.server, r, 0, 0, 0);
        OtherEntry(w, HandleFileSize(w.server, r).0, r, fd, path, node);
      case Lseek(_, offset, whence) =>
        FdHandlersMoveOffsets(w.server, r, 0, offset, whence);
        OtherEntry(w, HandleLseek(w.server, r, offset, whence).0, r, fd, path, node);
    } else if f == fd {
      FileSizeMovesNothing(w, fd);
    }
  }

  lemma IsLive(w: World, fd: nat, path: Path, node: Node)
    requires IsOpenOn(w, fd, path, node)
    ensures fd in w.client.fds && w.client.fds[fd] in w.server.fds
  {}

  lemma FileSizeMovesNothing(w: World, fd: nat)
    ensures Step(w, FileSize(fd)).0 == w
  {}

  /** Closing another fd frees another slot. */
  lemma CloseStepOther(w: World, f: nat, fd: nat, path: Path, node: Node)
    requires Coherent(w) && IsOpenOn(w, fd, path, node) && f != fd
    ensures var w' := Step(w, Close(f)).0; IsOpenOn(w', fd, path, node) && Offset(w', fd) == Offset(w, fd)
  {
    hide Injective, ServerCoherent;
    if f in w.client.fds {
      LiveRemote(w, f);
      LiveRemote(w, fd);
      TwoRemotes(w, f, fd);
      DistinctSlots(w.server, w.client.fds[f], w.client.fds[fd]);
    }
  }

  lemma DistinctSlots(s: Server, a: nat, b: nat)
    requires ServerCoherent(s) && a in s.fds && b in s.fds && a != b
    ensures s.fds[a].inode != s.fds[b].inode
  {}

  /** An open that does not create or truncate `path` keeps its bytes. */
  lemma LookupKeepsFile(disk: Disk, p: Path, flags: U32, lower: Lower, path: Path)
    requires path in disk && Spares(p, flags, path, disk[path])
    ensures var disk' := Lookup(disk, p, flags, lower).disk; path in disk' && disk'[path] == disk[path]
  {}

  lemma StoreOpenKeepsFile(s: Server, p: Path, flags: U32, lower: Lower, path: Path)
    requires path in s.disk && Spares(p, flags, path, s.disk[path])
    ensures var s' := StoreOpen(s, p, flags, lower).0; path in s'.disk && s'.disk[path] == s.disk[path]
    ensures var s' := StoreOpen(s, p, flags, lower).0;
            forall i :: i in s.store ==> i in s'.store && s'.store[i] == s.store[i]
  {
    hide Lookup;
    LookupKeepsFile(s.disk, p, flags, lower, path);
  }

  lemma OpenStepOther(w: World, p: Path, flags: U32, lower: Lower, fd: nat, path: Path, node: Node)
    requires Coherent(w) && IsOpenOn(w, fd, path, node) && Spares(p, flags, path, node)
    ensures var w' := Step(w, Open(p, flags, lower)).0;
            IsOpenOn(w', fd, path, node) && Offset(w', fd) == Offset(w, fd)
  {
    hide StoreOpen, Injective, ServerCoherent;
    LiveRemote(w, fd);
    StoreOpenMeans(w.server, p, flags, lower);
    StoreOpenKeepsFile(w.server, p, flags, lower, path);
  }

  /** Probing a path changes nothing at all, not even the disk. */
  lemma ProbeStep(w: World, op: Op)
    requires op.Access? || op.Stat?
    ensures Step(w, op).0 == w
  {
    hide StoreOpen;
    var p, lower := op.path, if op.Access? then op.accessLower else op.statLower;
    ProbesRestoreStore(w.server, p, lower, if op.Access? then 0 else op.mode);
    StoreOpenMeans(w.server, p, 0, lower);
    ProbeKeepsDisk(w.server, p, lower);
  }

  lemma ProbeKeepsDisk(s: Server, p: Path, lower: Lower)
    ensures StoreOpen(s, p, 0, lower).0.disk == s.disk
  {
    Bits.ZeroHasNoBits(O_CREAT);
    Bits.ZeroHasNoBits(O_TRUNC);
  }

  lemma QuietStep(w: World, op: Op, fd: nat, path: Path, node: Node)
    requires Coherent(w) && IsOpenOn(w, fd, path, node) && LeavesAlone(op, fd, path, node)
    requires !ReadsFrom(op, fd) && !Lists(op, fd)
    ensures var w' := Step(w, op).0; IsOpenOn(w', fd, path, node) && Offset(w', fd) == Offset(w, fd)
  {
    hide Coherent, HandleOpen, HandleAccess, HandleStat, HandleRead, HandleGetdents;
    hide HandleFileSize, HandleLseek, HandleClose;
    match op
    case Open(p, flags, lower) => OpenStepOther(w, p, flags, lower, fd, path, node);
    case Close(f) => CloseStepOther(w, f, fd, path, node);
    case DiskChange(disk) =>
    case Access(_, _) => ProbeStep(w, op);
    case Stat(_, _, _) => ProbeStep(w, op);
    case _ => OtherFdStep(w, op, fd, path, node);
  }

  // ---- a run ----

  /** What the reads of an unchanged file deliver, put together, is the stretch of the file
      between the old offset and the new one; and the new one is the old one plus everything
      asked for, or the end of the file. Other calls in between make no difference. */
  lemma {:induction false} SequentialRead(w: World, ops: seq<Op>, fd: nat, path: Path, bytes: seq<Byte>)
    requires Coherent(w) && IsOpenOn(w, fd, path, File(bytes)) && Offset(w, fd) <= |bytes|
    requires forall i :: 0 <= i < |ops| ==> LeavesAlone(ops[i], fd, path, File(bytes))
    ensures var w' := Run(w, ops);
            && Coherent(w') && IsOpenOn(w', fd, path, File(bytes))
            && Offset(w', fd) == Min(|bytes|, Offset(w, fd) + TotalAsked(ops, fd))
            && Delivered(w, ops, fd) == bytes[Offset(w, fd)..Offset(w', fd)]
    decreases |ops|
  {
    hide Coherent, Step, LeavesAlone, IsOpenOn;
    if ops == [] {
      IsLive(w, fd, path, File(bytes));
    } else {
      var op, w1 := ops[0], Step(w, ops[0]).0;
      StepKeepsCoherent(w, op);
      IsLive(w, fd, path, File(bytes));
      if ReadsFrom(op, fd) {
        ReadStep(w, fd, op.len, path, bytes);
      } else {
        NoReadOfDirectory(op, fd, path, File(bytes));
        QuietStep(w, op, fd, path, File(bytes));
      }
      IsLive(w1, fd, path, File(bytes));
      SequentialRead(w1, ops[1..], fd, path, bytes);
      IsLive(Run(w, ops), fd, path, File(bytes));
      var o, o1, o2 := Offset(w, fd), Offset(w1, fd), Offset(Run(w, ops), fd);
      assert bytes[o..o1] + bytes[o1..o2] == bytes[o..o2];
    }
  }

  /** The call creates the file, or finds what is there and lwext4 opens it. */
  predicate Finds(disk: Disk, path: Path, flags: U32, lower: Lower) {
    && 0 < |path| <= MAX_PATH_IPC
    && if Bits.Bit(flags, O_CREAT) then !Bits.Bit(flags, O_DIRECTORY) && lower.createErrno.None?
       else path in disk && (disk[path].File? ==> lower.openErrno.None?)
  }

  /** The call empties the path on the way: by creating it, or by truncating a file. */
  predicate Empties(disk: Disk, path: Path, flags: U32, lower: Lower) {
    && Finds(disk, path, flags, lower)
    && (Bits.Bit(flags, O_CREAT) || (Bits.Bit(flags, O_TRUNC) && disk[path].File?))
  }

  /** The disk after a call that empties the path. */
  function Emptied(disk: Disk, path: Path, flags: U32, lower: Lower): Disk {
    if Bits.Bit(flags, O_CREAT) then Created(disk, path, lower) else disk[path := File([])]
  }

  lemma CreatedIsEmpty(disk: Disk, path: Path, lower: Lower)
    ensures var now := Created(disk, path, lower); path in now && now[path] == File([])
  {}

  /** What an open answers, whatever the flags: the first reason to fail that applies, or the
      next local number. */
  lemma OpenTellsOutcome(w: World, path: Path, flags: U32, lower: Lower)
    requires Coherent(w)
    ensures var disk := w.server.disk; var (creating, directory) := (Bits.Bit(flags, 6), Bits.Bit(flags, 14));
            Step(w, Open(path, flags, lower)).1 ==
            if |path| > 920 then Error(-36)
            else if path == [] then Error(-22)
            else if creating && directory then Error(-1)
            else if creating && lower.createErrno.Some? then Error(lower.createErrno.value)
            else if !creating && path !in disk then Error(-2)
            else if !creating && disk[path].File? && lower.openErrno.Some? then Error(lower.openErrno.value)
            else if |w.server.store| >= 500 then Error(-1)
            else Done(w.client.next)
  {
    hide Injective, DistinctInodes, Inodes, Bits.Bit, LowestFree, Created;
    SlotLeft(w.server.store);
  }

  lemma LookupLeavesTheRest(disk: Disk, path: Path, flags: U32, lower: Lower, p: Path)
    ensures var now := Lookup(disk, path, flags, lower).disk;
            var creates := Bits.Bit(flags, 6) && !Bits.Bit(flags, 14) && lower.createErrno.None?;
            var truncates := !Bits.Bit(flags, 6) && Bits.Bit(flags, 9) && path in disk
                             && disk[path].File? && lower.openErrno.None?;
            var lists := creates && path !in disk && ParentOf(path) == Some(p) && p in disk && disk[p].Dir?;
            if p == path && (creates || truncates) then p in now && now[p] == File([])
            else if lists then
              p in now && now[p] == Dir(Dirents.Inserted(disk[p].names, lower.entryAt, NameOf(path)), lower.dirSize)
            else (p in now <==> p in disk) && (p in disk ==> now[p] == disk[p])
  {
    hide Bits.Bit, Dirents.Inserted;
  }

  lemma OpenReachesLookup(w: World, path: Path, flags: U32, lower: Lower)
    ensures Step(w, Open(path, flags, lower)).0.server.disk ==
            if 0 < |path| <= 920 then Lookup(w.server.disk, path, flags, lower).disk else w.server.disk
  {
    hide Lookup, LowestFree;
  }

  /** What an open, failing or not, makes of the file or directory at any path: it empties
      the file it creates or truncates, adds the name of a new one to the directory it lies
      in, and leaves everything else alone. */
  lemma OpenLeavesTheRest(w: World, path: Path, flags: U32, lower: Lower, p: Path)
    ensures var (disk, now) := (w.server.disk, Step(w, Open(path, flags, lower)).0.server.disk);
            var creates := 0 < |path| <= 920 && Bits.Bit(flags, 6) && !Bits.Bit(flags, 14) && lower.createErrno.None?;
            var truncates := 0 < |path| <= 920 && !Bits.Bit(flags, 6) && Bits.Bit(flags, 9) && path in disk
                             && disk[path].File? && lower.openErrno.None?;
            var lists := creates && path !in disk && ParentOf(path) == Some(p) && p in disk && disk[p].Dir?;
            if p == path && (creates || truncates) then p in now && now[p] == File([])
            else if lists then
              p in now && now[p] == Dir(Dirents.Inserted(disk[p].names, lower.entryAt, NameOf(path)), lower.dirSize)
            else (p in now <==> p in disk) && (p in disk ==> now[p] == disk[p])
  {
    hide Step, Lookup, Bits.Bit, Dirents.Inserted;
    LookupLeavesTheRest(w.server.disk, path, flags, lower, p);
    OpenReachesLookup(w, path, flags, lower);
  }

  /** Whatever the flags, an open succeeds exactly when the path is found and the store has a
      free slot. It empties the path exactly when the flags say so, success or not, and adds
      an entry to the directory of a path that is new; and on success the descriptor stands at
      offset 0 for what is there then, and knows its size. */
  lemma OpenedAtStart(w: World, path: Path, flags: U32, lower: Lower)
    requires Coherent(w)
    ensures var (w', reply) := Step(w, Open(path, flags, lower)); var disk := w.server.disk;
            && w'.server.disk == (if Empties(disk, path, flags, lower) then Emptied(disk, path, flags, lower) else disk)
            && (reply == Done(w.client.next) <==> Finds(disk, path, flags, lower) && |w.server.store| < STORE_CAP)
            && (reply == Done(w.client.next) ==>
                  && path in w'.server.disk && IsOpenOn(w', w.client.next, path, w'.server.disk[path])
                  && Offset(w', w.client.next) == 0
                  && match w'.server.disk[path] {
                       case File(bytes) => Step(w', FileSize(w.client.next)).1 == Done(Wrap(|bytes|))
                       case Dir(_, reported) => Step(w', FileSize(w.client.next)).1 == Done(reported)
                     })
            && (reply != Done(w.client.next) ==>
                  reply.Error? && w' == w.(server := w.server.(disk := w'.server.disk)))
  {
    hide Injective, DistinctInodes, Inodes, Bits.Bit, LowestFree, Created;
    CreatedIsEmpty(w.server.disk, path, lower);
    SlotLeft(w.server.store);
  }

  /** A failing open changes the disk exactly when it empties a path that was not an empty
      file already; and an open that empties fails exactly when the store is full. */
  lemma FailedOpenChangesDisk(w: World, path: Path, flags: U32, lower: Lower)
    requires Coherent(w)
    ensures var (w', reply) := Step(w, Open(path, flags, lower)); var disk := w.server.disk;
            && (reply.Error? ==>
                  (w'.server.disk != disk <==>
                   Empties(disk, path, flags, lower) && !(path in disk && disk[path] == File([]))))
            && (Empties(disk, path, flags, lower) ==> (reply.Error? <==> |w.server.store| == STORE_CAP))
  {
    hide Coherent, Step, IsOpenOn;
    OpenedAtStart(w, path, flags, lower);
    AtMostFull(w);
    var disk := w.server.disk;
    if path in disk && disk[path] == File([]) { assert disk[path := File([])] == disk; }
    assert Emptied(disk, path, flags, lower) == disk ==> path in disk && disk[path] == File([]);
  }

  /** Creating a file in a directory that is open elsewhere puts its name among the entries
      left to list, or in front of them; success or not. */
  lemma CreatingAddsEntry(w: World, fd: nat, dir: Path, names: seq<Dirents.Name>, reported: Word,
                          path: Path, flags: U32, lower: Lower)
    requires Coherent(w) && IsOpenOn(w, fd, dir, Dir(names, reported))
    requires path !in w.server.disk && ParentOf(path) == Some(dir)
    requires Bits.Bit(flags, O_CREAT) && Finds(w.server.disk, path, flags, lower)
    ensures var w' := Step(w, Open(path, flags, lower)).0;
            && IsOpenOn(w', fd, dir, Dir(Dirents.Inserted(names, lower.entryAt, NameOf(path)), lower.dirSize))
            && Offset(w', fd) == Offset(w, fd)
  {
    hide Injective, DistinctInodes, Inodes, Bits.Bit, LowestFree, Dirents.Inserted;
    LiveRemote(w, fd);
    StoreOpenMeans(w.server, path, flags, lower);
  }

  lemma AtMostFull(w: World)
    requires Coherent(w)
    ensures |w.server.store| <= STORE_CAP
  {
    TablesHaveOneSize(w);
  }

  lemma SlotLeft(store: map<nat, OpenFile>)
    requires forall i :: i in store ==> i < STORE_CAP
    ensures LowestFree(store, 0).Some? <==> |store| < STORE_CAP
  {
    hide LowestFree, Below;
    var all := Below(STORE_CAP);
    assert store.Keys <= all;
    if LowestFree(store, 0).Some? {
      var free := LowestFree(store, 0).value;
      assert store.Keys <= all - {free};
      SubsetSize(store.Keys, all - {free});
      assert |all - {free}| == STORE_CAP - 1;
    } else {
      assert store.Keys == all;
    }
    assert |store| == |store.Keys|;
  }

  lemma {:induction false} SubsetSize(a: set<nat>, b: set<nat>)
    requires a <= b
    ensures |a| <= |b|
    decreases a
  {
    if a != {} {
      var x :| x in a;
      SubsetSize(a - {x}, b - {x});
      assert |a| == |a - {x}| + 1;
      assert |b| == |b - {x}| + 1;
    }
  }

  function Below(n: nat): (r: set<nat>)
    ensures |r| == n && forall i: nat :: i in r <==> i < n
  {
    if n == 0 then {} else Below(n - 1) + {n - 1}
  }

  /** From a fresh descriptor, everything read so far is a prefix of the file; and the next
      read into a non-empty buffer answers with nothing exactly when the whole file has been
      delivered, whatever the buffer sizes were. */
  lemma EmptyReadMeansAllDelivered(w: World, ops: seq<Op>, fd: nat, path: Path, bytes: seq<Byte>, len: nat)
    requires Coherent(w) && IsOpenOn(w, fd, path, File(bytes)) && Offset(w, fd) == 0 && len > 0
    requires forall i :: 0 <= i < |ops| ==> LeavesAlone(ops[i], fd, path, File(bytes))
    ensures Delivered(w, ops, fd) <= bytes && IsOpenOn(Run(w, ops), fd, path, File(bytes))
    ensures |Delivered(w, ops, fd)| == Offset(Run(w, ops), fd)
    ensures Step(Run(w, ops), Read(fd, len)).1 == Data([]) <==> Delivered(w, ops, fd) == bytes
  {
    hide Coherent, Step, LeavesAlone;
    SequentialRead(w, ops, fd, path, bytes);
    ReadStep(Run(w, ops), fd, len, path, bytes);
  }

  /** How many reads of `fd` offer a non-empty buffer. */
  function NonEmptyReads(ops: seq<Op>, fd: nat): nat {
    if ops == [] then 0
    else (if ReadsFrom(ops[0], fd) && ops[0].len > 0 then 1 else 0) + NonEmptyReads(ops[1..], fd)
  }

  lemma {:induction false} EachReadAsks(ops: seq<Op>, fd: nat)
    ensures NonEmptyReads(ops, fd) <= TotalAsked(ops, fd)
  {
    if ops != [] { EachReadAsks(ops[1..], fd); }
  }

  /** Reading on always gets to the end: as many non-empty reads as there are bytes suffice,
      and what matters is exactly how much they asked for in all. */
  lemma ReadingDeliversAll(w: World, ops: seq<Op>, fd: nat, path: Path, bytes: seq<Byte>)
    requires Coherent(w) && IsOpenOn(w, fd, path, File(bytes)) && Offset(w, fd) == 0
    requires forall i :: 0 <= i < |ops| ==> LeavesAlone(ops[i], fd, path, File(bytes))
    ensures Delivered(w, ops, fd) == bytes <==> TotalAsked(ops, fd) >= |bytes|
    ensures NonEmptyReads(ops, fd) >= |bytes| ==> Delivered(w, ops, fd) == bytes
  {
    hide Coherent, Step, LeavesAlone;
    SequentialRead(w, ops, fd, path, bytes);
    EachReadAsks(ops, fd);
  }

  // ---- seeking ----

  /** SEEK_SET takes no negative offset, SEEK_END none past the end, and no other whence than
      0, 1 and 2 is known: a refused seek changes nothing. An allowed one moves this one offset
      to the target modulo 2^64, so to the target itself if and only if that is neither
      negative nor past 64 bits: a negative target is not refused, it wraps. */
  lemma SeekLandsOnTarget(w: World, fd: nat, offset: I64, whence: I32)
    requires Coherent(w) && fd in w.client.fds
    ensures w.client.fds[fd] in w.server.fds
    ensures var (w', reply) := Step(w, Lseek(fd, offset, whence));
            var remote := w.client.fds[fd]; var e := w.server.fds[remote];
            var target := if whence == 0 then offset else if whence == 1 then e.offset + offset else e.size + offset;
            if (whence == 0 && offset >= 0) || whence == 1 || (whence == 2 && offset <= 0) then
              && reply == Done(Wrap(target))
              && w' == w.(server := w.server.(fds := w.server.fds[remote := e.(offset := Wrap(target))]))
              && (Offset(w', fd) == target <==> 0 <= target < WORD)
            else reply == Error(-22) && w' == w
  {
    hide ServerCoherent, Injective;
    LiveRemote(w, fd);
    WordWraps(if offset >= 0 then offset else 0);
  }

  /** A number that is not live is refused and changes nothing; only closing or reading a
      standard stream has answers of its own. */
  lemma ClosedNumbersAreRefused(w: World, fd: nat, len: nat, offset: I64, whence: I32)
    requires Coherent(w) && fd !in w.client.fds
    ensures Step(w, Read(fd, len)) == (w, if fd == 0 then Done(0) else Error(-9))
    ensures Step(w, Close(fd)) == (w, if fd in {0, 1, 2} then Done(0) else Error(-9))
    ensures Step(w, Getdents(fd, len)) == Step(w, FileSize(fd)) == Step(w, Lseek(fd, offset, whence)) == (w, Error(-9))
  {}

  // ---- probing ----

  /** Access succeeds exactly for a non-empty path of at most 920 bytes that can be opened
      while the store has a free slot, and says with its error number which of these failed. */
  lemma AccessTellsExistence(w: World, path: Path, lower: Lower)
    requires Coherent(w)
    ensures var disk := w.server.disk;
            Step(w, Access(path, lower)) ==
            (w, if |path| > 920 then Error(-36)
                else if path == [] then Error(-22)
                else if path in disk && (disk[path].File? ==> lower.openErrno.None?) && |w.server.store| < 500
                then Done(0)
                else Error(-2))
  {
    hide Injective, DistinctInodes, Inodes;
    ProbeStep(w, Access(path, lower));
    SlotLeft(w.server.store);
    Bits.ZeroHasNoBits(O_CREAT);
    Bits.ZeroHasNoBits(O_TRUNC);
  }

  /** Stat changes nothing and answers with the packed fields of what is at the path, its size
      and the lowest free slot, or with the first reason to fail that applies. */
  lemma StatTellsFields(w: World, path: Path, lower: Lower, mode: U32)
    requires Coherent(w)
    ensures |w.server.store| < 500 ==> LowestFree(w.server.store, 0).Some?
    ensures var disk := w.server.disk;
            Step(w, Stat(path, lower, mode)) ==
            (w, if |path| > 920 then Error(-36)
                else if path == [] then Error(-22)
                else if path !in disk then Error(-2)
                else if disk[path].File? && lower.openErrno.Some? then Error(lower.openErrno.value)
                else if |w.server.store| >= 500 then Error(-1)
                else
                  var size := match disk[path] { case File(bytes) => Wrap(|bytes|) case Dir(_, reported) => reported };
                  Data(StatBytes(mode, size, LowestFree(w.server.store, 0).value)))
  {
    hide Injective, DistinctInodes, Inodes, StatBytes, LowestFree, Created;
    ProbeStep(w, Stat(path, lower, mode));
    SlotLeft(w.server.store);
    Bits.ZeroHasNoBits(O_CREAT);
    Bits.ZeroHasNoBits(O_TRUNC);
  }

  /** Read as little-endian words, the fields are the mode, the size in two halves, the slot
      and one link. */
  lemma StatFieldsReadBack(mode: U32, size: Word, inode: nat)
    requires inode < STORE_CAP
    ensures var b := StatBytes(mode, size, inode);
            && |b| == 20 && FromLe(b[..4]) == mode
            && FromLe(b[4..8]) + 0x1_0000_0000 * FromLe(b[8..12]) == size
            && FromLe(b[12..16]) == inode && FromLe(b[16..]) == 1
  {
    hide LeBytes, FromLe;
    FourBytes(mode);
    FourBytes(size % 0x1_0000_0000);
    FourBytes(size / 0x1_0000_0000);
    FourBytes(inode);
    FourBytes(1);
    var b := StatBytes(mode, size, inode);
    assert b[..4] == LeBytes(mode, 4) && b[16..] == LeBytes(1, 4) && b[12..16] == LeBytes(inode, 4);
    assert b[4..8] == LeBytes(size % 0x1_0000_0000, 4) && b[8..12] == LeBytes(size / 0x1_0000_0000, 4);
  }

  // ---- listing a directory ----

  /** The buffer sizes that reach the server when `fd` is listed along a run. */
  function ListingSizes(ops: seq<Op>, fd: nat): seq<nat> {
    if ops == [] then []
    else (if Lists(ops[0], fd) then [Asked(ops[0].len)] else []) + ListingSizes(ops[1..], fd)
  }

  /** The names a reader of the payloads finds, following the record lengths. */
  ghost function ListedNames(w: World, ops: seq<Op>, fd: nat): seq<Dirents.Name>
    decreases |ops|
  {
    if ops == [] then []
    else
      var (w', reply) := Step(w, ops[0]);
      (if Lists(ops[0], fd) && reply.Data? then Dirents.ParseNames(reply.bytes) else [])
      + ListedNames(w', ops[1..], fd)
  }

  lemma ListStep(w: World, fd: nat, len: nat, path: Path, names: seq<Dirents.Name>, reported: Word)
    requires Coherent(w) && IsOpenOn(w, fd, path, Dir(names, reported)) && Offset(w, fd) <= |names|
    ensures var (w', reply) := Step(w, Getdents(fd, len));
            var n := Dirents.FitCount(Dirents.Lengths(names), Offset(w, fd), Asked(len));
            && Offset(w, fd) + n <= |names| && IsOpenOn(w', fd, path, Dir(names, reported))
            && Offset(w', fd) == Offset(w, fd) + n
            && reply == Data(Dirents.Records(names, Offset(w, fd), n))
  {
    hide ServerCoherent, Injective, Dirents.FitCount, Dirents.Records, Dirents.Lengths;
    LiveRemote(w, fd);
    Dirents.FitCountInRange(Dirents.Lengths(names), Offset(w, fd), Asked(len));
  }

  predicate GoodListing(names: seq<Dirents.Name>) {
    forall i :: 0 <= i < |names| ==> Dirents.GoodName(names[i])
  }

  lemma ParsedNames(names: seq<Dirents.Name>, offset: nat, n: nat)
    requires GoodListing(names) && offset + n <= |names|
    ensures Dirents.ParseNames(Dirents.Records(names, offset, n)) == names[offset..offset + n]
  {
    hide Dirents.Records, Dirents.GoodName;
    Dirents.RecordsParse(names, offset, n, []);
    assert Dirents.Records(names, offset, n) + [] == Dirents.Records(names, offset, n);
    assert Dirents.ParseNames([]) == [];
  }

  /** Listing an unchanged directory through any calls, with any others in between, delivers
      the entries from the old offset to the new one, each once and in order; and the new
      offset is where calls with those buffer sizes get to. */
  lemma {:induction false} SequentialListing(w: World, ops: seq<Op>, fd: nat, path: Path,
                                             names: seq<Dirents.Name>, reported: Word)
    requires Coherent(w) && IsOpenOn(w, fd, path, Dir(names, reported)) && Offset(w, fd) <= |names|
    requires GoodListing(names) && forall i :: 0 <= i < |ops| ==> LeavesAlone(ops[i], fd, path, Dir(names, reported))
    ensures var w' := Run(w, ops);
            && Coherent(w') && IsOpenOn(w', fd, path, Dir(names, reported))
            && Offset(w', fd) == Dirents.OffsetAfter(Dirents.Lengths(names), Offset(w, fd), ListingSizes(ops, fd))
            && Offset(w, fd) <= Offset(w', fd) <= |names|
            && ListedNames(w, ops, fd) == names[Offset(w, fd)..Offset(w', fd)]
    decreases |ops|
  {
    hide Coherent, Step, LeavesAlone, IsOpenOn, GoodListing, Dirents.FitCount, Dirents.Lengths, Dirents.ParseNames;
    hide Dirents.OffsetAfter, ListingSizes, Dirents.Records;
    var node := Dir(names, reported);
    IsLive(w, fd, path, node);
    if ops == [] {
      NoCalls(Dirents.Lengths(names), Offset(w, fd), fd);
    } else {
      var op, w1 := ops[0], Step(w, ops[0]).0;
      StepKeepsCoherent(w, op);
      if Lists(op, fd) {
        ListStep(w, fd, op.len, path, names, reported);
        ParsedNames(names, Offset(w, fd), Dirents.FitCount(Dirents.Lengths(names), Offset(w, fd), Asked(op.len)));
      } else {
        NoReadOfDirectory(op, fd, path, node);
        QuietStep(w, op, fd, path, node);
      }
      OneCallFurther(Dirents.Lengths(names), Offset(w, fd), ops, fd);
      IsLive(w1, fd, path, node);
      SequentialListing(w1, ops[1..], fd, path, names, reported);
      IsLive(Run(w, ops), fd, path, node);
      var o, o1, o2 := Offset(w, fd), Offset(w1, fd), Offset(Run(w, ops), fd);
      assert names[o..o1] + names[o1..o2] == names[o..o2];
    }
  }

  lemma NoCalls(lens: seq<nat>, offset: nat, fd: nat)
    ensures ListingSizes([], fd) == [] && Dirents.OffsetAfter(lens, offset, []) == offset
  {}

  lemma OneCallFurther(lens: seq<nat>, offset: nat, ops: seq<Op>, fd: nat)
    requires ops != []
    ensures Dirents.OffsetAfter(lens, offset, ListingSizes(ops, fd)) ==
            Dirents.OffsetAfter(
              lens,
              if Lists(ops[0], fd) then offset + Dirents.FitCount(lens, offset, Asked(ops[0].len)) else offset,
              ListingSizes(ops[1..], fd))
  {
    var rest := ListingSizes(ops[1..], fd);
    if Lists(ops[0], fd) {
      assert ([Asked(ops[0].len)] + rest)[1..] == rest;
    } else {
      assert [] + rest == rest;
    }
  }

  lemma NoReadOfDirectory(op: Op, fd: nat, path: Path, node: Node)
    requires LeavesAlone(op, fd, path, node)
    ensures node.Dir? ==> !ReadsFrom(op, fd)
    ensures node.File? ==> !Lists(op, fd)
  {}

  lemma {:induction false} OneSize(ops: seq<Op>, fd: nat, room: nat)
    requires forall i :: 0 <= i < |ops| && Lists(ops[i], fd) ==> Asked(ops[i].len) == room
    ensures ListingSizes(ops, fd) == Dirents.Repeat(room, |ListingSizes(ops, fd)|)
  {
    if ops != [] { OneSize(ops[1..], fd, room); }
  }

  /** With one buffer size, at least as many listing calls as entries deliver the whole
      directory if and only if every record fits the buffer, and the 944 bytes of a reply. */
  lemma ListingDeliversAll(w: World, ops: seq<Op>, fd: nat, path: Path, names: seq<Dirents.Name>, reported: Word,
                           len: nat)
    requires Coherent(w) && IsOpenOn(w, fd, path, Dir(names, reported)) && Offset(w, fd) == 0
    requires GoodListing(names) && forall i :: 0 <= i < |ops| ==> LeavesAlone(ops[i], fd, path, Dir(names, reported))
    requires forall i :: 0 <= i < |ops| && Lists(ops[i], fd) ==> ops[i].len == len
    requires |ListingSizes(ops, fd)| >= |names|
    ensures ListedNames(w, ops, fd) == names <==> Dirents.AllFit(Dirents.Lengths(names), 0, Asked(len))
  {
    hide Coherent, Step, LeavesAlone, Dirents.AllFit, Dirents.Lengths;
    var lens, calls := Dirents.Lengths(names), |ListingSizes(ops, fd)|;
    SequentialListing(w, ops, fd, path, names, reported);
    OneSize(ops, fd, Asked(len));
    Dirents.RepeatedCalls(lens, 0, Asked(len), calls);
    Dirents.PagingCompletes(lens, 0, Asked(len), calls);
  }

  /** A directory listed to its end, with one file created in it on the way: what is listed is
      the directory as it then is, each entry once, if and only if the new entry came at or
      behind the offset the listing had reached. */
  lemma ListingAcrossCreate(w: World, fd: nat, dir: Path, names: seq<Dirents.Name>, reported: Word,
                            before: seq<Op>, path: Path, flags: U32, lower: Lower, after: seq<Op>)
    requires Coherent(w) && IsOpenOn(w, fd, dir, Dir(names, reported)) && Offset(w, fd) == 0
    requires GoodListing(names + [NameOf(path)]) && NameOf(path) !in names
    requires forall i :: 0 <= i < |before| ==> LeavesAlone(before[i], fd, dir, Dir(names, reported))
    requires path !in Run(w, before).server.disk && ParentOf(path) == Some(dir)
    requires Bits.Bit(flags, O_CREAT) && Finds(Run(w, before).server.disk, path, flags, lower)
    requires var now := Dir(Dirents.Inserted(names, lower.entryAt, NameOf(path)), lower.dirSize);
             && (forall i :: 0 <= i < |after| ==> LeavesAlone(after[i], fd, dir, now))
             && fd in Run(Step(Run(w, before), Open(path, flags, lower)).0, after).client.fds
    requires var end := Run(Step(Run(w, before), Open(path, flags, lower)).0, after);
             end.client.fds[fd] in end.server.fds && Offset(end, fd) == |names| + 1
    ensures IsOpenOn(Run(w, before), fd, dir, Dir(names, reported))
    ensures var w1 := Run(w, before); var w2 := Step(w1, Open(path, flags, lower)).0;
            ListedNames(w, before, fd) + ListedNames(w2, after, fd) ==
            Dirents.Inserted(names, lower.entryAt, NameOf(path))
            <==> Min(lower.entryAt, |names|) >= Offset(w1, fd)
  {
    hide Coherent, Step, IsOpenOn, LeavesAlone, ListedNames, Dirents.OffsetAfter, ListingSizes, Finds, ParentOf, NameOf;
    var w1, now := Run(w, before), Dirents.Inserted(names, lower.entryAt, NameOf(path));
    IsLive(w, fd, dir, Dir(names, reported));
    GoodBeforeAndAfter(names, lower.entryAt, NameOf(path));
    SequentialListing(w, before, fd, dir, names, reported);
    IsLive(w1, fd, dir, Dir(names, reported));
    CreatingAddsEntry(w1, fd, dir, names, reported, path, flags, lower);
    StepKeepsCoherent(w1, Open(path, flags, lower));
    var w2 := Step(w1, Open(path, flags, lower)).0;
    IsLive(w2, fd, dir, Dir(now, lower.dirSize));
    SequentialListing(w2, after, fd, dir, now, lower.dirSize);
    assert now[Offset(w1, fd)..|now|] == now[Offset(w1, fd)..];
    Dirents.InsertDuringListing(names, Offset(w1, fd), lower.entryAt, NameOf(path));
  }

  lemma GoodBeforeAndAfter(names: seq<Dirents.Name>, at: nat, name: Dirents.Name)
    requires GoodListing(names + [name])
    ensures GoodListing(names) && GoodListing(Dirents.Inserted(names, at, name))
    ensures |Dirents.Inserted(names, at, name)| == |names| + 1
  {
    hide Dirents.GoodName;
    assert (names + [name])[|names|] == name;
    assert forall i :: 0 <= i < |names| ==> (names + [name])[i] == names[i];
  }
}

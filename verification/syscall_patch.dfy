/** `Sel4Task::load_elf` on the page store: map, copy, then overwrite every
    `syscall` instruction with a four-byte trap word. */
module SyscallPatch {
  import opened Words
  import opened PagedMemory
  import opened Elf

  /** 0xdeadbeef, little-endian. */
  function TrapByte(i: nat): Byte
    requires i < 4
  {
    if i == 0 then 0xef else if i == 1 then 0xbe else if i == 2 then 0xad else 0xde
  }

  function Trap(): (t: seq<Byte>)
    ensures |t| == 4 && forall i :: 0 <= i < 4 ==> t[i] == TrapByte(i)
  {
    [0xef, 0xbe, 0xad, 0xde]
  }

  const TRAP_INST: int := 0xdeadbeef

  /** A `0f 05` starts at offset `j` of the segment's file bytes. */
  predicate Site(data: seq<Byte>, j: int) {
    0 <= j < |data| - 1 && data[j] == 0x0f && data[j + 1] == 0x05
  }

  /** The patch pass from offset `j` on. */
  function PatchFrom(m: Pages, vaddr: int, data: seq<Byte>, j: nat): Pages
    decreases |data| - j
  {
    if j >= |data| - 1 then m
    else PatchFrom(if Site(data, j) then PutBytes(m, vaddr + j, Trap()) else m, vaddr, data, j + 1)
  }

  function MapSegment(m: Pages, s: Segment): Pages {
    var start, end := PageDown(s.vaddr), PageUp(Wrap(s.vaddr + s.memsz));
    BlankPages(m, start, Steps(start, end))
  }

  function LoadSegment(m: Pages, elf: seq<Byte>, s: Segment): Pages
    requires InFile(elf, s)
  {
    PatchFrom(PutBytes(MapSegment(m, s), s.vaddr, FileBytes(elf, s)), s.vaddr, FileBytes(elf, s), 0)
  }

  predicate AllInFile(elf: seq<Byte>, segs: seq<Segment>) {
    forall i :: 0 <= i < |segs| && segs[i].isLoad ==> InFile(elf, segs[i])
  }

  function LoadAll(m: Pages, elf: seq<Byte>, segs: seq<Segment>): Pages
    requires AllInFile(elf, segs)
    decreases |segs|
  {
    if segs == [] then m
    else LoadAll(if segs[0].isLoad then LoadSegment(m, elf, segs[0]) else m, elf, segs[1..])
  }

  // ---- one segment: what every byte holds afterwards ----

  /** Some patch of this segment covers the byte `k` places after its start. */
  predicate Patched(data: seq<Byte>, k: int) {
    Site(data, k) || Site(data, k - 1) || Site(data, k - 2) || Site(data, k - 3)
  }

  /** Patches are written upwards, so the nearest site at or below a byte decides it. */
  function PatchedByte(data: seq<Byte>, k: nat): Byte
    requires k < |data| || Patched(data, k)
  {
    if Site(data, k) then TrapByte(0)
    else if Site(data, k - 1) then TrapByte(1)
    else if Site(data, k - 2) then TrapByte(2)
    else if Site(data, k - 3) then TrapByte(3)
    else data[k]
  }

  /** Byte `k` after the sites from `j` on have been patched over a store that holds `was` there. */
  function Repatched(data: seq<Byte>, j: nat, k: nat, was: Option<Byte>): Option<Byte> {
    if Site(data, k) && k >= j then Some(TrapByte(0))
    else if Site(data, k - 1) && k - 1 >= j then Some(TrapByte(1))
    else if Site(data, k - 2) && k - 2 >= j then Some(TrapByte(2))
    else if Site(data, k - 3) && k - 3 >= j then Some(TrapByte(3))
    else was
  }

  lemma {:induction false} PatchFromAt(m: Pages, vaddr: Word, data: seq<Byte>, j: nat, a: Word)
    requires |data| < WORD - 4 && ByteAt(m, a).Some?
    ensures ByteAt(PatchFrom(m, vaddr, data, j), a) ==
            Repatched(data, j, Wrap(a - vaddr), ByteAt(m, a))
    decreases |data| - j
  {
    hide ByteAt, PutBytes, TrapByte, Wrap;
    if j < |data| - 1 {
      var m' := if Site(data, j) then PutBytes(m, vaddr + j, Trap()) else m;
      if Site(data, j) { PutTrapAt(m, vaddr, j, a); }
      PatchFromAt(m', vaddr, data, j + 1, a);
    }
  }

  lemma PutTrapAt(m: Pages, vaddr: Word, j: nat, a: Word)
    requires j < WORD - 4 && ByteAt(m, a).Some?
    ensures var k := Wrap(a - vaddr);
            ByteAt(PutBytes(m, vaddr + j, Trap()), a) ==
            if j <= k < j + 4 then Some(TrapByte(k - j)) else ByteAt(m, a)
  {
    hide ByteAt, PutBytes, Wrap, PageDown, Touches;
    PutBytesAt(m, vaddr + j, Trap(), a);
    RingOffset(vaddr, j, a);
    MappedBytes(m, a);
  }

  lemma RingOffset(vaddr: Word, j: nat, a: Word)
    requires j < WORD
    ensures var k := Wrap(a - vaddr); Wrap(a - (vaddr + j)) == if k >= j then k - j else k - j + WORD
  {}

  /** No Rust slice, so no file-backed part, is longer than `isize::MAX` bytes. */
  predicate Small(s: Segment) {
    s.filesz < 0x8000_0000_0000_0000
  }

  /** Loading one segment: its file bytes with the trap words over them land at their
      addresses, and every mapped byte it neither backs nor patches keeps its value. */
  lemma LoadSegmentAt(m: Pages, elf: seq<Byte>, s: Segment, a: Word)
    requires InFile(elf, s) && Small(s)
    ensures var data := FileBytes(elf, s); var k := Wrap(a - s.vaddr);
            var after := ByteAt(LoadSegment(m, elf, s), a);
            && (k < |data| ==> after == Some(PatchedByte(data, k)))
            && (k >= |data| && Patched(data, k) && ByteAt(PutBytes(MapSegment(m, s), s.vaddr, data), a).Some? ==>
                  after == Some(PatchedByte(data, k)))
            && (k >= |data| && !Patched(data, k) && ByteAt(m, a).Some? ==> after == ByteAt(m, a))
  {
    hide MapSegment, PutBytes, ByteAt, PatchFrom, PageDown;
    var data, k := FileBytes(elf, s), Wrap(a - s.vaddr);
    var mapped := MapSegment(m, s);
    var copied := PutBytes(mapped, s.vaddr, data);
    MapSegmentAt(m, s, a);
    PutBytesAt(mapped, s.vaddr, data, a);
    MappedBytes(m, a);
    MappedBytes(mapped, a);
    if ByteAt(copied, a).Some? { PatchFromAt(copied, s.vaddr, data, 0, a); }
  }

  lemma MapSegmentAt(m: Pages, s: Segment, a: Word)
    ensures ByteAt(m, a).Some? ==> ByteAt(MapSegment(m, s), a) == ByteAt(m, a)
  {
    hide ByteAt, BlankPages, Steps, PageDown, PageUp, Covers;
    var start, end := PageDown(s.vaddr), PageUp(Wrap(s.vaddr + s.memsz));
    SegmentSteps(start, end, s.vaddr, s.vaddr + s.memsz);
    BlankPagesAt(m, start, Steps(start, end), a);
    MappedBytes(m, a);
  }

  lemma SegmentSteps(start: Word, end: Word, lo: Word, hi: int)
    requires start == PageDown(lo) && end == PageUp(Wrap(hi))
    ensures PageAligned(Wrap(start)) && Steps(start, end) * PAGE_SIZE <= WORD
  {
    hide Wrap, Steps;
    PageDownLocates(lo, lo);
    PageDownLocates(Wrap(hi), Wrap(Wrap(hi) + PAGE_SIZE - 1));
    WordWraps(start);
    StepsCoverTheRange(start, end);
  }

  lemma StepsCoverTheRange(start: Word, end: Word)
    requires PageAligned(start) && PageAligned(end)
    ensures Steps(start, end) * PAGE_SIZE <= WORD
  {}

  // ---- the whole program ----

  /** The file bytes of `s` include address `a`. */
  predicate Backs(s: Segment, a: Word) {
    Covers(s.vaddr, s.filesz, a)
  }

  /** Segment `s` neither backs `a` nor patches over it. */
  predicate Quiet(elf: seq<Byte>, s: Segment, a: Word) {
    s.isLoad ==> InFile(elf, s) && !Backs(s, a) && !Patched(FileBytes(elf, s), Wrap(a - s.vaddr))
  }

  /** Only two bytes past its file bytes can a segment's patches reach. */
  lemma QuietWhenApart(elf: seq<Byte>, s: Segment, a: Word)
    requires InFile(elf, s) && !Covers(s.vaddr, s.filesz + 2, a)
    ensures Quiet(elf, s, a)
  {}

  predicate AllSmall(segs: seq<Segment>) {
    forall i :: 0 <= i < |segs| ==> Small(segs[i])
  }

  /** The segments behind segment `i` all leave `a` alone. */
  predicate LaterQuiet(elf: seq<Byte>, segs: seq<Segment>, i: int, a: Word) {
    forall l :: 0 <= l < |segs| && l > i ==> Quiet(elf, segs[l], a)
  }

  /** The four bytes at `addr` lie in one page. */
  predicate OnePage(addr: Word) {
    addr % PAGE_SIZE <= PAGE_SIZE - 4 && addr <= WORD - 4
  }

  /** No segment behind segment `i` backs or patches the four bytes at `addr`. */
  predicate LaterQuietFrom(elf: seq<Byte>, segs: seq<Segment>, i: int, addr: Word)
    requires addr <= WORD - 4
  {
    && LaterQuiet(elf, segs, i, addr) && LaterQuiet(elf, segs, i, addr + 1)
    && LaterQuiet(elf, segs, i, addr + 2) && LaterQuiet(elf, segs, i, addr + 3)
  }

  lemma {:induction false} QuietSegmentsKeep(m: Pages, elf: seq<Byte>, segs: seq<Segment>, a: Word)
    requires AllInFile(elf, segs) && AllSmall(segs) && ByteAt(m, a).Some?
    requires LaterQuiet(elf, segs, -1, a)
    ensures ByteAt(LoadAll(m, elf, segs), a) == ByteAt(m, a)
    decreases |segs|
  {
    if segs != [] {
      assert Quiet(elf, segs[0], a);
      if segs[0].isLoad { LoadSegmentAt(m, elf, segs[0], a); }
      QuietSegmentsKeep(if segs[0].isLoad then LoadSegment(m, elf, segs[0]) else m, elf, segs[1..], a);
    }
  }

  lemma LoadSegmentBacks(m: Pages, elf: seq<Byte>, s: Segment, a: Word, backed: Word)
    requires InFile(elf, s) && Small(s)
    requires Backs(s, backed) && PageDown(a) == PageDown(backed)
    requires Backs(s, a) || Patched(FileBytes(elf, s), Wrap(a - s.vaddr))
    ensures ByteAt(LoadSegment(m, elf, s), a) == Some(PatchedByte(FileBytes(elf, s), Wrap(a - s.vaddr)))
  {
    var copied := PutBytes(MapSegment(m, s), s.vaddr, FileBytes(elf, s));
    assert ByteAt(copied, backed).Some? by {
      PutBytesAt(MapSegment(m, s), s.vaddr, FileBytes(elf, s), backed);
    }
    LoadSegmentAt(m, elf, s, a);
  }

  /** After loading a whole program, a byte that one segment backs or patches, on a page
      that segment backs, holds that segment's patched byte, whatever the segments before it
      put there, as long as those behind it leave it alone: the last one wins. */
  lemma {:induction false} LoadAllAt(m: Pages, elf: seq<Byte>, segs: seq<Segment>, i: nat, a: Word, backed: Word)
    requires AllInFile(elf, segs) && AllSmall(segs) && i < |segs| && segs[i].isLoad
    requires LaterQuiet(elf, segs, i, a)
    requires Backs(segs[i], backed) && PageDown(a) == PageDown(backed)
    requires Backs(segs[i], a) || Patched(FileBytes(elf, segs[i]), Wrap(a - segs[i].vaddr))
    ensures ByteAt(LoadAll(m, elf, segs), a) ==
            Some(PatchedByte(FileBytes(elf, segs[i]), Wrap(a - segs[i].vaddr)))
    decreases |segs|
  {
    hide PatchedByte, Patched, ByteAt, LoadSegment, PageDown, Site;
    var s := segs[0];
    if i == 0 {
      LoadSegmentBacks(m, elf, s, a, backed);
      QuietSegmentsKeep(LoadSegment(m, elf, s), elf, segs[1..], a);
    } else {
      LoadAllAt(if s.isLoad then LoadSegment(m, elf, s) else m, elf, segs[1..], i - 1, a, backed);
    }
  }

  /** Every file-backed byte equals the file, if no `0f 05` starts at it or up to three bytes
      before it. */
  lemma UnpatchedBytesEqualFile(m: Pages, elf: seq<Byte>, segs: seq<Segment>, i: nat, a: Word)
    requires AllInFile(elf, segs) && AllSmall(segs) && i < |segs| && segs[i].isLoad
    requires LaterQuiet(elf, segs, i, a)
    requires Wrap(a - segs[i].vaddr) < segs[i].filesz
    requires var (s, at) := (segs[i], segs[i].offset + Wrap(a - segs[i].vaddr));
             forall t :: s.offset <= t && at - 3 <= t <= at && t + 1 < s.offset + s.filesz ==>
               !(elf[t] == 0x0f && elf[t + 1] == 0x05)
    ensures ByteAt(LoadAll(m, elf, segs), a) == Some(elf[segs[i].offset + Wrap(a - segs[i].vaddr)])
  {
    hide Wrap, LoadAll, Site, FileBytes;
    var k := Wrap(a - segs[i].vaddr);
    forall j: nat | j <= k < j + 4
      ensures !Site(FileBytes(elf, segs[i]), j)
    {
      SiteInFile(elf, segs[i], j);
      var t := segs[i].offset + j;
      if j + 1 < segs[i].filesz { assert !(elf[t] == 0x0f && elf[t + 1] == 0x05); }
    }
    NotPatched(FileBytes(elf, segs[i]), k);
    LoadAllAt(m, elf, segs, i, a, a);
    SliceByte(elf, segs[i], k);
  }

  lemma NotPatched(data: seq<Byte>, k: nat)
    requires k < |data| && forall j: nat :: j <= k < j + 4 ==> !Site(data, j)
    ensures !Patched(data, k) && PatchedByte(data, k) == data[k]
  {}

  lemma SliceByte(elf: seq<Byte>, s: Segment, k: nat)
    requires InFile(elf, s) && k < s.filesz
    ensures FileBytes(elf, s)[k] == elf[s.offset + k]
  {}

  // ---- memory past the file part, and pages no segment touches ----

  predicate BlankOrAbsent(b: Option<Byte>) {
    b == None || b == Some(0)
  }

  lemma {:induction false} PatchFromQuiet(m: Pages, vaddr: Word, data: seq<Byte>, j: nat, a: Word)
    requires |data| < WORD - 4 && !Patched(data, Wrap(a - vaddr)) && BlankOrAbsent(ByteAt(m, a))
    ensures BlankOrAbsent(ByteAt(PatchFrom(m, vaddr, data, j), a))
    ensures ByteAt(m, a) == Some(0) ==> ByteAt(PatchFrom(m, vaddr, data, j), a) == Some(0)
    decreases |data| - j
  {
    hide ByteAt, PutBytes, Wrap, Touches, PageDown;
    if j < |data| - 1 {
      var m' := if Site(data, j) then PutBytes(m, vaddr + j, Trap()) else m;
      if Site(data, j) {
        RingOffset(vaddr, j, a);
        PutBytesAt(m, vaddr + j, Trap(), a);
        MappedBytes(m, a);
      }
      PatchFromQuiet(m', vaddr, data, j + 1, a);
    }
  }

  /** A byte a segment neither backs nor patches stays blank or absent; if the segment's memory
      includes it, it is there afterwards. */
  lemma QuietSegmentBlanks(m: Pages, elf: seq<Byte>, s: Segment, a: Word)
    requires s.isLoad && Quiet(elf, s, a) && Small(s) && BlankOrAbsent(ByteAt(m, a))
    ensures BlankOrAbsent(ByteAt(LoadSegment(m, elf, s), a))
    ensures ByteAt(m, a) == Some(0) ==> ByteAt(LoadSegment(m, elf, s), a) == Some(0)
    ensures s.vaddr + s.memsz <= WORD - PAGE_SIZE && s.vaddr <= a < s.vaddr + s.memsz ==>
              ByteAt(LoadSegment(m, elf, s), a) == Some(0)
  {
    hide ByteAt, PutBytes, PatchFrom, PageDown, Patched, Touches, MapSegment;
    var data := FileBytes(elf, s);
    var mapped := MapSegment(m, s);
    MapSegmentBlanks(m, s, a);
    PutBytesAt(mapped, s.vaddr, data, a);
    MappedBytes(mapped, a);
    PatchFromQuiet(PutBytes(mapped, s.vaddr, data), s.vaddr, data, 0, a);
  }

  lemma MapSegmentBlanks(m: Pages, s: Segment, a: Word)
    requires BlankOrAbsent(ByteAt(m, a))
    ensures BlankOrAbsent(ByteAt(MapSegment(m, s), a))
    ensures ByteAt(m, a) == Some(0) ==> ByteAt(MapSegment(m, s), a) == Some(0)
    ensures s.vaddr + s.memsz <= WORD - PAGE_SIZE && s.vaddr <= a < s.vaddr + s.memsz ==>
              ByteAt(MapSegment(m, s), a) == Some(0)
    ensures s.vaddr + s.memsz <= WORD - PAGE_SIZE
            && (PageDown(a) + PAGE_SIZE <= s.vaddr || s.vaddr + s.memsz <= PageDown(a)) ==>
              ByteAt(MapSegment(m, s), a) == ByteAt(m, a)
  {
    hide ByteAt, BlankPages, Steps, PageDown, PageUp, Covers, Wrap;
    var start, end := PageDown(s.vaddr), PageUp(Wrap(s.vaddr + s.memsz));
    SegmentSteps(start, end, s.vaddr, s.vaddr + s.memsz);
    BlankPagesAt(m, start, Steps(start, end), a);
    MappedBytes(m, a);
    if s.vaddr + s.memsz <= WORD - PAGE_SIZE {
      WordWraps(s.vaddr + s.memsz);
      StepsCover(s.vaddr, s.vaddr + s.memsz, a);
    }
  }

  lemma StepsCover(lo: Word, hi: Word, a: Word)
    requires hi <= WORD - PAGE_SIZE && lo <= hi
    ensures lo <= a < hi ==> Covers(PageDown(lo), Steps(PageDown(lo), PageUp(hi)) * PAGE_SIZE, a)
    ensures PageDown(a) + PAGE_SIZE <= lo || hi <= PageDown(a) ==>
              !Covers(PageDown(lo), Steps(PageDown(lo), PageUp(hi)) * PAGE_SIZE, a)
  {
    RoundedSteps(lo, hi);
    CoversRange(PageDown(lo), Steps(PageDown(lo), PageUp(hi)) * PAGE_SIZE, a);
  }

  lemma RoundedSteps(lo: Word, hi: Word)
    requires hi <= WORD - PAGE_SIZE && lo <= hi
    ensures PageDown(lo) <= lo && hi <= PageUp(hi) < hi + PAGE_SIZE && PageDown(lo) <= PageUp(hi)
    ensures Steps(PageDown(lo), PageUp(hi)) * PAGE_SIZE == PageUp(hi) - PageDown(lo)
  {
    hide Steps, PageDown, PageUp;
    PageDownLocates(lo, lo);
    RoundedEnd(lo, hi);
  }

  lemma RoundedEnd(lo: Word, hi: Word)
    requires hi <= WORD - PAGE_SIZE && lo <= hi
    ensures hi <= PageUp(hi) < hi + PAGE_SIZE && PageDown(lo) <= PageUp(hi) && PageAligned(PageUp(hi))
  {}

  /** The memory of a segment past its file part reads as zero after the whole program is loaded
      into a space that has nothing there, if no segment backs or patches it. */
  lemma {:induction false} BssIsZero(m: Pages, elf: seq<Byte>, segs: seq<Segment>, i: nat, a: Word)
    requires AllInFile(elf, segs) && AllSmall(segs) && i < |segs| && segs[i].isLoad
    requires LaterQuiet(elf, segs, -1, a) && BlankOrAbsent(ByteAt(m, a))
    requires segs[i].vaddr <= a < segs[i].vaddr + segs[i].memsz <= WORD - PAGE_SIZE
    ensures ByteAt(LoadAll(m, elf, segs), a) == Some(0)
    decreases |segs|
  {
    hide ByteAt, LoadSegment, Quiet;
    var s := segs[0];
    assert Quiet(elf, s, a);
    var next := if s.isLoad then LoadSegment(m, elf, s) else m;
    if s.isLoad { QuietSegmentBlanks(m, elf, s, a); }
    if i == 0 {
      QuietSegmentsKeep(next, elf, segs[1..], a);
    } else {
      BssIsZero(next, elf, segs[1..], i - 1, a);
    }
  }

  /** The page of `a` holds no byte of the segment, nor of the two its patches can reach past
      its file part. */
  predicate Beyond(s: Segment, a: Word) {
    && s.vaddr + s.memsz <= WORD - PAGE_SIZE && s.vaddr + s.filesz + 2 <= WORD - PAGE_SIZE
    && (PageDown(a) + PAGE_SIZE <= s.vaddr
        || (s.vaddr + s.memsz <= PageDown(a) && s.vaddr + s.filesz + 2 <= PageDown(a)))
  }

  lemma NotTouched(lo: Word, x: int, n: nat, a: Word)
    requires lo <= x && x + n <= WORD - PAGE_SIZE && (PageDown(a) + PAGE_SIZE <= lo || x + n <= PageDown(a))
    ensures !Touches(x, n, PageDown(a)) && !Covers(x, n, a)
  {
    hide PageDown;
    if n > 0 {
      WordWraps(x);
      CoversRange(x, n, a);
      CoversRange(x, n, PageDown(a));
      PageDownLocates(a, a);
      PageDownLocates(x, x);
    }
  }

  lemma {:induction false} PatchFromBeyond(m: Pages, vaddr: Word, data: seq<Byte>, j: nat, a: Word)
    requires vaddr + |data| + 2 <= WORD - PAGE_SIZE && ByteAt(m, a) == None
    requires PageDown(a) + PAGE_SIZE <= vaddr || vaddr + |data| + 2 <= PageDown(a)
    ensures ByteAt(PatchFrom(m, vaddr, data, j), a) == None
    decreases |data| - j
  {
    hide ByteAt, PutBytes, Wrap, Touches, PageDown;
    if j < |data| - 1 {
      if Site(data, j) {
        NotTouched(vaddr, vaddr + j, 4, a);
        PutBytesAt(m, vaddr + j, Trap(), a);
        MappedBytes(m, a);
      }
      PatchFromBeyond(if Site(data, j) then PutBytes(m, vaddr + j, Trap()) else m, vaddr, data, j + 1, a);
    }
  }

  lemma BeyondStaysAbsent(m: Pages, elf: seq<Byte>, s: Segment, a: Word)
    requires InFile(elf, s) && Beyond(s, a) && ByteAt(m, a) == None
    ensures ByteAt(LoadSegment(m, elf, s), a) == None
  {
    hide ByteAt, PutBytes, PatchFrom, PageDown, Touches, MapSegment;
    var data := FileBytes(elf, s);
    var mapped := MapSegment(m, s);
    MapSegmentBlanks(m, s, a);
    NotTouched(s.vaddr, s.vaddr, s.filesz, a);
    PutBytesAt(mapped, s.vaddr, data, a);
    MappedBytes(mapped, a);
    PatchFromBeyond(PutBytes(mapped, s.vaddr, data), s.vaddr, data, 0, a);
  }

  /** Loading a program maps no page that holds nothing of any segment. */
  lemma {:induction false} UntouchedStaysAbsent(m: Pages, elf: seq<Byte>, segs: seq<Segment>, a: Word)
    requires AllInFile(elf, segs) && ByteAt(m, a) == None
    requires forall i :: 0 <= i < |segs| && segs[i].isLoad ==> Beyond(segs[i], a)
    ensures ByteAt(LoadAll(m, elf, segs), a) == None
    decreases |segs|
  {
    hide ByteAt, LoadSegment, Beyond;
    if segs != [] {
      if segs[0].isLoad { BeyondStaysAbsent(m, elf, segs[0], a); }
      UntouchedStaysAbsent(if segs[0].isLoad then LoadSegment(m, elf, segs[0]) else m, elf, segs[1..], a);
    }
  }

  // ---- reading the trap back ----

  /** What `read_bytes` leaves in a zeroed buffer: the bytes up to the end of the page. */
  function ReadByte(m: Pages, addr: Word, t: nat): Byte
    requires PageDown(addr) in m
  {
    if addr % PAGE_SIZE + t < PAGE_SIZE then m[PageDown(addr)][addr % PAGE_SIZE + t] else 0
  }

  function Le32(b0: int, b1: int, b2: int, b3: int): int {
    b0 + 0x100 * b1 + 0x1_0000 * b2 + 0x100_0000 * b3
  }

  function ReadU32(m: Pages, addr: Word): Option<int> {
    if PageDown(addr) in m then
      Some(Le32(ReadByte(m, addr, 0), ReadByte(m, addr, 1), ReadByte(m, addr, 2), ReadByte(m, addr, 3)))
    else None
  }

  lemma InPageByte(m: Pages, addr: Word, t: nat)
    requires t < 4 && OnePage(addr) && ByteAt(m, addr + t).Some?
    ensures PageDown(addr) in m && ByteAt(m, addr + t) == Some(ReadByte(m, addr, t))
  {}

  lemma StraddlingIsNoTrap(m: Pages, addr: Word)
    requires !OnePage(addr)
    ensures ReadU32(m, addr) != Some(TRAP_INST)
  {
    assert addr % PAGE_SIZE > PAGE_SIZE - 4;
  }

  lemma SiteReadsBack(m: Pages, elf: seq<Byte>, segs: seq<Segment>, i: nat, j: nat)
    requires AllInFile(elf, segs) && AllSmall(segs) && i < |segs| && segs[i].isLoad
    requires Site(FileBytes(elf, segs[i]), j)
    requires var addr := Wrap(segs[i].vaddr + j); OnePage(addr) ==> LaterQuietFrom(elf, segs, i, addr)
    ensures var data := FileBytes(elf, segs[i]); var addr := Wrap(segs[i].vaddr + j);
            ReadU32(LoadAll(m, elf, segs), addr) == Some(TRAP_INST)
            <==> OnePage(addr) && !Site(data, j + 2) && !Site(data, j + 3)
  {
    var addr := Wrap(segs[i].vaddr + j);
    OffsetOf(segs[i].vaddr, j);
    var loaded := LoadAll(m, elf, segs);
    if OnePage(addr) {
      SiteByte(m, elf, segs, i, j, 0, addr);
      SiteByte(m, elf, segs, i, j, 1, addr);
      SiteByte(m, elf, segs, i, j, 2, addr);
      SiteByte(m, elf, segs, i, j, 3, addr);
      TrapFromBytes(loaded, addr, FileBytes(elf, segs[i]), j);
    } else {
      StraddlingIsNoTrap(loaded, addr);
    }
  }

  lemma SiteInFile(elf: seq<Byte>, s: Segment, j: nat)
    requires InFile(elf, s)
    ensures Site(FileBytes(elf, s), j) <==>
            j + 1 < s.filesz && elf[s.offset + j] == 0x0f && elf[s.offset + j + 1] == 0x05
  {}

  /** A loaded `syscall` instruction, `0f 05` in the file, reads back as the trap word exactly
      when its four bytes lie in one page and no other `0f 05` starts two or three bytes further
      on; one that starts shortly before it does no harm, because patches go upwards. */
  lemma TrapReadsBack(m: Pages, elf: seq<Byte>, segs: seq<Segment>, i: nat, j: nat)
    requires AllInFile(elf, segs) && AllSmall(segs) && i < |segs| && segs[i].isLoad
    requires j + 1 < segs[i].filesz
    requires elf[segs[i].offset + j] == 0x0f && elf[segs[i].offset + j + 1] == 0x05
    requires var addr := Wrap(segs[i].vaddr + j); OnePage(addr) ==> LaterQuietFrom(elf, segs, i, addr)
    ensures var (s, addr) := (segs[i], Wrap(segs[i].vaddr + j));
            ReadU32(LoadAll(m, elf, segs), addr) == Some(0xdeadbeef)
            <==> && addr % 4096 <= 4092
                 && !(j + 3 < s.filesz && elf[s.offset + j + 2] == 0x0f && elf[s.offset + j + 3] == 0x05)
                 && !(j + 4 < s.filesz && elf[s.offset + j + 3] == 0x0f && elf[s.offset + j + 4] == 0x05)
  {
    hide Site, FileBytes, LoadAll, ReadU32, LaterQuietFrom;
    SiteInFile(elf, segs[i], j);
    SiteInFile(elf, segs[i], j + 2);
    SiteInFile(elf, segs[i], j + 3);
    SiteReadsBack(m, elf, segs, i, j);
    OnePageMeans(Wrap(segs[i].vaddr + j));
  }

  lemma OnePageMeans(addr: Word)
    ensures OnePage(addr) <==> addr % 4096 <= 4092
  {}

  lemma OffsetOf(vaddr: Word, j: nat)
    requires j < WORD
    ensures Wrap(Wrap(vaddr + j) - vaddr) == j
  {}

  lemma SiteCovers(data: seq<Byte>, j: nat, t: nat)
    requires Site(data, j) && t < 4
    ensures Patched(data, j + t)
  {}

  /** Four patched bytes in one page, read as a word. */
  lemma TrapFromBytes(m: Pages, addr: Word, data: seq<Byte>, j: nat)
    requires OnePage(addr) && Site(data, j)
    requires Patched(data, j + 1) && Patched(data, j + 2) && Patched(data, j + 3)
    requires ByteAt(m, addr) == Some(PatchedByte(data, j)) && ByteAt(m, addr + 1) == Some(PatchedByte(data, j + 1))
    requires ByteAt(m, addr + 2) == Some(PatchedByte(data, j + 2))
    requires ByteAt(m, addr + 3) == Some(PatchedByte(data, j + 3))
    ensures ReadU32(m, addr) == Some(TRAP_INST) <==> !Site(data, j + 2) && !Site(data, j + 3)
  {
    InPageByte(m, addr, 0);
    InPageByte(m, addr, 1);
    InPageByte(m, addr, 2);
    InPageByte(m, addr, 3);
  }

  lemma SiteByte(m: Pages, elf: seq<Byte>, segs: seq<Segment>, i: nat, j: nat, t: nat, addr: Word)
    requires AllInFile(elf, segs) && AllSmall(segs) && i < |segs| && segs[i].isLoad && t < 4
    requires Site(FileBytes(elf, segs[i]), j) && Wrap(addr - segs[i].vaddr) == j
    requires OnePage(addr) && LaterQuietFrom(elf, segs, i, addr)
    ensures Patched(FileBytes(elf, segs[i]), j + t)
    ensures ByteAt(LoadAll(m, elf, segs), addr + t) == Some(PatchedByte(FileBytes(elf, segs[i]), j + t))
  {
    hide AllSmall, LaterQuiet, LaterQuietFrom, LoadAll, Patched, PatchedByte, Site, Backs, PageDown, Wrap, FileBytes;
    SiteIsBacked(elf, segs, i, j, addr);
    SiteCovers(FileBytes(elf, segs[i]), j, t);
    SitePlace(segs[i].vaddr, j, t, addr);
    QuietOffset(elf, segs, i, addr, t);
    LoadAllAt(m, elf, segs, i, addr + t, addr);
  }

  lemma SiteIsBacked(elf: seq<Byte>, segs: seq<Segment>, i: nat, j: nat, addr: Word)
    requires AllInFile(elf, segs) && i < |segs| && segs[i].isLoad && AllSmall(segs)
    requires Site(FileBytes(elf, segs[i]), j) && Wrap(addr - segs[i].vaddr) == j
    ensures Backs(segs[i], addr) && j < WORD - 4
  {}

  lemma QuietOffset(elf: seq<Byte>, segs: seq<Segment>, i: int, addr: Word, t: nat)
    requires addr <= WORD - 4 && t < 4 && LaterQuietFrom(elf, segs, i, addr)
    ensures LaterQuiet(elf, segs, i, addr + t)
  {
    if t == 0 { assert addr + t == addr; }
    else if t == 1 { assert addr + t == addr + 1; }
    else if t == 2 { assert addr + t == addr + 2; }
    else { assert addr + t == addr + 3; }
  }

  lemma SitePlace(vaddr: Word, j: nat, t: nat, addr: Word)
    requires j < WORD - 4 && t < 4 && OnePage(addr) && Wrap(addr - vaddr) == j
    ensures Wrap(addr + t - vaddr) == j + t && PageDown(addr + t) == PageDown(addr)
  {}
}

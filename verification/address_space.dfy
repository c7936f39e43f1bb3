/** brk, mmap and munmap as operations on the page store and the program break. */
module AddressSpace {
  import opened Words
  import opened PagedMemory
  import opened Smallest

  const DEF_HEAP_ADDR: Word := 0x7000_0000
  const MMAP_START: Word := 0x10_0000

  datatype Space = Space(pages: Pages, heap: Word, taskVmEnd: Word)

  datatype Op =
    | CallBrk(newBrk: Word)
    | CallMmap(addr: Word, length: Word)
    | CallMunmap(addr: Word, length: Word)
    | CallWrite(addr: Word, data: seq<Byte>)

  // ---- brk ----

  function Brk(s: Space, newBrk: Word): Space {
    if newBrk == 0 then s
    else if newBrk > s.heap then
      var start := PageDown(s.heap);
      s.(heap := newBrk, pages := BlankPages(s.pages, start, Steps(start, PageUp(newBrk))))
    else s.(heap := newBrk)
  }

  /** Every byte between the start of the heap and the break is mapped. */
  ghost predicate HeapMapped(s: Space) {
    forall a: Word :: DEF_HEAP_ADDR <= a < s.heap ==> ByteAt(s.pages, a).Some?
  }

  lemma PageUpMeans(x: Word)
    ensures x <= WORD - PAGE_SIZE ==>
              x <= PageUp(x) && PageAligned(PageUp(x)) && PageDown(x) <= PageUp(x) < x + PAGE_SIZE
    ensures x > WORD - PAGE_SIZE ==> PageUp(x) == 0
  {}

  /** Growing maps exactly the bytes up to the rounded break and keeps what was there,
      unless rounding the new break up leaves the address space. */
  lemma BrkAt(s: Space, newBrk: Word, a: Word)
    ensures ByteAt(Brk(s, newBrk).pages, a) ==
            if PageDown(a) in s.pages then ByteAt(s.pages, a)
            else if s.heap < newBrk <= WORD - PAGE_SIZE && PageDown(s.heap) <= a < PageUp(newBrk) then Some(0)
            else None
  {
    PageUpMeans(newBrk);
    if newBrk > s.heap {
      var start := PageDown(s.heap);
      PageDownLocates(s.heap, s.heap);
      if newBrk <= WORD - PAGE_SIZE {
        BlankPagesAt(s.pages, start, Steps(start, PageUp(newBrk)), a);
        assert Covers(start, PageUp(newBrk) - start, a) == (start <= a < PageUp(newBrk));
      }
    }
  }

  /** One brk call keeps a fully mapped heap fully mapped exactly when the new break does not
      lie in the topmost page, or the bytes up to it happen to be mapped already. */
  lemma BrkKeepsHeapMapped(s: Space, newBrk: Word)
    requires HeapMapped(s)
    ensures HeapMapped(Brk(s, newBrk))
            <==> newBrk <= WORD - PAGE_SIZE || forall a: Word :: StartsGrowth(s, newBrk, a) ==> ByteAt(s.pages, a).Some?
  {
    var t := Brk(s, newBrk);
    if newBrk <= WORD - PAGE_SIZE {
      BrkKeepsMapped(s, newBrk);
    } else {
      forall a: Word
        ensures ByteAt(t.pages, a) == ByteAt(s.pages, a)
      {
        BrkAt(s, newBrk, a);
      }
      forall a: Word | DEF_HEAP_ADDR <= a < newBrk && !StartsGrowth(s, newBrk, a)
        ensures ByteAt(s.pages, a).Some?
      {}
    }
  }

  /** `a` lies in the heap, between the old break and the new one. */
  predicate StartsGrowth(s: Space, newBrk: Word, a: Word) {
    DEF_HEAP_ADDR <= a && s.heap <= a < newBrk
  }

  lemma BrkKeepsMapped(s: Space, newBrk: Word)
    requires HeapMapped(s) && newBrk <= WORD - PAGE_SIZE
    ensures HeapMapped(Brk(s, newBrk))
  {
    var t := Brk(s, newBrk);
    forall a: Word | DEF_HEAP_ADDR <= a < t.heap
      ensures ByteAt(t.pages, a).Some?
    {
      BrkAt(s, newBrk, a);
      PageUpMeans(newBrk);
      if a < s.heap { assert ByteAt(s.pages, a).Some?; }
    }
  }

  // ---- find_free_area ----

  /** The scan over the keys in ascending order: stop at the first gap that holds `size` bytes. */
  ghost function FirstFit(keys: set<Word>, last: Word, size: Word): Word
    decreases |keys|
  {
    if keys == {} then last
    else
      var v := Least(keys);
      if Wrap(last + size) <= v then last else FirstFit(keys - {v}, Wrap(v + PAGE_SIZE), size)
  }

  ghost function FindFreeArea(s: Space, start: Word, size: Word): Word {
    FirstFit(s.pages.Keys, ScanStart(s, start), size)
  }

  ghost predicate Apart(keys: set<Word>, lo: Word, size: Word) {
    forall k :: k in keys ==> k + PAGE_SIZE <= lo || lo + size <= k
  }

  /** The scan stops behind key `k`: the range there seems to end before every later key. */
  ghost predicate Stops(keys: set<Word>, k: Word, size: Word) {
    k in keys && forall v :: v in keys && v > k ==> Wrap(Wrap(k + PAGE_SIZE) + size) <= v
  }

  ghost predicate FirstStop(keys: set<Word>, k: Word, size: Word) {
    Stops(keys, k, size) && forall j :: j in keys && j < k ==> !Stops(keys, j, size)
  }

  /** The scan has passed the keys below `p`, and `p` itself is the last one behind it. */
  ghost predicate Passed(keys: set<Word>, rest: set<Word>, p: Word, size: Word) {
    && p in keys && rest <= keys
    && (forall k :: k in keys ==> (k in rest <==> k > p))
    && (forall j :: j in keys && j < p ==> !Stops(keys, j, size))
  }

  lemma PassNext(keys: set<Word>, rest: set<Word>, p: Word, size: Word, v: Word)
    requires Passed(keys, rest, p, size) && IsLeast(v, rest) && Wrap(Wrap(p + PAGE_SIZE) + size) > v
    ensures Passed(keys, rest - {v}, v, size)
  {
    assert v in keys && v > p;
    forall j | j in keys && j < v
      ensures !Stops(keys, j, size)
    {
      assert j in rest <==> j > p;
    }
  }

  lemma {:induction false} ScanFrom(keys: set<Word>, rest: set<Word>, p: Word, size: Word)
    requires Passed(keys, rest, p, size)
    ensures exists k: Word ::
              FirstStop(keys, k, size) && FirstFit(rest, Wrap(p + PAGE_SIZE), size) == Wrap(k + PAGE_SIZE)
    decreases |rest|
  {
    hide Wrap;
    if rest == {} || Wrap(Wrap(p + PAGE_SIZE) + size) <= Least(rest) {
      forall v | v in keys && v > p
        ensures Wrap(Wrap(p + PAGE_SIZE) + size) <= v
      {
        assert v in rest;
      }
      assert FirstStop(keys, p, size);
    } else {
      var v := Least(rest);
      PassNext(keys, rest, p, size, v);
      ScanFrom(keys, rest - {v}, v, size);
    }
  }

  /** The scan takes its starting point, or goes on to the first key it stops behind. */
  predicate TakesStart(keys: set<Word>, last: Word, size: Word) {
    forall k :: k in keys ==> Wrap(last + size) <= k
  }

  lemma FirstFitMeans(keys: set<Word>, last: Word, size: Word)
    ensures TakesStart(keys, last, size) ==> FirstFit(keys, last, size) == last
    ensures !TakesStart(keys, last, size) ==>
              exists k: Word :: FirstStop(keys, k, size) && FirstFit(keys, last, size) == Wrap(k + PAGE_SIZE)
  {
    hide Wrap;
    if keys != {} {
      var v := Least(keys);
      if !(Wrap(last + size) <= v) {
        assert Passed(keys, keys - {v}, v, size);
        ScanFrom(keys, keys - {v}, v, size);
      }
    }
  }

  /** A gap of that size behind key `k`. */
  ghost predicate Gap(keys: set<Word>, k: Word, size: Word) {
    && k in keys && k + PAGE_SIZE + size < WORD
    && forall v :: v in keys && v > k ==> k + PAGE_SIZE + size <= v
  }

  /** No range behind a key passes the top, and none is free: the scan goes round to 0. */
  ghost predicate GoesRound(keys: set<Word>, size: Word) {
    && WORD - PAGE_SIZE in keys
    && forall k :: k in keys && k < WORD - PAGE_SIZE ==>
         k + PAGE_SIZE + size < WORD && exists v :: v in keys && k < v < k + PAGE_SIZE + size
  }

  /** What the space must look like for the scan to answer with a free range. */
  ghost predicate FindsRoom(keys: set<Word>, last: Word, size: Word) {
    if TakesStart(keys, last, size) then last + size < WORD
    else (exists k: Word :: Gap(keys, k, size)) || (GoesRound(keys, size) && forall k :: k in keys ==> size <= k)
  }

  lemma GapStops(keys: set<Word>, k: Word, size: Word)
    requires Gap(keys, k, size)
    ensures Stops(keys, k, size)
  {}

  /** Below the topmost page, the range behind a stop is free exactly when it is a gap. */
  lemma StopBelowTop(keys: set<Word>, k: Word, size: Word)
    requires AlignedSet(keys) && FirstStop(keys, k, size) && k < WORD - PAGE_SIZE
    ensures Wrap(k + PAGE_SIZE) == k + PAGE_SIZE && !GoesRound(keys, size)
    ensures k + PAGE_SIZE + size < WORD && Apart(keys, k + PAGE_SIZE, size) <==> exists j: Word :: Gap(keys, j, size)
  {
    SmallWraps(k + PAGE_SIZE, size);
    if k + PAGE_SIZE + size < WORD {
      assert Gap(keys, k, size);
      BehindIsApart(keys, k, size);
    }
    if j: Word :| Gap(keys, j, size) {
      GapStops(keys, j, size);
      assert k <= j;
    }
  }

  lemma SmallWraps(x: Word, size: Word)
    ensures Wrap(x) == x && (x + size < WORD ==> Wrap(x + size) == x + size)
  {}

  lemma BehindIsApart(keys: set<Word>, k: Word, size: Word)
    requires AlignedSet(keys) && Gap(keys, k, size) && k < WORD - PAGE_SIZE
    ensures Apart(keys, k + PAGE_SIZE, size)
  {
    forall v | v in keys && v < k
      ensures v + PAGE_SIZE <= k
    {
      AlignedStep(v, k);
    }
  }

  lemma AlignedStep(v: Word, k: Word)
    requires PageAligned(v) && PageAligned(k) && v < k
    ensures v + PAGE_SIZE <= k
  {}

  ghost predicate AlignedSet(keys: set<Word>) {
    forall k :: k in keys ==> PageAligned(k)
  }

  /** Behind the topmost page the scan stops at 0. */
  lemma StopAtTop(keys: set<Word>, k: Word, size: Word)
    requires AlignedSet(keys) && FirstStop(keys, k, size) && k >= WORD - PAGE_SIZE
    ensures Wrap(k + PAGE_SIZE) == 0 && !(exists j: Word :: Gap(keys, j, size))
    ensures Apart(keys, 0, size) <==> GoesRound(keys, size) && forall v :: v in keys ==> size <= v
  {
    assert k == WORD - PAGE_SIZE;
    if j: Word :| Gap(keys, j, size) { GapStops(keys, j, size); }
    if forall v :: v in keys ==> size <= v {
      forall j | j in keys && j < WORD - PAGE_SIZE
        ensures j + PAGE_SIZE + size < WORD && exists v :: v in keys && j < v < j + PAGE_SIZE + size
      {
        NoWrapBelowTop(keys, j, size);
      }
    }
  }

  lemma NoWrapBelowTop(keys: set<Word>, j: Word, size: Word)
    requires AlignedSet(keys) && j in keys && j < WORD - PAGE_SIZE && !Stops(keys, j, size)
    requires forall v :: v in keys ==> size <= v
    ensures j + PAGE_SIZE + size < WORD && exists v :: v in keys && j < v < j + PAGE_SIZE + size
  {
    var v :| v in keys && v > j && Wrap(Wrap(j + PAGE_SIZE) + size) > v;
    assert j + PAGE_SIZE < WORD by { AlignedStep(j, WORD - PAGE_SIZE); }
    WrappedIsSmaller(j + PAGE_SIZE, size);
    assert size <= v;
  }

  lemma WrappedIsSmaller(x: Word, size: Word)
    ensures Wrap(x) == x && Wrap(x + size) == (if x + size < WORD then x + size else x + size - WORD)
  {}

  lemma StartIsApart(keys: set<Word>, last: Word, size: Word)
    requires TakesStart(keys, last, size) && last + size < WORD
    ensures Apart(keys, last, size)
  {
    SmallWraps(last, size);
  }

  /** The answer ends inside the address space and meets no key, exactly when the range at
      the starting point fits, or the keys leave a gap, or the scan goes round to free pages
      at the bottom. */
  lemma FirstFitIsFree(keys: set<Word>, last: Word, size: Word)
    requires AlignedSet(keys)
    ensures var r := FirstFit(keys, last, size);
            r + size < WORD && Apart(keys, r, size) <==> FindsRoom(keys, last, size)
  {
    hide Wrap, TakesStart, Apart, Gap, GoesRound;
    FirstFitMeans(keys, last, size);
    if TakesStart(keys, last, size) {
      if last + size < WORD { StartIsApart(keys, last, size); }
    } else {
      var k: Word :| FirstStop(keys, k, size) && FirstFit(keys, last, size) == Wrap(k + PAGE_SIZE);
      if k < WORD - PAGE_SIZE { StopBelowTop(keys, k, size); } else { StopAtTop(keys, k, size); }
    }
  }

  lemma AlignedRange(r: Word, size: Word, a: Word)
    requires r <= a < r + size
    ensures PageDown(a) + PAGE_SIZE > r && PageDown(a) < r + size
  {}

  /** Room for the range above the starting point and above every key is enough. */
  lemma RoomSuffices(keys: set<Word>, last: Word, size: Word)
    requires last + size < WORD && forall k :: k in keys ==> k + PAGE_SIZE + size < WORD
    ensures FindsRoom(keys, last, size)
  {
    FirstFitMeans(keys, last, size);
    if !TakesStart(keys, last, size) {
      var k: Word :| FirstStop(keys, k, size);
      SmallWraps(k + PAGE_SIZE, size);
      assert Gap(keys, k, size);
    }
  }

  function ScanStart(s: Space, start: Word): Word {
    if s.taskVmEnd >= start then s.taskVmEnd else start
  }

  ghost predicate FreeRange(s: Space, lo: Word, size: Word) {
    lo + size < WORD && forall a: Word :: lo <= a < lo + size ==> ByteAt(s.pages, a) == None
  }

  lemma ApartIsFree(s: Space, lo: Word, size: Word)
    requires AlignedKeys(s.pages) && lo + size < WORD && size > 0
    ensures Apart(s.pages.Keys, lo, size) <==> FreeRange(s, lo, size)
  {
    if Apart(s.pages.Keys, lo, size) {
      forall a: Word | lo <= a < lo + size
        ensures ByteAt(s.pages, a) == None
      {
        AlignedRange(lo, size, a);
        assert PageDown(a) !in s.pages.Keys;
      }
    }
    if FreeRange(s, lo, size) {
      forall k | k in s.pages.Keys
        ensures k + PAGE_SIZE <= lo || lo + size <= k
      {
        assert PageAligned(k);
        InItsPage(k, k);
        if k < lo < k + PAGE_SIZE { InItsPage(k, lo); }
        assert lo <= k < lo + size ==> ByteAt(s.pages, k) == None;
        assert ByteAt(s.pages, lo) == None;
      }
    }
  }

  lemma InItsPage(k: Word, a: Word)
    requires PageAligned(k) && k <= a < k + PAGE_SIZE
    ensures PageDown(a) == k
  {}

  /** `find_free_area` answers with a range inside the address space that meets no mapped
      byte exactly when `FindsRoom` holds of the mapped pages beforehand. */
  lemma FindFreeAreaIsFree(s: Space, start: Word, size: Word)
    requires AlignedKeys(s.pages)
    ensures FreeRange(s, FindFreeArea(s, start, size), size)
            <==> size == 0 || FindsRoom(s.pages.Keys, ScanStart(s, start), size)
  {
    hide FirstFit, Apart, FindsRoom;
    var r := FindFreeArea(s, start, size);
    FirstFitIsFree(s.pages.Keys, ScanStart(s, start), size);
    if 0 < size < WORD - r { ApartIsFree(s, r, size); }
  }

  /** The answer lies below the address asked for exactly when the scan does not take its
      starting point and the key it first stops behind lies that low; unless the topmost
      page is mapped, exactly when it could stop behind any key that low. */
  lemma FindFreeAreaGoesLower(s: Space, start: Word, size: Word)
    ensures FindFreeArea(s, start, size) < start <==>
              && !TakesStart(s.pages.Keys, ScanStart(s, start), size)
              && exists k: Word :: FirstStop(s.pages.Keys, k, size) && Wrap(k + PAGE_SIZE) < start
    ensures AlignedKeys(s.pages) && WORD - PAGE_SIZE !in s.pages ==>
              (FindFreeArea(s, start, size) < start <==>
                 && !TakesStart(s.pages.Keys, ScanStart(s, start), size)
                 && exists k: Word :: Stops(s.pages.Keys, k, size) && k + PAGE_SIZE < start)
  {
    hide Wrap, TakesStart, FirstFit;
    var keys := s.pages.Keys;
    FirstFitMeans(keys, ScanStart(s, start), size);
    if !TakesStart(keys, ScanStart(s, start), size) {
      var k: Word :| FirstStop(keys, k, size) && FirstFit(keys, ScanStart(s, start), size) == Wrap(k + PAGE_SIZE);
      if j: Word :| FirstStop(keys, j, size) && Wrap(j + PAGE_SIZE) < start {
        assert j == k;
      }
      if AlignedKeys(s.pages) && WORD - PAGE_SIZE !in s.pages {
        EndOfPage(k);
        if j: Word :| Stops(keys, j, size) && j + PAGE_SIZE < start {
          assert k <= j;
        }
      }
    }
  }

  lemma EndOfPage(k: Word)
    requires PageAligned(k) && k != WORD - PAGE_SIZE
    ensures Wrap(k + PAGE_SIZE) == k + PAGE_SIZE
  {}

  /** The scan starts at the higher one of the address asked for and the end of the program,
      and answers with it if the range there seems to end below every page; otherwise with the
      end of a page. */
  lemma ScanStartsHigh(s: Space, start: Word, size: Word, from: Word)
    requires from in {start, s.taskVmEnd} && from >= start && from >= s.taskVmEnd
    ensures (forall k :: k in s.pages ==> (from + size) % WORD <= k) ==> FindFreeArea(s, start, size) == from
    ensures (exists k :: k in s.pages && k < (from + size) % WORD) ==>
              exists k :: k in s.pages && FindFreeArea(s, start, size) == (k + 4096) % WORD
  {
    hide FirstFit, Stops;
    FirstFitMeans(s.pages.Keys, from, size);
    if k :| k in s.pages && k < (from + size) % WORD {
      assert !TakesStart(s.pages.Keys, from, size);
      var j: Word :| FirstStop(s.pages.Keys, j, size) && FirstFit(s.pages.Keys, from, size) == Wrap(j + PAGE_SIZE);
      FirstStopIsKey(s.pages.Keys, j, size);
    }
  }

  lemma FirstStopIsKey(keys: set<Word>, k: Word, size: Word)
    requires FirstStop(keys, k, size)
    ensures k in keys
  {}

  /** A sum that wraps to zero looks as if it fitted below every key: then the answer can be
      a mapped page. */
  lemma FindFreeAreaCanCollide(page: Page)
    ensures var top: Word := WORD - PAGE_SIZE;
            var s := Space(map[top := page], DEF_HEAP_ADDR, top);
            FindFreeArea(s, MMAP_START, PAGE_SIZE) == top && ByteAt(s.pages, top).Some?
  {
    var top: Word := WORD - PAGE_SIZE;
    var m: Pages := map[top := page];
    assert m.Keys == {top} && Least({top}) == top;
    assert Wrap(top + PAGE_SIZE) == 0;
    assert PageDown(top) == top;
  }

  /** The result may lie below the requested start. */
  lemma FindFreeAreaMayReturnLower(page: Page)
    ensures FindFreeArea(Space(map[0x1000 := page], DEF_HEAP_ADDR, 0), MMAP_START, PAGE_SIZE) == 0x2000 < MMAP_START
  {
    var m: Pages := map[0x1000 := page];
    assert m.Keys == {0x1000} && Least({0x1000}) == 0x1000;
    assert {0x1000} - {0x1000} == {};
  }

  // ---- mmap and munmap ----

  function PageCount(length: Word): nat {
    Wrap(length + PAGE_SIZE - 1) / PAGE_SIZE
  }

  ghost function MmapStart(s: Space, addr: Word, length: Word): Word {
    if addr == 0 then FindFreeArea(s, MMAP_START, PageCount(length) * PAGE_SIZE) else PageDown(addr)
  }

  ghost function Mmap(s: Space, addr: Word, length: Word): Space {
    s.(pages := BlankPages(s.pages, MmapStart(s, addr, length), PageCount(length)))
  }

  function Munmap(s: Space, addr: Word, length: Word): Space {
    s.(pages := Unmapped(s.pages, PageDown(addr), PageDown(Wrap(addr + length + PAGE_SIZE - 1))))
  }

  /** The mapped pages leave room for an anonymous mapping of that length. */
  ghost predicate RoomToMap(s: Space, length: Word) {
    PageCount(length) == 0 || FindsRoom(s.pages.Keys, ScanStart(s, MMAP_START), PageCount(length) * PAGE_SIZE)
  }

  lemma PageCountCovers(length: Word)
    ensures PageCount(length) * PAGE_SIZE <= WORD - PAGE_SIZE
    ensures PageCount(length) * PAGE_SIZE >= length <==> length <= WORD - PAGE_SIZE
    ensures length <= WORD - PAGE_SIZE ==> PageCount(length) * PAGE_SIZE < length + PAGE_SIZE
    ensures length > WORD - PAGE_SIZE ==> PageCount(length) == 0
  {}

  ghost predicate AlignedSpace(s: Space) {
    AlignedKeys(s.pages) && PageAligned(s.taskVmEnd)
  }

  /** An anonymous mmap hands out bytes that were unmapped exactly when there is room. */
  lemma MmapFindsFreeBytes(s: Space, length: Word)
    requires AlignedSpace(s)
    ensures FreeRange(s, MmapStart(s, 0, length), PageCount(length) * PAGE_SIZE) <==> RoomToMap(s, length)
  {
    hide FindFreeArea, FindsRoom, PageCount, FreeRange;
    PageCountCovers(length);
    FindFreeAreaIsFree(s, MMAP_START, PageCount(length) * PAGE_SIZE);
  }

  /** Then it makes exactly those bytes read as zero, and changes no other byte of the space. */
  lemma MmapIsFresh(s: Space, length: Word, a: Word)
    requires AlignedSpace(s) && RoomToMap(s, length)
    ensures var r := MmapStart(s, 0, length); var size := PageCount(length) * PAGE_SIZE;
            && (r <= a < r + size ==> ByteAt(s.pages, a) == None && ByteAt(Mmap(s, 0, length).pages, a) == Some(0))
            && (!(r <= a < r + size) ==> ByteAt(Mmap(s, 0, length).pages, a) == ByteAt(s.pages, a))
  {
    hide FirstFit, BlankPages, PageDown, ByteAt, PageCount, Covers, RoomToMap;
    var r, size := MmapStart(s, 0, length), PageCount(length) * PAGE_SIZE;
    PageCountCovers(length);
    FirstFitAligned(s.pages.Keys, ScanStart(s, MMAP_START), size);
    BlankPagesAt(s.pages, r, PageCount(length), a);
    MappedBytes(s.pages, a);
    MmapFindsFreeBytes(s, length);
    CoversRange(r, size, a);
  }

  /** The first anonymous mapping starts at 0x10_0000, or behind the program if that ends higher. */
  lemma FirstMapping(s: Space, length: Word)
    requires forall k :: k in s.pages ==> Wrap(s.taskVmEnd + PageCount(length) * PAGE_SIZE) <= k
    requires s.pages == map[] || s.taskVmEnd >= 0x10_0000
    ensures MmapStart(s, 0, length) == if s.taskVmEnd >= 0x10_0000 then s.taskVmEnd else 0x10_0000
  {
    hide PageCount, Wrap;
    PageCountCovers(length);
    FirstFitMeans(s.pages.Keys, ScanStart(s, MMAP_START), PageCount(length) * PAGE_SIZE);
  }

  /** At an address of the caller's choosing mmap makes the unmapped bytes of its page and of
      those that follow it, on past the top if need be, read as zero; mapped bytes stay. */
  lemma MmapAtAddress(s: Space, addr: Word, length: Word, a: Word)
    requires addr != 0
    ensures var (before, after) := (ByteAt(s.pages, a), ByteAt(Mmap(s, addr, length).pages, a));
            var size := PageCount(length) * PAGE_SIZE;
            after == if before.Some? then before
                     else if (a - (addr - addr % 4096)) % WORD < size then Some(0) else None
  {
    hide BlankPages, PageCount;
    PageCountCovers(length);
    PageDownLocates(addr, addr);
    BlankPagesAt(s.pages, PageDown(addr), PageCount(length), a);
  }

  lemma {:induction false} FirstFitAligned(keys: set<Word>, last: Word, size: Word)
    requires PageAligned(last) && forall k :: k in keys ==> PageAligned(k)
    ensures PageAligned(FirstFit(keys, last, size))
    decreases |keys|
  {
    if keys != {} {
      var v := Least(keys);
      if !(Wrap(last + size) <= v) {
        assert PageAligned(Wrap(v + PAGE_SIZE));
        FirstFitAligned(keys - {v}, Wrap(v + PAGE_SIZE), size);
      }
    }
  }

  lemma MmapKeepsAligned(s: Space, addr: Word, length: Word)
    requires AlignedSpace(s)
    ensures AlignedSpace(Mmap(s, addr, length)) && s.pages.Keys <= Mmap(s, addr, length).pages.Keys
  {
    FirstFitAligned(s.pages.Keys, ScanStart(s, MMAP_START), PageCount(length) * PAGE_SIZE);
    BlankPagesAligned(s.pages, MmapStart(s, addr, length), PageCount(length));
  }

  /** munmap removes exactly the pages of the rounded range; rounding past the top removes none. */
  lemma MunmapAt(s: Space, addr: Word, length: Word, a: Word)
    requires addr + length <= WORD - PAGE_SIZE
    ensures ByteAt(Munmap(s, addr, length).pages, a) ==
            if PageDown(addr) <= a < PageUp(addr + length) then None else ByteAt(s.pages, a)
  {
    PageDownLocates(a, a);
    PageUpMeans(addr + length);
    assert PageDown(a) < PageUp(addr + length) <==> a < PageUp(addr + length);
    assert PageDown(addr) <= PageDown(a) <==> PageDown(addr) <= a;
  }

  /** A range inside the address space is unmapped by munmap exactly when its end is not in
      the topmost page, or there was nothing to unmap. */
  lemma MunmapUnmapsTheRange(s: Space, addr: Word, length: Word)
    requires addr + length <= WORD
    ensures (forall a: Word :: addr <= a < addr + length ==> ByteAt(Munmap(s, addr, length).pages, a) == None)
            <==> addr + length <= WORD - PAGE_SIZE
                 || forall a: Word :: addr <= a < addr + length ==> ByteAt(s.pages, a) == None
  {
    if addr + length <= WORD - PAGE_SIZE {
      forall a: Word | addr <= a < addr + length
        ensures ByteAt(Munmap(s, addr, length).pages, a) == None
      {
        MunmapAt(s, addr, length, a);
        PageUpMeans(addr + length);
      }
    } else {
      TopRangeEndsAtZero(addr, length);
      assert Munmap(s, addr, length).pages == s.pages;
    }
  }

  lemma TopRangeEndsAtZero(addr: Word, length: Word)
    requires WORD - PAGE_SIZE < addr + length <= WORD
    ensures PageDown(Wrap(addr + length + PAGE_SIZE - 1)) == 0
  {}

  // ---- runs ----

  ghost function Step(s: Space, op: Op): Space {
    match op
    case CallBrk(newBrk) => Brk(s, newBrk)
    case CallMmap(addr, length) => Mmap(s, addr, length)
    case CallMunmap(addr, length) => Munmap(s, addr, length)
    case CallWrite(addr, data) => s.(pages := PutBytes(s.pages, addr, data))
  }

  ghost function Run(s: Space, ops: seq<Op>): Space
    decreases |ops|
  {
    if ops == [] then s else Run(Step(s, ops[0]), ops[1..])
  }

  predicate KeepsHeap(op: Op) {
    !op.CallMunmap? && (op.CallBrk? ==> op.newBrk <= WORD - PAGE_SIZE)
  }

  lemma StepKeepsHeap(s: Space, op: Op)
    requires AlignedSpace(s) && HeapMapped(s) && KeepsHeap(op)
    ensures AlignedSpace(Step(s, op)) && HeapMapped(Step(s, op))
    ensures s.pages.Keys <= Step(s, op).pages.Keys
  {
    var t := Step(s, op);
    match op
    case CallBrk(newBrk) =>
      BrkKeepsMapped(s, newBrk);
      PageDownLocates(s.heap, s.heap);
      BlankPagesAligned(s.pages, PageDown(s.heap), Steps(PageDown(s.heap), PageUp(newBrk)));
    case CallMmap(addr, length) =>
      MmapKeepsAligned(s, addr, length);
      StillMapped(s, t);
    case CallWrite(addr, data) =>
      PutBytesAligned(s.pages, addr, data);
      StillMapped(s, t);
  }

  lemma StillMapped(s: Space, t: Space)
    requires HeapMapped(s) && t.heap == s.heap && s.pages.Keys <= t.pages.Keys
    ensures HeapMapped(t)
  {
    forall a: Word | DEF_HEAP_ADDR <= a < t.heap
      ensures ByteAt(t.pages, a).Some?
    {
      assert ByteAt(s.pages, a).Some?;
      assert PageDown(a) in s.pages.Keys;
    }
  }

  lemma EmptySpaceIsSound()
    ensures AlignedSpace(Space(map[], DEF_HEAP_ADDR, 0)) && HeapMapped(Space(map[], DEF_HEAP_ADDR, 0))
  {}

  /** Over any run of brk, mmap and write calls the whole heap stays mapped. */
  lemma {:induction false} HeapStaysMapped(s: Space, ops: seq<Op>)
    requires AlignedSpace(s) && HeapMapped(s) && forall i :: 0 <= i < |ops| ==> KeepsHeap(ops[i])
    ensures AlignedSpace(Run(s, ops)) && HeapMapped(Run(s, ops))
    decreases |ops|
  {
    if ops != [] {
      StepKeepsHeap(s, ops[0]);
      HeapStaysMapped(Step(s, ops[0]), ops[1..]);
    }
  }

  lemma MappingKeepsByte(s: Space, op: Op, a: Word)
    requires AlignedSpace(s) && (op.CallBrk? || op.CallMmap?) && ByteAt(s.pages, a).Some?
    ensures AlignedSpace(Step(s, op)) && ByteAt(Step(s, op).pages, a) == ByteAt(s.pages, a)
  {
    hide ByteAt, BlankPages, FirstFit, PageCount, Steps;
    MappedBytes(s.pages, a);
    match op {
      case CallBrk(newBrk) =>
        BrkAt(s, newBrk, a);
        PageDownLocates(s.heap, s.heap);
        BlankPagesAligned(s.pages, PageDown(s.heap), Steps(PageDown(s.heap), PageUp(newBrk)));
      case CallMmap(addr, length) =>
        PageCountCovers(length);
        FirstFitAligned(s.pages.Keys, ScanStart(s, MMAP_START), PageCount(length) * PAGE_SIZE);
        BlankPagesAt(s.pages, MmapStart(s, addr, length), PageCount(length), a);
        MmapKeepsAligned(s, addr, length);
    }
  }

  /** Calls other than munmap only add pages. */
  lemma StepAddsPages(s: Space, op: Op)
    requires AlignedSpace(s) && !op.CallMunmap?
    ensures AlignedSpace(Step(s, op)) && s.pages.Keys <= Step(s, op).pages.Keys
  {
    match op
    case CallBrk(newBrk) =>
      PageDownLocates(s.heap, s.heap);
      BlankPagesAligned(s.pages, PageDown(s.heap), Steps(PageDown(s.heap), PageUp(newBrk)));
    case CallMmap(addr, length) => MmapKeepsAligned(s, addr, length);
    case CallWrite(addr, data) => PutBytesAligned(s.pages, addr, data);
  }

  lemma {:induction false} RunAddsPages(s: Space, ops: seq<Op>)
    requires AlignedSpace(s) && forall i :: 0 <= i < |ops| ==> !ops[i].CallMunmap?
    ensures AlignedSpace(Run(s, ops)) && s.pages.Keys <= Run(s, ops).pages.Keys
    decreases |ops|
  {
    hide Step, AlignedSpace;
    if ops != [] {
      StepAddsPages(s, ops[0]);
      RunAddsPages(Step(s, ops[0]), ops[1..]);
    }
  }

  /** The bytes an anonymous mmap call hands out. */
  ghost predicate HandsOut(s: Space, length: Word, a: Word) {
    MmapStart(s, 0, length) <= a < MmapStart(s, 0, length) + PageCount(length) * PAGE_SIZE
  }

  lemma HandedOutIsMapped(s: Space, length: Word, a: Word)
    requires AlignedSpace(s) && RoomToMap(s, length) && HandsOut(s, length, a)
    ensures PageDown(a) !in s.pages && PageDown(a) in Mmap(s, 0, length).pages
  {
    hide RoomToMap, Mmap, MmapStart, PageDown;
    MmapIsFresh(s, length, a);
    MappedBytes(s.pages, a);
    MappedBytes(Mmap(s, 0, length).pages, a);
  }

  /** Any two anonymous mappings share no byte, whatever brk, mmap and write calls lie
      between them. */
  lemma MmapsOfARunDisjoint(s: Space, first: Word, between: seq<Op>, second: Word, a: Word)
    requires AlignedSpace(s) && forall i :: 0 <= i < |between| ==> !between[i].CallMunmap?
    requires RoomToMap(s, first) && RoomToMap(Run(Mmap(s, 0, first), between), second)
    ensures !(HandsOut(s, first, a) && HandsOut(Run(Mmap(s, 0, first), between), second, a))
  {
    hide HandsOut, RoomToMap, Mmap, Run, AlignedSpace;
    MmapKeepsAligned(s, 0, first);
    RunAddsPages(Mmap(s, 0, first), between);
    if HandsOut(s, first, a) && HandsOut(Run(Mmap(s, 0, first), between), second, a) {
      HandedOutIsMapped(s, first, a);
      HandedOutIsMapped(Run(Mmap(s, 0, first), between), second, a);
      assert false;
    }
  }

  /** The argument of the last brk call that was not a query, or `heap` if there is none. */
  function LastBreak(ops: seq<Op>, heap: Word): Word {
    if ops == [] then heap
    else LastBreak(ops[1..], if ops[0].CallBrk? && ops[0].newBrk != 0 then ops[0].newBrk else heap)
  }

  /** Over any run the break is what was last asked for, growing or shrinking, and no call
      moves the end of the program. */
  lemma {:induction false} BreakIsLastAskedFor(s: Space, ops: seq<Op>)
    ensures Run(s, ops).heap == LastBreak(ops, s.heap) && Run(s, ops).taskVmEnd == s.taskVmEnd
    decreases |ops|
  {
    if ops != [] { BreakIsLastAskedFor(Step(s, ops[0]), ops[1..]); }
  }

  /** Over any run of brk and mmap calls, shrinking ones included, a byte once mapped keeps its value. */
  lemma {:induction false} ContentsSurvive(s: Space, ops: seq<Op>, a: Word)
    requires AlignedSpace(s) && forall i :: 0 <= i < |ops| ==> ops[i].CallBrk? || ops[i].CallMmap?
    requires ByteAt(s.pages, a).Some?
    ensures ByteAt(Run(s, ops).pages, a) == ByteAt(s.pages, a)
    decreases |ops|
  {
    hide Step, AlignedSpace, ByteAt;
    if ops != [] {
      MappingKeepsByte(s, ops[0], a);
      ContentsSurvive(Step(s, ops[0]), ops[1..], a);
    }
  }
}

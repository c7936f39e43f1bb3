/** The in-memory page store behind a task's address space, as a value.

    Addresses are 64-bit words and move around a ring: a transfer that passes the
    top of the address space continues at address zero, as the release build does. */
module PagedMemory {
  import opened Words

  type Page = s: seq<Byte> | |s| == 4096 witness seq(4096, _ => 0)
  type Pages = map<Word, Page>

  function ZeroPage(): (p: Page)
    ensures forall i :: 0 <= i < PAGE_SIZE ==> p[i] == 0
  {
    seq(4096, _ => 0)
  }

  /** The flat view: the byte at an address, if its page is present. */
  function ByteAt(m: Pages, a: Word): Option<Byte> {
    if PageDown(a) in m then Some(m[PageDown(a)][a % PAGE_SIZE]) else None
  }

  ghost predicate AlignedKeys(m: Pages) {
    forall p :: p in m ==> PageAligned(p)
  }

  /** `a` is one of the `n` addresses that start at `addr`. */
  predicate Covers(addr: int, n: nat, a: Word) {
    Wrap(a - addr) < n
  }

  lemma MappedBytes(m: Pages, a: Word)
    ensures ByteAt(m, a).Some? <==> PageDown(a) in m
  {}

  /** Below the top of the address space the ring is a line. */
  lemma CoversRange(addr: Word, n: nat, a: Word)
    requires addr + n <= WORD
    ensures Covers(addr, n, a) == (addr <= a < addr + n)
  {}

  /** The page `p` holds one of the `n` addresses that start at `addr`. */
  predicate Touches(addr: int, n: nat, p: Word) {
    n > 0 && (p == PageDown(Wrap(addr)) || Covers(addr, n, p))
  }

  // ---- writing byte by byte: the reference for write_bytes ----

  function PageOrZero(m: Pages, p: Word): Page {
    if p in m then m[p] else ZeroPage()
  }

  function PutByte(m: Pages, a: Word, b: Byte): Pages {
    m[PageDown(a) := PageOrZero(m, PageDown(a))[a % PAGE_SIZE := b]]
  }

  /** `x` counts upwards without bound; every single byte goes to the address it wraps to. */
  function PutBytes(m: Pages, x: int, data: seq<Byte>): Pages
    decreases |data|
  {
    if data == [] then m else PutBytes(PutByte(m, Wrap(x), data[0]), x + 1, data[1..])
  }

  lemma PageDownLocates(a: Word, b: Word)
    ensures PageDown(a) == PageDown(b) && a % PAGE_SIZE == b % PAGE_SIZE ==> a == b
    ensures PageAligned(PageDown(a)) && PageDown(a) <= a < PageDown(a) + PAGE_SIZE
  {}

  lemma PutByteAt(m: Pages, x: Word, b: Byte, a: Word)
    ensures ByteAt(PutByte(m, x, b), a) ==
            if a == x then Some(b)
            else if PageDown(a) in m then ByteAt(m, a)
            else if PageDown(a) == PageDown(x) then Some(0) else None
  {
    PageDownLocates(a, x);
  }

  lemma NextOffset(x: int, a: Word)
    ensures a != Wrap(x) ==> Wrap(a - (x + 1)) == Wrap(a - x) - 1
    ensures a == Wrap(x) ==> Wrap(a - (x + 1)) == WORD - 1 && Wrap(a - x) == 0
  {}

  /** The same ring step seen from a page boundary. */
  lemma TouchesStep(x: int, n: nat, p: Word)
    requires PageAligned(p) && n > 0
    ensures Touches(x, n, p) == (p == PageDown(Wrap(x)) || Touches(x + 1, n - 1, p))
  {
    NextOffset(x, p);
    NextPage(x);
  }

  lemma NextPage(x: int)
    ensures var w := Wrap(x); var v := Wrap(x + 1);
            PageDown(v) == v || PageDown(v) == PageDown(w)
  {
    assert Wrap(x + 1) == if Wrap(x) == WORD - 1 then 0 else Wrap(x) + 1;
  }

  /** What a write leaves at every address of the space: its own bytes where it went,
      zero in the rest of pages it created, and everything else as it was. */
  lemma {:induction false} PutBytesAt(m: Pages, x: int, data: seq<Byte>, a: Word)
    requires |data| <= WORD
    ensures ByteAt(PutBytes(m, x, data), a) ==
            if Covers(x, |data|, a) then Some(data[Wrap(a - x)])
            else if PageDown(a) in m then ByteAt(m, a)
            else if Touches(x, |data|, PageDown(a)) then Some(0) else None
    decreases |data|
  {
    if data != [] {
      var w := Wrap(x);
      PutBytesAt(PutByte(m, w, data[0]), x + 1, data[1..], a);
      PutByteAt(m, w, data[0], a);
      PageDownLocates(a, a);
      TouchesStep(x, |data|, PageDown(a));
      NextOffset(x, a);
    }
  }

  /** The pages a write leaves mapped are the old ones and those it touches. */
  lemma {:induction false} PutBytesPages(m: Pages, x: int, data: seq<Byte>, p: Word)
    requires PageAligned(p)
    ensures p in PutBytes(m, x, data) <==> p in m || Touches(x, |data|, p)
    decreases |data|
  {
    if data != [] {
      PutBytesPages(PutByte(m, Wrap(x), data[0]), x + 1, data[1..], p);
      TouchesStep(x, |data|, p);
    }
  }

  lemma {:induction false} PutBytesAligned(m: Pages, x: int, data: seq<Byte>)
    requires AlignedKeys(m)
    ensures AlignedKeys(PutBytes(m, x, data)) && m.Keys <= PutBytes(m, x, data).Keys
    decreases |data|
  {
    if data != [] {
      PageDownLocates(Wrap(x), Wrap(x));
      PutBytesAligned(PutByte(m, Wrap(x), data[0]), x + 1, data[1..]);
    }
  }

  lemma {:induction false} PutBytesAppend(m: Pages, x: int, xs: seq<Byte>, ys: seq<Byte>)
    ensures PutBytes(m, x, xs + ys) == PutBytes(PutBytes(m, x, xs), x + |xs|, ys)
    decreases |xs|
  {
    if xs == [] {
      assert xs + ys == ys;
    } else {
      PutBytesAppend(PutByte(m, Wrap(x), xs[0]), x + 1, xs[1..], ys);
      assert (xs + ys)[1..] == xs[1..] + ys;
    }
  }

  lemma SameNext(x: int, y: int)
    requires Wrap(x) == Wrap(y)
    ensures Wrap(x + 1) == Wrap(y + 1)
  {}

  /** Positions that wrap to the same address are interchangeable. */
  lemma {:induction false} PutBytesRing(m: Pages, x: int, y: int, data: seq<Byte>)
    requires Wrap(x) == Wrap(y)
    ensures PutBytes(m, x, data) == PutBytes(m, y, data)
    decreases |data|
  {
    if data != [] {
      SameNext(x, y);
      PutBytesRing(PutByte(m, Wrap(x), data[0]), x + 1, y + 1, data[1..]);
    }
  }

  lemma WrapTwice(x: int)
    ensures Wrap(Wrap(x)) == Wrap(x)
  {}

  lemma PutBytesSplit(m: Pages, addr: Word, data: seq<Byte>, xs: seq<Byte>, ys: seq<Byte>)
    requires data == xs + ys
    ensures PutBytes(m, addr, data) == PutBytes(PutBytes(m, addr, xs), Wrap(addr + |xs|), ys)
  {
    PutBytesAppend(m, addr, xs, ys);
    WrapTwice(addr + |xs|);
    PutBytesRing(PutBytes(m, addr, xs), addr + |xs|, Wrap(addr + |xs|), ys);
  }

  /** One slice assignment inside a page is the same as writing its bytes one by one. */
  lemma {:induction false} PutBytesInPage(m: Pages, addr: Word, data: seq<Byte>)
    requires 0 < |data| <= PAGE_SIZE - addr % PAGE_SIZE
    ensures var off := addr % PAGE_SIZE; var page := PageOrZero(m, PageDown(addr));
            PutBytes(m, addr, data) == m[PageDown(addr) := page[..off] + data + page[off + |data|..]]
    decreases |data|
  {
    var off := addr % PAGE_SIZE;
    var p := PageDown(addr);
    var page := PageOrZero(m, p);
    var m' := PutByte(m, addr, data[0]);
    var page' := page[off := data[0]];
    assert Wrap(addr) == addr && m' == m[p := page'];
    if |data| == 1 {
      assert data[1..] == [];
      assert page' == page[..off] + data + page[off + 1..];
    } else {
      StepInPage(addr);
      PutBytesInPage(m', addr + 1, data[1..]);
      SpliceStep(page, off, data);
    }
  }

  lemma SpliceStep(page: Page, off: nat, data: seq<Byte>)
    requires 0 < |data| && off + |data| <= PAGE_SIZE
    ensures var page' := page[off := data[0]];
            page'[..off + 1] + data[1..] + page'[off + |data|..] == page[..off] + data + page[off + |data|..]
  {}

  lemma StepInPage(a: Word)
    requires a % PAGE_SIZE < PAGE_SIZE - 1
    ensures a + 1 < WORD && PageDown(a + 1) == PageDown(a) && (a + 1) % PAGE_SIZE == a % PAGE_SIZE + 1
  {}

  // ---- mapping and unmapping runs of pages ----

  function Blank(m: Pages, a: Word): Pages {
    var p := PageDown(a);
    if p in m then m else m[p := ZeroPage()]
  }

  function BlankPages(m: Pages, x: int, n: nat): Pages
    decreases n
  {
    if n == 0 then m else BlankPages(Blank(m, Wrap(x)), x + PAGE_SIZE, n - 1)
  }

  lemma RingStep(x: int, a: Word)
    requires Wrap(x) % PAGE_SIZE == 0
    ensures Wrap(x + PAGE_SIZE) % PAGE_SIZE == 0
    ensures PageDown(a) == Wrap(x) <==> Wrap(a - x) < PAGE_SIZE
    ensures Wrap(a - (x + PAGE_SIZE)) ==
            if Wrap(a - x) < PAGE_SIZE then Wrap(a - x) + WORD - PAGE_SIZE else Wrap(a - x) - PAGE_SIZE
  {
    hide Wrap, PageDown;
    RingOfPage(x, a);
    InThePage(Wrap(x), a);
  }

  lemma RingOfPage(x: int, a: Word)
    requires Wrap(x) % PAGE_SIZE == 0
    ensures Wrap(x + PAGE_SIZE) == if Wrap(x) < WORD - PAGE_SIZE then Wrap(x) + PAGE_SIZE else 0
    ensures Wrap(a - x) == if a >= Wrap(x) then a - Wrap(x) else a - Wrap(x) + WORD
    ensures Wrap(a - (x + PAGE_SIZE)) ==
            if Wrap(a - x) < PAGE_SIZE then Wrap(a - x) + WORD - PAGE_SIZE else Wrap(a - x) - PAGE_SIZE
  {}

  lemma InThePage(p: Word, a: Word)
    requires p % PAGE_SIZE == 0
    ensures PageDown(a) == p <==> p <= a < p + PAGE_SIZE
  {}

  /** Mapping never changes a byte that is already there; new pages read as zero. */
  lemma {:induction false} BlankPagesAt(m: Pages, x: int, n: nat, a: Word)
    requires PageAligned(Wrap(x)) && n * PAGE_SIZE <= WORD
    ensures ByteAt(BlankPages(m, x, n), a) ==
            if PageDown(a) in m then ByteAt(m, a)
            else if Covers(x, n * PAGE_SIZE, a) then Some(0) else None
    decreases n
  {
    if n > 0 {
      RingStep(x, a);
      BlankPagesAt(Blank(m, Wrap(x)), x + PAGE_SIZE, n - 1, a);
    }
  }

  lemma {:induction false} BlankPagesAligned(m: Pages, x: int, n: nat)
    requires PageAligned(Wrap(x)) && AlignedKeys(m)
    ensures AlignedKeys(BlankPages(m, x, n))
    ensures m.Keys <= BlankPages(m, x, n).Keys
    decreases n
  {
    if n > 0 {
      RingStep(x, 0);
      BlankPagesAligned(Blank(m, Wrap(x)), x + PAGE_SIZE, n - 1);
    }
  }

  /** Pages with keys in [start, end) leave the map. */
  function Unmapped(m: Pages, start: int, end: int): Pages {
    map p | p in m && !(start <= p < end) :: m[p]
  }

  /** The number of iterations of `(start..end).step_by(PAGE_SIZE)`. */
  function Steps(start: Word, end: Word): (n: nat)
    ensures PageAligned(start) && PageAligned(end) && start <= end ==> n * PAGE_SIZE == end - start
  {
    if start >= end then 0 else (end - start + PAGE_SIZE - 1) / PAGE_SIZE
  }
}

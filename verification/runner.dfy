/** The address space that the frame-based loaders fill. */
module VSpaces {
  import opened Words
  import opened PagedMemory

  /** Frames by page address, with the slot of the capability that was mapped there. */
  class VSpace {
    var pages: Pages
    var slots: map<Word, int>

    ghost predicate Valid()
      reads this
    {
      pages.Keys == slots.Keys
    }

    /** `seL4_Frame_Map`: refused where a frame is already mapped. The frame's old
        contents are unspecified; both loaders overwrite all of it at once. */
    method MapAndFill(slot: int, vaddr: Word, contents: Page) returns (ok: bool)
      requires Valid()
      modifies this
      ensures Valid() && ok == (vaddr !in old(pages))
      ensures ok ==> pages == old(pages)[vaddr := contents] && slots == old(slots)[vaddr := slot]
      ensures !ok ==> pages == old(pages) && slots == old(slots)
    {
      ok := vaddr !in pages;
      if ok {
        pages := pages[vaddr := contents];
        slots := slots[vaddr := slot];
      }
    }
  }
}

/** The rest of `create_user_task`'s loading: regions, frames, population, and what
    the memory looks like afterwards. */
module Runner {
  import opened Words
  import opened PagedMemory
  import opened Elf
  import opened RunnerPlan
  import opened VSpaces
  import Slots

  // ---- relocation ----

  /** The lowest load address, or `WORD - 1` when there is no loadable segment. */
  function LowestVaddr(segs: seq<Segment>, sofar: Word): (r: Word)
    ensures r <= sofar
    ensures forall i :: 0 <= i < |segs| && segs[i].isLoad ==> r <= segs[i].vaddr
    ensures r == sofar || exists i :: 0 <= i < |segs| && segs[i].isLoad && r == segs[i].vaddr
  {
    if segs == [] then sofar
    else
      var low := if segs[0].isLoad && segs[0].vaddr < sofar then segs[0].vaddr else sofar;
      var r := LowestVaddr(segs[1..], low);
      assert segs == [segs[0]] + segs[1..];
      assert r == low || exists i :: 0 <= i < |segs[1..]| && segs[1..][i].isLoad && r == segs[1..][i].vaddr;
      r
  }

  function Relocation(segs: seq<Segment>): Word {
    Wrap(LOAD_BASE - LowestVaddr(segs, WORD - 1))
  }

  /** The lowest segment lands at the load base and the distances between segments are kept. */
  lemma RelocationKeepsDistances(segs: seq<Segment>, i: nat)
    requires i < |segs| && segs[i].isLoad
    ensures Start(segs[i], Relocation(segs)) == Wrap(LOAD_BASE + (segs[i].vaddr - LowestVaddr(segs, WORD - 1)))
    ensures LowestVaddr(segs, WORD - 1) <= segs[i].vaddr
  {
    WrapAdds(LOAD_BASE - LowestVaddr(segs, WORD - 1), segs[i].vaddr);
  }

  // ---- page-table regions ----

  function RegionDown(x: Word): Word { x - x % REGION }
  function RegionUp(x: Word): Word { RegionDown(Wrap(x + REGION - 1)) }

  predicate RegionWalked(s: Segment, reloc: Word, r: Word) {
    s.isLoad && r % REGION == 0 && RegionDown(Start(s, reloc)) <= r < RegionUp(MemEnd(s, reloc))
  }

  predicate DistinctWords(ws: seq<Word>) {
    forall j, k :: 0 <= j < k < |ws| ==> ws[j] != ws[k]
  }

  ghost predicate CoversRegions(mapped: seq<Word>, s: Segment, reloc: Word) {
    forall r: Word :: RegionWalked(s, reloc, r) ==> r in mapped
  }

  predicate RegionOfSome(segs: seq<Segment>, reloc: Word, r: Word) {
    exists i :: 0 <= i < |segs| && RegionWalked(segs[i], reloc, r)
  }

  /** One page table per 2 MiB region of a segment, none twice, and none elsewhere but the
      one at the load base. */
  method MapRegions(segs: seq<Segment>, reloc: Word) returns (mapped: seq<Word>)
    ensures DistinctWords(mapped)
    ensures forall r: Word :: r in mapped <==> r == LOAD_BASE || RegionOfSome(segs, reloc, r)
    ensures forall i :: 0 <= i < |segs| ==> CoversRegions(mapped, segs[i], reloc)
  {
    mapped := [LOAD_BASE];
    for i := 0 to |segs|
      invariant DistinctWords(mapped) && LOAD_BASE in mapped
      invariant forall l :: 0 <= l < i ==> CoversRegions(mapped, segs[l], reloc)
      invariant forall r :: r in mapped ==> r == LOAD_BASE || RegionOfSome(segs[..i], reloc, r)
    {
      ghost var before := mapped;
      if segs[i].isLoad { mapped := MapSegmentRegions(mapped, segs[i], reloc); }
      assert forall r :: r in before ==> r in mapped;
      OneMoreSegment(segs, reloc, i);
    }
    assert segs[..|segs|] == segs;
  }

  lemma OneMoreSegment(segs: seq<Segment>, reloc: Word, i: nat)
    requires i < |segs|
    ensures forall r: Word ::
              RegionOfSome(segs[..i + 1], reloc, r) <==>
              RegionOfSome(segs[..i], reloc, r) || RegionWalked(segs[i], reloc, r)
  {
    forall r: Word
      ensures RegionOfSome(segs[..i + 1], reloc, r) <==>
              RegionOfSome(segs[..i], reloc, r) || RegionWalked(segs[i], reloc, r)
    {
      if RegionOfSome(segs[..i], reloc, r) {
        var l :| 0 <= l < i && RegionWalked(segs[..i][l], reloc, r);
        assert segs[..i + 1][l] == segs[..i][l];
      }
      if RegionWalked(segs[i], reloc, r) { assert segs[..i + 1][i] == segs[i]; }
    }
  }

  method MapSegmentRegions(before: seq<Word>, s: Segment, reloc: Word) returns (mapped: seq<Word>)
    requires s.isLoad && DistinctWords(before)
    ensures DistinctWords(mapped) && before <= mapped && CoversRegions(mapped, s, reloc)
    ensures forall r :: r in before ==> r in mapped
    ensures forall r :: r in mapped ==> r in before || RegionWalked(s, reloc, r)
  {
    hide Start, MemEnd, RegionDown, RegionUp;
    mapped := before;
    RegionDownAligned(Start(s, reloc));
    var start, end := RegionDown(Start(s, reloc)), RegionUp(MemEnd(s, reloc));
    var region: int := start;
    while region < end
      invariant start <= region && region % REGION == 0
      invariant before <= mapped && DistinctWords(mapped)
      invariant forall r :: r in before ==> r in mapped
      invariant forall r: Word :: RegionWalked(s, reloc, r) && r < region ==> r in mapped
      invariant forall r :: r in mapped ==> r in before || RegionWalked(s, reloc, r)
      decreases end - region
    {
      assert RegionWalked(s, reloc, region);
      if region !in mapped { mapped := mapped + [region]; }
      OneRegionFurther(s, reloc, region);
      region := region + REGION;
    }
  }

  lemma RegionDownAligned(x: Word)
    ensures RegionDown(x) % REGION == 0
  {}

  lemma OneRegionFurther(s: Segment, reloc: Word, region: Word)
    requires region % REGION == 0
    ensures forall r: Word :: RegionWalked(s, reloc, r) && r < region + REGION ==> r < region || r == region
  {}

  /** Rounding the end up to 2 MiB stays inside the address space, or there is no page. */
  predicate RegionsFit(s: Segment, reloc: Word) {
    || MemEnd(s, reloc) <= WORD - REGION || MemEnd(s, reloc) > WORD - PAGE_SIZE
    || PageUp(MemEnd(s, reloc)) <= PageDown(Start(s, reloc))
  }

  /** The page walk of a segment stays inside its region walk exactly when rounding the
      end up to 2 MiB does not leave the address space, or there is no page to walk. */
  lemma PagesLieInWalkedRegions(s: Segment, reloc: Word)
    requires s.isLoad
    ensures (forall p: Word :: Walks(s, reloc, p) ==> RegionWalked(s, reloc, RegionDown(p)))
            <==> RegionsFit(s, reloc)
  {
    hide Wrap, PageDown, PageUp, RegionDown, RegionUp, Start, MemEnd;
    if RegionsFit(s, reloc) {
      forall p: Word | Walks(s, reloc, p)
        ensures RegionWalked(s, reloc, RegionDown(p))
      {
        FittingPage(s, reloc, p);
      }
    } else {
      PageWithoutRegion(s, reloc);
    }
  }

  lemma FittingPage(s: Segment, reloc: Word, p: Word)
    requires RegionsFit(s, reloc) && Walks(s, reloc, p)
    ensures RegionWalked(s, reloc, RegionDown(p))
  {
    hide Start, MemEnd;
    if MemEnd(s, reloc) <= WORD - REGION {
      RegionOfPage(Start(s, reloc), MemEnd(s, reloc), p);
    } else if MemEnd(s, reloc) > WORD - PAGE_SIZE {
      RoundsToZero(MemEnd(s, reloc));
    }
  }

  lemma RoundsToZero(end: Word)
    ensures end > WORD - PAGE_SIZE ==> PageUp(end) == 0
    ensures end > WORD - REGION ==> RegionUp(end) == 0
  {}

  lemma PageWithoutRegion(s: Segment, reloc: Word)
    requires s.isLoad && !RegionsFit(s, reloc)
    ensures var p := PageDown(Start(s, reloc)); Walks(s, reloc, p) && !RegionWalked(s, reloc, RegionDown(p))
  {
    hide PageUp, RegionDown, RegionUp, Start, MemEnd;
    PageDownLocates(Start(s, reloc), Start(s, reloc));
    RoundsToZero(MemEnd(s, reloc));
  }

  lemma RegionOfPage(start: Word, end: Word, p: Word)
    requires end <= WORD - REGION && PageAligned(p) && PageDown(start) <= p < PageUp(end)
    ensures RegionDown(start) <= RegionDown(p) < RegionUp(end)
  {
    assert p < end;
    assert Wrap(end + REGION - 1) == end + REGION - 1;
    RegionMonotone(start, p);
  }

  lemma RegionMonotone(start: Word, p: Word)
    requires PageAligned(p) && PageDown(start) <= p
    ensures RegionDown(start) <= RegionDown(p)
  {
    assert RegionDown(start) <= PageDown(start) by {
      assert REGION == 512 * PAGE_SIZE;
      assert RegionDown(start) % PAGE_SIZE == 0 by { MultipleOfPage(start / REGION); }
    }
    StepDown(RegionDown(start) / REGION, p);
  }

  lemma StepDown(k: nat, p: Word)
    requires k * REGION <= p
    ensures k * REGION <= RegionDown(p)
  {}

  lemma MultipleOfPage(k: nat)
    ensures (k * REGION) % PAGE_SIZE == 0
  {
    assert k * REGION == (k * 512) * PAGE_SIZE;
  }

  /** Away from the top, the regions walked are those that hold a byte of the segment's memory,
      and the one an empty segment starts inside. */
  lemma WalkedRegionsMeet(s: Segment, reloc: Word, r: Word)
    requires r % 0x20_0000 == 0 && Wrap(s.vaddr + reloc) + s.memsz <= WORD - 0x20_0000
    ensures RegionWalked(s, reloc, r) <==>
            s.isLoad && r < Wrap(s.vaddr + reloc) + s.memsz && Wrap(s.vaddr + reloc) < r + 0x20_0000
  {
    hide Wrap, RegionDown, RegionUp;
    WordWraps(Start(s, reloc) + s.memsz);
    BetweenRegions(Start(s, reloc), MemEnd(s, reloc), r);
  }

  lemma BetweenRegions(start: Word, end: Word, r: Word)
    requires r % 0x20_0000 == 0 && end <= WORD - 0x20_0000
    ensures RegionDown(start) <= r <==> start < r + 0x20_0000
    ensures r < RegionUp(end) <==> r < end
  {}

  /** Every planned page has its page table. */
  lemma PlannedPagesHaveRegions(segs: seq<Segment>, reloc: Word, plan: seq<Planned>, mapped: seq<Word>, k: nat)
    requires ExactPlan(plan, segs, reloc) && k < |plan|
    requires forall i :: 0 <= i < |segs| ==> CoversRegions(mapped, segs[i], reloc)
    requires forall i :: 0 <= i < |segs| && segs[i].isLoad ==> RegionsFit(segs[i], reloc)
    ensures RegionDown(plan[k].page) in mapped
  {
    var o := Owner(segs, reloc, plan[k].page);
    PagesLieInWalkedRegions(segs[o], reloc);
    assert Walks(segs[o], reloc, plan[k].page);
    assert RegionWalked(segs[o], reloc, RegionDown(plan[k].page));
  }

  // ---- populating the frames ----

  /** The slice of the file a planned page copies, when the file has it. */
  predicate Copies(elf: seq<Byte>, e: Planned) {
    e.copyLen > 0 && e.fileOff + e.copyLen <= |elf| && e.copyOff + e.copyLen <= PAGE_SIZE
  }

  /** A zeroed frame with the slice copied over it. */
  function FrameBytes(elf: seq<Byte>, e: Planned): Page {
    if Copies(elf, e) then
      ZeroPage()[..e.copyOff] + elf[e.fileOff..e.fileOff + e.copyLen] + ZeroPage()[e.copyOff + e.copyLen..]
    else ZeroPage()
  }

  predicate AbsentFrom(plan: seq<Planned>, m: Pages) {
    forall k :: 0 <= k < |plan| ==> plan[k].page !in m
  }

  /** The store after the first `n` planned pages went in. */
  function Populated(m: Pages, elf: seq<Byte>, plan: seq<Planned>, n: nat): Pages
    requires n <= |plan|
  {
    if n == 0 then m else Populated(m, elf, plan, n - 1)[plan[n - 1].page := FrameBytes(elf, plan[n - 1])]
  }

  function SlotsUsed(m: map<Word, int>, plan: seq<Planned>, frames: seq<int>, n: nat): map<Word, int>
    requires n <= |plan| && n <= |frames|
  {
    if n == 0 then m else SlotsUsed(m, plan, frames, n - 1)[plan[n - 1].page := frames[n - 1]]
  }

  lemma {:induction false} PopulatedKeys(m: Pages, elf: seq<Byte>, plan: seq<Planned>, n: nat, p: Word)
    requires n <= |plan|
    ensures p in Populated(m, elf, plan, n) <==> p in m || exists k :: 0 <= k < n && plan[k].page == p
  {
    if n > 0 { PopulatedKeys(m, elf, plan, n - 1, p); }
  }

  lemma {:induction false} PopulatedAt(m: Pages, elf: seq<Byte>, plan: seq<Planned>, n: nat, k: nat)
    requires DistinctPages(plan) && k < n <= |plan|
    ensures plan[k].page in Populated(m, elf, plan, n)
    ensures Populated(m, elf, plan, n)[plan[k].page] == FrameBytes(elf, plan[k])
  {
    if k < n - 1 { PopulatedAt(m, elf, plan, n - 1, k); }
  }

  lemma {:induction false} PopulatedKeepsOthers(m: Pages, elf: seq<Byte>, plan: seq<Planned>, n: nat, p: Word)
    requires n <= |plan| && !Lists(plan, p) && p in m
    ensures p in Populated(m, elf, plan, n) && Populated(m, elf, plan, n)[p] == m[p]
  {
    if n > 0 { PopulatedKeepsOthers(m, elf, plan, n - 1, p); }
  }

  lemma {:induction false} SlotsUsedAt(m: map<Word, int>, plan: seq<Planned>, frames: seq<int>, n: nat, p: Word)
    requires DistinctPages(plan) && n <= |plan| && n <= |frames|
    ensures forall k :: 0 <= k < n && plan[k].page == p ==>
              p in SlotsUsed(m, plan, frames, n) && SlotsUsed(m, plan, frames, n)[p] == frames[k]
    ensures (forall k :: 0 <= k < n ==> plan[k].page != p) ==>
              (p in SlotsUsed(m, plan, frames, n) <==> p in m)
              && (p in m ==> SlotsUsed(m, plan, frames, n)[p] == m[p])
  {
    if n > 0 { SlotsUsedAt(m, plan, frames, n - 1, p); }
  }

  /** Page k of the plan sits on frame k, every other page on the frame it had. */
  lemma PagesOnTheirFrames(m: map<Word, int>, plan: seq<Planned>, frames: seq<int>)
    requires DistinctPages(plan) && |plan| <= |frames|
    ensures var slots := SlotsUsed(m, plan, frames, |plan|);
            && (forall k :: 0 <= k < |plan| ==> plan[k].page in slots && slots[plan[k].page] == frames[k])
            && (forall p: Word :: !Lists(plan, p) ==> (p in slots <==> p in m) && (p in m ==> slots[p] == m[p]))
  {
    forall p: Word
      ensures forall k :: 0 <= k < |plan| && plan[k].page == p ==>
                p in SlotsUsed(m, plan, frames, |plan|) && SlotsUsed(m, plan, frames, |plan|)[p] == frames[k]
      ensures !Lists(plan, p) ==>
                (p in SlotsUsed(m, plan, frames, |plan|) <==> p in m)
                && (p in m ==> SlotsUsed(m, plan, frames, |plan|)[p] == m[p])
    {
      SlotsUsedAt(m, plan, frames, |plan|, p);
    }
  }

  /** Map every planned page on its frame, zero it and copy its slice. Mapping is refused
      for a page that already has a frame, which ends the loading. */
  method Populate(vs: VSpace, elf: seq<Byte>, plan: seq<Planned>, frames: seq<int>) returns (ok: bool)
    requires vs.Valid() && DistinctPages(plan) && |frames| == |plan|
    modifies vs
    ensures vs.Valid() && ok == AbsentFrom(plan, old(vs.pages))
    ensures ok ==> vs.pages == Populated(old(vs.pages), elf, plan, |plan|)
    ensures ok ==> forall k :: 0 <= k < |plan| ==> plan[k].page in vs.slots && vs.slots[plan[k].page] == frames[k]
    ensures ok ==> forall p: Word :: !Lists(plan, p) ==>
                     (p in vs.slots <==> p in old(vs.slots)) && (p in vs.slots ==> vs.slots[p] == old(vs.slots)[p])
    ensures ok && Slots.Distinct(frames) ==>
              forall j, k :: 0 <= j < k < |plan| ==> vs.slots[plan[j].page] != vs.slots[plan[k].page]
  {
    for idx := 0 to |plan|
      invariant vs.Valid() && forall k :: 0 <= k < idx ==> plan[k].page !in old(vs.pages)
      invariant vs.pages == Populated(old(vs.pages), elf, plan, idx)
      invariant vs.slots == SlotsUsed(old(vs.slots), plan, frames, idx)
    {
      var e := plan[idx];
      PopulatedKeys(old(vs.pages), elf, plan, idx, e.page);
      var frame := FillFrame(elf, e);
      ok := vs.MapAndFill(frames[idx], e.page, frame);
      if !ok { return; }
    }
    PagesOnTheirFrames(old(vs.slots), plan, frames);
    return true;
  }

  /** Zero the frame, then copy the slice at its in-page offset. */
  method FillFrame(elf: seq<Byte>, e: Planned) returns (frame: Page)
    ensures frame == FrameBytes(elf, e)
  {
    frame := ZeroPage();
    if Copies(elf, e) {
      frame := frame[..e.copyOff] + elf[e.fileOff..e.fileOff + e.copyLen] + frame[e.copyOff + e.copyLen..];
    }
  }

  // ---- the image ----

  /** The reference image of one segment: its file bytes at their addresses, zero elsewhere. */
  function ImageByte(elf: seq<Byte>, s: Segment, reloc: Word, a: Word): Byte
    requires InFile(elf, s)
  {
    if Start(s, reloc) <= a < Start(s, reloc) + s.filesz then elf[s.offset + (a - Start(s, reloc))] else 0
  }

  predicate Sound(elf: seq<Byte>, s: Segment, reloc: Word) {
    InFile(elf, s) && |elf| < 0x8000_0000_0000_0000 && Start(s, reloc) + s.filesz < WORD
  }

  predicate AllSound(elf: seq<Byte>, segs: seq<Segment>, reloc: Word) {
    forall i :: 0 <= i < |segs| && segs[i].isLoad ==> Sound(elf, segs[i], reloc)
  }

  lemma FrameByteAt(elf: seq<Byte>, e: Planned, i: nat)
    requires i < PAGE_SIZE
    ensures FrameBytes(elf, e)[i] ==
            if e.fileOff + e.copyLen <= |elf| && e.copyOff <= i < e.copyOff + e.copyLen <= 4096
            then elf[e.fileOff + (i - e.copyOff)] else 0
  {}

  /** The slice of page `p`, free of wrap-around. */
  lemma SliceMeans(elf: seq<Byte>, s: Segment, reloc: Word, p: Word)
    requires Sound(elf, s, reloc) && p <= WORD - PAGE_SIZE
    ensures var start := Start(s, reloc);
            var lo := if start >= p then start else p;
            var hi := if start + s.filesz <= p + PAGE_SIZE then start + s.filesz else p + PAGE_SIZE;
            Slice(s, reloc, p) ==
            if lo < hi then Planned(p, s.offset + (lo - start), lo - p, hi - lo) else Planned(p, 0, 0, 0)
  {
    var start := Start(s, reloc);
    var lo := if start >= p then start else p;
    assert FileEnd(s, reloc) == start + s.filesz;
    if lo < start + s.filesz { assert Wrap(s.offset + (lo - start)) == s.offset + (lo - start); }
  }

  lemma FrameIsImage(elf: seq<Byte>, s: Segment, reloc: Word, p: Word, i: nat)
    requires Sound(elf, s, reloc) && i < PAGE_SIZE && p <= WORD - PAGE_SIZE
    ensures FrameBytes(elf, Slice(s, reloc, p))[i] == ImageByte(elf, s, reloc, p + i)
  {
    SliceMeans(elf, s, reloc, p);
    FrameByteAt(elf, Slice(s, reloc, p), i);
  }

  /** After loading, every byte of every touched page is the reference image of the first
      segment that touches the page, and pages no segment touches are as before. */
  lemma RunnerImage(m: Pages, elf: seq<Byte>, segs: seq<Segment>, reloc: Word, plan: seq<Planned>, a: Word)
    requires ExactPlan(plan, segs, reloc) && AbsentFrom(plan, m) && AllSound(elf, segs, reloc)
    ensures var o := Owner(segs, reloc, PageDown(a));
            ByteAt(Populated(m, elf, plan, |plan|), a) ==
            if o >= 0 then Some(ImageByte(elf, segs[o], reloc, a)) else ByteAt(m, a)
  {
    var p := PageDown(a);
    if Owner(segs, reloc, p) >= 0 {
      assert Lists(plan, p);
      var k :| 0 <= k < |plan| && plan[k].page == p;
      PlannedByte(m, elf, segs[Owner(segs, reloc, p)], reloc, plan, k, a);
    } else {
      assert !Lists(plan, p);
      PopulatedKeys(m, elf, plan, |plan|, p);
      if p in m { PopulatedKeepsOthers(m, elf, plan, |plan|, p); }
    }
  }

  lemma PlannedByte(m: Pages, elf: seq<Byte>, s: Segment, reloc: Word, plan: seq<Planned>, k: nat, a: Word)
    requires DistinctPages(plan) && k < |plan| && PageDown(a) == plan[k].page
    requires plan[k].page <= WORD - PAGE_SIZE && plan[k] == Slice(s, reloc, plan[k].page) && Sound(elf, s, reloc)
    ensures ByteAt(Populated(m, elf, plan, |plan|), a) == Some(ImageByte(elf, s, reloc, a))
  {
    PageDownLocates(a, a);
    PopulatedAt(m, elf, plan, |plan|, k);
    FrameIsImage(elf, s, reloc, plan[k].page, a % PAGE_SIZE);
  }

  /** No two loadable segments touch the same page. */
  ghost predicate PageDisjoint(segs: seq<Segment>, reloc: Word) {
    forall i, j, p: Word :: 0 <= i < j < |segs| && Walks(segs[i], reloc, p) ==> !Walks(segs[j], reloc, p)
  }

  lemma OnlyWalkerOwns(segs: seq<Segment>, reloc: Word, p: Word, i: nat)
    requires PageDisjoint(segs, reloc) && i < |segs| && Walks(segs[i], reloc, p)
    ensures Owner(segs, reloc, p) == i
  {
    OwnerIsFirst(segs, reloc, p, i);
  }

  /** Rounding the end up to a page stays inside the address space. */
  predicate Fits(s: Segment, reloc: Word) {
    Start(s, reloc) + s.memsz <= WORD - PAGE_SIZE
  }

  predicate InMemory(s: Segment, reloc: Word, a: Word) {
    Start(s, reloc) <= a < Start(s, reloc) + s.memsz
  }

  lemma SegmentBytesAreWalked(s: Segment, reloc: Word, a: Word)
    requires s.isLoad && Fits(s, reloc) && InMemory(s, reloc, a)
    ensures Walks(s, reloc, PageDown(a))
  {
    PageDownLocates(a, a);
    assert MemEnd(s, reloc) == Start(s, reloc) + s.memsz;
    RoundsPast(MemEnd(s, reloc), a);
    assert PageDown(Start(s, reloc)) <= PageDown(a);
  }

  lemma RoundsPast(end: Word, a: Word)
    requires a < end <= WORD - PAGE_SIZE
    ensures PageDown(a) < PageUp(end)
  {}

  /** No segment ever walks the topmost page. */
  lemma TopIsNotWalked(s: Segment, reloc: Word)
    ensures !Walks(s, reloc, WORD - PAGE_SIZE)
  {
    PageUpIsBelowTop(MemEnd(s, reloc));
  }

  lemma PageUpIsBelowTop(x: Word)
    ensures PageUp(x) <= WORD - PAGE_SIZE
  {}

  /** The last byte of the part of a segment that lies in the address space. */
  function LastByte(s: Segment, reloc: Word): Word
    requires s.memsz > 0
  {
    Min(Start(s, reloc) + s.memsz, WORD) - 1
  }

  lemma UnfitEndsInTop(s: Segment, reloc: Word)
    requires s.memsz > 0 && !Fits(s, reloc)
    ensures InMemory(s, reloc, LastByte(s, reloc)) && PageDown(LastByte(s, reloc)) == WORD - PAGE_SIZE
  {}

  /** What a byte of a segment should hold: its file byte or, past the file part, zero. */
  function Wanted(elf: seq<Byte>, s: Segment, reloc: Word, a: Word): Byte
    requires InFile(elf, s) && InMemory(s, reloc, a)
  {
    var k := a - Start(s, reloc);
    if k < s.filesz then elf[s.offset + k] else 0
  }

  ghost predicate Loaded(m: Pages, elf: seq<Byte>, s: Segment, reloc: Word)
    requires InFile(elf, s)
  {
    forall a: Word :: InMemory(s, reloc, a) ==> ByteAt(m, a) == Some(Wanted(elf, s, reloc, a))
  }

  lemma WalkedByteIsLoaded(m: Pages, elf: seq<Byte>, segs: seq<Segment>, reloc: Word, plan: seq<Planned>,
                           i: nat, a: Word)
    requires ExactPlan(plan, segs, reloc) && AbsentFrom(plan, m) && AllSound(elf, segs, reloc)
    requires PageDisjoint(segs, reloc) && i < |segs| && segs[i].isLoad && segs[i].filesz <= segs[i].memsz
    requires InMemory(segs[i], reloc, a) && Fits(segs[i], reloc)
    ensures ByteAt(Populated(m, elf, plan, |plan|), a) == Some(Wanted(elf, segs[i], reloc, a))
  {
    SegmentBytesAreWalked(segs[i], reloc, a);
    OnlyWalkerOwns(segs, reloc, PageDown(a), i);
    RunnerImage(m, elf, segs, reloc, plan, a);
  }

  lemma TopStaysAsItWas(m: Pages, elf: seq<Byte>, segs: seq<Segment>, reloc: Word, plan: seq<Planned>, a: Word)
    requires ExactPlan(plan, segs, reloc) && AbsentFrom(plan, m) && AllSound(elf, segs, reloc)
    requires PageDown(a) == WORD - PAGE_SIZE
    ensures ByteAt(Populated(m, elf, plan, |plan|), a) == ByteAt(m, a)
  {
    var o := Owner(segs, reloc, PageDown(a));
    if o >= 0 {
      TopIsNotWalked(segs[o], reloc);
      assert false;
    }
    RunnerImage(m, elf, segs, reloc, plan, a);
  }

  /** For page-disjoint, in-file segments with filesz <= memsz: a segment is loaded, each byte
      of its memory range being its file byte or, past the file part, zero, if and only if it
      is empty or ends below the topmost page; unless that page was mapped already, in which
      case it keeps what it held. */
  lemma RunnerLoadsEverySegment(m: Pages, elf: seq<Byte>, segs: seq<Segment>, reloc: Word, plan: seq<Planned>, i: nat)
    requires ExactPlan(plan, segs, reloc) && AbsentFrom(plan, m) && AllSound(elf, segs, reloc)
    requires PageDisjoint(segs, reloc) && i < |segs| && segs[i].isLoad && segs[i].filesz <= segs[i].memsz
    ensures var after := Populated(m, elf, plan, |plan|);
            && (segs[i].memsz == 0 || Fits(segs[i], reloc) ==> Loaded(after, elf, segs[i], reloc))
            && (Loaded(after, elf, segs[i], reloc) && WORD - PAGE_SIZE !in m ==>
                  segs[i].memsz == 0 || Fits(segs[i], reloc))
            && (forall a: Word :: PageDown(a) == WORD - PAGE_SIZE ==> ByteAt(after, a) == ByteAt(m, a))
  {
    hide ExactPlan, AbsentFrom, PageDisjoint, Populated, ByteAt, PageDown, InMemory, Fits, Wanted;
    var s, after := segs[i], Populated(m, elf, plan, |plan|);
    forall a: Word | PageDown(a) == WORD - PAGE_SIZE
      ensures ByteAt(after, a) == ByteAt(m, a)
    {
      TopStaysAsItWas(m, elf, segs, reloc, plan, a);
    }
    if s.memsz == 0 {
      EmptyIsLoaded(after, elf, s, reloc);
    } else if Fits(s, reloc) {
      forall a: Word | InMemory(s, reloc, a)
        ensures ByteAt(after, a) == Some(Wanted(elf, s, reloc, a))
      {
        WalkedByteIsLoaded(m, elf, segs, reloc, plan, i, a);
      }
    } else {
      UnfitEndsInTop(s, reloc);
      MappedBytes(m, LastByte(s, reloc));
    }
  }

  lemma EmptyIsLoaded(m: Pages, elf: seq<Byte>, s: Segment, reloc: Word)
    requires InFile(elf, s) && s.memsz == 0
    ensures Loaded(m, elf, s, reloc)
  {}

  // ---- the pipeline ----

  /** Slots, page tables, plan, frames, batches and population in the order of the
      original. `ok` is false where it gives up or panics: no loadable segment, no slot
      left, nothing to load, or a page that is mapped already. */
  method LoadProgram(vs: VSpace, alloc: Slots.ObjectAllocator, elf: seq<Byte>, segs: seq<Segment>,
                     emptyStart: Word, emptyEnd: Word)
    returns (ok: bool, plan: seq<Planned>, frames: seq<int>, calls: seq<Slots.Retype>, mapped: seq<Word>)
    requires vs.Valid() && emptyStart + Slots.RESERVED < WORD
    modifies vs, alloc
    ensures vs.Valid()
    ensures LowestVaddr(segs, WORD - 1) == WORD - 1 ==> !ok
    ensures LowestVaddr(segs, WORD - 1) < WORD - 1 ==>
              && ExactPlan(plan, segs, Relocation(segs))
              && (forall r: Word :: r in mapped <==> r == LOAD_BASE || RegionOfSome(segs, Relocation(segs), r))
              && (ok <==>
                    && plan != [] && AbsentFrom(plan, old(vs.pages))
                    && |mapped| + |plan| <= |old(alloc.recycled)| + Span(emptyStart + Slots.RESERVED, emptyEnd))
    ensures ok ==>
              && |frames| == |plan|
              && vs.pages == Populated(old(vs.pages), elf, plan, |plan|)
              && (forall k :: 0 <= k < |plan| ==> plan[k].page in vs.slots && vs.slots[plan[k].page] == frames[k])
              && (forall p: Word :: !Lists(plan, p) ==>
                    (p in vs.slots <==> p in old(vs.slots)) && (p in vs.slots ==> vs.slots[p] == old(vs.slots)[p]))
              && (Slots.Distinct(frames) ==>
                    forall j, k :: 0 <= j < k < |plan| ==> vs.slots[plan[j].page] != vs.slots[plan[k].page])
              && Slots.Filled(calls) == Slots.BatchSlots(frames)
    ensures ok && |mapped| + |plan| <= Span(emptyStart + Slots.RESERVED, emptyEnd) ==>
              && (forall k :: 0 <= k < |plan| ==> frames[k] == emptyStart + 6 + |mapped| + k == vs.slots[plan[k].page])
              && Slots.Filled(calls) == frames
  {
    hide AbsentFrom, Populated, RegionOfSome, Lists, Slots.BatchSlots, Slots.Filled, Slots.Distinct;
    ok, plan, frames, calls, mapped := false, [], [], [], [];
    var low := LowestVaddr(segs, WORD - 1);
    if low == WORD - 1 { return; }
    var reloc := Wrap(LOAD_BASE - low);
    mapped := MapRegions(segs, reloc);
    plan := PlanPages(segs, reloc);
    ok, frames := TakeSlots(alloc, emptyStart + Slots.RESERVED, emptyEnd, |mapped|, |plan|);
    if !ok || frames == [] { return false, plan, frames, calls, mapped; }
    calls := Slots.RetypeInBatches(frames);
    if |mapped| + |plan| <= Span(emptyStart + Slots.RESERVED, emptyEnd) {
      Slots.CountingUpFillsAll(frames, emptyStart + Slots.RESERVED + |mapped|);
    }
    ok := Populate(vs, elf, plan, frames);
  }

  /** The number of slots in `start..end`. */
  function Span(start: Word, end: Word): nat {
    if start <= end then end - start else 0
  }

  /** Push the free range in reverse, then take one slot per page table and one per frame.
      There are slots enough exactly when the range and the old free list together hold
      that many; as long as the range alone does, the frames' slots count up. */
  method TakeSlots(alloc: Slots.ObjectAllocator, next: Word, end: Word, tables: nat, total: nat)
    returns (ok: bool, frames: seq<int>)
    modifies alloc
    ensures ok <==> tables + total <= |old(alloc.recycled)| + Span(next, end)
    ensures ok ==> |frames| == total
    ensures tables + total <= Span(next, end) ==> Slots.CountsUp(frames, next + tables)
  {
    ghost var below := alloc.recycled;
    alloc.AddReversed(next, end);
    ghost var stack := alloc.recycled;
    var taken;
    ok, taken := alloc.AllocMany(tables);
    if !ok { return ok, []; }
    ok, frames := alloc.AllocMany(total);
    if tables + total <= Span(next, end) {
      assert frames == Slots.Taken(stack, tables + total)[tables..];
      Slots.ReversePushAllocatesUpwards(below, next, Span(next, end), tables + total);
    }
  }
}

/** `load_elf_to_memory`: count, retype drain, populate; and its agreement with the runner. */
module FrameLoader {
  import opened Words
  import opened Bits
  import opened PagedMemory
  import opened Elf
  import opened RunnerPlan
  import opened VSpaces
  import Runner
  import Slots

  // ---- which pages, with which slices ----

  /** How often the loop over `page_range(vaddr, memsz)` runs: not at all when the rounded end
      has wrapped below the start. */
  function PageCount(s: Segment): nat {
    Steps(PageDown(s.vaddr), PageUp(Wrap(s.vaddr + s.memsz)))
  }

  /** The loader subtracts the segment start from the page address, wrapping when the
      segment starts inside the page. */
  function LoaderSlice(s: Segment, p: Word): Planned {
    var off := Wrap(p - s.vaddr);
    if off < s.filesz then
      var dataStart := Wrap(s.offset + off);
      var full, end := Wrap(dataStart + PAGE_SIZE), Wrap(s.offset + s.filesz);
      var dataEnd := if full <= end then full else end;
      Planned(p, dataStart, 0, if dataStart < dataEnd then dataEnd - dataStart else 0)
    else Planned(p, 0, 0, 0)
  }

  function PageOf(s: Segment, k: nat): Word {
    Wrap(PageDown(s.vaddr) + k * PAGE_SIZE)
  }

  function SegmentPlan(s: Segment, n: nat): (plan: seq<Planned>)
    ensures |plan| == n
  {
    seq(n, k requires 0 <= k => LoaderSlice(s, PageOf(s, k)))
  }

  /** Every page of every segment in header order, repeated where segments share one. */
  function LoaderPlan(segs: seq<Segment>): seq<Planned> {
    if segs == [] then []
    else LoaderPlan(segs[..|segs| - 1]) + SegmentPlan(segs[|segs| - 1], PageCount(segs[|segs| - 1]))
  }

  // ---- the three passes ----

  /** What the counting pass adds for a segment, a subtraction that wraps. */
  function CountOf(s: Segment): nat {
    Wrap(PageUp(Wrap(s.vaddr + s.memsz)) - PageDown(s.vaddr)) / PAGE_SIZE
  }

  /** The rounded end of the segment lies below its rounded start. */
  predicate RoundsBack(s: Segment) {
    PageUp(Wrap(s.vaddr + s.memsz)) < PageDown(s.vaddr)
  }

  function Counted(segs: seq<Segment>): nat {
    if segs == [] then 0 else Counted(segs[..|segs| - 1]) + CountOf(segs[|segs| - 1])
  }

  /** The counting pass. */
  method CountPages(segs: seq<Segment>) returns (total: Word)
    ensures total == Wrap(Counted(segs))
  {
    hide CountOf;
    total := 0;
    for i := 0 to |segs|
      invariant total == Wrap(Counted(segs[..i]))
    {
      assert segs[..i + 1][..i] == segs[..i];
      WrapAdds(Counted(segs[..i]), CountOf(segs[i]));
      total := Wrap(total + CountOf(segs[i]));
    }
    assert segs[..|segs|] == segs;
  }

  /** The two passes agree about a segment exactly when its rounded end has not wrapped;
      otherwise one counts pages that the other never visits. */
  lemma CountIsVisited(s: Segment)
    ensures CountOf(s) >= PageCount(s)
    ensures CountOf(s) == PageCount(s) <==> !RoundsBack(s)
  {
    hide PageUp, PageDown;
    var start, end := PageDown(s.vaddr), PageUp(Wrap(s.vaddr + s.memsz));
    PageDownLocates(s.vaddr, s.vaddr);
    PageUpAligned(Wrap(s.vaddr + s.memsz));
    WholePages(start, end);
  }

  lemma PageUpAligned(x: Word)
    ensures PageAligned(PageUp(x))
  {}

  lemma WholePages(start: Word, end: Word)
    requires PageAligned(start) && PageAligned(end)
    ensures start <= end ==> Wrap(end - start) / PAGE_SIZE == Steps(start, end)
    ensures end < start ==> Steps(start, end) == 0 < Wrap(end - start) / PAGE_SIZE
  {}

  /** Over all segments the count is the number of pages populated, exactly when no segment
      rounds back. */
  lemma {:induction false} CountedIsVisited(segs: seq<Segment>)
    ensures Counted(segs) >= |LoaderPlan(segs)|
    ensures Counted(segs) == |LoaderPlan(segs)| <==> forall i :: 0 <= i < |segs| ==> !RoundsBack(segs[i])
    decreases |segs|
  {
    hide CountOf, PageCount, RoundsBack;
    if segs != [] {
      var n := |segs| - 1;
      CountIsVisited(segs[n]);
      CountedIsVisited(segs[..n]);
      assert forall i :: 0 <= i < n ==> segs[..n][i] == segs[i];
    }
  }

  /** An untyped object and how many retypes the kernel still grants from it. */
  datatype Untyped = Untyped(sizeBits: nat, grants: nat)

  function FramesFrom(u: Untyped): nat {
    var most := Pow2(if u.sizeBits < 12 then 0 else u.sizeBits - 12);
    Min(u.grants, most)
  }

  /** An untyped gives all its memory in frames of 4096 bytes, unless the kernel stops before. */
  lemma UntypedIsUsedUp(u: Untyped)
    requires u.sizeBits >= 12
    ensures FramesFrom(u) <= u.grants && FramesFrom(u) * 4096 <= Pow2(u.sizeBits)
    ensures FramesFrom(u) == u.grants || FramesFrom(u) * 4096 == Pow2(u.sizeBits)
  {
    PagesOf(u.sizeBits - 12);
  }

  lemma PagesOf(n: nat)
    ensures Pow2(n + 12) == 4096 * Pow2(n)
  {
    assert Pow2(n + 2) == 4 * Pow2(n);
    assert Pow2(n + 4) == 4 * Pow2(n + 2);
    assert Pow2(n + 6) == 4 * Pow2(n + 4);
    assert Pow2(n + 8) == 4 * Pow2(n + 6);
    assert Pow2(n + 10) == 4 * Pow2(n + 8);
    assert Pow2(n + 12) == 4 * Pow2(n + 10);
  }

  function Capacity(us: seq<Untyped>): nat {
    if us == [] then 0 else Capacity(us[..|us| - 1]) + FramesFrom(us[|us| - 1])
  }

  /** The retype drain: one frame at a time, each untyped until it refuses or is used up. */
  method Drain(us: seq<Untyped>, total: nat) returns (done: nat)
    ensures done == Min(total, Capacity(us))
  {
    done := 0;
    var utIdx := 0;
    while done < total && utIdx < |us|
      invariant 0 <= utIdx <= |us| && done == Min(total, Capacity(us[..utIdx]))
    {
      var u := us[utIdx];
      assert us[..utIdx + 1][..utIdx] == us[..utIdx];
      var before := done;
      var most := Pow2(if u.sizeBits < 12 then 0 else u.sizeBits - 12);
      var used := 0;
      while used < most && done < total && used < u.grants
        invariant used <= most && used <= u.grants && done == before + used <= total
        decreases most - used
      {
        done, used := done + 1, used + 1;
      }
      utIdx := utIdx + 1;
    }
    CapacityGrows(us, utIdx);
    assert us[..|us|] == us;
  }

  lemma {:induction false} CapacityGrows(us: seq<Untyped>, i: nat)
    requires i <= |us|
    ensures Capacity(us[..i]) <= Capacity(us)
    decreases |us| - i
  {
    if i < |us| {
      assert us[..i + 1][..i] == us[..i];
      CapacityGrows(us, i + 1);
    } else {
      assert us[..i] == us;
    }
  }

  /** The first n planned pages are distinct and not mapped yet. */
  ghost predicate Clean(plan: seq<Planned>, n: nat, m: Pages)
    requires n <= |plan|
  {
    && (forall k :: 0 <= k < n ==> plan[k].page !in m)
    && (forall j, k :: 0 <= j < k < n ==> plan[j].page != plan[k].page)
  }

  lemma CleanStep(plan: seq<Planned>, n: nat, m: Pages, elf: seq<Byte>)
    requires n < |plan| && Clean(plan, n, m)
    ensures Clean(plan, n + 1, m) <==> plan[n].page !in Runner.Populated(m, elf, plan, n)
  {
    Runner.PopulatedKeys(m, elf, plan, n, plan[n].page);
  }

  /** The populate pass, taking the frames one by one. It panics when they run out and gives
      up at a page that is mapped already; otherwise it uses one frame a page. */
  method PopulateAll(vs: VSpace, elf: seq<Byte>, segs: seq<Segment>, frames: seq<int>) returns (ok: bool, idx: nat)
    requires vs.Valid()
    modifies vs
    ensures vs.Valid()
    ensures ok <==>
              && |LoaderPlan(segs)| <= |frames|
              && DistinctPages(LoaderPlan(segs)) && Runner.AbsentFrom(LoaderPlan(segs), old(vs.pages))
    ensures ok ==> idx == |LoaderPlan(segs)|
    ensures ok ==> vs.pages == Runner.Populated(old(vs.pages), elf, LoaderPlan(segs), idx)
    ensures ok ==> forall k :: 0 <= k < |LoaderPlan(segs)| ==>
                     var p := LoaderPlan(segs)[k].page; p in vs.slots && vs.slots[p] == frames[k]
    ensures ok ==> forall p: Word :: !Lists(LoaderPlan(segs), p) ==>
                     (p in vs.slots <==> p in old(vs.slots)) && (p in vs.slots ==> vs.slots[p] == old(vs.slots)[p])
    ensures ok && Slots.Distinct(frames) ==>
              forall j, k :: 0 <= j < k < |LoaderPlan(segs)| ==>
                vs.slots[LoaderPlan(segs)[j].page] != vs.slots[LoaderPlan(segs)[k].page]
  {
    hide LoaderSlice;
    ghost var plan := LoaderPlan(segs);
    idx, ok := 0, true;
    for i := 0 to |segs|
      invariant vs.Valid() && ok && idx == |LoaderPlan(segs[..i])| <= |plan| && idx <= |frames|
      invariant Clean(plan, idx, old(vs.pages))
      invariant vs.pages == Runner.Populated(old(vs.pages), elf, plan, idx)
      invariant vs.slots == Runner.SlotsUsed(old(vs.slots), plan, frames, idx)
    {
      PlanPlace(segs, i);
      ok, idx := PopulateSegment(vs, elf, segs[i], plan, frames, idx, old(vs.pages), old(vs.slots));
      if !ok { return; }
    }
    assert segs[..|segs|] == segs;
    Runner.PagesOnTheirFrames(old(vs.slots), plan, frames);
  }

  /** The inner loop of the populate pass: the pages of one segment, from frame `base` on. */
  method PopulateSegment(vs: VSpace, elf: seq<Byte>, s: Segment, ghost plan: seq<Planned>, frames: seq<int>, base: nat,
                         ghost pages0: Pages, ghost slots0: map<Word, int>)
    returns (ok: bool, idx: nat)
    requires vs.Valid() && base <= |frames| && PlacedAt(plan, base, s) && Clean(plan, base, pages0)
    requires vs.pages == Runner.Populated(pages0, elf, plan, base)
    requires vs.slots == Runner.SlotsUsed(slots0, plan, frames, base)
    modifies vs
    ensures vs.Valid()
    ensures ok ==> idx == base + PageCount(s) <= |frames| && Clean(plan, idx, pages0)
    ensures ok ==> vs.pages == Runner.Populated(pages0, elf, plan, idx)
    ensures ok ==> vs.slots == Runner.SlotsUsed(slots0, plan, frames, idx)
    ensures !ok ==> |frames| < |plan| || !DistinctPages(plan) || !Runner.AbsentFrom(plan, pages0)
  {
    hide LoaderSlice, PageOf, PageCount;
    idx, ok := base, true;
    for k := 0 to PageCount(s)
      invariant vs.Valid() && ok && idx == base + k <= |frames|
      invariant Clean(plan, idx, pages0)
      invariant vs.pages == Runner.Populated(pages0, elf, plan, idx)
      invariant vs.slots == Runner.SlotsUsed(slots0, plan, frames, idx)
    {
      if idx >= |frames| { return false, idx; }
      var e := LoaderSlice(s, PageOf(s, k));
      assert plan[base + k] == e;
      var frame := Runner.FillFrame(elf, e);
      CleanStep(plan, idx, pages0, elf);
      PlannedPage(s, k);
      ok := vs.MapAndFill(frames[idx], e.page, frame);
      if !ok {
        AllCleanMeans(plan, idx, pages0);
        return;
      }
      idx := idx + 1;
    }
  }

  lemma PlannedPage(s: Segment, k: nat)
    ensures LoaderSlice(s, PageOf(s, k)).page == PageOf(s, k)
  {}

  lemma AllCleanMeans(plan: seq<Planned>, n: nat, m: Pages)
    requires n < |plan| && !Clean(plan, n + 1, m)
    ensures !DistinctPages(plan) || !Runner.AbsentFrom(plan, m)
  {}

  lemma {:induction false} PlanPrefix(segs: seq<Segment>, i: nat)
    requires i <= |segs|
    ensures LoaderPlan(segs[..i]) <= LoaderPlan(segs)
    decreases |segs| - i
  {
    if i < |segs| {
      assert segs[..i + 1][..i] == segs[..i];
      PlanPrefix(segs, i + 1);
    } else {
      assert segs[..i] == segs;
    }
  }

  /** From `base` on, the plan holds the pages of segment `s`. */
  predicate PlacedAt(plan: seq<Planned>, base: nat, s: Segment) {
    && base + PageCount(s) <= |plan|
    && forall k: nat :: k < PageCount(s) ==> plan[base + k] == LoaderSlice(s, PageOf(s, k))
  }

  lemma PlanPlace(segs: seq<Segment>, i: nat)
    requires i < |segs|
    ensures |LoaderPlan(segs[..i])| + PageCount(segs[i]) == |LoaderPlan(segs[..i + 1])|
    ensures PlacedAt(LoaderPlan(segs), |LoaderPlan(segs[..i])|, segs[i])
  {
    PlanPrefix(segs, i + 1);
    assert segs[..i + 1][..i] == segs[..i];
    LastPlaced(segs[..i + 1]);
    PrefixPlaced(LoaderPlan(segs[..i + 1]), LoaderPlan(segs), |LoaderPlan(segs[..i])|, segs[i]);
  }

  lemma LastPlaced(segs: seq<Segment>)
    requires segs != []
    ensures var n := |segs| - 1; var base := |LoaderPlan(segs[..n])|;
            base + PageCount(segs[n]) == |LoaderPlan(segs)| && PlacedAt(LoaderPlan(segs), base, segs[n])
  {}

  lemma PrefixPlaced(upTo: seq<Planned>, plan: seq<Planned>, base: nat, s: Segment)
    requires upTo <= plan && PlacedAt(upTo, base, s)
    ensures PlacedAt(plan, base, s)
  {}

  /** All three passes. Loading succeeds exactly when slots and untypeds cover the count, the
      count covers the pages, and the pages are distinct and unmapped. */
  method LoadElfToMemory(vs: VSpace, alloc: Slots.ObjectAllocator, us: seq<Untyped>, elf: seq<Byte>, segs: seq<Segment>)
    returns (ok: bool, frames: seq<int>)
    requires vs.Valid()
    modifies vs, alloc
    ensures vs.Valid()
    ensures ok <==>
              && |LoaderPlan(segs)| <= Wrap(Counted(segs)) <= |old(alloc.recycled)|
              && Wrap(Counted(segs)) <= Capacity(us)
              && DistinctPages(LoaderPlan(segs)) && Runner.AbsentFrom(LoaderPlan(segs), old(vs.pages))
    ensures ok ==> |frames| == Wrap(Counted(segs)) && frames == Slots.Taken(old(alloc.recycled), |frames|)
    ensures ok ==> vs.pages == Runner.Populated(old(vs.pages), elf, LoaderPlan(segs), |LoaderPlan(segs)|)
    ensures ok ==> |LoaderPlan(segs)| <= |frames|
    ensures ok ==> forall k :: 0 <= k < |LoaderPlan(segs)| ==>
                     var p := LoaderPlan(segs)[k].page; p in vs.slots && vs.slots[p] == frames[k]
    ensures ok ==> forall p: Word :: !Lists(LoaderPlan(segs), p) ==>
                     (p in vs.slots <==> p in old(vs.slots)) && (p in vs.slots ==> vs.slots[p] == old(vs.slots)[p])
    ensures ok && Slots.Distinct(frames) ==>
              forall j, k :: 0 <= j < k < |LoaderPlan(segs)| ==>
                vs.slots[LoaderPlan(segs)[j].page] != vs.slots[LoaderPlan(segs)[k].page]
  {
    hide LoaderPlan, Counted, Capacity;
    var total := CountPages(segs);
    ok, frames := alloc.AllocMany(total);
    if !ok { return; }
    var done := Drain(us, total);
    if done < total { return false, frames; }
    var used;
    ok, used := PopulateAll(vs, elf, segs, frames);
  }

  /** A segment in the topmost page is counted and never visited. */
  lemma TopSegmentIsCountedOnly()
    ensures var s := Segment(true, 0, WORD - PAGE_SIZE, 0, PAGE_SIZE); CountOf(s) == 1 && PageCount(s) == 0
  {}

  // ---- which pages the plan holds ----

  predicate AllLoad(segs: seq<Segment>) {
    forall i :: 0 <= i < |segs| ==> segs[i].isLoad
  }

  /** The k-th page of a segment, and which k a walked page is. */
  lemma PageOfSegment(s: Segment, k: nat)
    requires s.isLoad && k < PageCount(s)
    ensures PageOf(s, k) == PageDown(s.vaddr) + k * PAGE_SIZE && Walks(s, 0, PageOf(s, k))
    ensures PageOf(s, k) <= WORD - PAGE_SIZE
  {
    hide Wrap, PageDown, PageUp, Steps, Start, MemEnd;
    var start, end := PageDown(s.vaddr), PageUp(Wrap(s.vaddr + s.memsz));
    PageDownLocates(s.vaddr, s.vaddr);
    PageUpAligned(Wrap(s.vaddr + s.memsz));
    StartUnmoved(s);
    PageInRange(start, end, k);
    WalkedPage(s, 0, start + k * PAGE_SIZE);
  }

  lemma PageInRange(start: Word, end: Word, k: nat)
    requires PageAligned(start) && PageAligned(end) && k < Steps(start, end)
    ensures var p := start + k * PAGE_SIZE; p < end && PageAligned(p) && Wrap(p) == p
  {}

  lemma StartUnmoved(s: Segment)
    ensures Start(s, 0) == s.vaddr && MemEnd(s, 0) == Wrap(s.vaddr + s.memsz)
  {}

  lemma IndexOfPage(s: Segment, p: Word) returns (k: nat)
    requires Walks(s, 0, p)
    ensures k < PageCount(s) && PageOf(s, k) == p
  {
    var start, end := PageDown(s.vaddr), PageUp(Wrap(s.vaddr + s.memsz));
    PageDownLocates(s.vaddr, s.vaddr);
    StartUnmoved(s);
    k := (p - start) / PAGE_SIZE;
    assert k * PAGE_SIZE == p - start;
    assert k < PageCount(s);
    PageOfSegment(s, k);
  }

  /** Every entry belongs to some segment that walks its page. */
  lemma {:induction false} EntryOwner(segs: seq<Segment>, j: nat) returns (i: nat, k: nat)
    requires AllLoad(segs) && j < |LoaderPlan(segs)|
    ensures i < |segs| && k < PageCount(segs[i])
    ensures LoaderPlan(segs)[j] == LoaderSlice(segs[i], PageOf(segs[i], k))
    ensures LoaderPlan(segs)[j].page == PageOf(segs[i], k) && Walks(segs[i], 0, PageOf(segs[i], k))
    ensures j == |LoaderPlan(segs[..i])| + k
    decreases |segs|
  {
    var n := |segs| - 1;
    var before := LoaderPlan(segs[..n]);
    if j < |before| {
      i, k := EntryOwner(segs[..n], j);
      assert segs[..n][..i] == segs[..i];
    } else {
      i, k := n, j - |before|;
      PageOfSegment(segs[n], k);
    }
  }

  lemma {:induction false} WalkedIsListed(segs: seq<Segment>, i: nat, p: Word)
    requires i < |segs| && Walks(segs[i], 0, p)
    ensures Lists(LoaderPlan(segs), p)
  {
    var k := IndexOfPage(segs[i], p);
    PlanPlace(segs, i);
    assert LoaderPlan(segs)[|LoaderPlan(segs[..i])| + k].page == p;
  }

  /** The loader's list names the pages the runner plans, no more and no less. */
  lemma SamePageSet(segs: seq<Segment>, p: Word)
    requires AllLoad(segs)
    ensures Lists(LoaderPlan(segs), p) <==> Owner(segs, 0, p) >= 0
  {
    if Lists(LoaderPlan(segs), p) {
      var j :| 0 <= j < |LoaderPlan(segs)| && LoaderPlan(segs)[j].page == p;
      var i, k := EntryOwner(segs, j);
      OwnerIsFirst(segs, 0, p, i);
    }
    if Owner(segs, 0, p) >= 0 { WalkedIsListed(segs, Owner(segs, 0, p), p); }
  }

  lemma PageDisjointIsDistinct(segs: seq<Segment>)
    requires AllLoad(segs) && Runner.PageDisjoint(segs, 0)
    ensures DistinctPages(LoaderPlan(segs))
  {
    var plan := LoaderPlan(segs);
    forall j, l | 0 <= j < l < |plan|
      ensures plan[j].page != plan[l].page
    {
      SamePageSameEntry(segs, j, l);
    }
  }

  lemma SamePageSameEntry(segs: seq<Segment>, j: nat, l: nat)
    requires AllLoad(segs) && Runner.PageDisjoint(segs, 0) && j < |LoaderPlan(segs)| && l < |LoaderPlan(segs)|
    ensures LoaderPlan(segs)[j].page == LoaderPlan(segs)[l].page ==> j == l
  {
    var a, x := EntryOwner(segs, j);
    var b, y := EntryOwner(segs, l);
    Runner.OnlyWalkerOwns(segs, 0, PageOf(segs[a], x), a);
    Runner.OnlyWalkerOwns(segs, 0, PageOf(segs[b], y), b);
    PageOfSegment(segs[a], x);
    PageOfSegment(segs[b], y);
  }

  // ---- the contents ----

  lemma LoaderSliceMeans(elf: seq<Byte>, s: Segment, p: Word)
    requires Runner.Sound(elf, s, 0) && p <= WORD - PAGE_SIZE && s.vaddr <= p
    ensures LoaderSlice(s, p) ==
            if p - s.vaddr < s.filesz then
              var rest := s.filesz - (p - s.vaddr);
              Planned(p, s.offset + (p - s.vaddr), 0, if rest <= PAGE_SIZE then rest else PAGE_SIZE)
            else Planned(p, 0, 0, 0)
  {
    assert Wrap(p - s.vaddr) == p - s.vaddr;
    if p - s.vaddr < s.filesz {
      assert Wrap(s.offset + (p - s.vaddr)) == s.offset + (p - s.vaddr);
      assert Wrap(s.offset + s.filesz) == s.offset + s.filesz;
    }
  }

  /** A page at or above the segment's start gets the reference image. */
  lemma LoaderFrameIsImage(elf: seq<Byte>, s: Segment, p: Word, i: nat)
    requires Runner.Sound(elf, s, 0) && p <= WORD - PAGE_SIZE && s.vaddr <= p && i < PAGE_SIZE
    ensures Runner.FrameBytes(elf, LoaderSlice(s, p))[i] == Runner.ImageByte(elf, s, 0, p + i)
  {
    LoaderSliceMeans(elf, s, p);
    StartUnmoved(s);
    Runner.FrameByteAt(elf, LoaderSlice(s, p), i);
  }

  /** The file bytes that belong on the first page of a segment. */
  function FirstPageBytes(elf: seq<Byte>, s: Segment): seq<Byte>
    requires InFile(elf, s)
  {
    var room := PageDown(s.vaddr) + PAGE_SIZE - s.vaddr;
    FileBytes(elf, s)[..if s.filesz < room then s.filesz else room]
  }

  predicate AllZero(d: seq<Byte>) {
    forall j :: 0 <= j < |d| ==> d[j] == 0
  }

  /** What the reference image puts on the first page of a segment. */
  function FirstPage(elf: seq<Byte>, s: Segment): Page
    requires InFile(elf, s)
  {
    var off, head := s.vaddr - PageDown(s.vaddr), FirstPageBytes(elf, s);
    ZeroPage()[..off] + head + ZeroPage()[off + |head|..]
  }

  lemma FirstPageIsImage(elf: seq<Byte>, s: Segment, i: nat)
    requires Runner.Sound(elf, s, 0) && PageDown(s.vaddr) <= WORD - PAGE_SIZE && i < PAGE_SIZE
    ensures FirstPage(elf, s)[i] == Runner.ImageByte(elf, s, 0, PageDown(s.vaddr) + i)
  {
    StartUnmoved(s);
  }

  /** A segment that starts inside its first page gets that page zeroed: the page is
      right exactly when every file byte that belongs there is zero anyway. */
  lemma UnalignedFirstPage(elf: seq<Byte>, s: Segment)
    requires Runner.Sound(elf, s, 0) && !PageAligned(s.vaddr)
    ensures Runner.FrameBytes(elf, LoaderSlice(s, PageDown(s.vaddr))) == FirstPage(elf, s)
            <==> AllZero(FirstPageBytes(elf, s))
  {
    var off, head := s.vaddr - PageDown(s.vaddr), FirstPageBytes(elf, s);
    BelowStartIsZeroed(elf, s, PageDown(s.vaddr));
    ZeroWith(off, head);
  }

  lemma ZeroWith(off: nat, head: seq<Byte>)
    requires off + |head| <= PAGE_SIZE
    ensures ZeroPage()[..off] + head + ZeroPage()[off + |head|..] == ZeroPage() <==> AllZero(head)
  {
    var page := ZeroPage()[..off] + head + ZeroPage()[off + |head|..];
    if !AllZero(head) {
      var j :| 0 <= j < |head| && head[j] != 0;
      assert page[off + j] == head[j];
    }
  }

  lemma BelowStartIsZeroed(elf: seq<Byte>, s: Segment, p: Word)
    requires Runner.Sound(elf, s, 0) && p < s.vaddr < p + PAGE_SIZE
    ensures Runner.FrameBytes(elf, LoaderSlice(s, p)) == ZeroPage()
  {
    assert Wrap(p - s.vaddr) == p - s.vaddr + WORD;
    assert LoaderSlice(s, p) == Planned(p, 0, 0, 0);
  }

  // ---- agreement ----

  /** The loader fills each page once, with the slice of the one segment that touches it. */
  lemma LoaderPage(m: Pages, elf: seq<Byte>, segs: seq<Segment>, p: Word)
    requires AllLoad(segs) && Runner.PageDisjoint(segs, 0) && Owner(segs, 0, p) >= 0
    ensures var stored := Runner.Populated(m, elf, LoaderPlan(segs), |LoaderPlan(segs)|);
            p in stored && stored[p] == Runner.FrameBytes(elf, LoaderSlice(segs[Owner(segs, 0, p)], p))
  {
    hide LoaderSlice;
    var plan := LoaderPlan(segs);
    SamePageSet(segs, p);
    PageDisjointIsDistinct(segs);
    var j :| 0 <= j < |plan| && plan[j].page == p;
    var o, k := EntryOwner(segs, j);
    Runner.OnlyWalkerOwns(segs, 0, p, o);
    Runner.PopulatedAt(m, elf, plan, |plan|, j);
  }

  lemma RunnerPage(m: Pages, elf: seq<Byte>, segs: seq<Segment>, plan: seq<Planned>, p: Word)
    requires ExactPlan(plan, segs, 0) && Owner(segs, 0, p) >= 0
    ensures var stored := Runner.Populated(m, elf, plan, |plan|);
            && p <= WORD - PAGE_SIZE && p in stored
            && stored[p] == Runner.FrameBytes(elf, Slice(segs[Owner(segs, 0, p)], 0, p))
  {
    assert Lists(plan, p);
    var k :| 0 <= k < |plan| && plan[k].page == p;
    Runner.PopulatedAt(m, elf, plan, |plan|, k);
  }

  /** Byte for byte, a loader's page at or above the start of its segment is the image. */
  lemma LoaderImage(m: Pages, elf: seq<Byte>, segs: seq<Segment>, p: Word, i: nat)
    requires AllLoad(segs) && Runner.PageDisjoint(segs, 0) && Runner.AllSound(elf, segs, 0)
    requires Owner(segs, 0, p) >= 0 && segs[Owner(segs, 0, p)].vaddr <= p <= WORD - PAGE_SIZE && i < PAGE_SIZE
    ensures var stored := Runner.Populated(m, elf, LoaderPlan(segs), |LoaderPlan(segs)|);
            p in stored && stored[p][i] == Runner.ImageByte(elf, segs[Owner(segs, 0, p)], 0, p + i)
  {
    LoaderPage(m, elf, segs, p);
    LoaderFrameIsImage(elf, segs[Owner(segs, 0, p)], p, i);
  }

  /** The two slices of a page come to the same frame, unless the segment starts inside the
      page and has bytes there that are not zero. */
  lemma FramesAgree(elf: seq<Byte>, s: Segment, p: Word)
    requires Runner.Sound(elf, s, 0) && Walks(s, 0, p) && p <= WORD - PAGE_SIZE
    ensures Runner.FrameBytes(elf, LoaderSlice(s, p)) == Runner.FrameBytes(elf, Slice(s, 0, p))
            <==> (p < s.vaddr ==> AllZero(FirstPageBytes(elf, s)))
  {
    hide LoaderSlice, Runner.FrameBytes, Slice, Runner.ImageByte, AllZero, FirstPageBytes, FirstPage;
    StartUnmoved(s);
    PageDownLocates(s.vaddr, s.vaddr);
    if p < s.vaddr {
      InFirstPage(s.vaddr, p);
      UnalignedFirstPage(elf, s);
      forall i | 0 <= i < PAGE_SIZE
        ensures FirstPage(elf, s)[i] == Runner.FrameBytes(elf, Slice(s, 0, p))[i]
      {
        FirstPageIsImage(elf, s, i);
        Runner.FrameIsImage(elf, s, 0, p, i);
      }
      assert FirstPage(elf, s) == Runner.FrameBytes(elf, Slice(s, 0, p));
    } else {
      forall i | 0 <= i < PAGE_SIZE
        ensures Runner.FrameBytes(elf, LoaderSlice(s, p))[i] == Runner.FrameBytes(elf, Slice(s, 0, p))[i]
      {
        LoaderFrameIsImage(elf, s, p, i);
        Runner.FrameIsImage(elf, s, 0, p, i);
      }
      assert Runner.FrameBytes(elf, LoaderSlice(s, p)) == Runner.FrameBytes(elf, Slice(s, 0, p));
    }
  }

  lemma InFirstPage(vaddr: Word, p: Word)
    requires PageAligned(p) && PageDown(vaddr) <= p < vaddr
    ensures p == PageDown(vaddr) && !PageAligned(vaddr)
  {}

  /** Segments that start inside a page have nothing but zeros on that page. */
  ghost predicate UnalignedStartsAreZero(elf: seq<Byte>, segs: seq<Segment>)
    requires Runner.AllSound(elf, segs, 0) && AllLoad(segs)
  {
    forall i :: 0 <= i < |segs| && !PageAligned(segs[i].vaddr) && PageCount(segs[i]) > 0 ==>
      AllZero(FirstPageBytes(elf, segs[i]))
  }

  /** For page-disjoint, in-file segments that need no relocation, the two frame-based loaders
      leave the same pages with the same contents if and only if the segments that start
      inside a page have nothing but zeros there; so always for page-aligned ones. */
  lemma LoadersAgree(m: Pages, elf: seq<Byte>, segs: seq<Segment>, plan: seq<Planned>)
    requires AllLoad(segs) && Runner.PageDisjoint(segs, 0) && Runner.AllSound(elf, segs, 0)
    requires ExactPlan(plan, segs, 0)
    ensures Runner.Populated(m, elf, plan, |plan|) ==
            Runner.Populated(m, elf, LoaderPlan(segs), |LoaderPlan(segs)|)
            <==> UnalignedStartsAreZero(elf, segs)
  {
    hide Runner.Populated, LoaderPlan, AllZero, FirstPageBytes, Runner.PageDisjoint, ExactPlan, PageCount, Walks;
    var x := Runner.Populated(m, elf, plan, |plan|);
    var y := Runner.Populated(m, elf, LoaderPlan(segs), |LoaderPlan(segs)|);
    if UnalignedStartsAreZero(elf, segs) {
      forall p: Word
        ensures SameAt(x, y, p)
      {
        SameStore(m, elf, segs, plan, p);
      }
      SameEverywhere(x, y);
    }
    if x == y {
      forall i | 0 <= i < |segs| && !PageAligned(segs[i].vaddr) && PageCount(segs[i]) > 0
        ensures AllZero(FirstPageBytes(elf, segs[i]))
      {
        FirstPageTells(m, elf, segs, plan, i);
      }
    }
  }

  lemma FirstPageTells(m: Pages, elf: seq<Byte>, segs: seq<Segment>, plan: seq<Planned>, i: nat)
    requires AllLoad(segs) && Runner.PageDisjoint(segs, 0) && Runner.AllSound(elf, segs, 0) && i < |segs|
    requires ExactPlan(plan, segs, 0) && !PageAligned(segs[i].vaddr) && PageCount(segs[i]) > 0
    requires Runner.Populated(m, elf, plan, |plan|) == Runner.Populated(m, elf, LoaderPlan(segs), |LoaderPlan(segs)|)
    ensures AllZero(FirstPageBytes(elf, segs[i]))
  {
    hide Runner.Populated, LoaderPlan, AllZero, FirstPageBytes, Runner.PageDisjoint, LoaderSlice;
    hide Slice, Runner.FrameBytes, PageCount, Walks;
    var p := PageOf(segs[i], 0);
    PageOfSegment(segs[i], 0);
    PageDownLocates(segs[i].vaddr, segs[i].vaddr);
    Runner.OnlyWalkerOwns(segs, 0, p, i);
    RunnerPage(m, elf, segs, plan, p);
    LoaderPage(m, elf, segs, p);
    FramesAgree(elf, segs[i], p);
  }

  predicate SameAt(x: Pages, y: Pages, p: Word) {
    (p in x <==> p in y) && (p in x ==> x[p] == y[p])
  }

  lemma SameEverywhere(x: Pages, y: Pages)
    requires forall p: Word :: SameAt(x, y, p)
    ensures x == y
  {
    forall p: Word
      ensures (p in x <==> p in y) && (p in x ==> x[p] == y[p])
    {
      assert SameAt(x, y, p);
    }
    assert x.Keys == y.Keys;
  }

  lemma SameStore(m: Pages, elf: seq<Byte>, segs: seq<Segment>, plan: seq<Planned>, p: Word)
    requires AllLoad(segs) && Runner.PageDisjoint(segs, 0) && Runner.AllSound(elf, segs, 0)
    requires ExactPlan(plan, segs, 0) && UnalignedStartsAreZero(elf, segs)
    ensures SameAt(Runner.Populated(m, elf, plan, |plan|),
                   Runner.Populated(m, elf, LoaderPlan(segs), |LoaderPlan(segs)|), p)
  {
    hide Runner.Populated, LoaderPlan, LoaderSlice, Slice, Runner.FrameBytes, AllZero, FirstPageBytes, PageCount, Walks;
    hide Runner.PageDisjoint;
    var o := Owner(segs, 0, p);
    if o >= 0 {
      RunnerPage(m, elf, segs, plan, p);
      LoaderPage(m, elf, segs, p);
      FramesAgree(elf, segs[o], p);
      if p < segs[o].vaddr { WalkedStart(segs[o], p); }
    } else {
      SamePageSet(segs, p);
      assert !Lists(plan, p);
      Runner.PopulatedKeys(m, elf, plan, |plan|, p);
      Runner.PopulatedKeys(m, elf, LoaderPlan(segs), |LoaderPlan(segs)|, p);
      if p in m {
        Runner.PopulatedKeepsOthers(m, elf, plan, |plan|, p);
        Runner.PopulatedKeepsOthers(m, elf, LoaderPlan(segs), |LoaderPlan(segs)|, p);
      }
    }
  }

  lemma WalkedStart(s: Segment, p: Word)
    requires Walks(s, 0, p) && p < s.vaddr
    ensures !PageAligned(s.vaddr) && PageCount(s) > 0
  {
    StartUnmoved(s);
    InFirstPage(s.vaddr, p);
    var k := IndexOfPage(s, p);
  }

  /** The runner relocates by zero exactly when the lowest segment already starts at the load base. */
  lemma NoRelocation(segs: seq<Segment>)
    ensures Runner.Relocation(segs) == 0 <==> Runner.LowestVaddr(segs, WORD - 1) == LOAD_BASE
  {}
}

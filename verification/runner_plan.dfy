/** The page plan of `create_user_task`: which pages the segments touch, and which slice of
    the file belongs on each. */
module RunnerPlan {
  import opened Words
  import opened PagedMemory
  import opened Elf

  const REGION: int := 0x20_0000

  /** (page_vaddr, file_off, copy_off_in_page, copy_len) */
  datatype Planned = Planned(page: Word, fileOff: Word, copyOff: nat, copyLen: nat)

  function Start(s: Segment, reloc: Word): Word { Wrap(s.vaddr + reloc) }
  function FileEnd(s: Segment, reloc: Word): Word { Wrap(Start(s, reloc) + s.filesz) }
  function MemEnd(s: Segment, reloc: Word): Word { Wrap(Start(s, reloc) + s.memsz) }

  /** The pages `(start_page..end_page).step_by(PAGE_SIZE)` of a loadable segment. */
  predicate Walks(s: Segment, reloc: Word, p: Word) {
    s.isLoad && PageAligned(p) && PageDown(Start(s, reloc)) <= p < PageUp(MemEnd(s, reloc))
  }

  /** The slice of file bytes that falls inside page `p`. */
  function Slice(s: Segment, reloc: Word, p: Word): Planned
    requires p <= WORD - PAGE_SIZE
  {
    var lo := if Start(s, reloc) >= p then Start(s, reloc) else p;
    var hi := if FileEnd(s, reloc) <= p + PAGE_SIZE then FileEnd(s, reloc) else p + PAGE_SIZE;
    if lo < hi then Planned(p, Wrap(s.offset + (lo - Start(s, reloc))), lo - p, hi - lo) else Planned(p, 0, 0, 0)
  }

  /** The first segment, in header order, that walks over page `p`. */
  function Owner(segs: seq<Segment>, reloc: Word, p: Word): (i: int)
    ensures -1 <= i < |segs|
    ensures i >= 0 ==> Walks(segs[i], reloc, p)
  {
    if segs == [] then -1
    else
      var n := |segs| - 1;
      var before := Owner(segs[..n], reloc, p);
      if before >= 0 then before else if Walks(segs[n], reloc, p) then n else -1
  }

  lemma {:induction false} OwnerIsFirst(segs: seq<Segment>, reloc: Word, p: Word, i: nat)
    requires i < |segs| && Walks(segs[i], reloc, p)
    ensures 0 <= Owner(segs, reloc, p) <= i
  {
    var n := |segs| - 1;
    if i < n { OwnerIsFirst(segs[..n], reloc, p, i); }
  }

  lemma OwnerExtends(segs: seq<Segment>, reloc: Word, p: Word, i: nat)
    requires i < |segs|
    ensures Owner(segs[..i + 1], reloc, p) ==
            if Owner(segs[..i], reloc, p) >= 0 then Owner(segs[..i], reloc, p)
            else if Walks(segs[i], reloc, p) then i else -1
  {
    assert segs[..i + 1][..i] == segs[..i];
  }

  // ---- the plan ----

  predicate Lists(plan: seq<Planned>, p: Word) {
    exists k :: 0 <= k < |plan| && plan[k].page == p
  }

  predicate DistinctPages(plan: seq<Planned>) {
    forall j, k :: 0 <= j < k < |plan| ==> plan[j].page != plan[k].page
  }

  /** While segment `i` is walked up to `upto`, the plan lists the pages of earlier
      segments and those of segment `i` below `upto`, each with its owner's slice. */
  ghost predicate PlanUpTo(plan: seq<Planned>, segs: seq<Segment>, reloc: Word, i: nat, upto: int)
    requires i <= |segs|
  {
    && DistinctPages(plan)
    && (forall p: Word :: Lists(plan, p) <==>
          Owner(segs[..i], reloc, p) >= 0 || (i < |segs| && Walks(segs[i], reloc, p) && p < upto))
    && (forall k :: 0 <= k < |plan| ==> EntryOk(plan[k], segs, reloc, i))
  }

  ghost predicate EntryOk(e: Planned, segs: seq<Segment>, reloc: Word, i: nat)
    requires i <= |segs|
  {
    && PageAligned(e.page) && e.page <= WORD - PAGE_SIZE
    && var o := Owner(segs[..i], reloc, e.page);
       if o >= 0 then e == Slice(segs[o], reloc, e.page) else i < |segs| && e == Slice(segs[i], reloc, e.page)
  }

  /** Each touched page is listed exactly once, with the slice of the first segment that touches it. */
  ghost predicate ExactPlan(plan: seq<Planned>, segs: seq<Segment>, reloc: Word) {
    && DistinctPages(plan)
    && (forall p: Word :: Lists(plan, p) <==> Owner(segs, reloc, p) >= 0)
    && (forall k :: 0 <= k < |plan| ==>
          plan[k].page <= WORD - PAGE_SIZE && Owner(segs, reloc, plan[k].page) >= 0
          && plan[k] == Slice(segs[Owner(segs, reloc, plan[k].page)], reloc, plan[k].page))
  }

  method PlanPages(segs: seq<Segment>, reloc: Word) returns (plan: seq<Planned>)
    ensures ExactPlan(plan, segs, reloc)
  {
    plan := [];
    for i := 0 to |segs|
      invariant PlanUpTo(plan, segs, reloc, i, 0)
    {
      var s := segs[i];
      if s.isLoad {
        plan := PlanSegment(plan, segs, reloc, i);
      }
      ForwardPlan(plan, segs, reloc, i);
    }
    assert segs[..|segs|] == segs;
  }

  /** The walk over one segment's pages, skipping pages already recorded. */
  method PlanSegment(before: seq<Planned>, segs: seq<Segment>, reloc: Word, i: nat) returns (plan: seq<Planned>)
    requires i < |segs| && segs[i].isLoad && PlanUpTo(before, segs, reloc, i, 0)
    ensures PlanUpTo(plan, segs, reloc, i, WORD)
  {
    var s := segs[i];
    plan := before;
    var start, end := PageDown(Start(s, reloc)), PageUp(MemEnd(s, reloc));
    PageDownLocates(Start(s, reloc), Start(s, reloc));
    BeginWalk(plan, segs, reloc, i);
    var page: int := start;
    while page < end
      invariant start <= page && page % PAGE_SIZE == 0
      invariant PlanUpTo(plan, segs, reloc, i, page)
      decreases end - page
    {
      WalkedPage(s, reloc, page);
      plan := PlanPage(plan, segs, reloc, i, page);
      page := page + PAGE_SIZE;
    }
    EndWalk(plan, segs, reloc, i, page);
  }

  method PlanPage(before: seq<Planned>, segs: seq<Segment>, reloc: Word, i: nat, page: Word)
    returns (plan: seq<Planned>)
    requires i < |segs| && Walks(segs[i], reloc, page) && page <= WORD - PAGE_SIZE
    requires PlanUpTo(before, segs, reloc, i, page)
    ensures PlanUpTo(plan, segs, reloc, i, page + PAGE_SIZE)
  {
    var absent := FindPage(before, page);
    if absent {
      Appended(before, segs, reloc, i, page);
      plan := before + [Slice(segs[i], reloc, page)];
    } else {
      Skipped(before, segs, reloc, i, page);
      plan := before;
    }
  }

  lemma WalkedPage(s: Segment, reloc: Word, page: int)
    requires s.isLoad && page % PAGE_SIZE == 0 && PageDown(Start(s, reloc)) <= page < PageUp(MemEnd(s, reloc))
    ensures page <= WORD - PAGE_SIZE && Walks(s, reloc, page)
  {
    RoundedBelow(MemEnd(s, reloc), page);
  }

  lemma RoundedBelow(x: Word, page: int)
    requires 0 <= page < PageUp(x) && page % PAGE_SIZE == 0
    ensures page <= WORD - PAGE_SIZE
  {}

  /** Below the topmost page, the pages walked are those that hold a byte of the segment's
      memory, and the one an empty segment starts inside. */
  lemma WalkedPagesMeet(s: Segment, reloc: Word, p: Word)
    requires p % 4096 == 0 && Wrap(s.vaddr + reloc) + s.memsz <= WORD - 4096
    ensures Walks(s, reloc, p) <==>
            s.isLoad && p < Wrap(s.vaddr + reloc) + s.memsz && Wrap(s.vaddr + reloc) < p + 4096
  {
    hide Wrap, PageDown, PageUp;
    WordWraps(Start(s, reloc) + s.memsz);
    BetweenPages(Start(s, reloc), MemEnd(s, reloc), p);
  }

  lemma BetweenPages(start: Word, end: Word, p: Word)
    requires p % 4096 == 0 && end <= WORD - 4096
    ensures PageDown(start) <= p <==> start < p + 4096
    ensures p < PageUp(end) <==> p < end
  {}

  lemma BeginWalk(plan: seq<Planned>, segs: seq<Segment>, reloc: Word, i: nat)
    requires i < |segs| && PlanUpTo(plan, segs, reloc, i, 0)
    ensures PlanUpTo(plan, segs, reloc, i, PageDown(Start(segs[i], reloc)))
  {}

  lemma EndWalk(plan: seq<Planned>, segs: seq<Segment>, reloc: Word, i: nat, page: int)
    requires i < |segs| && PlanUpTo(plan, segs, reloc, i, page) && page >= PageUp(MemEnd(segs[i], reloc))
    ensures PlanUpTo(plan, segs, reloc, i, WORD)
  {}

  method FindPage(plan: seq<Planned>, page: Word) returns (absent: bool)
    ensures absent == !Lists(plan, page)
  {
    for k := 0 to |plan|
      invariant forall j :: 0 <= j < k ==> plan[j].page != page
    {
      if plan[k].page == page { return false; }
    }
    return true;
  }

  lemma OnePageFurther(s: Segment, reloc: Word, page: Word, p: Word)
    requires PageAligned(page) && Walks(s, reloc, p)
    ensures p < page + PAGE_SIZE <==> p < page || p == page
  {}

  lemma Appended(was: seq<Planned>, segs: seq<Segment>, reloc: Word, i: nat, page: Word)
    requires i < |segs| && Walks(segs[i], reloc, page) && page <= WORD - PAGE_SIZE
    requires PlanUpTo(was, segs, reloc, i, page) && !Lists(was, page)
    ensures PlanUpTo(was + [Slice(segs[i], reloc, page)], segs, reloc, i, page + PAGE_SIZE)
  {
    var n := |was|;
    var plan := was + [Slice(segs[i], reloc, page)];
    assert Owner(segs[..i], reloc, page) < 0 by {
      assert Lists(was, page) <==> Owner(segs[..i], reloc, page) >= 0 || page < page;
    }
    forall p: Word
      ensures Lists(plan, p) <==> Lists(was, p) || p == page
    {
      if Lists(was, p) {
        var k :| 0 <= k < n && was[k].page == p;
        assert plan[k].page == p;
      }
      if p == page { assert plan[n].page == p; }
      if Lists(plan, p) && p != page {
        var k :| 0 <= k < |plan| && plan[k].page == p;
        assert was[k].page == p;
      }
    }
    forall p: Word
      ensures Lists(plan, p) <==> Owner(segs[..i], reloc, p) >= 0 || (Walks(segs[i], reloc, p) && p < page + PAGE_SIZE)
    {
      if Walks(segs[i], reloc, p) { OnePageFurther(segs[i], reloc, page, p); }
    }
    forall k | 0 <= k < |plan|
      ensures EntryOk(plan[k], segs, reloc, i)
    {
      if k < n { assert plan[k] == was[k]; }
    }
    forall j, k | 0 <= j < k < |plan|
      ensures plan[j].page != plan[k].page
    {
      assert plan[j] == was[j];
      if k < n { assert plan[k] == was[k]; } else { assert Lists(was, was[j].page); }
    }
  }

  lemma Skipped(plan: seq<Planned>, segs: seq<Segment>, reloc: Word, i: nat, page: Word)
    requires i < |segs| && Walks(segs[i], reloc, page)
    requires PlanUpTo(plan, segs, reloc, i, page) && Lists(plan, page)
    ensures PlanUpTo(plan, segs, reloc, i, page + PAGE_SIZE)
  {
    forall p: Word
      ensures Lists(plan, p) <==> Owner(segs[..i], reloc, p) >= 0 || (Walks(segs[i], reloc, p) && p < page + PAGE_SIZE)
    {
      if Walks(segs[i], reloc, p) { OnePageFurther(segs[i], reloc, page, p); }
    }
  }

  /** When the walk over segment `i` is over, the plan is the one for `i + 1` segments. */
  lemma ForwardPlan(plan: seq<Planned>, segs: seq<Segment>, reloc: Word, i: nat)
    requires i < |segs|
    requires PlanUpTo(plan, segs, reloc, i, if segs[i].isLoad then WORD else 0)
    ensures PlanUpTo(plan, segs, reloc, i + 1, 0)
  {
    forall p: Word
      ensures Lists(plan, p) <==> Owner(segs[..i + 1], reloc, p) >= 0
    {
      OwnerExtends(segs, reloc, p, i);
    }
    forall k | 0 <= k < |plan|
      ensures EntryOk(plan[k], segs, reloc, i + 1)
    {
      OwnerExtends(segs, reloc, plan[k].page, i);
      assert Lists(plan, plan[k].page);
      assert EntryOk(plan[k], segs, reloc, i);
    }
  }
}

/** `Sel4Task`: the two maps and the loops that keep them, proved against the page store. */
module TaskMemory {
  import opened Words
  import opened PagedMemory
  import opened Smallest
  import AddressSpace
  import SyscallPatch
  import opened Elf

  class Sel4Task {
    var mappedPage: map<Word, Word>
    var pageData: Pages
    var heap: Word
    var taskVmEnd: Word
    var entry: Word

    /** The slot map and the contents map describe the same, page-aligned set of pages. */
    ghost predicate Valid()
      reads this
    {
      mappedPage.Keys == pageData.Keys && AlignedKeys(pageData)
    }

    ghost function View(): AddressSpace.Space
      reads this
    {
      AddressSpace.Space(pageData, heap, taskVmEnd)
    }

    constructor ()
      ensures Valid() && View() == AddressSpace.Space(map[], 0x7000_0000, 0)
    {
      mappedPage, pageData := map[], map[];
      heap, taskVmEnd, entry := AddressSpace.DEF_HEAP_ADDR, 0, 0;
    }

    method MapBlankPage(vaddr: Word)
      requires Valid()
      modifies this`mappedPage, this`pageData
      ensures Valid() && pageData == Blank(old(pageData), vaddr)
    {
      var page := PageDown(vaddr);
      PageDownLocates(vaddr, vaddr);
      if page !in mappedPage { mappedPage := mappedPage[page := 0]; }
      if page !in pageData { pageData := pageData[page := ZeroPage()]; }
    }

    /** Copies at most up to the end of the page; the rest of the buffer is left as it was. */
    method ReadBytes(addr: Word, buf: array<Byte>) returns (ok: bool)
      requires Valid()
      modifies buf
      ensures ok == (PageDown(addr) in pageData)
      ensures forall t :: 0 <= t < buf.Length ==>
                buf[t] == if ok && addr % PAGE_SIZE + t < PAGE_SIZE then ReadAt(addr, t) else old(buf[t])
    {
      var page := PageDown(addr);
      var offset := addr % PAGE_SIZE;
      if page !in pageData { return false; }
      var data := pageData[page];
      var len := if buf.Length < PAGE_SIZE - offset then buf.Length else PAGE_SIZE - offset;
      for t := 0 to len
        invariant forall u :: 0 <= u < t ==> buf[u] == data[offset + u]
        invariant forall u :: t <= u < buf.Length ==> buf[u] == old(buf[u])
      {
        buf[t] := data[offset + t];
      }
      return true;
    }

    ghost function ReadAt(addr: Word, t: nat): Byte
      requires PageDown(addr) in pageData && addr % PAGE_SIZE + t < PAGE_SIZE
      reads this
    {
      pageData[PageDown(addr)][addr % PAGE_SIZE + t]
    }

    method ReadU32(addr: Word) returns (r: Option<int>)
      requires Valid()
      ensures r == SyscallPatch.ReadU32(pageData, addr)
    {
      var buf := new Byte[4](_ => 0);
      var ok := ReadBytes(addr, buf);
      if ok {
        r := Some(SyscallPatch.Le32(buf[0], buf[1], buf[2], buf[3]));
      } else {
        r := None;
      }
    }

    /** One pass of the write loop: the part of the data that fits into the page of `addr`. */
    method WriteChunk(addr: Word, chunk: seq<Byte>)
      requires Valid() && 0 < |chunk| <= PAGE_SIZE - addr % PAGE_SIZE
      modifies this`mappedPage, this`pageData
      ensures Valid() && pageData == PutBytes(old(pageData), addr, chunk)
    {
      var page, offset := PageDown(addr), addr % PAGE_SIZE;
      PageDownLocates(addr, addr);
      PutBytesInPage(pageData, addr, chunk);
      if page in pageData {
        var was := pageData[page];
        pageData := pageData[page := was[..offset] + chunk + was[offset + |chunk|..]];
      } else {
        var zero := ZeroPage();
        mappedPage := mappedPage[page := 0];
        pageData := pageData[page := zero[..offset] + chunk + zero[offset + |chunk|..]];
      }
    }

    /** A write of any length, page by page, is the byte-by-byte write of the flat memory. */
    method WriteBytes(start: Word, data: seq<Byte>)
      requires Valid()
      modifies this`mappedPage, this`pageData
      ensures Valid() && pageData == PutBytes(old(pageData), start, data)
    {
      var addr: Word, remaining := start, data;
      while remaining != []
        invariant Valid()
        invariant PutBytes(pageData, addr, remaining) == PutBytes(old(pageData), start, data)
        decreases |remaining|
      {
        var room := PAGE_SIZE - addr % PAGE_SIZE;
        var len := if |remaining| < room then |remaining| else room;
        var chunk, rest := remaining[..len], remaining[len..];
        PutBytesSplit(pageData, addr, remaining, chunk, rest);
        var next: Word := Wrap(addr + len);
        assert PutBytes(PutBytes(pageData, addr, chunk), next, rest) == PutBytes(old(pageData), start, data);
        WriteChunk(addr, chunk);
        addr, remaining := next, rest;
      }
    }

    /** Scan the keys in ascending order for the first gap that holds `size` bytes. */
    method FindFreeArea(start: Word, size: Word) returns (r: Word)
      requires Valid()
      ensures r == AddressSpace.FindFreeArea(View(), start, size)
    {
      var last: Word := if taskVmEnd >= start then taskVmEnd else start;
      var keys := mappedPage.Keys;
      while keys != {}
        invariant AddressSpace.FirstFit(keys, last, size) == AddressSpace.FindFreeArea(View(), start, size)
        decreases |keys|
      {
        LeastExists(keys);
        var vaddr :| vaddr in keys && forall w :: w in keys ==> vaddr <= w;
        assert vaddr == Least(keys);
        if Wrap(last + size) <= vaddr { return last; }
        last := Wrap(vaddr + PAGE_SIZE);
        keys := keys - {vaddr};
      }
      return last;
    }

    /** Map `n` pages upwards from `start`, as the stepping loops of the callers do. */
    method MapRun(start: Word, n: nat)
      requires Valid()
      modifies this`mappedPage, this`pageData
      ensures Valid() && pageData == BlankPages(old(pageData), start, n)
    {
      for i := 0 to n
        invariant Valid()
        invariant BlankPages(pageData, start + i * PAGE_SIZE, n - i) == BlankPages(old(pageData), start, n)
      {
        MapBlankPage(Wrap(start + i * PAGE_SIZE));
      }
    }

    method SysBrk(newBrk: Word) returns (r: Word)
      requires Valid()
      modifies this
      ensures Valid() && View() == AddressSpace.Brk(old(View()), newBrk)
      ensures r == heap == if newBrk == 0 then old(heap) else newBrk
    {
      if newBrk == 0 { return heap; }
      var oldHeap := heap;
      heap := newBrk;
      if newBrk > oldHeap {
        var start, end := PageDown(oldHeap), PageUp(newBrk);
        MapRun(start, Steps(start, end));
      }
      return newBrk;
    }

    method SysMmap(addr: Word, length: Word) returns (start: Word)
      requires Valid()
      modifies this`mappedPage, this`pageData
      ensures Valid() && View() == AddressSpace.Mmap(old(View()), addr, length)
      ensures start == AddressSpace.MmapStart(old(View()), addr, length)
      ensures addr != 0 ==> start % 4096 == 0 && start <= addr < start + 4096
    {
      hide BlankPages, PageDown, AddressSpace.FindFreeArea, Wrap;
      var pages := Wrap(length + PAGE_SIZE - 1) / PAGE_SIZE;
      PageDownLocates(addr, addr);
      if addr == 0 {
        AddressSpace.PageCountCovers(length);
        start := FindFreeArea(AddressSpace.MMAP_START, pages * PAGE_SIZE);
      } else {
        start := PageDown(addr);
      }
      MapRun(start, pages);
    }

    method SysMunmap(addr: Word, length: Word)
      requires Valid()
      modifies this`mappedPage, this`pageData
      ensures Valid() && View() == AddressSpace.Munmap(old(View()), addr, length)
    {
      var start, end := PageDown(addr), PageDown(Wrap(addr + length + PAGE_SIZE - 1));
      var vaddr: int := start;
      while vaddr < end
        invariant Valid() && start <= vaddr && vaddr % PAGE_SIZE == 0 && end % PAGE_SIZE == 0
        invariant vaddr <= end || vaddr == start
        invariant pageData == Unmapped(old(pageData), start, vaddr)
        decreases end - vaddr
      {
        UnmapOne(old(pageData), start, vaddr);
        mappedPage := mappedPage - {vaddr};
        pageData := pageData - {vaddr};
        vaddr := vaddr + PAGE_SIZE;
      }
    }

    /** Overwrite every `syscall` instruction in the file bytes of a segment, scanning upwards. */
    method PatchSyscalls(vaddr: Word, data: seq<Byte>)
      requires Valid()
      modifies this`mappedPage, this`pageData
      ensures Valid() && pageData == SyscallPatch.PatchFrom(old(pageData), vaddr, data, 0)
    {
      var j := 0;
      while j < |data| - 1
        invariant 0 <= j && Valid()
        invariant SyscallPatch.PatchFrom(pageData, vaddr, data, j) ==
                  SyscallPatch.PatchFrom(old(pageData), vaddr, data, 0)
        decreases |data| - j
      {
        if data[j] == 0x0f && data[j + 1] == 0x05 {
          var patchAddr := Wrap(vaddr + j);
          WrapTwice(vaddr + j);
          PutBytesRing(pageData, vaddr + j, patchAddr, SyscallPatch.Trap());
          WriteBytes(patchAddr, [0xef, 0xbe, 0xad, 0xde]);
        }
        j := j + 1;
      }
    }

    method LoadSegment(elf: seq<Byte>, s: Segment) returns (ok: bool)
      requires Valid()
      modifies this`mappedPage, this`pageData
      ensures Valid() && ok == InFile(elf, s)
      ensures ok ==> pageData == SyscallPatch.LoadSegment(old(pageData), elf, s)
    {
      var start, end := PageDown(s.vaddr), PageUp(Wrap(s.vaddr + s.memsz));
      MapRun(start, Steps(start, end));
      if s.filesz > 0 {
        if s.offset + s.filesz > |elf| { return false; } // slice out of range: the loader panics
        var data := elf[s.offset..s.offset + s.filesz];
        WriteBytes(s.vaddr, data);
        PatchSyscalls(s.vaddr, data);
      }
      return true;
    }

    /** Load every PT_LOAD segment in header order. `ok` is false when a slice of the
        file does not exist, which stops the original with a panic. */
    method LoadElf(elf: seq<Byte>, segs: seq<Segment>, start: Word) returns (ok: bool)
      requires Valid()
      modifies this
      ensures Valid() && heap == old(heap)
      ensures ok == SyscallPatch.AllInFile(elf, segs)
      ensures ok ==> pageData == SyscallPatch.LoadAll(old(pageData), elf, segs)
                     && entry == start && taskVmEnd == PageUp(MaxEnd(segs, 0))
    {
      var maxAddr: Word, i := 0, 0;
      while i < |segs|
        invariant 0 <= i <= |segs| && Valid() && heap == old(heap)
        invariant SyscallPatch.AllInFile(elf, segs[..i])
        invariant MaxEnd(segs[i..], maxAddr) == MaxEnd(segs, 0)
        invariant SyscallPatch.AllInFile(elf, segs) ==>
                    SyscallPatch.LoadAll(pageData, elf, segs[i..]) == SyscallPatch.LoadAll(old(pageData), elf, segs)
      {
        assert segs[i..][0] == segs[i] && segs[i..][1..] == segs[i + 1..];
        if segs[i].isLoad {
          var end := Wrap(segs[i].vaddr + segs[i].memsz);
          if end > maxAddr { maxAddr := end; }
          ok := LoadSegment(elf, segs[i]);
          if !ok { return; }
        }
        i := i + 1;
      }
      entry, taskVmEnd := start, PageUp(maxAddr);
      return true;
    }
  }

  /** End of the highest loadable segment, as the loader's running maximum computes it. */
  function MaxEnd(segs: seq<Segment>, sofar: Word): Word {
    if segs == [] then sofar
    else
      var end := Wrap(segs[0].vaddr + segs[0].memsz);
      MaxEnd(segs[1..], if segs[0].isLoad && end > sofar then end else sofar)
  }

  /** It is the end of some loadable segment, or where it started, and no segment ends higher. */
  lemma {:induction false} MaxEndIsHighest(segs: seq<Segment>, sofar: Word)
    ensures sofar <= MaxEnd(segs, sofar)
    ensures forall i :: 0 <= i < |segs| && segs[i].isLoad ==>
              Wrap(segs[i].vaddr + segs[i].memsz) <= MaxEnd(segs, sofar)
    ensures MaxEnd(segs, sofar) == sofar
            || exists i :: 0 <= i < |segs| && segs[i].isLoad
                           && Wrap(segs[i].vaddr + segs[i].memsz) == MaxEnd(segs, sofar)
    decreases |segs|
  {
    hide Wrap;
    if segs != [] {
      var s, end := segs[0], Wrap(segs[0].vaddr + segs[0].memsz);
      var low := if s.isLoad && end > sofar then end else sofar;
      MaxEndIsHighest(segs[1..], low);
      assert segs == [s] + segs[1..];
      if i :| 0 <= i < |segs[1..]| && segs[1..][i].isLoad
              && Wrap(segs[1..][i].vaddr + segs[1..][i].memsz) == MaxEnd(segs, sofar) {
        assert segs[i + 1] == segs[1..][i];
      }
    }
  }

  lemma UnmapOne(m: Pages, start: int, v: int)
    requires AlignedKeys(m) && start % PAGE_SIZE == 0 && v % PAGE_SIZE == 0 && 0 <= v < WORD && start <= v
    ensures Unmapped(m, start, v) - {v} == Unmapped(m, start, v + PAGE_SIZE)
  {
    forall p | p in m
      ensures v <= p < v + PAGE_SIZE <==> p == v
    {}
  }
}

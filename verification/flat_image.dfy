/** The two host tools that flatten LOAD segments: one appends and pads, the other writes
    into a preallocated buffer. */
module FlatImage {
  import opened Words
  import Bits

  datatype Load = Load(offset: nat, paddr: nat, filesz: nat, memsz: nat)

  /** `data[offset : offset + filesz]`, which stops at the end of the file. */
  function Slice(data: seq<Byte>, offset: nat, len: nat): seq<Byte> {
    data[Min(offset, |data|)..Min(offset + len, |data|)]
  }

  /** `buf[lo : hi] = src` on a bytearray: the buffer changes length when `src` does not fit. */
  function SliceAssign(buf: seq<Byte>, lo: nat, hi: nat, src: seq<Byte>): seq<Byte>
    requires lo <= hi
  {
    buf[..Min(lo, |buf|)] + src + buf[Min(hi, |buf|)..]
  }

  // ---- sorted by physical address, equal keys in their old order ----

  function Insert(x: Load, segs: seq<Load>): seq<Load> {
    if segs == [] || x.paddr <= segs[0].paddr then [x] + segs else [segs[0]] + Insert(x, segs[1..])
  }

  function Sorted(segs: seq<Load>): seq<Load> {
    if segs == [] then [] else Insert(segs[0], Sorted(segs[1..]))
  }

  ghost predicate Ascending(segs: seq<Load>) {
    forall i, j :: 0 <= i < j < |segs| ==> segs[i].paddr <= segs[j].paddr
  }

  /** No byte of memory belongs to both. */
  predicate Disjoint(a: Load, b: Load) {
    a.memsz == 0 || b.memsz == 0 || a.paddr + a.memsz <= b.paddr || b.paddr + b.memsz <= a.paddr
  }

  ghost predicate Apart(segs: seq<Load>) {
    forall i, j :: 0 <= i < j < |segs| ==> Disjoint(segs[i], segs[j])
  }

  predicate WellFormed(s: Load, data: seq<Byte>) {
    s.filesz <= s.memsz && s.offset + s.filesz <= |data|
  }

  lemma {:induction false} InsertMembers(x: Load, segs: seq<Load>)
    ensures multiset(Insert(x, segs)) == multiset(segs) + multiset{x}
    decreases |segs|
  {
    if segs != [] && x.paddr > segs[0].paddr {
      InsertMembers(x, segs[1..]);
      assert segs == [segs[0]] + segs[1..];
    }
  }

  lemma InsertedOrOld(x: Load, segs: seq<Load>)
    ensures forall s :: s in Insert(x, segs) ==> s == x || s in segs
  {
    InsertMembers(x, segs);
    forall s | s in Insert(x, segs)
      ensures s == x || s in segs
    {
      assert s in multiset(Insert(x, segs));
    }
  }

  lemma {:induction false} InsertAscends(x: Load, segs: seq<Load>)
    requires Ascending(segs)
    ensures Ascending(Insert(x, segs))
    decreases |segs|
  {
    if segs != [] && x.paddr > segs[0].paddr {
      InsertAscends(x, segs[1..]);
      InsertedOrOld(x, segs[1..]);
      var r := Insert(x, segs[1..]);
      forall j | 0 <= j < |r|
        ensures segs[0].paddr <= r[j].paddr
      {
        assert r[j] in r;
      }
    }
  }

  lemma {:induction false} InsertApart(x: Load, segs: seq<Load>)
    requires Apart(segs) && forall s :: s in segs ==> Disjoint(x, s)
    ensures Apart(Insert(x, segs))
    decreases |segs|
  {
    hide Disjoint;
    if segs != [] && x.paddr > segs[0].paddr {
      InsertApart(x, segs[1..]);
      InsertedOrOld(x, segs[1..]);
      DisjointSwaps(x, segs[0]);
      var r := Insert(x, segs[1..]);
      forall j | 0 <= j < |r|
        ensures Disjoint(segs[0], r[j])
      {
        assert r[j] in r;
      }
    }
  }

  lemma DisjointSwaps(a: Load, b: Load)
    ensures Disjoint(a, b) == Disjoint(b, a)
  {}

  lemma {:induction false} SortKeeps(segs: seq<Load>)
    ensures Ascending(Sorted(segs)) && multiset(Sorted(segs)) == multiset(segs)
    decreases |segs|
  {
    if segs != [] {
      assert segs == [segs[0]] + segs[1..];
      SortKeeps(segs[1..]);
      InsertAscends(segs[0], Sorted(segs[1..]));
      InsertMembers(segs[0], Sorted(segs[1..]));
    }
  }

  lemma {:induction false} SortKeepsApart(segs: seq<Load>)
    requires Apart(segs)
    ensures Apart(Sorted(segs))
    decreases |segs|
  {
    if segs != [] {
      SortKeepsApart(segs[1..]);
      forall s | s in Sorted(segs[1..])
        ensures Disjoint(segs[0], s)
      {
        SameMembers(segs[1..], s);
      }
      InsertApart(segs[0], Sorted(segs[1..]));
    }
  }

  lemma SameMembers(segs: seq<Load>, s: Load)
    ensures s in Sorted(segs) <==> s in segs
  {
    SortKeeps(segs);
    assert s in multiset(Sorted(segs)) <==> s in multiset(segs);
  }

  /** The segments at one address, in their order. */
  function AtAddress(segs: seq<Load>, paddr: nat): seq<Load> {
    if segs == [] then []
    else (if segs[0].paddr == paddr then [segs[0]] else []) + AtAddress(segs[1..], paddr)
  }

  lemma ConsAtAddress(s: Load, segs: seq<Load>, paddr: nat)
    ensures AtAddress([s] + segs, paddr) == (if s.paddr == paddr then [s] else []) + AtAddress(segs, paddr)
  {
    assert ([s] + segs)[1..] == segs;
  }

  lemma {:induction false} InsertIsStable(x: Load, segs: seq<Load>, paddr: nat)
    ensures AtAddress(Insert(x, segs), paddr) == (if x.paddr == paddr then [x] else []) + AtAddress(segs, paddr)
    decreases |segs|
  {
    hide AtAddress;
    if segs == [] || x.paddr <= segs[0].paddr {
      ConsAtAddress(x, segs, paddr);
    } else {
      assert segs == [segs[0]] + segs[1..];
      ConsAtAddress(segs[0], segs[1..], paddr);
      ConsAtAddress(segs[0], Insert(x, segs[1..]), paddr);
      InsertIsStable(x, segs[1..], paddr);
    }
  }

  /** Segments at the same address keep their order. */
  lemma {:induction false} SortIsStable(segs: seq<Load>, paddr: nat)
    ensures AtAddress(Sorted(segs), paddr) == AtAddress(segs, paddr)
    decreases |segs|
  {
    if segs != [] {
      SortIsStable(segs[1..], paddr);
      InsertIsStable(segs[0], Sorted(segs[1..]), paddr);
    }
  }

  // ---- extent ----

  function Lowest(segs: seq<Load>): (m: nat)
    requires segs != []
    ensures (forall s :: s in segs ==> m <= s.paddr) && exists s :: s in segs && m == s.paddr
  {
    if |segs| == 1 then assert segs[0] in segs; segs[0].paddr
    else
      assert segs == [segs[0]] + segs[1..];
      Min(segs[0].paddr, Lowest(segs[1..]))
  }

  /** `paddr + max(filesz, memsz)` */
  function End(s: Load): nat {
    s.paddr + if s.filesz > s.memsz then s.filesz else s.memsz
  }

  function Highest(segs: seq<Load>): (m: nat)
    requires segs != []
    ensures (forall s :: s in segs ==> End(s) <= m) && exists s :: s in segs && m == End(s)
  {
    if |segs| == 1 then assert segs[0] in segs; End(segs[0])
    else
      assert segs == [segs[0]] + segs[1..];
      var r := Highest(segs[1..]);
      if End(segs[0]) > r then End(segs[0]) else r
  }

  /** `align_up(val, 4096)`, by masking. */
  function AlignUp(val: nat): nat {
    Bits.AndNot(val + PAGE_SIZE - 1, PAGE_SIZE - 1)
  }

  lemma AlignUpRounds(val: nat)
    ensures val <= AlignUp(val) < val + PAGE_SIZE && AlignUp(val) % PAGE_SIZE == 0
  {
    assert Bits.Pow2(12) == PAGE_SIZE by { Bits.Pow2Small(); }
    Bits.MaskRoundsDown(val + PAGE_SIZE - 1, 12);
  }

  // ---- the two builders ----

  function PadTo(bin: seq<Byte>, n: nat): seq<Byte> {
    if |bin| < n then bin + Zeros(n - |bin|) else bin
  }

  function Append(bin: seq<Byte>, s: Load, base: nat, data: seq<Byte>): seq<Byte>
    requires base <= s.paddr
  {
    PadTo(PadTo(bin, s.paddr - base) + Slice(data, s.offset, s.filesz), s.paddr - base + s.memsz)
  }

  predicate Above(segs: seq<Load>, base: nat) {
    forall s :: s in segs ==> base <= s.paddr
  }

  /** The binary after the first k segments. */
  function Appended(segs: seq<Load>, k: nat, base: nat, data: seq<Byte>): seq<Byte>
    requires k <= |segs| && Above(segs, base)
  {
    if k == 0 then [] else Append(Appended(segs, k - 1, base, data), segs[k - 1], base, data)
  }

  function Blitted(segs: seq<Load>, k: nat, base: nat, data: seq<Byte>, size: nat): seq<Byte>
    requires k <= |segs| && Above(segs, base)
  {
    if k == 0 then Zeros(size)
    else
      var dest := segs[k - 1].paddr - base;
      SliceAssign(Blitted(segs, k - 1, base, data, size), dest, dest + segs[k - 1].filesz,
                  Slice(data, segs[k - 1].offset, segs[k - 1].filesz))
  }

  lemma SortedAbove(segs: seq<Load>)
    requires segs != []
    ensures Above(Sorted(segs), Lowest(segs))
  {
    forall s | s in Sorted(segs)
      ensures Lowest(segs) <= s.paddr
    {
      SameMembers(segs, s);
    }
  }

  ghost function AppendImage(segs: seq<Load>, data: seq<Byte>): seq<Byte>
    requires segs != []
  {
    SortedAbove(segs);
    Appended(Sorted(segs), |Sorted(segs)|, Lowest(segs), data)
  }

  function BlitSize(segs: seq<Load>): nat
    requires segs != []
  {
    ExtentIsNatural(segs);
    AlignUp(Highest(segs) - Lowest(segs))
  }

  /** The buffer is whole pages: enough for the file and memory parts of every segment, and less
      than a page more than the longest reach needs. */
  lemma BlitSizeCovers(segs: seq<Load>)
    requires segs != []
    ensures BlitSize(segs) % 4096 == 0
    ensures forall s :: s in segs ==>
              s.paddr + s.filesz <= Lowest(segs) + BlitSize(segs) && s.paddr + s.memsz <= Lowest(segs) + BlitSize(segs)
    ensures exists s :: s in segs && Lowest(segs) + BlitSize(segs) < s.paddr + Max(s.filesz, s.memsz) + 4096
  {
    hide AlignUp, Lowest, Highest;
    ExtentIsNatural(segs);
    AlignUpRounds(Highest(segs) - Lowest(segs));
    var s :| s in segs && Highest(segs) == End(s);
    assert Lowest(segs) + BlitSize(segs) < s.paddr + Max(s.filesz, s.memsz) + 4096;
  }

  lemma ExtentIsNatural(segs: seq<Load>)
    requires segs != []
    ensures Lowest(segs) <= Highest(segs)
  {
    assert segs[0] in segs;
  }

  ghost function BlitImage(segs: seq<Load>, data: seq<Byte>): seq<Byte>
    requires segs != []
  {
    SortedAbove(segs);
    PadTo(Blitted(Sorted(segs), |Sorted(segs)|, Lowest(segs), data, BlitSize(segs)), BlitSize(segs))
  }

  /** The flattening loop of the bzImage builder; without LOAD segments it exits. */
  method BuildKernelBin(segs: seq<Load>, data: seq<Byte>) returns (r: Option<seq<Byte>>)
    ensures r == if segs == [] then None else Some(AppendImage(segs, data))
  {
    hide Slice, Sorted, Lowest;
    if segs == [] { return None; }
    var base := Lowest(segs);
    var sorted := Sorted(segs);
    SortedAbove(segs);
    var bin: seq<Byte> := [];
    for k := 0 to |sorted|
      invariant bin == Appended(sorted, k, base, data)
    {
      var s := sorted[k];
      assert s in sorted;
      var dest := s.paddr - base;
      bin := PadWithZeros(bin, dest);
      bin := bin + Slice(data, s.offset, s.filesz);
      bin := PadWithZeros(bin, dest + s.memsz);
    }
    return Some(bin);
  }

  /** `while len(bin) < n: bin.append(0)` */
  method PadWithZeros(bin: seq<Byte>, n: nat) returns (r: seq<Byte>)
    ensures r == PadTo(bin, n)
  {
    r := bin;
    while |r| < n
      invariant |bin| <= |r| && (|r| <= n || r == bin) && r == bin + Zeros(|r| - |bin|)
    {
      r := r + [0];
    }
  }

  /** `build_flat_binary`: the buffer, its size and the lowest address. */
  method BuildFlatBinary(segs: seq<Load>, data: seq<Byte>) returns (bytes: seq<Byte>, size: nat, minPaddr: nat)
    ensures segs == [] ==> bytes == [] && size == 0 && minPaddr == 0
    ensures segs != [] ==> bytes == BlitImage(segs, data) && size == BlitSize(segs) && minPaddr == Lowest(segs)
  {
    hide Slice, Sorted, SliceAssign;
    if segs == [] { return [], 0, 0; }
    minPaddr, size := Lowest(segs), BlitSize(segs);
    var sorted := Sorted(segs);
    SortedAbove(segs);
    var buf: seq<Byte> := Zeros(size);
    for k := 0 to |sorted|
      invariant buf == Blitted(sorted, k, minPaddr, data, size)
    {
      var s := sorted[k];
      assert s in sorted;
      var dest := s.paddr - minPaddr;
      buf := SliceAssign(buf, dest, dest + s.filesz, Slice(data, s.offset, s.filesz));
    }
    bytes := PadTo(buf, size);
  }

  // ---- how far the appended binary reaches ----

  function Max(a: nat, b: nat): nat {
    if a < b then b else a
  }

  /** The length of the appended binary after k segments. */
  function FilledTo(segs: seq<Load>, k: nat, base: nat): nat
    requires k <= |segs| && Above(segs, base)
  {
    if k == 0 then 0
    else
      var s := segs[k - 1];
      assert s in segs;
      Max(Max(FilledTo(segs, k - 1, base), s.paddr - base) + s.filesz, s.paddr - base + s.memsz)
  }

  /** The file part of segment i, if it has one, starts at or behind everything appended before. */
  predicate InOrderAt(segs: seq<Load>, i: nat, base: nat)
    requires i < |segs| && Above(segs, base)
  {
    segs[i].filesz > 0 ==> base <= segs[i].paddr && FilledTo(segs, i, base) <= segs[i].paddr - base
  }

  predicate InOrder(segs: seq<Load>, k: nat, base: nat)
    requires k <= |segs| && Above(segs, base)
  {
    forall i :: 0 <= i < k ==> InOrderAt(segs, i, base)
  }

  /** Everything appended so far ends where one of the segments does. */
  ghost predicate Reaches(segs: seq<Load>, k: nat, base: nat, n: nat)
    requires k <= |segs|
  {
    && (forall i :: 0 <= i < k ==> End(segs[i]) - base <= n)
    && (n == 0 || exists i :: 0 <= i < k && n == End(segs[i]) - base)
  }

  lemma {:induction false} FilledReaches(segs: seq<Load>, k: nat, base: nat)
    requires k <= |segs| && Above(segs, base) && InOrder(segs, k, base)
    requires forall s :: s in segs ==> s.filesz <= s.memsz
    ensures Reaches(segs, k, base, FilledTo(segs, k, base))
  {
    if k > 0 {
      FilledReaches(segs, k - 1, base);
      assert segs[k - 1] in segs && InOrderAt(segs, k - 1, base);
      var n := FilledTo(segs, k, base);
      assert n == FilledTo(segs, k - 1, base) || n == End(segs[k - 1]) - base;
    }
  }

  lemma EndsBelow(segs: seq<Load>, i: nat, k: nat)
    requires i < k < |segs| && Ascending(segs) && Apart(segs) && segs[k].memsz > 0
    requires segs[i].filesz <= segs[i].memsz
    ensures End(segs[i]) <= segs[k].paddr
  {
    assert Disjoint(segs[i], segs[k]);
  }

  /** Of segments that do not overlap, a non-empty one starts behind all that is appended. */
  lemma StartsPast(segs: seq<Load>, k: nat, base: nat)
    requires k < |segs| && Above(segs, base) && InOrder(segs, k, base) && Ascending(segs) && Apart(segs)
    requires forall s :: s in segs ==> s.filesz <= s.memsz
    ensures segs[k].memsz > 0 ==> FilledTo(segs, k, base) <= segs[k].paddr - base
  {
    FilledReaches(segs, k, base);
    assert segs[k] in segs;
    var n := FilledTo(segs, k, base);
    if segs[k].memsz > 0 && n > 0 {
      var i :| 0 <= i < k && n == End(segs[i]) - base;
      assert segs[i] in segs;
      EndsBelow(segs, i, k);
    }
  }

  lemma {:induction false} ApartIsInOrder(segs: seq<Load>, k: nat, base: nat)
    requires k <= |segs| && Above(segs, base) && Ascending(segs) && Apart(segs)
    requires forall s :: s in segs ==> s.filesz <= s.memsz
    ensures InOrder(segs, k, base)
  {
    hide Ascending, Apart, FilledTo;
    if k > 0 {
      ApartIsInOrder(segs, k - 1, base);
      StartsPast(segs, k - 1, base);
      assert segs[k - 1] in segs;
      assert InOrderAt(segs, k - 1, base);
    }
  }

  /** Appending keeps what is there and pads to the segment's end. */
  lemma AppendExtends(bin: seq<Byte>, s: Load, base: nat, data: seq<Byte>)
    requires base <= s.paddr
    ensures var bin' := Append(bin, s, base, data);
            && |bin| <= |bin'| && bin'[..|bin|] == bin
            && (WellFormed(s, data) ==>
                  |bin'| == Max(Max(|bin|, s.paddr - base) + s.filesz, s.paddr - base + s.memsz))
  {}

  lemma {:induction false} AppendedLength(segs: seq<Load>, k: nat, base: nat, data: seq<Byte>)
    requires k <= |segs| && Above(segs, base) && forall s :: s in segs ==> WellFormed(s, data)
    ensures |Appended(segs, k, base, data)| == FilledTo(segs, k, base)
  {
    hide Append;
    if k > 0 {
      AppendedLength(segs, k - 1, base, data);
      assert segs[k - 1] in segs;
      AppendExtends(Appended(segs, k - 1, base, data), segs[k - 1], base, data);
    }
  }

  // ---- one step of each ----

  lemma ZerosJoin(a: nat, b: nat)
    ensures Zeros(a) + Zeros(b) == Zeros(a + b)
  {}

  /** What appending a non-empty segment spells out. */
  lemma AppendSpelt(bin: seq<Byte>, s: Load, base: nat, data: seq<Byte>)
    requires base <= s.paddr && WellFormed(s, data) && |bin| <= s.paddr - base
    ensures Append(bin, s, base, data) ==
            bin + Zeros(s.paddr - base - |bin|) + data[s.offset..s.offset + s.filesz] + Zeros(s.memsz - s.filesz)
  {
    var start := bin + Zeros(s.paddr - base - |bin|);
    assert PadTo(bin, s.paddr - base) == start;
    assert Slice(data, s.offset, s.filesz) == data[s.offset..s.offset + s.filesz];
    assert PadTo(start + data[s.offset..s.offset + s.filesz], s.paddr - base + s.memsz)
           == start + data[s.offset..s.offset + s.filesz] + Zeros(s.memsz - s.filesz);
  }

  /** Assigning a slice inside the zeroed rest leaves zeros on both sides of it. */
  lemma AssignInZeros(bin: seq<Byte>, size: nat, dest: nat, file: seq<Byte>)
    requires |bin| <= dest && dest + |file| <= size
    ensures SliceAssign(bin + Zeros(size - |bin|), dest, dest + |file|, file) ==
            bin + Zeros(dest - |bin|) + file + Zeros(size - dest - |file|)
  {
    var buf := bin + Zeros(size - |bin|);
    assert buf[..dest] == bin + Zeros(dest - |bin|);
    assert buf[dest + |file|..] == Zeros(size - dest - |file|);
  }

  /** Appending to the prefix and writing into the zeroed rest come to the same. */
  lemma StepsAgree(bin: seq<Byte>, s: Load, base: nat, data: seq<Byte>, size: nat)
    requires base <= s.paddr && WellFormed(s, data) && |bin| <= size && End(s) - base <= size
    requires s.filesz > 0 ==> |bin| <= s.paddr - base
    ensures var bin' := Append(bin, s, base, data); var dest := s.paddr - base;
            && |bin'| <= size
            && SliceAssign(bin + Zeros(size - |bin|), dest, dest + s.filesz, Slice(data, s.offset, s.filesz))
               == bin' + Zeros(size - |bin'|)
  {
    var dest := s.paddr - base;
    var file := data[s.offset..s.offset + s.filesz];
    assert Slice(data, s.offset, s.filesz) == file;
    if s.filesz == 0 {
      NoFilePart(bin, s, base, data, size);
    } else {
      hide Append, SliceAssign, Slice, Zeros;
      AppendSpelt(bin, s, base, data);
      AssignInZeros(bin, size, dest, file);
      ZerosJoin(s.memsz - s.filesz, size - dest - s.memsz);
      var start, pad, rest := bin + Zeros(dest - |bin|) + file, Zeros(s.memsz - s.filesz), Zeros(size - dest - s.memsz);
      assert start + (pad + rest) == (start + pad) + rest;
    }
  }

  /** A segment without a file part only pads, and assigning nothing changes nothing. */
  lemma NoFilePart(bin: seq<Byte>, s: Load, base: nat, data: seq<Byte>, size: nat)
    requires base <= s.paddr && WellFormed(s, data) && s.filesz == 0 && |bin| <= size && End(s) - base <= size
    ensures var bin' := Append(bin, s, base, data); var dest := s.paddr - base; var buf := bin + Zeros(size - |bin|);
            && |bin'| <= size && SliceAssign(buf, dest, dest + s.filesz, Slice(data, s.offset, s.filesz)) == buf
            && buf == bin' + Zeros(size - |bin'|)
  {
    hide PadTo;
    var dest, buf := s.paddr - base, bin + Zeros(size - |bin|);
    assert Slice(data, s.offset, s.filesz) == [] && PadTo(bin, dest) + [] == PadTo(bin, dest);
    PadTwice(bin, dest, dest + s.memsz, size);
    assert buf[..dest] + [] + buf[dest..] == buf;
  }

  lemma PadTwice(bin: seq<Byte>, a: nat, b: nat, size: nat)
    requires a <= b <= size && |bin| <= size
    ensures var padded := PadTo(PadTo(bin, a), b);
            |padded| <= size && bin + Zeros(size - |bin|) == padded + Zeros(size - |padded|)
  {}

  /** Segments that lie in the file and end within the buffer. */
  ghost predicate Fits(segs: seq<Load>, base: nat, data: seq<Byte>, size: nat) {
    Above(segs, base) && forall s :: s in segs ==> WellFormed(s, data) && End(s) - base <= size
  }

  lemma SortedFits(segs: seq<Load>, data: seq<Byte>)
    requires segs != [] && forall s :: s in segs ==> WellFormed(s, data)
    ensures Fits(Sorted(segs), Lowest(segs), data, BlitSize(segs))
    ensures Above(Sorted(segs), Lowest(segs)) && Lowest(segs) <= Highest(segs)
    ensures Highest(segs) - Lowest(segs) <= BlitSize(segs) < Highest(segs) - Lowest(segs) + PAGE_SIZE
    ensures BlitSize(segs) % PAGE_SIZE == 0
  {
    hide AlignUp, Sorted, Lowest, Highest;
    SortedAbove(segs);
    ExtentIsNatural(segs);
    AlignUpRounds(Highest(segs) - Lowest(segs));
    forall s | s in Sorted(segs)
      ensures WellFormed(s, data) && End(s) <= Highest(segs)
    {
      SameMembers(segs, s);
    }
  }

  lemma {:induction false} PrefixesAgree(segs: seq<Load>, k: nat, base: nat, data: seq<Byte>, size: nat)
    requires k <= |segs| && Above(segs, base) && Fits(segs, base, data, size) && InOrder(segs, k, base)
    ensures var bin := Appended(segs, k, base, data);
            && |bin| == FilledTo(segs, k, base) <= size
            && Blitted(segs, k, base, data, size) == bin + Zeros(size - |bin|)
  {
    hide Append, SliceAssign, Slice, WellFormed, End, FilledTo;
    AppendedLength(segs, k, base, data);
    if k == 0 {
      assert Zeros(size) == [] + Zeros(size);
    } else {
      PrefixesAgree(segs, k - 1, base, data, size);
      assert segs[k - 1] in segs && InOrderAt(segs, k - 1, base);
      StepsAgree(Appended(segs, k - 1, base, data), segs[k - 1], base, data, size);
    }
  }

  /** One image is a prefix of the other, and the rest of that is zero. */
  predicate Agree(a: seq<Byte>, b: seq<Byte>) {
    |a| <= |b| && b == a + Zeros(|b| - |a|)
  }

  /** For segments that lie in the file, have filesz <= memsz and are in order, the appended
      binary is a prefix of the preallocated one; what is left of that is zero and shorter
      than a page. */
  lemma BuildersAgree(segs: seq<Load>, data: seq<Byte>)
    requires segs != [] && forall s :: s in segs ==> WellFormed(s, data)
    requires SortedInOrder(segs)
    ensures var a, b := AppendImage(segs, data), BlitImage(segs, data);
            && |a| == Highest(segs) - Lowest(segs) && |b| < |a| + PAGE_SIZE && |b| % PAGE_SIZE == 0
            && Agree(a, b)
  {
    hide Fits, BlitSize, Sorted, Appended, Blitted, Reaches, Lowest, Highest, Above, WellFormed, InOrder, FilledTo;
    var sorted, base := Sorted(segs), Lowest(segs);
    SortedFits(segs, data);
    PrefixesAgree(sorted, |sorted|, base, data, BlitSize(segs));
    SortedSane(segs, data);
    FilledReaches(sorted, |sorted|, base);
    ReachesHighest(segs, |AppendImage(segs, data)|);
  }

  /** In ascending order, no file part starts before the end of what comes before it. */
  ghost predicate SortedInOrder(segs: seq<Load>)
    requires segs != []
  {
    SortedAbove(segs);
    InOrder(Sorted(segs), |Sorted(segs)|, Lowest(segs))
  }

  lemma SortedSane(segs: seq<Load>, data: seq<Byte>)
    requires forall s :: s in segs ==> WellFormed(s, data)
    ensures forall s :: s in Sorted(segs) ==> s.filesz <= s.memsz
  {
    hide Sorted;
    forall s | s in Sorted(segs)
      ensures s.filesz <= s.memsz
    {
      SameMembers(segs, s);
    }
  }

  /** Segments that do not overlap are in order. */
  lemma DisjointIsInOrder(segs: seq<Load>, data: seq<Byte>)
    requires segs != [] && Apart(segs) && forall s :: s in segs ==> WellFormed(s, data)
    ensures SortedInOrder(segs)
  {
    hide Sorted, Apart, Ascending, Lowest, InOrder;
    SortKeeps(segs);
    SortKeepsApart(segs);
    SortedAbove(segs);
    SortedSane(segs, data);
    ApartIsInOrder(Sorted(segs), |Sorted(segs)|, Lowest(segs));
  }

  lemma ReachesHighest(segs: seq<Load>, n: nat)
    requires segs != [] && Reaches(Sorted(segs), |Sorted(segs)|, Lowest(segs), n)
    ensures n == Highest(segs) - Lowest(segs)
  {
    var sorted, base := Sorted(segs), Lowest(segs);
    var top :| top in segs && Highest(segs) == End(top);
    SameMembers(segs, top);
    var i :| 0 <= i < |sorted| && sorted[i] == top;
    assert End(sorted[i]) - base <= n;
    if n > 0 {
      var j :| 0 <= j < |sorted| && n == End(sorted[j]) - base;
      SameMembers(segs, sorted[j]);
    } else {
      ExtentIsNatural(segs);
    }
  }

  // ---- every segment sits where it belongs ----

  ghost predicate Placed(bin: seq<Byte>, s: Load, base: nat, data: seq<Byte>)
    requires base <= s.paddr && WellFormed(s, data)
  {
    var dest := s.paddr - base;
    && dest + s.memsz <= |bin|
    && bin[dest..dest + s.filesz] == data[s.offset..s.offset + s.filesz]
    && bin[dest + s.filesz..dest + s.memsz] == Zeros(s.memsz - s.filesz)
  }

  lemma FourParts(a: seq<Byte>, b: seq<Byte>, c: seq<Byte>, d: seq<Byte>)
    ensures var all := a + b + c + d; var at := |a| + |b|;
            all[at..at + |c|] == c && all[at + |c|..at + |c| + |d|] == d
  {}

  lemma AppendPlaces(bin: seq<Byte>, s: Load, base: nat, data: seq<Byte>)
    requires base <= s.paddr && WellFormed(s, data) && (s.memsz > 0 ==> |bin| <= s.paddr - base)
    ensures Placed(Append(bin, s, base, data), s, base, data)
  {
    if s.memsz > 0 {
      hide Append, Zeros, WellFormed;
      AppendSpelt(bin, s, base, data);
      FourParts(bin, Zeros(s.paddr - base - |bin|), data[s.offset..s.offset + s.filesz], Zeros(s.memsz - s.filesz));
    }
  }

  lemma SliceOfPrefix(b: seq<Byte>, n: nat, lo: nat, hi: nat)
    requires lo <= hi <= n <= |b|
    ensures b[..n][lo..hi] == b[lo..hi]
  {
    forall k | 0 <= k < hi - lo
      ensures b[..n][lo..hi][k] == b[lo..hi][k]
    {
      assert b[..n][lo + k] == b[lo + k];
    }
  }

  lemma PlacedStays(bin: seq<Byte>, bin': seq<Byte>, s: Load, base: nat, data: seq<Byte>)
    requires base <= s.paddr && WellFormed(s, data) && Placed(bin, s, base, data)
    requires |bin| <= |bin'| && bin'[..|bin|] == bin
    ensures Placed(bin', s, base, data)
  {
    var dest := s.paddr - base;
    SliceOfPrefix(bin', |bin|, dest, dest + s.filesz);
    SliceOfPrefix(bin', |bin|, dest + s.filesz, dest + s.memsz);
  }

  lemma {:induction false} AllPlaced(segs: seq<Load>, k: nat, i: nat, base: nat, data: seq<Byte>)
    requires i < k <= |segs| && Above(segs, base) && Ascending(segs) && Apart(segs)
    requires forall s :: s in segs ==> WellFormed(s, data)
    ensures segs[i] in segs && Placed(Appended(segs, k, base, data), segs[i], base, data)
  {
    hide Append, Ascending, Apart, Placed, FilledTo;
    var before := Appended(segs, k - 1, base, data);
    assert segs[k - 1] in segs && segs[i] in segs;
    AppendedLength(segs, k - 1, base, data);
    if i == k - 1 {
      ApartIsInOrder(segs, i, base);
      StartsPast(segs, i, base);
      AppendPlaces(before, segs[i], base, data);
    } else {
      AllPlaced(segs, k - 1, i, base, data);
      AppendExtends(before, segs[k - 1], base, data);
      PlacedStays(before, Appended(segs, k, base, data), segs[i], base, data);
    }
  }

  /** In both images every segment's bytes sit at its address less the lowest one, with
      zeros up to its memory size. */
  lemma SegmentsSitAtTheirAddress(segs: seq<Load>, data: seq<Byte>, s: Load)
    requires segs != [] && Apart(segs) && s in segs && forall t :: t in segs ==> WellFormed(t, data)
    ensures Placed(AppendImage(segs, data), s, Lowest(segs), data)
    ensures Placed(BlitImage(segs, data), s, Lowest(segs), data)
  {
    hide BlitSize, Sorted, Appended, Blitted, Apart, Ascending, Lowest, Highest, Above;
    hide WellFormed, Placed, SortedInOrder;
    var sorted := Sorted(segs);
    SortedAbove(segs);
    SortKeeps(segs);
    SortKeepsApart(segs);
    forall t | t in sorted
      ensures WellFormed(t, data)
    {
      SameMembers(segs, t);
    }
    SameMembers(segs, s);
    var i :| 0 <= i < |sorted| && sorted[i] == s;
    AllPlaced(sorted, |sorted|, i, Lowest(segs), data);
    DisjointIsInOrder(segs, data);
    BuildersAgree(segs, data);
    var a, b := AppendImage(segs, data), BlitImage(segs, data);
    assert b[..|a|] == a;
    PlacedStays(a, b, s, Lowest(segs), data);
  }

  // ---- the order is needed ----

  /** The number of bytes that are not zero. */
  function Marks(d: seq<Byte>): nat {
    if d == [] then 0 else Marks(d[..|d| - 1]) + if d[|d| - 1] != 0 then 1 else 0
  }

  lemma {:induction false} MarksJoin(a: seq<Byte>, b: seq<Byte>)
    ensures Marks(a + b) == Marks(a) + Marks(b)
    decreases |b|
  {
    if b == [] {
      assert a + b == a;
    } else {
      assert (a + b)[..|a + b| - 1] == a + b[..|b| - 1];
      MarksJoin(a, b[..|b| - 1]);
    }
  }

  lemma {:induction false} MarksOfZeros(n: nat)
    ensures Marks(Zeros(n)) == 0
  {
    if n > 0 {
      assert Zeros(n)[..n - 1] == Zeros(n - 1);
      MarksOfZeros(n - 1);
    }
  }

  function Ones(n: nat): (d: seq<Byte>)
    ensures |d| == n && forall i :: 0 <= i < n ==> d[i] == 1
  {
    seq(n, _ => 1)
  }

  lemma {:induction false} MarksOfOnes(n: nat)
    ensures Marks(Ones(n)) == n
  {
    if n > 0 {
      assert Ones(n)[..n - 1] == Ones(n - 1);
      MarksOfOnes(n - 1);
    }
  }

  lemma MarksAt(d: seq<Byte>, i: nat)
    requires i < |d| && d[i] != 0
    ensures Marks(d) > 0
  {
    assert d == d[..i] + [d[i]] + d[i + 1..];
    MarksJoin(d[..i] + [d[i]], d[i + 1..]);
    MarksJoin(d[..i], [d[i]]);
    assert [d[i]][..0] == [];
  }

  /** File bytes of the first k segments together. */
  function FileBytes(segs: seq<Load>, k: nat): nat
    requires k <= |segs|
  {
    if k == 0 then 0 else FileBytes(segs, k - 1) + segs[k - 1].filesz
  }

  lemma MarksOfPad(bin: seq<Byte>, n: nat)
    ensures Marks(PadTo(bin, n)) == Marks(bin)
  {
    if |bin| < n {
      MarksJoin(bin, Zeros(n - |bin|));
      MarksOfZeros(n - |bin|);
    }
  }

  lemma SliceOfOnes(s: Load, n: nat)
    requires WellFormed(s, Ones(n))
    ensures Slice(Ones(n), s.offset, s.filesz) == Ones(s.filesz)
  {}

  lemma AppendMarks(bin: seq<Byte>, s: Load, base: nat, n: nat)
    requires base <= s.paddr && WellFormed(s, Ones(n))
    ensures Marks(Append(bin, s, base, Ones(n))) == Marks(bin) + s.filesz
  {
    hide PadTo, Slice, Marks;
    var padded := PadTo(bin, s.paddr - base);
    SliceOfOnes(s, n);
    MarksOfPad(bin, s.paddr - base);
    MarksJoin(padded, Ones(s.filesz));
    MarksOfOnes(s.filesz);
    MarksOfPad(padded + Ones(s.filesz), s.paddr - base + s.memsz);
  }

  /** Of a file of ones, the appending tool keeps every byte it reads. */
  lemma {:induction false} AppendKeepsMarks(segs: seq<Load>, k: nat, base: nat, n: nat)
    requires k <= |segs| && Above(segs, base) && forall s :: s in segs ==> WellFormed(s, Ones(n))
    ensures Marks(Appended(segs, k, base, Ones(n))) == FileBytes(segs, k)
  {
    hide Append, WellFormed;
    if k > 0 {
      assert segs[k - 1] in segs;
      AppendKeepsMarks(segs, k - 1, base, n);
      AppendMarks(Appended(segs, k - 1, base, Ones(n)), segs[k - 1], base, n);
    }
  }

  /** Writing ones over a stretch loses the marks that were there. */
  lemma AssignOnes(buf: seq<Byte>, lo: nat, n: nat)
    requires lo + n <= |buf|
    ensures var out := SliceAssign(buf, lo, lo + n, Ones(n));
            && |out| == |buf| && Marks(out) == Marks(buf) - Marks(buf[lo..lo + n]) + n
            && (forall p :: 0 <= p < |buf| && (buf[p] != 0 || lo <= p < lo + n) ==> out[p] != 0)
  {
    assert buf == buf[..lo] + buf[lo..lo + n] + buf[lo + n..];
    MarksJoin(buf[..lo] + buf[lo..lo + n], buf[lo + n..]);
    MarksJoin(buf[..lo], buf[lo..lo + n]);
    MarksJoin(buf[..lo] + Ones(n), buf[lo + n..]);
    MarksJoin(buf[..lo], Ones(n));
    MarksOfOnes(n);
  }

  /** One write of the other tool, on a file of ones. */
  lemma BlitOnes(segs: seq<Load>, k: nat, base: nat, n: nat, size: nat)
    requires k < |segs| && Above(segs, base) && Fits(segs, base, Ones(n), size)
    requires |Blitted(segs, k, base, Ones(n), size)| == size
    ensures segs[k] in segs
    ensures var buf := Blitted(segs, k, base, Ones(n), size); var s := segs[k]; var dest := s.paddr - base;
            Blitted(segs, k + 1, base, Ones(n), size) == SliceAssign(buf, dest, dest + s.filesz, Ones(s.filesz))
            && dest + s.filesz <= size
  {
    hide SliceAssign, Slice;
    assert segs[k] in segs;
    SliceOfOnes(segs[k], n);
  }

  lemma {:induction false} BlitSizeStays(segs: seq<Load>, k: nat, base: nat, n: nat, size: nat)
    requires k <= |segs| && Above(segs, base) && Fits(segs, base, Ones(n), size)
    ensures |Blitted(segs, k, base, Ones(n), size)| == size
  {
    hide Fits, SliceAssign;
    if k > 0 {
      BlitSizeStays(segs, k - 1, base, n, size);
      BlitOnes(segs, k - 1, base, n, size);
      AssignOnes(Blitted(segs, k - 1, base, Ones(n), size), segs[k - 1].paddr - base, segs[k - 1].filesz);
    }
  }

  /** From segment j on, marks only stay, and at most the file bytes are added. */
  lemma {:induction false} BlitAddsMarks(segs: seq<Load>, j: nat, k: nat, base: nat, n: nat, size: nat, p: nat)
    requires j <= k <= |segs| && Above(segs, base) && Fits(segs, base, Ones(n), size) && p < size
    ensures var early, late := Blitted(segs, j, base, Ones(n), size), Blitted(segs, k, base, Ones(n), size);
            && |early| == |late| == size && (early[p] != 0 ==> late[p] != 0)
            && Marks(late) - FileBytes(segs, k) <= Marks(early) - FileBytes(segs, j)
  {
    hide Fits, SliceAssign, Blitted, Marks;
    BlitSizeStays(segs, j, base, n, size);
    if j < k {
      BlitAddsMarks(segs, j, k - 1, base, n, size, p);
      BlitOnes(segs, k - 1, base, n, size);
      AssignOnes(Blitted(segs, k - 1, base, Ones(n), size), segs[k - 1].paddr - base, segs[k - 1].filesz);
    }
  }

  lemma {:induction false} AppendedStays(segs: seq<Load>, j: nat, k: nat, base: nat, data: seq<Byte>)
    requires j <= k <= |segs| && Above(segs, base)
    ensures var early, late := Appended(segs, j, base, data), Appended(segs, k, base, data);
            |early| <= |late| && late[..|early|] == early
  {
    hide Append;
    if j < k {
      AppendedStays(segs, j, k - 1, base, data);
      assert segs[k - 1] in segs;
      AppendExtends(Appended(segs, k - 1, base, data), segs[k - 1], base, data);
    }
  }

  lemma {:induction false} FirstOutOfOrder(segs: seq<Load>, k: nat, base: nat) returns (j: nat)
    requires k <= |segs| && Above(segs, base) && !InOrder(segs, k, base)
    ensures j < k && InOrder(segs, j, base) && !InOrderAt(segs, j, base)
  {
    hide InOrderAt;
    if InOrder(segs, k - 1, base) { j := k - 1; } else { j := FirstOutOfOrder(segs, k - 1, base); }
  }

  /** On a file of ones, segments out of order leave two different images: the file part that
      starts too early lands on a gap, which one image keeps and the other fills, or on other
      file bytes, which one image keeps and the other loses. */
  lemma OutOfOrderShows(segs: seq<Load>, base: nat, n: nat, size: nat)
    requires Above(segs, base) && Fits(segs, base, Ones(n), size) && !InOrder(segs, |segs|, base)
    ensures !Agree(Appended(segs, |segs|, base, Ones(n)), Blitted(segs, |segs|, base, Ones(n), size))
  {
    hide Appended, Blitted, Marks, FilledTo, InOrder;
    var data := Ones(n);
    var a, b := Appended(segs, |segs|, base, data), Blitted(segs, |segs|, base, data, size);
    var j := FirstOutOfOrder(segs, |segs|, base);
    var s := segs[j];
    assert s in segs;
    var dest := s.paddr - base;
    PrefixesAgree(segs, j, base, data, size);
    var bin, buf := Appended(segs, j, base, data), Blitted(segs, j, base, data, size);
    AppendedStays(segs, j, |segs|, base, data);
    assert a[dest] == a[..|bin|][dest] == bin[dest] == buf[dest];
    BlitOnes(segs, j, base, n, size);
    AssignOnes(buf, dest, s.filesz);
    BlitAddsMarks(segs, j + 1, |segs|, base, n, size, dest);
    assert b[dest] != 0;
    if bin[dest] != 0 {
      MarksAt(buf[dest..dest + s.filesz], 0);
      BlitAddsMarks(segs, 0, j, base, n, size, dest);
      NoMarksAtFirst(segs, base, data, size);
      AppendKeepsMarks(segs, |segs|, base, n);
      AgreeKeepsMarks(a, b);
    }
  }

  lemma NoMarksAtFirst(segs: seq<Load>, base: nat, data: seq<Byte>, size: nat)
    requires Above(segs, base)
    ensures Marks(Blitted(segs, 0, base, data, size)) == 0
  {
    MarksOfZeros(size);
  }

  lemma AgreeKeepsMarks(a: seq<Byte>, b: seq<Byte>)
    ensures Agree(a, b) ==> Marks(a) == Marks(b)
  {
    if Agree(a, b) {
      MarksJoin(a, Zeros(|b| - |a|));
      MarksOfZeros(|b| - |a|);
    }
  }

  /** The two tools build the same image from every file of that length exactly when, in
      ascending order, every non-empty file part starts at or behind everything before it. */
  lemma BuildersAgreeIffInOrder(segs: seq<Load>, n: nat)
    requires segs != [] && forall s :: s in segs ==> s.filesz <= s.memsz && s.offset + s.filesz <= n
    ensures (forall data: seq<Byte> :: |data| == n ==> Agree(AppendImage(segs, data), BlitImage(segs, data)))
            <==> SortedInOrder(segs)
  {
    hide Agree, Sorted, Lowest, Highest, BlitSize, Appended, Blitted, InOrder, Fits;
    if SortedInOrder(segs) {
      forall data: seq<Byte> | |data| == n
        ensures Agree(AppendImage(segs, data), BlitImage(segs, data))
      {
        BuildersAgree(segs, data);
      }
    } else {
      SortedFits(segs, Ones(n));
      OutOfOrderShows(Sorted(segs), Lowest(segs), n, BlitSize(segs));
      BlitSizeStays(Sorted(segs), |Sorted(segs)|, Lowest(segs), n, BlitSize(segs));
      assert !Agree(AppendImage(segs, Ones(n)), BlitImage(segs, Ones(n)));
    }
  }

  /** A case where they differ: a segment that starts inside its predecessor is appended
      behind it by one tool and written over it by the other. */
  lemma OverlapCanMakeThemDiffer()
    ensures var segs, data := [Load(0, 0, 2, 2), Load(0, 1, 2, 2)], [7, 9];
            && (forall s :: s in segs ==> WellFormed(s, data))
            && AppendImage(segs, data) == [7, 9, 7, 9]
            && BlitImage(segs, data) == [7, 7, 9] + Zeros(PAGE_SIZE - 3)
  {
    var a, b := Load(0, 0, 2, 2), Load(0, 1, 2, 2);
    var segs, data: seq<Byte> := [a, b], [7, 9];
    assert segs[1..] == [b] && Sorted([b]) == [b];
    assert Sorted(segs) == [a, b];
    assert Lowest([b]) == 1 && Lowest(segs) == 0;
    assert Highest([b]) == 3 && Highest(segs) == 3;
    AlignUpRounds(3);
    assert BlitSize(segs) == PAGE_SIZE;
    assert Slice(data, 0, 2) == [7, 9];
    assert Appended(segs, 1, 0, data) == [7, 9];
    assert Appended(segs, 2, 0, data) == [7, 9, 7, 9];
    OverwritesItself(data);
  }

  lemma OverwritesItself(data: seq<Byte>)
    requires data == [7, 9]
    ensures SliceAssign(SliceAssign(Zeros(PAGE_SIZE), 0, 2, data), 1, 3, data) == [7, 7, 9] + Zeros(PAGE_SIZE - 3)
  {
    var once := SliceAssign(Zeros(PAGE_SIZE), 0, 2, data);
    assert once == data + Zeros(PAGE_SIZE)[2..];
    assert once[..1] == [7];
    assert once[3..] == Zeros(PAGE_SIZE - 3);
  }
}

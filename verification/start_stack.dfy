/** The start-up stack that `create_user_task` writes for the child, after section
    3.4.1 of the System V AMD64 psABI. */
module StartStack {
  import opened Words
  import opened LittleEndian
  import Elf

  const STACK_VADDR := 0xF1_0000
  const STACK_EXTRA_PAGES := 32
  const LOW := STACK_VADDR - STACK_EXTRA_PAGES * PAGE_SIZE // the lowest mapped byte
  const TOP := STACK_VADDR + PAGE_SIZE
  const SIZE := 0x2_1000
  const AUX_PAIRS := 16

  type Memory = m: seq<Byte> | |m| == 0x2_1000 witness seq(0x2_1000, _ => 0)
  type Text = seq<Byte>

  /** The `n` bytes at an address of the mapped stack. */
  function At(m: Memory, a: int, n: nat): seq<Byte>
    requires LOW <= a && a + n <= TOP
  {
    m[a - LOW..a - LOW + n]
  }

  function Put(m: Memory, a: int, data: seq<Byte>): Memory
    requires LOW <= a && a + |data| <= TOP
  {
    m[..a - LOW] + data + m[a - LOW + |data|..]
  }

  function WordAt(m: Memory, a: int): nat
    requires LOW <= a && a + 8 <= TOP
  {
    FromLe(At(m, a, 8))
  }

  /** The string `s`, NUL-terminated, at address `a`. */
  predicate StringAt(m: Memory, a: int, s: Text) {
    LOW <= a && a + |s| + 1 <= TOP && At(m, a, |s| + 1) == s + [0]
  }

  function CString(m: Memory, a: int): Text
    requires LOW <= a <= TOP
    decreases TOP - a
  {
    if a < TOP && m[a - LOW] != 0 then [m[a - LOW]] + CString(m, a + 1) else []
  }

  lemma PutSame(m: Memory, a: int, data: seq<Byte>)
    requires LOW <= a && a + |data| <= TOP
    ensures At(Put(m, a, data), a, |data|) == data
  {}

  lemma PutElsewhere(m: Memory, a: int, data: seq<Byte>, b: int, n: nat)
    requires LOW <= a && a + |data| <= TOP && LOW <= b && b + n <= TOP
    requires a + |data| <= b || b + n <= a
    ensures At(Put(m, a, data), b, n) == At(m, b, n)
  {}

  /** What a C program reads at a stored string is the string, when it holds no NUL itself. */
  lemma {:induction false} CStringReads(m: Memory, a: int, s: Text)
    requires StringAt(m, a, s) && 0 !in s
    ensures CString(m, a) == s
    decreases |s|
  {
    var stored := At(m, a, |s| + 1);
    assert m[a - LOW] == stored[0];
    if s != [] {
      assert At(m, a + 1, |s|) == stored[1..] == s[1..] + [0];
      assert m[a - LOW] == s[0] && s[0] in s;
      CStringReads(m, a + 1, s[1..]);
    }
  }

  // ---- the layout ----

  /** 16 bytes `i ^ 0xA5` for AT_RANDOM, and "x86_64" for AT_PLATFORM. */
  function RandomBytes(): (r: seq<Byte>)
    ensures |r| == 16
  {
    [0xA5, 0xA4, 0xA7, 0xA6, 0xA1, 0xA0, 0xA3, 0xA2, 0xAD, 0xAC, 0xAF, 0xAE, 0xA9, 0xA8, 0xAB, 0xAA]
  }

  function Platform(): (p: seq<Byte>)
    ensures |p| == 6 && 0 !in p
  {
    [0x78, 0x38, 0x36, 0x5f, 0x36, 0x34]
  }

  const RANDOM_ADDR: int := 0xF1_0FF0   // TOP - 16
  const PLATFORM_ADDR: int := 0xF1_0FE9 // TOP - 16 - 7

  /** "busybox" stands in for an empty argument list. */
  function EffectiveArgs(args: seq<Text>): (r: seq<Text>)
    ensures r != []
  {
    if args == [] then [[0x62, 0x75, 0x73, 0x79, 0x62, 0x6f, 0x78]] else args
  }

  /** Bytes taken by the argument strings with their terminators. */
  function TotalLength(args: seq<Text>): nat {
    if args == [] then 0 else TotalLength(args[..|args| - 1]) + |args[|args| - 1]| + 1
  }

  lemma {:induction false} TotalLengthGrows(args: seq<Text>, i: nat)
    requires i <= |args|
    ensures TotalLength(args[..i]) <= TotalLength(args)
    decreases |args| - i
  {
    if i < |args| {
      assert args[..i + 1][..i] == args[..i];
      TotalLengthGrows(args, i + 1);
    } else {
      assert args[..i] == args;
    }
  }

  /** The strings go down from the platform string, one below the other. */
  function LowestString(args: seq<Text>): int {
    PLATFORM_ADDR - TotalLength(args)
  }

  function VectorWords(args: seq<Text>): nat {
    1 + |args| + 1 + 1 + 2 * AUX_PAIRS
  }

  /** Where `n` words go below `data`, rounded down to 16. */
  function AlignedBelow(data: int, n: nat): (base: int)
    ensures base % 16 == 0 && base + 8 * n <= data < base + 8 * n + 16
  {
    (data - 8 * n) - (data - 8 * n) % 16
  }

  /** Address of argc: below the strings, 16-byte aligned. */
  function Rsp(args: seq<Text>): int {
    AlignedBelow(LowestString(args), VectorWords(args))
  }

  /** The whole start-up area lies in the mapped stack. */
  predicate Fits(args: seq<Text>) {
    Rsp(args) >= LOW
  }

  datatype Image = Image(entry: Word, phoff: Word, phent: Word, phnum: Word)

  /** The i-th auxiliary entry, as (type, value). */
  function Aux(img: Image, i: nat): (nat, Word)
    requires i < AUX_PAIRS
  {
    match i
    case 0 => (25, RANDOM_ADDR)
    case 1 => (23, 0)
    case 2 => (17, 100)
    case 3 => (16, 0)
    case 4 => (15, PLATFORM_ADDR)
    case 5 => (14, 0)
    case 6 => (13, 0)
    case 7 => (12, 0)
    case 8 => (11, 0)
    case 9 => (9, img.entry)
    case 10 => (7, 0)
    case 11 => (6, PAGE_SIZE)
    case 12 => (5, img.phnum)
    case 13 => (4, img.phent)
    case 14 => (3, Wrap(Elf.LOAD_BASE + img.phoff))
    case _ => (0, 0)
  }

  /** The k-th word of the vector at `rsp`. */
  function Slot(m: Memory, rsp: int, k: nat): nat
    requires LOW <= rsp && rsp + 8 * k + 8 <= TOP
  {
    WordAt(m, rsp + 8 * k)
  }

  /** What the ABI lets a program rely on at entry. */
  predicate AbiEntry(m: Memory, rsp: int, args: seq<Text>, img: Image) {
    var argc := |args|;
    && rsp % 16 == 0 && LOW <= rsp && rsp + 8 * VectorWords(args) <= TOP
    && Slot(m, rsp, 0) == argc
    && (forall k :: 1 <= k <= argc ==> StringAt(m, Slot(m, rsp, k), args[k - 1]))
    && Slot(m, rsp, 1 + argc) == 0
    && Slot(m, rsp, 2 + argc) == 0
    && (forall j :: 0 <= j < AUX_PAIRS ==> AuxPairAt(m, rsp, 3 + argc + 2 * j, Aux(img, j)))
    && At(m, RANDOM_ADDR, 16) == RandomBytes()
    && StringAt(m, PLATFORM_ADDR, Platform())
  }

  predicate AuxPairAt(m: Memory, rsp: int, k: nat, pair: (nat, Word))
    requires LOW <= rsp && rsp + 8 * k + 16 <= TOP
  {
    Slot(m, rsp, k) == pair.0 && Slot(m, rsp, k + 1) == pair.1
  }

  /** The pointer vector ends at or below every string. */
  predicate VectorBelowStrings(m: Memory, rsp: int, args: seq<Text>)
    requires LOW <= rsp && rsp + 8 * VectorWords(args) <= TOP
  {
    && rsp + 8 * VectorWords(args) <= PLATFORM_ADDR
    && forall k :: 1 <= k <= |args| ==> rsp + 8 * VectorWords(args) <= Slot(m, rsp, k)
  }

  /** Every string ends where the one before it begins, the first one at the platform string;
      below the last one there are less than 16 bytes to the vector. */
  predicate PackedTightly(m: Memory, rsp: int, args: seq<Text>)
    requires args != [] && LOW <= rsp && rsp + 8 * (35 + |args|) <= TOP
  {
    && (forall k :: 1 <= k <= |args| ==>
          Slot(m, rsp, k) + |args[k - 1]| + 1 == if k == 1 then 0xF1_0FE9 else Slot(m, rsp, k - 1))
    && rsp + 8 * (35 + |args|) <= Slot(m, rsp, |args|) < rsp + 8 * (35 + |args|) + 16
  }

  // ---- writing it ----

  class ChildStack {
    const bytes: array<Byte>

    constructor ()
      ensures bytes.Length == SIZE && fresh(bytes)
    {
      bytes := new Byte[SIZE](_ => 0);
    }

    /** A store to an unmapped address faults: `ok` is false. */
    method Store(a: int, data: seq<Byte>) returns (ok: bool)
      requires bytes.Length == SIZE
      modifies bytes
      ensures ok == (LOW <= a && a + |data| <= TOP)
      ensures ok ==> bytes[..] == Put(old(bytes[..]), a, data)
    {
      if a < LOW || a + |data| > TOP { return false; }
      for i := 0 to |data|
        invariant forall k :: 0 <= k < SIZE ==>
                    bytes[k] == if a - LOW <= k < a - LOW + i then data[k - (a - LOW)] else old(bytes[k])
      {
        bytes[a - LOW + i] := data[i];
      }
      return true;
    }
  }

  /** The constants and the strings written so far are in place at or above `data`. */
  predicate StringsPlaced(m: Memory, args: seq<Text>, addrs: seq<int>, data: int) {
    && |addrs| <= |args| && LOW <= data <= PLATFORM_ADDR
    && At(m, RANDOM_ADDR, 16) == RandomBytes()
    && StringAt(m, PLATFORM_ADDR, Platform())
    && (forall i :: 0 <= i < |addrs| ==> data <= addrs[i] <= PLATFORM_ADDR && StringAt(m, addrs[i], args[i]))
    && Descending(args, addrs) && data == if addrs == [] then PLATFORM_ADDR else addrs[|addrs| - 1]
  }

  predicate Descending(args: seq<Text>, addrs: seq<int>) {
    && |addrs| <= |args|
    && forall i :: 0 <= i < |addrs| ==> addrs[i] + |args[i]| + 1 == if i == 0 then PLATFORM_ADDR else addrs[i - 1]
  }

  /** A store below the strings placed so far disturbs none of them. */
  lemma StringsKept(m: Memory, args: seq<Text>, addrs: seq<int>, data: int, a: int, bytes: seq<Byte>)
    requires StringsPlaced(m, args, addrs, data) && LOW <= a && a + |bytes| <= data
    ensures StringsPlaced(Put(m, a, bytes), args, addrs, data)
  {
    PutElsewhere(m, a, bytes, RANDOM_ADDR, 16);
    PutElsewhere(m, a, bytes, PLATFORM_ADDR, |Platform()| + 1);
    forall i | 0 <= i < |addrs|
      ensures StringAt(Put(m, a, bytes), addrs[i], args[i])
    {
      PutElsewhere(m, a, bytes, addrs[i], |args[i]| + 1);
    }
  }

  method PlaceConstants(stack: ChildStack) returns (data: int)
    requires stack.bytes.Length == SIZE
    modifies stack.bytes
    ensures data == PLATFORM_ADDR
    ensures At(stack.bytes[..], RANDOM_ADDR, 16) == RandomBytes()
    ensures StringAt(stack.bytes[..], PLATFORM_ADDR, Platform())
  {
    data := TOP - 16;
    var ok := stack.Store(data, RandomBytes());
    PutSame(old(stack.bytes[..]), RANDOM_ADDR, RandomBytes());
    ghost var before := stack.bytes[..];
    data := data - (|Platform()| + 1);
    ok := stack.Store(data, Platform() + [0]);
    PutElsewhere(before, PLATFORM_ADDR, Platform() + [0], RANDOM_ADDR, 16);
    PutSame(before, PLATFORM_ADDR, Platform() + [0]);
  }

  method PlaceStrings(stack: ChildStack, args: seq<Text>) returns (ok: bool, data: int, addrs: seq<int>)
    requires stack.bytes.Length == SIZE
    modifies stack.bytes
    ensures ok == (LowestString(args) >= LOW)
    ensures ok ==> data == LowestString(args) && |addrs| == |args| && StringsPlaced(stack.bytes[..], args, addrs, data)
  {
    addrs := [];
    data := PlaceConstants(stack);
    for i := 0 to |args|
      invariant |addrs| == i && data == PLATFORM_ADDR - TotalLength(args[..i])
      invariant StringsPlaced(stack.bytes[..], args, addrs, data)
    {
      assert args[..i + 1][..i] == args[..i];
      TotalLengthGrows(args, i + 1);
      ghost var before, above := stack.bytes[..], data;
      data := data - (|args[i]| + 1);
      ok := stack.Store(data, args[i] + [0]);
      if !ok { return; }
      OneMoreString(before, args, addrs, above, data);
      addrs := addrs + [data];
    }
    assert args[..|args|] == args;
    ok := true;
  }

  lemma OneMoreString(m: Memory, args: seq<Text>, addrs: seq<int>, above: int, data: int)
    requires |addrs| < |args| && StringsPlaced(m, args, addrs, above)
    requires LOW <= data == above - (|args[|addrs|]| + 1)
    ensures StringsPlaced(Put(m, data, args[|addrs|] + [0]), args, addrs + [data], data)
  {
    StringsKept(m, args, addrs, above, data, args[|addrs|] + [0]);
    PutSame(m, data, args[|addrs|] + [0]);
  }

  /** argc, argv, NULL, no environment, NULL, and the auxiliary vector. */
  function Vector(argc: nat, addrs: seq<int>, img: Image): (v: seq<int>)
    ensures |v| == 1 + |addrs| + 2 + 2 * AUX_PAIRS
  {
    [argc] + addrs + [0, 0] + AuxWords(img, AUX_PAIRS)
  }

  function AuxWords(img: Image, n: nat): (v: seq<int>)
    requires n <= AUX_PAIRS
    ensures |v| == 2 * n
    ensures forall j :: 0 <= j < n ==> v[2 * j] == Aux(img, j).0 && v[2 * j + 1] == Aux(img, j).1
  {
    if n == 0 then [] else AuxWords(img, n - 1) + [Aux(img, n - 1).0, Aux(img, n - 1).1]
  }

  predicate WordsPlaced(m: Memory, base: int, words: seq<int>, n: nat)
    requires n <= |words| && LOW <= base && base + 8 * |words| <= TOP
  {
    forall k :: 0 <= k < n ==> Slot(m, base, k) == words[k]
  }

  lemma WordPut(m: Memory, base: int, words: seq<int>, n: nat, w: Word)
    requires n < |words| && LOW <= base && base + 8 * |words| <= TOP
    requires WordsPlaced(m, base, words, n) && words[n] == w
    ensures WordsPlaced(Put(m, base + 8 * n, LeBytes(w, 8)), base, words, n + 1)
  {
    hide Put, LeBytes, FromLe;
    var m' := Put(m, base + 8 * n, LeBytes(w, 8));
    PutSame(m, base + 8 * n, LeBytes(w, 8));
    WordFits(w);
    FromLeOfBytes(w, 8);
    forall k | 0 <= k < n
      ensures Slot(m', base, k) == words[k]
    {
      PutElsewhere(m, base + 8 * n, LeBytes(w, 8), base + 8 * k, 8);
    }
  }

  lemma OneMoreWord(m: Memory, base: int, words: seq<int>, k: nat, args: seq<Text>, addrs: seq<int>, data: int)
    requires k < |words| && 0 <= words[k] < WORD && LOW <= base && base + 8 * |words| <= data
    requires StringsPlaced(m, args, addrs, data) && WordsPlaced(m, base, words, k)
    ensures var m' := Put(m, base + 8 * k, LeBytes(words[k], 8));
            StringsPlaced(m', args, addrs, data) && WordsPlaced(m', base, words, k + 1)
  {
    StringsKept(m, args, addrs, data, base + 8 * k, LeBytes(words[k], 8));
    WordPut(m, base, words, k, words[k]);
  }

  /** `push` for every word, upwards from the aligned base. */
  method PushWords(stack: ChildStack, base: int, words: seq<int>,
                   ghost args: seq<Text>, ghost addrs: seq<int>, ghost data: int)
    returns (ok: bool)
    requires stack.bytes.Length == SIZE && StringsPlaced(stack.bytes[..], args, addrs, data)
    requires words != [] && base + 8 * |words| <= data
    requires forall k :: 0 <= k < |words| ==> 0 <= words[k] < WORD
    modifies stack.bytes
    ensures ok == (base >= LOW)
    ensures ok ==>
              StringsPlaced(stack.bytes[..], args, addrs, data) && WordsPlaced(stack.bytes[..], base, words, |words|)
  {
    var p := base;
    for k := 0 to |words|
      invariant p == base + 8 * k && (k > 0 ==> base >= LOW)
      invariant StringsPlaced(stack.bytes[..], args, addrs, data)
      invariant base >= LOW ==> WordsPlaced(stack.bytes[..], base, words, k)
    {
      ghost var before := stack.bytes[..];
      ok := stack.Store(p, LeBytes(words[k], 8));
      if !ok { return; }
      OneMoreWord(before, base, words, k, args, addrs, data);
      p := p + 8;
    }
    ok := true;
  }

  /** Builds the start-up stack. It succeeds exactly when everything fits the mapped
      stack, and then `rsp` and all it leads to are what the ABI promises. */
  method BuildStack(stack: ChildStack, argList: seq<Text>, img: Image) returns (ok: bool, rsp: int)
    requires stack.bytes.Length == SIZE && |argList| < WORD
    modifies stack.bytes
    ensures ok == Fits(EffectiveArgs(argList))
    ensures ok ==>
              var args := if argList == [] then [[0x62, 0x75, 0x73, 0x79, 0x62, 0x6f, 0x78]] else argList;
              && rsp == Rsp(args) && AbiEntry(stack.bytes[..], rsp, args, img)
              && VectorBelowStrings(stack.bytes[..], rsp, args) && PackedTightly(stack.bytes[..], rsp, args)
  {
    ok, rsp := BuildFor(stack, EffectiveArgs(argList), img);
  }

  method BuildFor(stack: ChildStack, args: seq<Text>, img: Image) returns (ok: bool, rsp: int)
    requires stack.bytes.Length == SIZE && 0 < |args| < WORD
    modifies stack.bytes
    ensures ok == Fits(args)
    ensures ok ==> rsp == Rsp(args) && AbiEntry(stack.bytes[..], rsp, args, img)
                   && VectorBelowStrings(stack.bytes[..], rsp, args) && PackedTightly(stack.bytes[..], rsp, args)
  {
    var data, addrs;
    ok, data, addrs := PlaceStrings(stack, args);
    rsp := 0;
    if ok { ok, rsp := PlaceVector(stack, args, data, addrs, img); }
  }

  /** Align the base below the data area, then write the vector upwards. */
  method PlaceVector(stack: ChildStack, ghost args: seq<Text>, data: int, addrs: seq<int>, img: Image)
    returns (ok: bool, rsp: int)
    requires stack.bytes.Length == SIZE && 0 < |addrs| == |args| < WORD
    requires StringsPlaced(stack.bytes[..], args, addrs, data)
    modifies stack.bytes
    ensures rsp == AlignedBelow(data, VectorWords(args)) && ok == (rsp >= LOW)
    ensures ok ==> AbiEntry(stack.bytes[..], rsp, args, img) && VectorBelowStrings(stack.bytes[..], rsp, args)
                   && PackedTightly(stack.bytes[..], rsp, args)
  {
    var words := Vector(|addrs|, addrs, img);
    var base := data - 8 * |words|;
    base := base - base % 16;
    VectorIsWords(addrs, img);
    assert base == AlignedBelow(data, VectorWords(args));
    ok := PushWords(stack, base, words, args, addrs, data);
    rsp := base;
    if ok {
      VectorReads(stack.bytes[..], rsp, args, addrs, data, img);
      VectorIsTight(stack.bytes[..], rsp, args, addrs, data, img);
    }
  }

  lemma VectorIsWords(addrs: seq<int>, img: Image)
    requires |addrs| < WORD && forall i :: 0 <= i < |addrs| ==> 0 <= addrs[i] < WORD
    ensures forall k :: 0 <= k < |Vector(|addrs|, addrs, img)| ==> 0 <= Vector(|addrs|, addrs, img)[k] < WORD
  {
    var v, aux := Vector(|addrs|, addrs, img), AuxWords(img, AUX_PAIRS);
    forall k | 0 <= k < |v|
      ensures 0 <= v[k] < WORD
    {
      if k >= |addrs| + 3 {
        var r := k - (|addrs| + 3);
        assert v[k] == aux[r] && r == 2 * (r / 2) + r % 2;
        assert aux[2 * (r / 2)] == Aux(img, r / 2).0;
      }
    }
  }

  /** The written vector, read slot by slot. */
  lemma VectorReads(m: Memory, rsp: int, args: seq<Text>, addrs: seq<int>, data: int, img: Image)
    requires |addrs| == |args| && LOW <= rsp && rsp % 16 == 0 && rsp + 8 * VectorWords(args) <= data
    requires StringsPlaced(m, args, addrs, data)
    requires WordsPlaced(m, rsp, Vector(|addrs|, addrs, img), VectorWords(args))
    ensures AbiEntry(m, rsp, args, img) && VectorBelowStrings(m, rsp, args)
  {
    VectorHead(|args|, addrs, img);
    VectorArgs(m, rsp, args, addrs, data, img);
    VectorAux(m, rsp, args, addrs, img);
  }

  lemma VectorIsTight(m: Memory, rsp: int, args: seq<Text>, addrs: seq<int>, data: int, img: Image)
    requires |addrs| == |args| > 0 && LOW <= rsp == AlignedBelow(data, VectorWords(args))
    requires StringsPlaced(m, args, addrs, data)
    requires WordsPlaced(m, rsp, Vector(|addrs|, addrs, img), VectorWords(args))
    ensures PackedTightly(m, rsp, args)
  {
    hide Slot, StringAt, WordsPlaced, Vector;
    VectorArgs(m, rsp, args, addrs, data, img);
    assert Slot(m, rsp, |args|) == addrs[|args| - 1] == data;
    forall k | 1 <= k <= |args|
      ensures Slot(m, rsp, k) + |args[k - 1]| + 1 == if k == 1 then 0xF1_0FE9 else Slot(m, rsp, k - 1)
    {
      var i := k - 1;
      assert addrs[i] + |args[i]| + 1 == if i == 0 then PLATFORM_ADDR else addrs[i - 1];
      assert Slot(m, rsp, k) == addrs[i];
      if k > 1 { assert Slot(m, rsp, k - 1) == addrs[k - 2]; }
    }
  }

  lemma VectorArgs(m: Memory, rsp: int, args: seq<Text>, addrs: seq<int>, data: int, img: Image)
    requires |addrs| == |args| && LOW <= rsp && rsp + 8 * VectorWords(args) <= data
    requires StringsPlaced(m, args, addrs, data)
    requires WordsPlaced(m, rsp, Vector(|addrs|, addrs, img), VectorWords(args))
    ensures forall k :: 1 <= k <= |args| ==>
              && Slot(m, rsp, k) == addrs[k - 1]
              && StringAt(m, Slot(m, rsp, k), args[k - 1]) && rsp + 8 * VectorWords(args) <= Slot(m, rsp, k)
  {
    forall k | 1 <= k <= |args|
      ensures Slot(m, rsp, k) == addrs[k - 1]
      ensures StringAt(m, Slot(m, rsp, k), args[k - 1]) && rsp + 8 * VectorWords(args) <= Slot(m, rsp, k)
    {
      ArgInVector(|args|, addrs, img, k);
    }
  }

  lemma VectorAux(m: Memory, rsp: int, args: seq<Text>, addrs: seq<int>, img: Image)
    requires |addrs| == |args| && LOW <= rsp && rsp + 8 * VectorWords(args) <= TOP
    requires WordsPlaced(m, rsp, Vector(|addrs|, addrs, img), VectorWords(args))
    ensures forall j :: 0 <= j < AUX_PAIRS ==> AuxPairAt(m, rsp, 3 + |args| + 2 * j, Aux(img, j))
  {
    forall j | 0 <= j < AUX_PAIRS
      ensures AuxPairAt(m, rsp, 3 + |args| + 2 * j, Aux(img, j))
    {
      AuxInVector(|args|, addrs, img, j);
    }
  }

  lemma VectorHead(argc: nat, addrs: seq<int>, img: Image)
    requires |addrs| == argc
    ensures var v := Vector(argc, addrs, img); v[0] == argc && v[1 + argc] == 0 && v[2 + argc] == 0
  {}

  lemma ArgInVector(argc: nat, addrs: seq<int>, img: Image, k: nat)
    requires |addrs| == argc && 1 <= k <= argc
    ensures Vector(argc, addrs, img)[k] == addrs[k - 1]
  {}

  lemma AuxInVector(argc: nat, addrs: seq<int>, img: Image, j: nat)
    requires |addrs| == argc && j < AUX_PAIRS
    ensures var v := Vector(argc, addrs, img);
            v[3 + argc + 2 * j] == Aux(img, j).0 && v[3 + argc + 2 * j + 1] == Aux(img, j).1
  {
    var v, aux := Vector(argc, addrs, img), AuxWords(img, AUX_PAIRS);
    assert v[3 + argc + 2 * j] == aux[2 * j] && v[3 + argc + 2 * j + 1] == aux[2 * j + 1];
  }

  /** Read as C strings, argv is the argument list, for arguments without NUL bytes. */
  lemma ArgvReadsBack(m: Memory, rsp: int, args: seq<Text>, img: Image, i: nat)
    requires AbiEntry(m, rsp, args, img) && i < |args| && 0 !in args[i]
    ensures LOW <= Slot(m, rsp, i + 1) <= TOP && CString(m, Slot(m, rsp, i + 1)) == args[i]
  {
    assert StringAt(m, Slot(m, rsp, i + 1), args[i]);
    CStringReads(m, Slot(m, rsp, i + 1), args[i]);
  }

  // ---- what the program reads at its entry ----

  /** Where the words from `a` on go on behind their first zero word. */
  function AfterNull(m: Memory, a: int): (r: int)
    requires LOW <= a
    ensures r >= a
    decreases TOP - a
  {
    if a + 8 > TOP then a else if WordAt(m, a) == 0 then a + 8 else AfterNull(m, a + 8)
  }

  /** The value of an auxiliary entry, looked for from `a` on, pair by pair up to type 0. */
  function AuxValue(m: Memory, a: int, kind: nat): Option<nat>
    requires LOW <= a
    decreases TOP - a
  {
    if a + 16 > TOP || WordAt(m, a) == 0 then None
    else if WordAt(m, a) == kind then Some(WordAt(m, a + 8))
    else AuxValue(m, a + 16, kind)
  }

  lemma {:induction false} ArgvEnds(m: Memory, rsp: int, args: seq<Text>, img: Image, k: nat)
    requires AbiEntry(m, rsp, args, img) && 1 <= k <= 1 + |args|
    ensures AfterNull(m, rsp + 8 * k) == rsp + 8 * (2 + |args|)
    decreases |args| - k
  {
    hide WordAt, StringAt;
    assert Slot(m, rsp, k) == WordAt(m, rsp + 8 * k);
    if k <= |args| {
      StringIsSomewhere(m, Slot(m, rsp, k), args[k - 1]);
      ArgvEnds(m, rsp, args, img, k + 1);
    }
  }

  lemma StringIsSomewhere(m: Memory, a: int, s: Text)
    requires StringAt(m, a, s)
    ensures a != 0
  {}

  /** The scan gets to entry `j` when none before it has the type. */
  lemma {:induction false} AuxFound(m: Memory, rsp: int, args: seq<Text>, img: Image, i: nat, j: nat)
    requires AbiEntry(m, rsp, args, img) && i <= j < AUX_PAIRS - 1
    ensures AuxValue(m, rsp + 8 * (3 + |args| + 2 * i), Aux(img, j).0) == Some(Aux(img, j).1)
    decreases j - i
  {
    hide WordAt, StringAt, AbiEntry;
    PairInMemory(m, rsp, args, img, i);
    if i < j { AuxFound(m, rsp, args, img, i + 1, j); }
  }

  lemma PairInMemory(m: Memory, rsp: int, args: seq<Text>, img: Image, j: nat)
    requires AbiEntry(m, rsp, args, img) && j < AUX_PAIRS
    ensures var a := rsp + 8 * (3 + |args| + 2 * j);
            LOW <= a && a + 16 <= TOP && WordAt(m, a) == Aux(img, j).0 && WordAt(m, a + 8) == Aux(img, j).1
  {
    assert AuxPairAt(m, rsp, 3 + |args| + 2 * j, Aux(img, j));
  }

  lemma {:induction false} AuxEnds(m: Memory, rsp: int, args: seq<Text>, img: Image, i: nat, kind: nat)
    requires AbiEntry(m, rsp, args, img) && i < AUX_PAIRS
    requires forall j :: i <= j < AUX_PAIRS ==> Aux(img, j).0 != kind
    ensures AuxValue(m, rsp + 8 * (3 + |args| + 2 * i), kind) == None
    decreases AUX_PAIRS - i
  {
    hide WordAt, StringAt, AbiEntry;
    PairInMemory(m, rsp, args, img, i);
    if i < AUX_PAIRS - 1 { AuxEnds(m, rsp, args, img, i + 1, kind); }
  }

  /** The value of a type as a C library finds it: behind argv's NULL and the environment's. */
  function Getauxval(m: Memory, rsp: int, kind: nat): Option<nat>
    requires LOW <= rsp
  {
    AuxValue(m, AfterNull(m, AfterNull(m, rsp + 8)), kind)
  }

  lemma VectorStarts(m: Memory, rsp: int, args: seq<Text>, img: Image)
    requires AbiEntry(m, rsp, args, img)
    ensures LOW <= rsp && AfterNull(m, AfterNull(m, rsp + 8)) == rsp + 8 * (3 + |args|)
  {
    hide WordAt, StringAt;
    ArgvEnds(m, rsp, args, img, 1);
    assert Slot(m, rsp, 2 + |args|) == WordAt(m, rsp + 8 * (2 + |args|));
  }

  lemma EntryRead(m: Memory, rsp: int, args: seq<Text>, img: Image, j: nat)
    requires AbiEntry(m, rsp, args, img) && j < AUX_PAIRS - 1
    ensures LOW <= rsp && Getauxval(m, rsp, Aux(img, j).0) == Some(Aux(img, j).1)
  {
    hide AbiEntry, AfterNull, AuxValue, Aux;
    VectorStarts(m, rsp, args, img);
    AuxFound(m, rsp, args, img, 0, j);
  }

  lemma ConstantsPlaced(m: Memory, rsp: int, args: seq<Text>, img: Image)
    requires AbiEntry(m, rsp, args, img)
    ensures LOW <= rsp && At(m, RANDOM_ADDR, 16) == RandomBytes() && StringAt(m, PLATFORM_ADDR, Platform())
  {}

  lemma RandomBytesAreFlipped()
    ensures forall i :: 0 <= i < 16 ==> RandomBytes()[i] == ((i as bv8) ^ 0xA5) as int
  {}

  /** What a C library finds in the auxiliary vector, type by type: the program headers (3, 4,
      5) at the load base, the page size (6), the entry point (9), the platform's name (15), the
      clock rate (17), sixteen bytes for its canaries (25), and zeros. */
  lemma AuxiliaryVectorReads(m: Memory, rsp: int, args: seq<Text>, img: Image)
    requires AbiEntry(m, rsp, args, img)
    ensures LOW <= rsp
    ensures Getauxval(m, rsp, 3) == Some((0x40_0000 + img.phoff) % WORD)
    ensures Getauxval(m, rsp, 4) == Some(img.phent) && Getauxval(m, rsp, 5) == Some(img.phnum)
    ensures Getauxval(m, rsp, 6) == Some(4096) && Getauxval(m, rsp, 9) == Some(img.entry)
    ensures var name := Getauxval(m, rsp, 15);
            name.Some? && StringAt(m, name.value, [0x78, 0x38, 0x36, 0x5f, 0x36, 0x34])
    ensures Getauxval(m, rsp, 17) == Some(100)
    ensures var random := Getauxval(m, rsp, 25);
            && random.Some? && LOW <= random.value && random.value + 16 <= TOP
            && forall i :: 0 <= i < 16 ==> At(m, random.value, 16)[i] == ((i as bv8) ^ 0xA5) as int
    ensures forall kind :: kind in [7, 11, 12, 13, 14, 16, 23] ==> Getauxval(m, rsp, kind) == Some(0)
  {
    hide AbiEntry, StringAt, Getauxval, At, RandomBytes;
    ConstantsPlaced(m, rsp, args, img);
    RandomBytesAreFlipped();
    forall j: nat | j < AUX_PAIRS - 1
      ensures Getauxval(m, rsp, Aux(img, j).0) == Some(Aux(img, j).1)
    {
      EntryRead(m, rsp, args, img, j);
    }
    assert Aux(img, 0) == (25, RANDOM_ADDR) && Aux(img, 1) == (23, 0) && Aux(img, 2) == (17, 100);
    assert Aux(img, 3) == (16, 0) && Aux(img, 4) == (15, PLATFORM_ADDR) && Aux(img, 5) == (14, 0);
    assert Aux(img, 6) == (13, 0) && Aux(img, 7) == (12, 0) && Aux(img, 8) == (11, 0);
    assert Aux(img, 9) == (9, img.entry) && Aux(img, 10) == (7, 0) && Aux(img, 11) == (6, PAGE_SIZE);
    assert Aux(img, 12) == (5, img.phnum) && Aux(img, 13) == (4, img.phent);
    assert Aux(img, 14) == (3, Wrap(Elf.LOAD_BASE + img.phoff));
  }

  /** The vector has no other type. */
  lemma NoOtherTypes(m: Memory, rsp: int, args: seq<Text>, img: Image, kind: nat)
    requires AbiEntry(m, rsp, args, img)
    requires kind !in {3, 4, 5, 6, 7, 9, 11, 12, 13, 14, 15, 16, 17, 23, 25}
    ensures LOW <= rsp && Getauxval(m, rsp, kind) == None
  {
    hide AbiEntry, AfterNull, AuxValue;
    VectorStarts(m, rsp, args, img);
    if kind == 0 {
      ZeroIsNoType(m, rsp + 8 * (3 + |args|));
    } else {
      AuxEnds(m, rsp, args, img, 0, kind);
    }
  }

  lemma ZeroIsNoType(m: Memory, a: int)
    requires LOW <= a
    ensures AuxValue(m, a, 0) == None
    decreases TOP - a
  {
    if a + 16 <= TOP { ZeroIsNoType(m, a + 16); }
  }
}

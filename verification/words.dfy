/** Machine words, bytes and page arithmetic shared by every component.

    The repository is built in release mode for a 64-bit target, so `usize`
    arithmetic wraps modulo 2^64; `Wrap` writes that out wherever it matters. */
module Words {

  const WORD: int := 0x1_0000_0000_0000_0000
  const PAGE_SIZE: int := 4096

  type Byte = x: int | 0 <= x < 256
  type Word = x: int | 0 <= x < 0x1_0000_0000_0000_0000

  type U32 = x: int | 0 <= x < 0x1_0000_0000
  type I32 = x: int | -0x8000_0000 <= x < 0x8000_0000
  type I64 = x: int | -0x8000_0000_0000_0000 <= x < 0x8000_0000_0000_0000

  datatype Option<+T> = None | Some(value: T)

  function Min(a: nat, b: nat): nat {
    if a < b then a else b
  }

  function Zeros(n: nat): (z: seq<Byte>)
    ensures |z| == n && forall i :: 0 <= i < n ==> z[i] == 0
  {
    seq(n, _ => 0)
  }

  /** Reduction of an exact result to a 64-bit word (`wrapping_add`, `as usize`). */
  function Wrap(x: int): Word {
    x % WORD
  }

  /** A word read as `isize` or `i64`. */
  function Signed(w: Word): I64 {
    if w < 0x8000_0000_0000_0000 then w else w - WORD
  }

  /** The low half of a word, as `u32` and as `i32`. */
  function AsU32(w: Word): U32 {
    w % 0x1_0000_0000
  }

  function AsI32(w: Word): I32 {
    if AsU32(w) < 0x8000_0000 then AsU32(w) else AsU32(w) - 0x1_0000_0000
  }

  /** Signed values survive the trip through a register. */
  lemma SignedRoundTrip(x: I64)
    ensures Signed(Wrap(x)) == x
  {}

  lemma I32RoundTrip(x: I32)
    ensures AsI32(Wrap(x)) == x
  {}

  /** `x & !(PAGE_SIZE - 1)`; module Bits proves that the mask computes this. */
  function PageDown(x: Word): Word {
    x - x % PAGE_SIZE
  }

  /** `(x + PAGE_SIZE - 1) & !(PAGE_SIZE - 1)`, wrapping as the addition does. */
  function PageUp(x: Word): Word {
    PageDown(Wrap(x + PAGE_SIZE - 1))
  }

  predicate PageAligned(x: Word) {
    x % PAGE_SIZE == 0
  }

  lemma WordWraps(x: Word)
    ensures Wrap(x) == x
  {}

  lemma WrapAdds(x: int, y: int)
    ensures Wrap(Wrap(x) + y) == Wrap(x + y)
  {}
}

/** The least element of a finite set of numbers. */
module Smallest {
  ghost predicate IsLeast(n: nat, s: set<nat>) {
    n in s && forall m :: m in s ==> n <= m
  }

  lemma {:induction false} LeastExists(s: set<nat>)
    requires s != {}
    ensures exists n :: IsLeast(n, s)
    decreases s
  {
    var x :| x in s;
    if s == {x} {
      assert IsLeast(x, s);
    } else {
      var rest := s - {x};
      assert rest + {x} == s && rest != {};
      LeastExists(rest);
      var n :| IsLeast(n, rest);
      assert IsLeast(if x < n then x else n, s);
    }
  }

  ghost function Least(s: set<nat>): (n: nat)
    requires s != {}
    ensures IsLeast(n, s)
  {
    LeastExists(s);
    var n :| IsLeast(n, s);
    n
  }
}

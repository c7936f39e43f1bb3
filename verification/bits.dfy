/** Bitwise operators on unsigned words, defined bit by bit on naturals.

    `Bit` says which bits of a number are set; every operator below is
    characterised by the bits of its result, and two numbers with the same bits
    are equal. */
module Bits {
  import opened Words

  function Pow2(n: nat): (r: nat)
    ensures r >= 1
  {
    if n == 0 then 1 else 2 * Pow2(n - 1)
  }

  predicate Bit(x: nat, i: nat) {
    if i == 0 then x % 2 == 1 else Bit(x / 2, i - 1)
  }

  /** x | y */
  function Or(x: nat, y: nat): nat
    decreases x + y
  {
    if x == 0 then y
    else if y == 0 then x
    else 2 * Or(x / 2, y / 2) + if x % 2 == 1 || y % 2 == 1 then 1 else 0
  }

  /** x & !y */
  function AndNot(x: nat, y: nat): nat {
    if x == 0 then 0
    else 2 * AndNot(x / 2, y / 2) + if x % 2 == 1 && y % 2 == 0 then 1 else 0
  }

  /** x & y */
  function And(x: nat, y: nat): nat {
    if x == 0 then 0
    else 2 * And(x / 2, y / 2) + if x % 2 == 1 && y % 2 == 1 then 1 else 0
  }

  /** The number of zero bits below the lowest set bit. */
  function TrailingZeros(x: nat): nat
    requires x > 0
  {
    if x % 2 == 1 then 0 else 1 + TrailingZeros(x / 2)
  }

  // ---- what the bits of each result are ----

  lemma {:induction false} ZeroHasNoBits(i: nat)
    ensures !Bit(0, i)
  {
    if i > 0 { ZeroHasNoBits(i - 1); }
  }

  lemma {:induction false} OrBits(x: nat, y: nat, i: nat)
    ensures Bit(Or(x, y), i) == (Bit(x, i) || Bit(y, i))
    decreases i
  {
    if x == 0 {
      ZeroHasNoBits(i);
    } else if y == 0 {
      ZeroHasNoBits(i);
    } else if i > 0 {
      OrBits(x / 2, y / 2, i - 1);
    }
  }

  lemma {:induction false} AndNotBits(x: nat, y: nat, i: nat)
    ensures Bit(AndNot(x, y), i) == (Bit(x, i) && !Bit(y, i))
    decreases i
  {
    if x == 0 {
      ZeroHasNoBits(i);
    } else if i > 0 {
      AndNotBits(x / 2, y / 2, i - 1);
    }
  }

  lemma {:induction false} Pow2Bits(n: nat, i: nat)
    ensures Bit(Pow2(n), i) == (i == n)
  {
    if n == 0 {
      if i > 0 { ZeroHasNoBits(i - 1); }
    } else if i > 0 {
      Pow2Bits(n - 1, i - 1);
    }
  }

  /** The lowest set bit, and none below it. */
  lemma {:induction false} TrailingZerosBits(x: nat, i: nat)
    requires x > 0
    ensures Bit(x, TrailingZeros(x))
    ensures i < TrailingZeros(x) ==> !Bit(x, i)
  {
    if x % 2 == 0 {
      TrailingZerosBits(x / 2, if i > 0 then i - 1 else 0);
    }
  }

  /** A number below 2^n has no bit at n or above. */
  lemma {:induction false} HighBitsClear(x: nat, n: nat, i: nat)
    requires x < Pow2(n) && n <= i
    ensures !Bit(x, i)
  {
    if n == 0 {
      ZeroHasNoBits(i);
    } else {
      HighBitsClear(x / 2, n - 1, i - 1);
    }
  }

  /** Clearing bits never enlarges a number; joining bits of n-bit numbers stays in n bits. */
  lemma {:induction false} AndNotShrinks(x: nat, y: nat)
    ensures AndNot(x, y) <= x
  {
    if x > 0 { AndNotShrinks(x / 2, y / 2); }
  }

  lemma {:induction false} OrStaysBelow(x: nat, y: nat, n: nat)
    requires x < Pow2(n) && y < Pow2(n)
    ensures Or(x, y) < Pow2(n)
    decreases n
  {
    if x > 0 && y > 0 { OrStaysBelow(x / 2, y / 2, n - 1); }
  }

  /** Two numbers with the same bits are the same number. */
  lemma {:induction false} SameBits(x: nat, y: nat)
    requires forall i: nat :: Bit(x, i) == Bit(y, i)
    ensures x == y
    decreases x + y
  {
    if x > 0 || y > 0 {
      assert Bit(x, 0) == Bit(y, 0);
      forall i: nat
        ensures Bit(x / 2, i) == Bit(y / 2, i)
      {
        assert Bit(x, i + 1) == Bit(y, i + 1);
      }
      SameBits(x / 2, y / 2);
    }
  }

  // ---- arithmetic meaning ----

  /** Joining a shifted value above an n-bit one is an addition. */
  lemma {:induction false} OrDisjointAdds(x: nat, y: nat, n: nat)
    requires x < Pow2(n)
    ensures Or(x, y * Pow2(n)) == x + y * Pow2(n)
  {
    if n > 0 && x > 0 && y > 0 {
      var p := Pow2(n - 1);
      assert y * Pow2(n) == 2 * (y * p) && y * p >= 1 by { assert y * (2 * p) == 2 * (y * p); }
      OrDisjointAdds(x / 2, y, n - 1);
    }
  }

  /** x with its low n bits cleared, one bit at a time. */
  function ClearLow(x: nat, n: nat): nat {
    if n == 0 then x else 2 * ClearLow(x / 2, n - 1)
  }

  /** Above a common low part an OR is the OR of the high parts. */
  lemma {:induction false} OrAboveLowPart(x: nat, y: nat, low: nat, n: nat)
    requires low < Pow2(n)
    ensures Or(x * Pow2(n), y * Pow2(n) + low) == Or(x, y) * Pow2(n) + low
    decreases n
  {
    if n > 0 {
      OrAboveLowPart(x, y, low / 2, n - 1);
      OrOneBitDown(x, y, low, Pow2(n - 1));
    }
  }

  lemma Halves(x: nat, p: nat, low: nat)
    ensures (x * (2 * p) + low) / 2 == x * p + low / 2 && (x * (2 * p) + low) % 2 == low % 2
  {
    assert x * (2 * p) == 2 * (x * p);
  }

  lemma OrOneBitDown(x: nat, y: nat, low: nat, p: nat)
    requires Or(x * p, y * p + low / 2) == Or(x, y) * p + low / 2
    ensures Or(x * (2 * p), y * (2 * p) + low) == Or(x, y) * (2 * p) + low
  {
    hide Or;
    Halves(x, p, 0);
    Halves(y, p, low);
    OrHalves(x * (2 * p), y * (2 * p) + low);
  }

  lemma OrHalves(x: nat, y: nat)
    requires x % 2 == 0
    ensures Or(x, y) == 2 * Or(x / 2, y / 2) + y % 2
  {}

  lemma {:induction false} MaskClears(x: nat, n: nat)
    ensures AndNot(x, Pow2(n) - 1) == ClearLow(x, n)
    decreases n
  {
    if n == 0 {
      AndNotZero(x);
    } else if x == 0 {
      MaskClears(0, n - 1);
    } else {
      MaskClears(x / 2, n - 1);
    }
  }

  lemma {:induction false} ClearLowRoundsDown(x: nat, n: nat)
    ensures ClearLow(x, n) == x - x % Pow2(n)
  {
    if n > 0 {
      ClearLowRoundsDown(x / 2, n - 1);
      HalfMod(x, Pow2(n - 1));
    }
  }

  /** Masking off the low n bits rounds down to a multiple of 2^n. */
  lemma MaskRoundsDown(x: nat, n: nat)
    ensures AndNot(x, Pow2(n) - 1) == x - x % Pow2(n)
  {
    MaskClears(x, n);
    ClearLowRoundsDown(x, n);
  }

  lemma {:induction false} AndSplits(x: nat, y: nat)
    ensures And(x, y) + AndNot(x, y) == x
  {
    if x > 0 { AndSplits(x / 2, y / 2); }
  }

  /** Masking with the low n bits takes the remainder; `(word >> 8 * j) & 0xFF` is a case of it. */
  lemma MaskTakesRemainder(x: nat, n: nat)
    ensures And(x, Pow2(n) - 1) == x % Pow2(n)
  {
    AndSplits(x, Pow2(n) - 1);
    MaskRoundsDown(x, n);
  }

  lemma {:induction false} AndNotZero(x: nat)
    ensures AndNot(x, 0) == x
  {
    if x > 0 { AndNotZero(x / 2); }
  }

  /** Division and remainder are determined by the division equation. */
  lemma DivModUnique(x: nat, d: nat, q: nat, r: nat)
    requires r < d && x == d * q + r
    ensures x / d == q && x % d == r
  {
    var q', r' := x / d, x % d;
    assert x == d * q' + r';
    if q' > q { Stretch(d, q, q'); }
    if q' < q { Stretch(d, q', q); }
  }

  lemma {:induction false} Stretch(d: nat, a: nat, b: nat)
    requires a < b
    ensures d * b >= d * a + d
  {
    assert d * b == d * (b - 1) + d;
    if a < b - 1 { Stretch(d, a, b - 1); }
  }

  lemma HalfMod(x: nat, p: nat)
    requires p >= 1
    ensures x % (2 * p) == 2 * ((x / 2) % p) + x % 2
  {
    var q, r := (x / 2) / p, (x / 2) % p;
    assert x == (2 * p) * q + (2 * r + x % 2) by {
      assert (2 * p) * q == 2 * (p * q);
    }
    DivModUnique(x, 2 * p, q, 2 * r + x % 2);
  }

  /** `x & !(PAGE_SIZE - 1)` is the rounding the memory modules use. */
  lemma PageMaskIsPageDown(x: Word)
    ensures AndNot(x, PAGE_SIZE - 1) == PageDown(x)
  {
    assert Pow2(12) == PAGE_SIZE by { Pow2Small(); }
    MaskRoundsDown(x, 12);
  }

  lemma Pow2Small()
    ensures Pow2(4) == 16 && Pow2(8) == 256 && Pow2(12) == 4096 && Pow2(21) == 0x20_0000
  {
    assert Pow2(4) == 16;
    assert Pow2(8) == 256;
    assert Pow2(12) == 4096;
    assert Pow2(16) == 65536;
    assert Pow2(21) == 0x20_0000;
  }
}

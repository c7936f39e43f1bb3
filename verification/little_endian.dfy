/** Words as little-endian byte strings. */
module LittleEndian {
  import opened Words
  import opened Bits

  /** Byte j is `(w >> (8 * j)) & 0xFF`. */
  function ByteOf(w: nat, j: nat): Byte {
    (w / Pow2(8 * j)) % 256
  }

  /** The low `n` bytes of a word, least significant first. */
  function LeBytes(w: nat, n: nat): (bs: seq<Byte>)
    ensures |bs| == n
  {
    seq(n, j requires 0 <= j => ByteOf(w, j))
  }

  lemma LeBytesStep(w: nat, n: nat)
    requires n > 0
    ensures LeBytes(w, n) == [w % 256] + LeBytes(w / 256, n - 1)
  {
    var rest := LeBytes(w / 256, n - 1);
    forall j | 1 <= j < n
      ensures LeBytes(w, n)[j] == rest[j - 1]
    {
      ByteOfNext(w, j);
    }
    assert Pow2(0) == 1;
  }

  lemma ByteOfNext(w: nat, j: nat)
    requires j > 0
    ensures ByteOf(w, j) == ByteOf(w / 256, j - 1)
  {
    Pow2Step(8 * j - 8);
    DivDiv(w, Pow2(8 * j - 8));
  }

  function FromLe(bs: seq<Byte>): (w: nat)
    ensures w < Pow2(8 * |bs|)
  {
    if bs == [] then 0
    else
      Pow2Step(8 * |bs| - 8);
      bs[0] + 256 * FromLe(bs[1..])
  }

  lemma Pow2Step(n: nat)
    ensures Pow2(n + 8) == 256 * Pow2(n)
  {
    assert Pow2(n + 2) == 4 * Pow2(n);
    assert Pow2(n + 4) == 4 * Pow2(n + 2);
    assert Pow2(n + 6) == 4 * Pow2(n + 4);
    assert Pow2(n + 8) == 4 * Pow2(n + 6);
  }

  lemma {:induction false} FromLeOfBytes(w: nat, n: nat)
    requires w < Pow2(8 * n)
    ensures FromLe(LeBytes(w, n)) == w
    decreases n
  {
    if n > 0 {
      Pow2Step(8 * n - 8);
      FromLeOfBytes(w / 256, n - 1);
      LeBytesStep(w, n);
    }
  }

  lemma {:induction false} BytesOfFromLe(bs: seq<Byte>)
    ensures LeBytes(FromLe(bs), |bs|) == bs
  {
    if bs != [] {
      var rest := FromLe(bs[1..]);
      assert FromLe(bs) % 256 == bs[0] && FromLe(bs) / 256 == rest;
      BytesOfFromLe(bs[1..]);
      LeBytesStep(FromLe(bs), |bs|);
    }
  }

  lemma DivDiv(w: nat, b: nat)
    requires b >= 1
    ensures (w / 256) / b == w / (256 * b)
  {
    var q, r := w / 256, w % 256;
    var q2, r2 := q / b, q % b;
    assert q == b * q2 + r2;
    assert (256 * b) * q2 == 256 * (b * q2);
    DivModUnique(w, 256 * b, q2, 256 * r2 + r);
  }

  /** Appending one byte above the others is an OR with the byte shifted into place. */
  lemma {:induction false} AppendByteIsOr(bs: seq<Byte>, b: Byte)
    ensures FromLe(bs + [b]) == FromLe(bs) + b * Pow2(8 * |bs|)
    ensures FromLe(bs + [b]) == Or(FromLe(bs), b * Pow2(8 * |bs|))
  {
    FromLeAppend(bs, b);
    OrDisjointAdds(FromLe(bs), b, 8 * |bs|);
  }

  lemma {:induction false} FromLeAppend(bs: seq<Byte>, b: Byte)
    ensures FromLe(bs + [b]) == FromLe(bs) + b * Pow2(8 * |bs|)
  {
    if bs == [] {
      assert [b][1..] == [];
      assert FromLe([b]) == b;
    } else {
      assert (bs + [b])[1..] == bs[1..] + [b];
      FromLeAppend(bs[1..], b);
      Pow2Step(8 * |bs| - 8);
      Distribute(b, Pow2(8 * |bs| - 8));
    }
  }

  lemma {:induction false} FromLeJoin(xs: seq<Byte>, ys: seq<Byte>)
    ensures FromLe(xs + ys) == FromLe(xs) + FromLe(ys) * Pow2(8 * |xs|)
  {
    if xs == [] {
      assert xs + ys == ys;
    } else {
      assert (xs + ys)[1..] == xs[1..] + ys;
      FromLeJoin(xs[1..], ys);
      Pow2Step(8 * |xs| - 8);
      Distribute(FromLe(ys), Pow2(8 * |xs| - 8));
    }
  }

  lemma Distribute(b: nat, p: nat)
    ensures 256 * (b * p) == b * (256 * p)
  {}

  lemma Pow2Word()
    ensures Pow2(64) == WORD
  {
    Pow2Step(0); Pow2Step(8); Pow2Step(16); Pow2Step(24);
    Pow2Step(32); Pow2Step(40); Pow2Step(48); Pow2Step(56);
  }

  lemma WordFits(w: Word)
    ensures w < Pow2(64)
  {
    Pow2Word();
  }

  lemma FourBytes(x: U32)
    ensures FromLe(LeBytes(x, 4)) == x
  {
    Pow2Step(0); Pow2Step(8); Pow2Step(16); Pow2Step(24);
    FromLeOfBytes(x, 4);
  }
}

/** The Number-based HEALPix index of src/js/libs/healpix.js: the byte lookup tables `utab` and
    `ctab` that `init` fills, the nested index of a face-local (ix, iy) pair built from them, the
    order and pixel count of an nside, the range builder of the disc query, and the de-duplication
    of its nested output. Every bitwise operator is the int32 operator of JavaScript. */
module HealpixJs {
  import opened Bits
  import opened Wrappers
  import HealpixBigBackup

  const NS_MAX: int := 16384
  const ORDER_MAX: int := 14

  // ---------------------------------------------------------------------------
  // The lookup tables

  /** Term k of the `utab` expression: `(m & 2^k) << k`. */
  function UtabTerm(m: int, k: nat): int
  {
    JsShl(JsAnd(m, Pow2(k)), k)
  }

  /** `(m & 0x1) | ((m & 0x2) << 1) | ... | ((m & 0x80) << 7)`, the first k+1 terms or-ed from
      the left. */
  function UtabFold(m: int, k: nat): int
  {
    if k == 0 then JsAnd(m, 1) else JsOr(UtabFold(m, k - 1), UtabTerm(m, k))
  }

  /** The value `init` stores in `utab[m]`. */
  function UtabEntry(m: int): int
  {
    UtabFold(m, 7)
  }

  /** Term j of the `ctab` expression: bit 2i moves down to bit i (`(m & 2^2i) >> i`), bit 2i+1
      moves up to bit 8+i (`(m & 2^(2i+1)) << (7-i)`). */
  function CtabTerm(m: int, j: nat): int
  {
    if j % 2 == 0 then JsSar(JsAnd(m, Pow2(j)), j / 2) else JsShl(JsAnd(m, Pow2(j)), 7 - j / 2)
  }

  /** `(m & 0x1) | ((m & 0x2) << 7) | ((m & 0x4) >> 1) | ... | ((m & 0x80) << 4)`, the first j+1
      terms or-ed from the left. */
  function CtabFold(m: int, j: nat): int
  {
    if j == 0 then JsAnd(m, 1) else JsOr(CtabFold(m, j - 1), CtabTerm(m, j))
  }

  /** The value `init` stores in `ctab[m]`. */
  function CtabEntry(m: int): int
  {
    CtabFold(m, 7)
  }

  /** Bit j of the first k+1 `utab` terms of m: bit j/2 of m at each even j <= 2k. */
  function UtabBit(m: nat, k: nat, j: nat): nat
  {
    if j % 2 == 0 && j / 2 <= k then Bit(m, j / 2) else 0
  }

  /** Bit p of the first j+1 `ctab` terms of m. */
  function CtabBit(m: nat, j: nat, p: nat): nat
  {
    if p < 4 && 2 * p <= j then Bit(m, 2 * p)
    else if 8 <= p < 12 && 2 * (p - 8) + 1 <= j then Bit(m, 2 * (p - 8) + 1)
    else 0
  }

  /** Bit k of m moved to bit 2k, over the naturals. */
  lemma UtabShlBit(m: nat, k: nat, i: nat)
    ensures Bit(Shl(And(m, Pow2(k)), k), i) == if i == 2 * k then Bit(m, k) else 0
  {
    BitShl(And(m, Pow2(k)), k, i);
    if i >= k {
      BitAnd(m, Pow2(k), i - k);
      BitPow2(k, i - k);
    }
  }

  lemma UtabShlBound(m: nat, k: nat)
    requires k < 8
    ensures Shl(And(m, Pow2(k)), k) < 0x8000
  {
    forall i: nat | i >= 2 * k + 1 ensures Bit(Shl(And(m, Pow2(k)), k), i) == 0 {
      UtabShlBit(m, k, i);
    }
    BitsBound(Shl(And(m, Pow2(k)), k), 2 * k + 1);
    Pow2Mono(2 * k + 1, 15);
    assert Pow2(15) == 0x8000;
  }

  lemma UtabTermBits(m: int, k: nat, j: nat)
    requires 0 <= m < 256 && 1 <= k < 8
    ensures 0 <= UtabTerm(m, k) < 0x8000
    ensures Bit(UtabTerm(m, k), j) == if j == 2 * k then Bit(m, k) else 0
  {
    Pow2Below31(k);
    JsAndSmall(m, Pow2(k));
    var a := And(m, Pow2(k));
    UtabShlBound(m, k);
    UtabShlBit(m, k, j);
    JsShlExact(a, k);
  }

  lemma AndOneBits(m: nat, j: nat)
    requires m < 256
    ensures JsAnd(m, 1) == And(m, 1) && And(m, 1) < 2
    ensures Bit(And(m, 1), j) == if j == 0 then Bit(m, 0) else 0
  {
    JsAndSmall(m, 1);
    BitAnd(m, 1, j);
    BitPow2(0, j);
  }

  lemma {:induction false} UtabFoldBound(m: int, k: nat)
    requires 0 <= m < 256 && k < 8
    ensures 0 <= UtabFold(m, k) < 0x8000
  {
    if k == 0 {
      AndOneBits(m, 0);
    } else {
      UtabFoldBound(m, k - 1);
      UtabTermBits(m, k, 0);
      var a, t := UtabFold(m, k - 1), UtabTerm(m, k);
      JsOrSmall(a, t);
      Pow2Values();
      OrBound(a, t, 15);
    }
  }

  lemma {:induction false} UtabFoldBits(m: int, k: nat, j: nat)
    requires 0 <= m < 256 && k < 8
    ensures 0 <= UtabFold(m, k) && Bit(UtabFold(m, k), j) == UtabBit(m, k, j)
  {
    UtabFoldBound(m, k);
    if k == 0 {
      AndOneBits(m, j);
    } else {
      UtabFoldBits(m, k - 1, j);
      UtabFoldBound(m, k - 1);
      UtabTermBits(m, k, j);
      var a, t := UtabFold(m, k - 1), UtabTerm(m, k);
      JsOrSmall(a, t);
      BitOr(a, t, j);
    }
  }

  /** `utab[m]` spreads bit i of the byte m to bit 2i. */
  lemma UtabSpreads(m: int)
    requires 0 <= m < 256
    ensures UtabEntry(m) == Spread(m, 8)
  {
    UtabFoldBound(m, 7);
    forall j: nat ensures Bit(UtabEntry(m), j) == Bit(Spread(m, 8), j) {
      UtabFoldBits(m, 7, j);
      BitSpread(m, 8, j);
    }
    BitsEqual(UtabEntry(m), Spread(m, 8));
  }

  /** Bit j of m alone, over the naturals. */
  lemma MaskBit(m: nat, j: nat, i: nat)
    ensures Bit(And(m, Pow2(j)), i) == if i == j then Bit(m, j) else 0
  {
    BitAnd(m, Pow2(j), i);
    BitPow2(j, i);
  }

  /** Bit j = 2i of m moved down to bit i, over the naturals. */
  lemma CtabShrBits(m: nat, j: nat, p: nat)
    requires j < 8 && j % 2 == 0
    ensures Shr(And(m, Pow2(j)), j / 2) < Pow2(12)
    ensures Bit(Shr(And(m, Pow2(j)), j / 2), p) == if p == j / 2 then Bit(m, j) else 0
  {
    var a := And(m, Pow2(j));
    forall q: nat ensures Bit(Shr(a, j / 2), q) == if q == j / 2 then Bit(m, j) else 0 {
      BitShr(a, j / 2, q);
      MaskBit(m, j, q + j / 2);
    }
    forall q: nat | q >= 12 ensures Bit(Shr(a, j / 2), q) == 0 {
    }
    BitsBound(Shr(a, j / 2), 12);
  }

  /** Bit j = 2i+1 of m moved up to bit 8+i, over the naturals. */
  lemma CtabShlBits(m: nat, j: nat, p: nat)
    requires j < 8 && j % 2 == 1
    ensures Shl(And(m, Pow2(j)), 7 - j / 2) < Pow2(12)
    ensures Bit(Shl(And(m, Pow2(j)), 7 - j / 2), p) == if p == 8 + j / 2 then Bit(m, j) else 0
  {
    var a := And(m, Pow2(j));
    var s := 7 - j / 2;
    assert j + s == 8 + j / 2;
    forall q: nat ensures Bit(Shl(a, s), q) == if q == 8 + j / 2 then Bit(m, j) else 0 {
      BitShl(a, s, q);
      if q >= s {
        MaskBit(m, j, q - s);
      }
    }
    forall q: nat | q >= 12 ensures Bit(Shl(a, s), q) == 0 {
    }
    BitsBound(Shl(a, s), 12);
  }

  lemma CtabTermBits(m: int, j: nat, p: nat)
    requires 0 <= m < 256 && 1 <= j < 8
    ensures 0 <= CtabTerm(m, j) < Pow2(12)
    ensures Bit(CtabTerm(m, j), p) ==
      if (j % 2 == 0 && p == j / 2) || (j % 2 == 1 && p == 8 + j / 2) then Bit(m, j) else 0
  {
    Pow2Below31(j);
    JsAndSmall(m, Pow2(j));
    if j % 2 == 0 {
      CtabTermEven(m, j, p);
    } else {
      CtabTermOdd(m, j, p);
    }
  }

  lemma CtabTermEven(m: int, j: nat, p: nat)
    requires 0 <= m < 256 && 1 <= j < 8 && j % 2 == 0
    requires JsAnd(m, Pow2(j)) == And(m, Pow2(j))
    ensures 0 <= CtabTerm(m, j) < Pow2(12)
    ensures Bit(CtabTerm(m, j), p) == if p == j / 2 then Bit(m, j) else 0
  {
    Pow2Below31(j);
    Pow2Below31(12);
    CtabShrBits(m, j, p);
    JsSarSmall(And(m, Pow2(j)), j / 2);
  }

  lemma CtabTermOdd(m: int, j: nat, p: nat)
    requires 0 <= m < 256 && 1 <= j < 8 && j % 2 == 1
    requires JsAnd(m, Pow2(j)) == And(m, Pow2(j))
    ensures 0 <= CtabTerm(m, j) < Pow2(12)
    ensures Bit(CtabTerm(m, j), p) == if p == 8 + j / 2 then Bit(m, j) else 0
  {
    Pow2Below31(j);
    Pow2Below31(12);
    CtabShlBits(m, j, p);
    JsShlExact(And(m, Pow2(j)), 7 - j / 2);
  }

  lemma {:induction false} CtabFoldBound(m: int, j: nat)
    requires 0 <= m < 256 && j < 8
    ensures 0 <= CtabFold(m, j) < Pow2(12)
  {
    Pow2Below31(12);
    if j == 0 {
      AndOneBits(m, 0);
      Pow2Mono(1, 12);
      assert Pow2(1) == 2;
    } else {
      CtabFoldBound(m, j - 1);
      CtabTermBits(m, j, 0);
      var a, t := CtabFold(m, j - 1), CtabTerm(m, j);
      JsOrSmall(a, t);
      OrBound(a, t, 12);
    }
  }

  lemma {:induction false} CtabFoldBits(m: int, j: nat, p: nat)
    requires 0 <= m < 256 && j < 8
    ensures 0 <= CtabFold(m, j) && Bit(CtabFold(m, j), p) == CtabBit(m, j, p)
  {
    CtabFoldBound(m, j);
    if j == 0 {
      AndOneBits(m, p);
    } else {
      CtabFoldBits(m, j - 1, p);
      CtabFoldBound(m, j - 1);
      CtabTermBits(m, j, p);
      Pow2Below31(12);
      var a, t := CtabFold(m, j - 1), CtabTerm(m, j);
      JsOrSmall(a, t);
      BitOr(a, t, p);
      CtabBitStep(m, j, p);
    }
  }

  /** Adding term j to the fold adds bit j of m at its place. */
  lemma CtabBitStep(m: nat, j: nat, p: nat)
    requires 1 <= j < 8
    ensures CtabBit(m, j, p) ==
      var t := if (j % 2 == 0 && p == j / 2) || (j % 2 == 1 && p == 8 + j / 2) then Bit(m, j) else 0;
      if CtabBit(m, j - 1, p) == 1 || t == 1 then 1 else 0
  {
    if p < 4 {
      assert 2 * p == j <==> (j % 2 == 0 && p == j / 2);
    } else if 8 <= p < 12 {
      assert 2 * (p - 8) + 1 == j <==> (j % 2 == 1 && p == 8 + j / 2);
    }
  }

  /** `ctab[m]` moves the even bits of the byte m to bits 0..3 and its odd bits to bits 8..11. */
  lemma CtabBits(m: int, p: nat)
    requires 0 <= m < 256
    ensures 0 <= CtabEntry(m) < Pow2(12)
    ensures Bit(CtabEntry(m), p) ==
      if p < 4 then Bit(m, 2 * p)
      else if 8 <= p < 12 then Bit(m, 2 * (p - 8) + 1)
      else 0
  {
    CtabFoldBound(m, 7);
    CtabFoldBits(m, 7, p);
  }

  /** `ctab[m]`: the gathered even bits of m plus 256 times its gathered odd bits. */
  lemma CtabGathers(m: int)
    requires 0 <= m < 256
    ensures CtabEntry(m) == CtabValue(m)
  {
    CtabBits(m, 0);
    forall p: nat ensures Bit(CtabEntry(m), p) == Bit(CtabValue(m), p) {
      CtabBits(m, p);
      CtabValueBits(m, p);
    }
    BitsEqual(CtabEntry(m), CtabValue(m));
  }

  lemma CtabInterleaveBit(a: nat, b: nat, p: nat)
    requires a < 16 && b < 16 && HealpixBigBackup.Interleave(a, b, 4) < 256
    ensures 0 <= CtabEntry(HealpixBigBackup.Interleave(a, b, 4))
    ensures Bit(CtabEntry(HealpixBigBackup.Interleave(a, b, 4)), p) == Bit(a + 256 * b, p)
  {
    var m := HealpixBigBackup.Interleave(a, b, 4);
    assert Pow2(4) == 16;
    CtabBits(m, p);
    AddShiftedBits(a, b, p);
    if p < 4 {
      InterleaveEvenBit(a, b, 4, p);
    } else if 8 <= p < 12 {
      InterleaveOddBit(a, b, 4, p - 8);
    } else if p < 8 {
      BitAbove(a, 4, p);
    } else {
      BitAbove(b, 4, p - 8);
    }
  }

  lemma InterleaveEvenBit(x: nat, y: nat, n: nat, p: nat)
    requires p < n
    ensures Bit(HealpixBigBackup.Interleave(x, y, n), 2 * p) == Bit(x, p)
  {
    HealpixBigBackup.InterleaveBits(x, y, n, 2 * p);
    assert (2 * p) / 2 == p && (2 * p) % 2 == 0;
  }

  lemma InterleaveOddBit(x: nat, y: nat, n: nat, p: nat)
    requires p < n
    ensures Bit(HealpixBigBackup.Interleave(x, y, n), 2 * p + 1) == Bit(y, p)
  {
    HealpixBigBackup.InterleaveBits(x, y, n, 2 * p + 1);
    assert (2 * p + 1) / 2 == p && (2 * p + 1) % 2 == 1;
  }

  /** A nibble's `utab` entry is its interleaving with a zero nibble. */
  lemma UtabNibble(a: nat)
    requires a < 16
    ensures UtabEntry(a) == HealpixBigBackup.Interleave(a, 0, 4)
  {
    UtabSpreads(a);
    assert Pow2(4) == 16;
    forall i: nat ensures Bit(Spread(a, 8), i) == Bit(HealpixBigBackup.Interleave(a, 0, 4), i) {
      BitSpread(a, 8, i);
      HealpixBigBackup.InterleaveBits(a, 0, 4, i);
      if i / 2 >= 4 { BitAbove(a, 4, i / 2); }
      if i % 2 == 1 { BitZero(i / 2); }
    }
    BitsEqual(Spread(a, 8), HealpixBigBackup.Interleave(a, 0, 4));
  }

  /** `ctab` undoes `utab`: the byte built from a nibble a (even bits) and a nibble b (odd bits)
      comes back as a in bits 0..3 and b in bits 8..11. */
  lemma CtabCompacts(a: nat, b: nat)
    requires a < 16 && b < 16
    ensures HealpixBigBackup.Interleave(a, b, 4) < 256
    ensures CtabEntry(HealpixBigBackup.Interleave(a, b, 4)) == a + 256 * b
  {
    Pow2Values();
    assert Pow2(4) == 16;
    HealpixBigBackup.InterleaveBound(a, b, 4);
    var m := HealpixBigBackup.Interleave(a, b, 4);
    CtabBits(m, 0);
    forall p: nat ensures Bit(CtabEntry(m), p) == Bit(a + 256 * b, p) {
      CtabInterleaveBit(a, b, p);
    }
    BitsEqual(CtabEntry(m), a + 256 * b);
  }

  /** `ctab` undoes `utab` on a nibble. */
  lemma CtabUndoesUtab(a: nat)
    requires a < 16
    ensures CtabEntry(UtabEntry(a)) == a
  {
    CtabCompacts(a, 0);
    UtabNibble(a);
  }

  /** A nibble and a multiple of 256 share no bit, so their sum is their or. */
  lemma AddShiftedOr(a: nat, b: nat)
    requires a < 16
    ensures a + 256 * b == Or(a, Shl(b, 8))
  {
    assert Pow2(8) == 256 && Pow2(4) == 16;
    ShlIsMul(b, 8);
    forall i: nat ensures Bit(a, i) == 0 || Bit(Shl(b, 8), i) == 0 {
      BitShl(b, 8, i);
      if i >= 8 {
        BitAbove(a, 4, i);
      }
    }
    AddDisjoint(a, Shl(b, 8));
  }

  /** The bits of a + 256 * b for a nibble a: a below bit 8, b from bit 8. */
  lemma AddShiftedBits(a: nat, b: nat, p: nat)
    requires a < 16
    ensures Bit(a + 256 * b, p) == if p < 8 then Bit(a, p) else Bit(b, p - 8)
  {
    AddShiftedOr(a, b);
    BitOr(a, Shl(b, 8), p);
    BitShl(b, 8, p);
    if p >= 8 {
      assert Pow2(4) == 16;
      BitAbove(a, 4, p);
    }
  }

  // ---------------------------------------------------------------------------
  // Powers of two: nside2order and nside2Npix

  predicate IsPow2(n: nat)
  {
    n == 1 || (n > 1 && n % 2 == 0 && IsPow2(n / 2))
  }

  /** The integral part of log2(n). */
  function Log2Floor(n: nat): nat
    requires n >= 1
  {
    if n == 1 then 0 else 1 + Log2Floor(n / 2)
  }

  /** The lowest set bit of n. */
  function LowBit(n: nat): nat
    requires n >= 1
  {
    if n % 2 == 1 then 1 else 2 * LowBit(n / 2)
  }

  lemma {:induction false} Pow2IsPow2(k: nat)
    ensures IsPow2(Pow2(k)) && Log2Floor(Pow2(k)) == k
  {
    if k > 0 {
      Pow2IsPow2(k - 1);
      assert Pow2(k) / 2 == Pow2(k - 1);
    }
  }

  lemma {:induction false} IsPow2Log(n: nat)
    requires n >= 1 && IsPow2(n)
    ensures n == Pow2(Log2Floor(n))
  {
    if n > 1 {
      IsPow2Log(n / 2);
    }
  }

  lemma {:induction false} Log2FloorBelow(n: nat, m: nat)
    requires 1 <= n < Pow2(m)
    ensures Log2Floor(n) < m
  {
    if n > 1 {
      Log2FloorBelow(n / 2, m - 1);
    }
  }

  lemma {:induction false} AndSelf(a: nat)
    ensures And(a, a) == a
    decreases a
  {
    if a > 0 {
      AndSelf(a / 2);
    }
  }

  /** `n & (n - 1)` clears the lowest set bit: it is zero exactly for a power of two. */
  lemma {:induction false} AndPred(n: nat)
    requires n >= 1
    ensures And(n, n - 1) == 0 <==> IsPow2(n)
    decreases n
  {
    if n > 1 {
      if n % 2 == 0 {
        assert (n - 1) / 2 == n / 2 - 1;
        AndPred(n / 2);
      } else {
        assert (n - 1) / 2 == n / 2;
        AndSelf(n / 2);
      }
    }
  }

  /** The complement of x within w bits shares no bit with x. */
  lemma {:induction false} AndComplement(x: nat, w: nat)
    requires x < Pow2(w)
    ensures And(x, Pow2(w) - 1 - x) == 0
    decreases w
  {
    if w > 0 && x > 0 && Pow2(w) - 1 - x > 0 {
      assert (Pow2(w) - 1 - x) / 2 == Pow2(w - 1) - 1 - x / 2;
      AndComplement(x / 2, w - 1);
    }
  }

  /** `n & (2^w - n)`, the and with the two's complement of n, is the lowest set bit of n. */
  lemma {:induction false} AndNegate(n: nat, w: nat)
    requires 1 <= n < Pow2(w)
    ensures And(n, Pow2(w) - n) == LowBit(n)
    decreases w
  {
    var c := Pow2(w) - n;
    if n % 2 == 1 {
      assert c / 2 == Pow2(w - 1) - 1 - n / 2;
      AndComplement(n / 2, w - 1);
    } else {
      assert c / 2 == Pow2(w - 1) - n / 2;
      AndNegate(n / 2, w - 1);
    }
  }

  lemma {:induction false} LowBitIsSelf(n: nat)
    requires n >= 1
    ensures LowBit(n) == n <==> IsPow2(n)
    decreases n
  {
    if n % 2 == 0 {
      LowBitIsSelf(n / 2);
    } else if n > 1 {
      assert LowBit(n) == 1;
    }
  }

  /** `nside2order(nside)`: -1 when `nside & (nside - 1)` is positive, otherwise the integral
      part of log2(nside); None stands for the NaN or -Infinity that log2 gives for nside <= 0. */
  function Nside2Order(nside: int): Option<int>
  {
    if JsAnd(nside, nside - 1) > 0 then Some(-1)
    else if nside <= 0 then None
    else var o: int := Log2Floor(nside); Some(o)
  }

  /** On a positive int32, nside2order is the exponent of a power of two and -1 otherwise. */
  lemma Nside2OrderSpec(nside: int)
    requires 0 < nside < TWO31
    ensures IsPow2(nside) ==> Nside2Order(nside) == Some(Log2Floor(nside))
    ensures !IsPow2(nside) ==> Nside2Order(nside) == Some(-1)
  {
    JsAndSmall(nside, nside - 1);
    AndPred(nside);
  }

  lemma Nside2OrderPow2(k: nat)
    requires k < 31
    ensures Nside2Order(Pow2(k)) == Some(k)
  {
    Pow2Below31(k);
    Pow2IsPow2(k);
    Nside2OrderSpec(Pow2(k));
  }

  lemma Nside2OrderZero()
    ensures Nside2Order(0) == None
  {
  }

  const NSIDE_ERROR: string := "nside should be >0, power of 2, <16384"

  /** `nside2Npix(nside)`: throws unless `nside & -nside` (its lowest set bit) is nside itself
      and 0 <= nside <= NS_MAX; otherwise 12 nside^2. */
  function Nside2Npix(nside: int): Result<int, string>
  {
    if nside < 0 || JsAnd(nside, -nside) != nside || nside > NS_MAX then Err(NSIDE_ERROR)
    else Ok(12 * nside * nside)
  }

  /** nside2Npix accepts exactly 0 and the powers of two up to NS_MAX. */
  lemma Nside2NpixSpec(nside: int)
    ensures Nside2Npix(nside).Ok? <==> nside == 0 || (nside > 0 && IsPow2(nside) && nside <= NS_MAX)
    ensures Nside2Npix(nside).Ok? ==> Nside2Npix(nside).value == 12 * nside * nside
  {
    if 0 < nside <= NS_MAX {
      LowestSetBit(nside);
      LowBitIsSelf(nside);
    }
  }

  lemma AndNegateWord(n: nat)
    requires 1 <= n < TWO32
    ensures And(n, TWO32 - n) == LowBit(n)
  {
    Pow2Values();
    AndNegate(n, 32);
  }

  /** `n & -n` on a positive n up to NS_MAX is its lowest set bit. */
  lemma LowestSetBit(n: int)
    requires 0 < n <= NS_MAX
    ensures JsAnd(n, -n) == LowBit(n)
  {
    var m := TWO32 - n;
    DivModUnique(-n, TWO32, -1, m);
    assert ToUint32(-n) == m;
    Int32Small(n);
    AndNegateWord(n);
    var a := And(n, m);
    AndLe(n, m);
    Int32Small(a);
    assert JsAnd(n, -n) == a;
  }

  /** nside2Npix(0) returns 0 although its message asks for nside > 0. */
  lemma Nside2NpixZero()
    ensures Nside2Npix(0) == Ok(0)
  {
  }

  /** nside2Npix with the check its message states: nside > 0. */
  function Nside2NpixChecked(nside: int): Result<int, string>
  {
    if nside <= 0 || JsAnd(nside, -nside) != nside || nside > NS_MAX then Err(NSIDE_ERROR)
    else Ok(12 * nside * nside)
  }

  /** The checked version accepts exactly the powers of two 2^0 .. 2^14. */
  lemma Nside2NpixCheckedSpec(nside: int)
    ensures Nside2NpixChecked(nside).Ok? <==> exists k: nat | k <= 14 :: nside == Pow2(k)
    ensures Nside2NpixChecked(nside).Ok? ==> Nside2NpixChecked(nside).value == 12 * nside * nside
  {
    Nside2NpixSpec(nside);
    if Nside2NpixChecked(nside).Ok? {
      IsPow2Log(nside);
      Pow2Values();
      Log2FloorBelow(nside, 15);
    }
    if exists k: nat | k <= 14 :: nside == Pow2(k) {
      var k: nat :| k <= 14 && nside == Pow2(k);
      Pow2IsPow2(k);
      Pow2Mono(k, 14);
      Pow2Values();
      assert Pow2(14) == NS_MAX;
    }
  }

  // ---------------------------------------------------------------------------
  // Nested index of a face-local pair

  /** `v & 0xff`. */
  function Byte(v: int): (r: int)
    ensures 0 <= r < 256
  {
    JsAndMask(v, 255);
    JsAnd(v, 0xff)
  }

  /** The shift count `2 * this.order`; an order that is NaN or -Infinity shifts by 0. */
  function ShiftCount(order: Option<int>): int
  {
    match order
    case None => 0
    case Some(o) => 2 * o
  }

  /** The `raw` expression of nest2xyf: the even bits 0..14 of pix stay in place and its even
      bits 16..30 move to the odd bits 1..15 (the two masks above bit 31 clear everything). */
  function CompactEven(pix: int): int
  {
    JsOr(JsOr(JsOr(JsSar(JsAnd(pix, 0x5555_0000_0000), 16),
                   JsSar(JsAnd(pix, 0x5555_0000_0000_0000), 31)),
              JsAnd(pix, 0x5555)),
         JsSar(JsAnd(pix, 0x5555_0000), 15))
  }

  /** 0x5555 has the even bits 0..14 set. */
  lemma LowMaskBit(i: nat)
    ensures Bit(0x5555, i) == if i < 16 && i % 2 == 0 then 1 else 0
  {
    assert Spread(1, 1) == 1;
    assert Spread(3, 2) == 5;
    assert Spread(7, 3) == 21;
    assert Spread(15, 4) == 85;
    assert Spread(31, 5) == 341;
    assert Spread(63, 6) == 1365;
    assert Spread(127, 7) == 5461;
    assert Pow2(8) - 1 == 255;
    BitSpread(255, 8, i);
    BitLowMask(8, i / 2);
  }

  /** 0x55550000 has the even bits 16..30 set. */
  lemma HighMaskBit(i: nat)
    ensures Bit(0x5555_0000, i) == if 16 <= i < 32 && i % 2 == 0 then 1 else 0
  {
    assert Pow2(16) == 0x1_0000 by { Pow2Values(); }
    ShlIsMul(0x5555, 16);
    BitShl(0x5555, 16, i);
    if i >= 16 {
      LowMaskBit(i - 16);
    }
  }

  /** The `raw` value of nest2xyf for an in-face index below 2^31, over the naturals. */
  function Raw(pix: nat): nat
  {
    Or(And(pix, 0x5555), Shr(And(pix, 0x5555_0000), 15))
  }

  lemma RawLowBit(pix: nat, i: nat)
    ensures Bit(And(pix, 0x5555), i) == if i < 16 && i % 2 == 0 then Bit(pix, i) else 0
  {
    BitAnd(pix, 0x5555, i);
    LowMaskBit(i);
  }

  lemma RawHighBit(pix: nat, i: nat)
    ensures Bit(Shr(And(pix, 0x5555_0000), 15), i) == if i < 16 && i % 2 == 1 then Bit(pix, i + 15) else 0
  {
    var k := i + 15;
    var a := And(pix, 0x5555_0000);
    BitShr(a, 15, i);
    BitAnd(pix, 0x5555_0000, k);
    HighMaskBit(k);
    if i < 16 && i % 2 == 1 {
      assert Bit(0x5555_0000, k) == 1;
    } else {
      assert Bit(0x5555_0000, k) == 0;
    }
  }

  /** Bit i < 16 of raw: bit i of pix when i is even, bit i + 15 when it is odd. */
  lemma RawBits(pix: nat, i: nat)
    requires pix < Pow2(31)
    ensures Bit(Raw(pix), i) == if i >= 16 then 0 else if i % 2 == 0 then Bit(pix, i) else Bit(pix, i + 15)
  {
    BitOr(And(pix, 0x5555), Shr(And(pix, 0x5555_0000), 15), i);
    RawLowBit(pix, i);
    RawHighBit(pix, i);
  }

  lemma RawBound(pix: nat)
    requires pix < Pow2(31)
    ensures Raw(pix) < Pow2(16)
  {
    forall i: nat | i >= 16 ensures Bit(Raw(pix), i) == 0 {
      RawBits(pix, i);
    }
    BitsBound(Raw(pix), 16);
  }

  /** For an in-face index below 2^31 the two masks above bit 31 clear everything and `raw` is
      the natural Raw(pix). */
  lemma CompactEvenValue(pix: int)
    requires 0 <= pix < TWO31
    ensures CompactEven(pix) == Raw(pix)
  {
    Pow2Values();
    JsAndHighMask(pix, 0x5555_0000_0000);
    JsAndHighMask(pix, 0x5555_0000_0000_0000);
    JsOrSmall(0, 0);
    JsAndSmall(pix, 0x5555);
    JsAndSmall(pix, 0x5555_0000);
    var hi := And(pix, 0x5555_0000);
    JsSarSmall(hi, 15);
    ShrLe(hi, 15);
    JsOrSmall(0, And(pix, 0x5555));
    JsOrSmall(And(pix, 0x5555), Shr(hi, 15));
  }

  /** The content `init` gives `ctab[m]`: the even bits of m gathered to bits 0..3 and its odd
      bits to bits 8..11. */
  function CtabValue(m: nat): nat
  {
    Gather(m, 4) + 256 * Gather(m / 2, 4)
  }

  lemma CtabValueBits(m: nat, p: nat)
    ensures CtabValue(m) < 0x1000
    ensures Bit(CtabValue(m), p) ==
      if p < 4 then Bit(m, 2 * p) else if 8 <= p < 12 then Bit(m, 2 * (p - 8) + 1) else 0
  {
    var lo, hi := Gather(m, 4), Gather(m / 2, 4);
    assert CtabValue(m) == lo + 256 * hi;
    assert Pow2(4) == 16;
    GatherBound(m, 4);
    GatherBound(m / 2, 4);
    AddShiftedBits(lo, hi, p);
    if p < 8 {
      BitGather(m, 4, p);
    } else {
      CtabOddBit(m, p - 8);
    }
  }

  lemma CtabOddBit(m: nat, p: nat)
    ensures Bit(Gather(m / 2, 4), p) == if p < 4 then Bit(m, 2 * p + 1) else 0
  {
    BitGather(m / 2, 4, p);
    var j := 2 * p;
    assert Bit(m, j + 1) == Bit(m / 2, j);
  }

  /** The two `ctab` terms of nest2xyf that a 16-bit raw value reaches, over the naturals. */
  function CtabPair(raw: nat): nat
  {
    Or(CtabValue(raw % 256), Shl(CtabValue(Shr(raw, 8) % 256), 4))
  }

  lemma CtabLowBits(raw: nat, p: nat)
    ensures Bit(CtabValue(raw % 256), p) ==
      if p < 4 then Bit(raw, 2 * p) else if 8 <= p < 12 then Bit(raw, 2 * p - 15) else 0
  {
    assert Pow2(8) == 256;
    CtabValueBits(raw % 256, p);
    BitMod(raw, 8, 2 * p);
    if 8 <= p {
      BitMod(raw, 8, 2 * (p - 8) + 1);
    }
  }

  lemma CtabHighBits(raw: nat, p: nat)
    ensures Bit(Shl(CtabValue(Shr(raw, 8) % 256), 4), p) ==
      if 4 <= p < 8 then Bit(raw, 2 * p) else if 12 <= p < 16 then Bit(raw, 2 * p - 15) else 0
  {
    var m := Shr(raw, 8) % 256;
    BitShl(CtabValue(m), 4, p);
    if p >= 4 {
      assert Pow2(8) == 256;
      CtabValueBits(m, p - 4);
      BitMod(Shr(raw, 8), 8, 2 * (p - 4));
      BitShr(raw, 8, 2 * (p - 4));
      if 12 <= p {
        BitMod(Shr(raw, 8), 8, 2 * (p - 12) + 1);
        BitShr(raw, 8, 2 * (p - 12) + 1);
      }
    }
  }

  lemma CtabPairBits(raw: nat, p: nat)
    ensures Bit(CtabPair(raw), p) ==
      if p < 8 then Bit(raw, 2 * p) else if p < 16 then Bit(raw, 2 * p - 15) else 0
  {
    CtabLowBits(raw, p);
    CtabHighBits(raw, p);
    BitOr(CtabValue(raw % 256), Shl(CtabValue(Shr(raw, 8) % 256), 4), p);
  }

  lemma CompactBit(pix: nat, p: nat)
    requires pix < Pow2(31)
    ensures Bit(CtabPair(Raw(pix)), p) == Bit(Gather(pix, 16), p)
  {
    if p < 8 {
      var i := 2 * p;
      assert i < 16 && i % 2 == 0;
      RawBits(pix, i);
    } else if p < 16 {
      var i := 2 * (p - 8) + 1;
      assert i < 16 && i % 2 == 1 && i + 15 == 2 * p;
      RawBits(pix, i);
    }
    CtabPairBits(Raw(pix), p);
    BitGather(pix, 16, p);
  }

  /** Raw and the two `ctab` lookups together collect the even bits of pix. */
  lemma CompactGathers(pix: nat)
    requires pix < Pow2(31)
    ensures CtabPair(Raw(pix)) == Gather(pix, 16)
  {
    forall p: nat ensures Bit(CtabPair(Raw(pix)), p) == Bit(Gather(pix, 16), p) {
      CompactBit(pix, p);
    }
    BitsEqual(CtabPair(Raw(pix)), Gather(pix, 16));
  }

  lemma GatherEvenBit(x: nat, y: nat, o: nat, p: nat)
    requires x < Pow2(o)
    requires o <= 16
    ensures Bit(Gather(HealpixBigBackup.Interleave(x, y, o), 16), p) == Bit(x, p)
  {
    var m := HealpixBigBackup.Interleave(x, y, o);
    BitGather(m, 16, p);
    if p >= o {
      BitAbove(x, o, p);
    }
    if p < 16 {
      var j := 2 * p;
      assert j % 2 == 0 && j / 2 == p;
      HealpixBigBackup.InterleaveBits(x, y, o, j);
    }
  }

  lemma GatherOddBit(x: nat, y: nat, o: nat, p: nat)
    requires o <= 16 && y < Pow2(o)
    ensures Bit(Gather(Shr(HealpixBigBackup.Interleave(x, y, o), 1), 16), p) == Bit(y, p)
  {
    var m := HealpixBigBackup.Interleave(x, y, o);
    BitGather(Shr(m, 1), 16, p);
    if p >= o {
      BitAbove(y, o, p);
    }
    if p < 16 {
      var j := 2 * p + 1;
      BitShr(m, 1, 2 * p);
      assert j % 2 == 1 && j / 2 == p;
      HealpixBigBackup.InterleaveBits(x, y, o, j);
    }
  }

  /** Gathering the even bits of an interleaving recovers x, the odd bits y. */
  lemma GatherInterleave(x: nat, y: nat, o: nat)
    requires o <= 16 && x < Pow2(o) && y < Pow2(o)
    ensures Gather(HealpixBigBackup.Interleave(x, y, o), 16) == x
    ensures Gather(Shr(HealpixBigBackup.Interleave(x, y, o), 1), 16) == y
  {
    var m := HealpixBigBackup.Interleave(x, y, o);
    forall p: nat ensures Bit(Gather(m, 16), p) == Bit(x, p) {
      GatherEvenBit(x, y, o, p);
    }
    BitsEqual(Gather(m, 16), x);
    forall p: nat ensures Bit(Gather(Shr(m, 1), 16), p) == Bit(y, p) {
      GatherOddBit(x, y, o, p);
    }
    BitsEqual(Gather(Shr(m, 1), 16), y);
  }

  lemma GatherBelowBit(pix: nat, o: nat, p: nat)
    requires pix < Pow2(2 * o) && p >= o
    ensures Bit(Gather(pix, 16), p) == 0 && Bit(Gather(Shr(pix, 1), 16), p) == 0
  {
    var j := 2 * p;
    assert j >= 2 * o;
    BitAbove(pix, 2 * o, j);
    BitAbove(pix, 2 * o, j + 1);
    BitGather(pix, 16, p);
    BitGather(Shr(pix, 1), 16, p);
    BitShr(pix, 1, j);
  }

  /** The even bits of an index below 4^o form a coordinate below 2^o, and so do its odd bits. */
  lemma GatherBelow(pix: nat, o: nat)
    requires pix < Pow2(2 * o)
    ensures Gather(pix, 16) < Pow2(o) && Gather(Shr(pix, 1), 16) < Pow2(o)
  {
    forall p: nat | p >= o ensures Bit(Gather(pix, 16), p) == 0 {
      GatherBelowBit(pix, o, p);
    }
    forall p: nat | p >= o ensures Bit(Gather(Shr(pix, 1), 16), p) == 0 {
      GatherBelowBit(pix, o, p);
    }
    BitsBound(Gather(pix, 16), o);
    BitsBound(Gather(Shr(pix, 1), 16), o);
  }

  lemma InterleaveGatherBit(pix: nat, o: nat, j: nat)
    requires o <= 14 && pix < Pow2(2 * o)
    ensures Bit(HealpixBigBackup.Interleave(Gather(pix, 16), Gather(Shr(pix, 1), 16), o), j) == Bit(pix, j)
  {
    var x, y := Gather(pix, 16), Gather(Shr(pix, 1), 16);
    var k := j / 2;
    assert j == 2 * k + j % 2;
    if j >= 2 * o {
      BitAbove(pix, 2 * o, j);
    } else if j % 2 == 0 {
      BitGather(pix, 16, k);
    } else {
      BitGather(Shr(pix, 1), 16, k);
      BitShr(pix, 1, 2 * k);
    }
    HealpixBigBackup.InterleaveBits(x, y, o, j);
  }

  /** Interleaving the even and odd bits of an index below 4^o gives the index back. */
  lemma InterleaveGather(pix: nat, o: nat)
    requires o <= 14 && pix < Pow2(2 * o)
    ensures HealpixBigBackup.Interleave(Gather(pix, 16), Gather(Shr(pix, 1), 16), o) == pix
  {
    forall j: nat ensures Bit(HealpixBigBackup.Interleave(Gather(pix, 16), Gather(Shr(pix, 1), 16), o), j) == Bit(pix, j) {
      InterleaveGatherBit(pix, o, j);
    }
    BitsEqual(HealpixBigBackup.Interleave(Gather(pix, 16), Gather(Shr(pix, 1), 16), o), pix);
  }

  /** `ipix >> k` and `ipix & (2^k - 1)` on a non-negative int32 index: quotient and remainder. */
  lemma IndexSplit(ipix: int, k: nat)
    requires 0 <= ipix < TWO31 && k < 31
    ensures JsSar(ipix, k) == ipix / Pow2(k)
    ensures JsAnd(ipix, Pow2(k) - 1) == ipix % Pow2(k) < TWO31
  {
    IndexQuotient(ipix, k);
    IndexRemainder(ipix, k);
  }

  lemma IndexQuotient(ipix: int, k: nat)
    requires 0 <= ipix < TWO31 && k < 31
    ensures JsSar(ipix, k) == ipix / Pow2(k)
  {
    JsSarSmall(ipix, k);
    ShrIsDiv(ipix, k);
  }

  lemma IndexRemainder(ipix: int, k: nat)
    requires 0 <= ipix < TWO31 && k < 31
    ensures JsAnd(ipix, Pow2(k) - 1) == ipix % Pow2(k) < TWO31
  {
    Pow2Below31(k);
    JsAndMask(ipix, Pow2(k) - 1);
    Int32Small(ipix);
    AndLowMask(ipix, k);
  }

  /** `face << k` is exact while face * 2^k stays below 2^31. */
  lemma FaceShift(face: int, k: nat)
    requires 0 <= face && k < 32 && face * Pow2(k) < TWO31
    ensures JsShl(face, k) == face * Pow2(k)
  {
    assert face <= face * Pow2(k) by {
      MulAtLeast(Pow2(k), face);
      assert Pow2(k) * face == face * Pow2(k);
    }
    ShlIsMul(face, k);
    JsShlExact(face, k);
  }

  /** An index `face * p + k` with `k < p` and `(face + 1) * p <= 2^31` is a non-negative int32
      whose quotient by p is the face and whose remainder is k. */
  lemma FaceSplit(ipix: int, face: int, p: int, k: int)
    requires 0 <= face && 0 <= k < p && (face + 1) * p <= TWO31 && ipix == face * p + k
    ensures 0 <= ipix < TWO31 && ipix / p == face && ipix % p == k
  {
    assert (face + 1) * p == face * p + p;
    assert 0 <= face * p by { MulAtLeast(p, face); assert p * face == face * p; }
    DivModUnique(ipix, p, face, k);
  }

  /** The first index of a face whose last index stays below 2^31 is below 2^31 too. */
  lemma FaceBelow(face: int, p: int)
    requires 0 <= face && 0 < p && (face + 1) * p <= TWO31
    ensures face * p < TWO31
  {
    assert (face + 1) * p == face * p + p;
  }

  datatype Xyf = Xyf(ix: int, iy: int, face: int)

  /** Byte q of a coordinate v below 2^14 spread to the even bits and moved to bit 16q + c: the
      value of the xyf2nest term `utab[(v >> 8q) & 0xff] << (16q + c)`. */
  function TermValue(v: nat, q: nat, c: nat): nat
  {
    Shl(Spread(Shr(v, 8 * q) % 256, 8), 16 * q + c)
  }

  /** The low byte of a non-negative int32. */
  lemma ByteOf(w: int)
    requires 0 <= w < TWO31
    ensures Byte(w) == w % 256
  {
    Int32Small(w);
    JsAndMask(w, 255);
    assert Pow2(8) == 256;
    AndLowMask(w, 8);
  }

  /** Shifting a coordinate below 2^14 right by 8q keeps it below 2^14, and leaves 0 from q = 2. */
  lemma ShrCoordinate(v: nat, q: nat)
    requires v < Pow2(14)
    ensures Shr(v, 8 * q) <= v
    ensures q >= 2 ==> Shr(v, 8 * q) == 0
  {
    ShrLe(v, 8 * q);
    if q >= 2 {
      ShrBelow(v, 14, 8 * q);
    }
  }

  lemma ByteLookup(v: int, q: nat)
    requires 0 <= v < Pow2(14) && q < 4
    ensures 0 <= Byte(JsSar(v, 8 * q)) == Shr(v, 8 * q) % 256
    ensures q >= 2 ==> Shr(v, 8 * q) == 0
  {
    Pow2Mono(14, 31);
    Pow2Values();
    JsSarSmall(v, 8 * q);
    ShrCoordinate(v, q);
    ByteOf(Shr(v, 8 * q));
  }

  lemma ShlZero(s: nat)
    ensures Shl(0, s) == 0
  {
    ShlIsMul(0, s);
  }

  /** Byte b/8 of v spread and moved to bit 2b + c covers the bits 2b .. 2b+15 of parity c. */
  lemma WindowBit(v: nat, b: nat, c: nat, j: nat)
    requires c <= 1
    ensures Bit(Shl(Spread(Shr(v, b) % 256, 8), 2 * b + c), j)
         == if j % 2 == c && 2 * b <= j < 2 * b + 16 then Bit(v, j / 2) else 0
  {
    var s := 2 * b + c;
    BitShl(Spread(Shr(v, b) % 256, 8), s, j);
    if j < s {
      WindowBefore(b, c, j);
    } else if j - s < 16 && (j - s) % 2 == 0 {
      WindowBitIn(v, b, c, j);
    } else {
      WindowBitOut(v, b, j - s);
      WindowAfter(b, c, j);
    }
  }

  lemma WindowBefore(b: nat, c: nat, j: nat)
    requires c <= 1 && j < 2 * b + c
    ensures !(j % 2 == c && 2 * b <= j)
  {
  }

  lemma WindowAfter(b: nat, c: nat, j: nat)
    requires c <= 1 && 2 * b + c <= j && !(j - (2 * b + c) < 16 && (j - (2 * b + c)) % 2 == 0)
    ensures !(j % 2 == c && j < 2 * b + 16)
  {
  }

  lemma WindowBitIn(v: nat, b: nat, c: nat, j: nat)
    requires c <= 1 && 2 * b + c <= j && j - (2 * b + c) < 16 && (j - (2 * b + c)) % 2 == 0
    ensures j % 2 == c && 2 * b <= j < 2 * b + 16
    ensures Bit(Spread(Shr(v, b) % 256, 8), j - (2 * b + c)) == Bit(v, j / 2)
  {
    var d := j - (2 * b + c);
    var k := d / 2;
    assert j / 2 == b + k && k < 8;
    BitSpread(Shr(v, b) % 256, 8, d);
    ByteBit(v, b, k);
  }

  /** Bit k < 8 of `(v >> b) % 256` is bit b + k of v. */
  lemma ByteBit(v: nat, b: nat, k: nat)
    requires k < 8
    ensures Bit(Shr(v, b) % 256, k) == Bit(v, b + k)
  {
    assert Pow2(8) == 256 by { Pow2Values(); }
    BitMod(Shr(v, b), 8, k);
    BitShr(v, b, k);
  }

  lemma WindowBitOut(v: nat, b: nat, d: nat)
    requires !(d < 16 && d % 2 == 0)
    ensures Bit(Spread(Shr(v, b) % 256, 8), d) == 0
  {
    BitSpread(Shr(v, b) % 256, 8, d);
  }

  /** Term (q, c) holds bit j/2 of v at every bit j with j % 2 == c in the 16-bit window q. */
  lemma TermBits(v: nat, q: nat, c: nat, j: nat)
    requires c <= 1
    ensures Bit(TermValue(v, q, c), j) == if j % 2 == c && j / 16 == q then Bit(v, j / 2) else 0
  {
    WindowBit(v, 8 * q, c, j);
  }

  lemma TermBound(v: nat, q: nat, c: nat)
    requires v < Pow2(14) && q < 4 && c <= 1
    ensures TermValue(v, q, c) < Pow2(29)
    ensures Shl(Spread(Shr(v, 8 * q) % 256, 8), 16 * q + c) < Pow2(29)
  {
    forall j: nat | j >= 29 ensures Bit(TermValue(v, q, c), j) == 0 {
      TermBits(v, q, c, j);
      BitAbove(v, 14, j / 2);
    }
    BitsBound(TermValue(v, q, c), 29);
  }

  /** The int32 shift of the term is exact. */
  lemma JsTerm(v: nat, q: nat, c: nat)
    requires v < Pow2(14) && q < 4 && c <= 1
    ensures JsShl(Spread(Shr(v, 8 * q) % 256, 8), 16 * q + c) == TermValue(v, q, c) < Pow2(29)
  {
    if q == 0 {
      JsTermByte0(v, q, c);
    } else if q == 1 {
      JsTermByte1(v, q, c);
    } else if q == 2 {
      JsTermByte2(v, q, c);
    } else {
      JsTermByte3(v, q, c);
    }
  }

  /** JsTerm for byte 0, where a fixed byte position keeps the shift arithmetic concrete. */
  lemma JsTermByte0(v: nat, q: nat, c: nat)
    requires v < Pow2(14) && q == 0 && c <= 1
    ensures JsShl(Spread(Shr(v, 8 * q) % 256, 8), 16 * q + c) == TermValue(v, q, c) < Pow2(29)
  {
    var w := Spread(Shr(v, 8 * q) % 256, 8);
    TermBound(v, q, c);
    JsShlBounded(w, 16 * q + c);
    assert TermValue(v, q, c) == Shl(w, 16 * q + c);
  }

  /** JsTerm for byte 1. */
  lemma JsTermByte1(v: nat, q: nat, c: nat)
    requires v < Pow2(14) && q == 1 && c <= 1
    ensures JsShl(Spread(Shr(v, 8 * q) % 256, 8), 16 * q + c) == TermValue(v, q, c) < Pow2(29)
  {
    var w := Spread(Shr(v, 8 * q) % 256, 8);
    TermBound(v, q, c);
    JsShlBounded(w, 16 * q + c);
    assert TermValue(v, q, c) == Shl(w, 16 * q + c);
  }

  /** JsTerm for byte 2. */
  lemma JsTermByte2(v: nat, q: nat, c: nat)
    requires v < Pow2(14) && q == 2 && c <= 1
    ensures JsShl(Spread(Shr(v, 8 * q) % 256, 8), 16 * q + c) == TermValue(v, q, c) < Pow2(29)
  {
    var w := Spread(Shr(v, 8 * q) % 256, 8);
    TermBound(v, q, c);
    JsShlBounded(w, 16 * q + c);
    assert TermValue(v, q, c) == Shl(w, 16 * q + c);
  }

  /** JsTerm for byte 3. */
  lemma JsTermByte3(v: nat, q: nat, c: nat)
    requires v < Pow2(14) && q == 3 && c <= 1
    ensures JsShl(Spread(Shr(v, 8 * q) % 256, 8), 16 * q + c) == TermValue(v, q, c) < Pow2(29)
  {
    var w := Spread(Shr(v, 8 * q) % 256, 8);
    TermBound(v, q, c);
    JsShlBounded(w, 16 * q + c);
    assert TermValue(v, q, c) == Shl(w, 16 * q + c);
  }

  /** A shift whose exact value stays below 2^29 is exact as an int32 shift, also for counts of
      32 and more (whose shifted value can only be 0). */
  lemma JsShlBounded(w: nat, s: nat)
    requires Shl(w, s) < Pow2(29)
    ensures JsShl(w, s) == Shl(w, s)
  {
    if s < 32 {
      Pow2Below31(29);
      JsShlSmall(w, s);
    } else {
      ShlIsMul(w, s);
      Pow2Mono(29, s);
      if w >= 1 {
        MulAtLeast(w, Pow2(s));
        assert false;
      }
      ShlZero(s);
      ShlZero(s % 32);
    }
  }

  /** A shift that stays below 2^31 is exact. */
  lemma JsShlSmall(w: nat, s: nat)
    requires s < 32 && Shl(w, s) < TWO31
    ensures JsShl(w, s) == Shl(w, s)
  {
    ShlIsMul(w, s);
    MulAtLeast(Pow2(s), w);
    assert w * Pow2(s) == Pow2(s) * w;
    JsShlExact(w, s);
  }

  /** Term i of xyf2nest over the naturals: ix bytes 0..3 at even bits 0, 16, 32, 48 for
      i < 4, then iy bytes 0..3 at odd bits 1, 17, 33, 49. */
  function TermAt(ix: nat, iy: nat, i: nat): nat
  {
    TermValue(if i < 4 then ix else iy, i % 4, i / 4)
  }

  /** The or of the first n terms. */
  function TermFold(ix: nat, iy: nat, n: nat): nat
    requires 1 <= n <= 8
  {
    if n == 1 then TermAt(ix, iy, 0) else Or(TermFold(ix, iy, n - 1), TermAt(ix, iy, n - 1))
  }

  /** Bit j of the first n terms. */
  function FoldBit(ix: nat, iy: nat, n: nat, j: nat): nat
  {
    if j % 2 == 0 then (if j / 16 < n && j / 16 < 4 then Bit(ix, j / 2) else 0)
    else if j / 16 + 4 < n then Bit(iy, j / 2) else 0
  }

  lemma TermAtBits(ix: nat, iy: nat, i: nat, j: nat)
    requires i < 8
    ensures Bit(TermAt(ix, iy, i), j)
         == if i < 4 then (if j % 2 == 0 && j / 16 == i then Bit(ix, j / 2) else 0)
            else if j % 2 == 1 && j / 16 == i - 4 then Bit(iy, j / 2) else 0
  {
    TermBits(if i < 4 then ix else iy, i % 4, i / 4, j);
  }

  lemma TermAtBound(ix: nat, iy: nat, i: nat)
    requires ix < Pow2(14) && iy < Pow2(14) && i < 8
    ensures TermAt(ix, iy, i) < Pow2(29)
  {
    TermBound(if i < 4 then ix else iy, i % 4, i / 4);
  }

  lemma {:induction false} TermFoldBound(ix: nat, iy: nat, n: nat)
    requires ix < Pow2(14) && iy < Pow2(14) && 1 <= n <= 8
    ensures TermFold(ix, iy, n) < Pow2(29)
  {
    if n == 1 {
      TermAtBound(ix, iy, 0);
    } else {
      var a, b := TermFold(ix, iy, n - 1), TermAt(ix, iy, n - 1);
      TermFoldBound(ix, iy, n - 1);
      TermAtBound(ix, iy, n - 1);
      OrBound(a, b, 29);
      assert TermFold(ix, iy, n) == Or(a, b);
    }
  }

  lemma {:induction false} TermFoldBits(ix: nat, iy: nat, n: nat, j: nat)
    requires 1 <= n <= 8
    ensures Bit(TermFold(ix, iy, n), j) == FoldBit(ix, iy, n, j)
  {
    TermAtBits(ix, iy, n - 1, j);
    if n > 1 {
      TermFoldBits(ix, iy, n - 1, j);
      BitOr(TermFold(ix, iy, n - 1), TermAt(ix, iy, n - 1), j);
    }
  }

  /** All eight terms interleave coordinates below 2^o, o <= 14. */
  lemma TermFoldInterleaves(ix: int, iy: int, o: nat)
    requires o <= 14 && 0 <= ix < Pow2(o) && 0 <= iy < Pow2(o)
    ensures TermFold(ix, iy, 8) == HealpixBigBackup.Interleave(ix, iy, o)
  {
    Pow2Mono(o, 14);
    forall j: nat
      ensures Bit(TermFold(ix, iy, 8), j) == Bit(HealpixBigBackup.Interleave(ix, iy, o), j)
    {
      TermFoldBits(ix, iy, 8, j);
      HealpixBigBackup.InterleaveBits(ix, iy, o, j);
      if j / 2 >= o {
        BitAbove(ix, o, j / 2);
        BitAbove(iy, o, j / 2);
      }
    }
    BitsEqual(TermFold(ix, iy, 8), HealpixBigBackup.Interleave(ix, iy, o));
  }

  lemma InterleaveZero(o: nat)
    ensures HealpixBigBackup.Interleave(0, 0, o) == 0
  {
    forall j: nat ensures Bit(HealpixBigBackup.Interleave(0, 0, o), j) == Bit(0, j) {
      HealpixBigBackup.InterleaveBits(0, 0, o, j);
      BitZero(j / 2);
      BitZero(j);
    }
    BitsEqual(HealpixBigBackup.Interleave(0, 0, o), 0);
  }

  /** `8 << 28` is 2^31, which int32 reads as -2^31. */
  lemma JsShlFace8()
    ensures JsShl(8, 28) == -0x8000_0000
  {
    Pow2Values();
    ShlIsMul(8, 28);
    assert Pow2(28) * 8 == TWO31;
  }

  /** `-2^31 >> 28` is -8. */
  lemma JsSarFace8()
    ensures JsSar(-0x8000_0000, 28) == -8
  {
    Pow2Values();
    assert ToUint32(-0x8000_0000) == 0x8000_0000;
    assert ToInt32(-0x8000_0000) == -0x8000_0000;
    DivModUnique(-0x8000_0000, Pow2(28), -8, 0);
  }

  // ---------------------------------------------------------------------------
  // xyf2nest and nest2xyf with exact arithmetic

  /** xyf2nest as intended: the face times 4^o plus the interleaved coordinates, with no
      32-bit wrap-around. */
  function XyfToNestExact(ix: nat, iy: nat, face: nat, o: nat): nat
  {
    face * Pow2(2 * o) + HealpixBigBackup.Interleave(ix, iy, o)
  }

  /** nest2xyf as intended: the face is the quotient by 4^o and the coordinates are the even and
      the odd bits of the remainder. */
  function NestToXyfExact(ipix: nat, o: nat): Xyf
  {
    var pix := ipix % Pow2(2 * o);
    Xyf(Gather(pix, 16), Gather(Shr(pix, 1), 16), ipix / Pow2(2 * o))
  }

  /** Exact nest2xyf recovers every face and every pair of coordinates below 2^o. */
  lemma ExactNestXyfRoundTrip(ix: nat, iy: nat, face: nat, o: nat)
    requires o <= ORDER_MAX && ix < Pow2(o) && iy < Pow2(o)
    ensures NestToXyfExact(XyfToNestExact(ix, iy, face, o), o) == Xyf(ix, iy, face)
  {
    var p, k := Pow2(2 * o), HealpixBigBackup.Interleave(ix, iy, o);
    HealpixBigBackup.InterleaveBound(ix, iy, o);
    DivModUnique(XyfToNestExact(ix, iy, face, o), p, face, k);
    GatherInterleave(ix, iy, o);
  }

  /** Exact xyf2nest rebuilds every non-negative index, from coordinates below 2^o. */
  lemma ExactXyfNestRoundTrip(ipix: nat, o: nat)
    requires o <= ORDER_MAX
    ensures var r := NestToXyfExact(ipix, o);
      0 <= r.ix < Pow2(o) && 0 <= r.iy < Pow2(o) && 0 <= r.face &&
      XyfToNestExact(r.ix, r.iy, r.face, o) == ipix
  {
    var p := Pow2(2 * o);
    var pix, face := ipix % p, ipix / p;
    DivModSplit(ipix, p);
    DivNonNegative(ipix, p);
    GatherBelow(pix, o);
    InterleaveGather(pix, o);
  }

  // ---------------------------------------------------------------------------
  // LongRangeSetBuilder and the nested output of queryDisc

  /** The items after `appendRange(lo, hi)`: each i from lo to hi is pushed unless `i in items`
      holds, and for an array that test asks whether i is an INDEX of the current items. */
  function AppendedRange(items: seq<int>, lo: int, hi: int): seq<int>
    decreases hi - lo + 1
  {
    if lo > hi then items
    else AppendedRange(if 0 <= lo < |items| then items else items + [lo], lo + 1, hi)
  }

  /** lo, lo + 1, ..., hi. */
  function Range(lo: int, hi: int): (r: seq<int>)
    ensures |r| == if lo > hi then 0 else hi - lo + 1
    ensures forall k | 0 <= k < |r| :: r[k] == lo + k
    decreases hi - lo + 1
  {
    if lo > hi then [] else [lo] + Range(lo + 1, hi)
  }

  /** appendRange only adds: the old items stay in front, and what follows lies in [lo, hi] and
      increases. */
  lemma {:induction false} AppendedRangeExtends(items: seq<int>, lo: int, hi: int)
    ensures var r := AppendedRange(items, lo, hi);
      |items| <= |r| && r[..|items|] == items &&
      (forall k | |items| <= k < |r| :: lo <= r[k] <= hi) &&
      (forall k, l | |items| <= k < l < |r| :: r[k] < r[l])
    decreases hi - lo + 1
  {
    if lo <= hi {
      var next := if 0 <= lo < |items| then items else items + [lo];
      AppendedRangeExtends(next, lo + 1, hi);
      var r := AppendedRange(next, lo + 1, hi);
      assert r[..|next|] == next;
      assert r[..|items|] == next[..|items|] == items;
    }
  }

  /** Once lo is past the last index every value is pushed. */
  lemma {:induction false} AppendedRangePastEnd(items: seq<int>, lo: int, hi: int)
    requires |items| <= lo
    ensures AppendedRange(items, lo, hi) == items + Range(lo, hi)
    decreases hi - lo + 1
  {
    if lo <= hi {
      AppendedRangePastEnd(items + [lo], lo + 1, hi);
      AppendAssoc(items, lo, Range(lo + 1, hi));
    }
  }

  lemma AppendAssoc(items: seq<int>, x: int, rest: seq<int>)
    ensures items + [x] + rest == items + ([x] + rest)
  {
  }

  /** The index test drops a value that is missing from the items: appending 0 to [5] adds
      nothing, and from an empty builder the range -1..1 loses 0. */
  lemma AppendedRangeSkipsIndices()
    ensures AppendedRange([5], 0, 0) == [5] && 0 !in AppendedRange([5], 0, 0)
    ensures AppendedRange([], -1, 1) == [-1, 1]
  {
  }

  /** appendRange as evidently intended: push each i of [lo, hi] that is not already a VALUE of
      the items. */
  function AppendedValues(items: seq<int>, lo: int, hi: int): seq<int>
    decreases hi - lo + 1
  {
    if lo > hi then items
    else AppendedValues(if lo in items then items else items + [lo], lo + 1, hi)
  }

  predicate NoDuplicates(s: seq<int>)
  {
    forall k, l | 0 <= k < l < |s| :: s[k] != s[l]
  }

  /** The intended builder holds exactly the old values and the range, each once if the old
      items had no duplicates. */
  lemma {:induction false} AppendedValuesSpec(items: seq<int>, lo: int, hi: int)
    ensures forall v :: v in AppendedValues(items, lo, hi) <==> v in items || lo <= v <= hi
    ensures NoDuplicates(items) ==> NoDuplicates(AppendedValues(items, lo, hi))
    decreases hi - lo + 1
  {
    if lo <= hi {
      var next := if lo in items then items else items + [lo];
      AppendedValuesSpec(next, lo + 1, hi);
    }
  }

  /** The nested indices of queryDisc in first-occurrence order, each kept once. */
  function FirstOccurrences(xs: seq<int>): seq<int>
  {
    if xs == [] then []
    else
      var r := FirstOccurrences(xs[..|xs| - 1]);
      if xs[|xs| - 1] in r then r else r + [xs[|xs| - 1]]
  }

  /** FirstOccurrences keeps every value of xs, adds none, and repeats none. */
  lemma {:induction false} FirstOccurrencesSpec(xs: seq<int>)
    ensures forall v :: v in FirstOccurrences(xs) <==> v in xs
    ensures NoDuplicates(FirstOccurrences(xs))
    decreases |xs|
  {
    if xs != [] {
      var init := xs[..|xs| - 1];
      FirstOccurrencesSpec(init);
      assert xs == init + [xs[|xs| - 1]];
    }
  }

  /** The `do_nest` branch of queryDisc: `nest` holds `ring2nest` of each ring index in order,
      and an index is pushed unless `indexOf` finds it among those already pushed. */
  method NestedDisc(nest: seq<int>) returns (itemsNest: seq<int>)
    ensures itemsNest == FirstOccurrences(nest)
    ensures NoDuplicates(itemsNest) && forall v :: v in itemsNest <==> v in nest
  {
    itemsNest := [];
    for i := 0 to |nest|
      invariant itemsNest == FirstOccurrences(nest[..i])
    {
      assert nest[..i + 1][..i] == nest[..i];
      if nest[i] in itemsNest {
        continue;
      }
      itemsNest := itemsNest + [nest[i]];
    }
    assert nest[..|nest|] == nest;
    FirstOccurrencesSpec(nest);
  }

  /** `LongRangeSetBuilder`: the ring indices a disc query collects. */
  class LongRangeSetBuilder {
    var items: seq<int>

    constructor ()
      ensures items == []
    {
      items := [];
    }

    /** `appendRange(lo, hi)`. */
    method AppendRange(lo: int, hi: int)
      modifies this
      ensures items == AppendedRange(old(items), lo, hi)
    {
      var i := lo;
      while i <= hi
        invariant (if lo <= hi then i <= hi + 1 else i == lo)
        invariant AppendedRange(items, i, hi) == AppendedRange(old(items), lo, hi)
        decreases hi - i + 1
      {
        if 0 <= i < |items| {
          i := i + 1;
          continue;
        }
        items := items + [i];
        i := i + 1;
      }
    }
  }

  /** The `ctab` expression of `init` for one byte, which gathers its even and odd bits. */
  method CtabEntryOf(m: int) returns (e: int)
    requires 0 <= m < 256
    ensures e == CtabValue(m)
  {
    e := CtabEntry(m);
    CtabGathers(m);
  }

  /** The `utab` expression of `init` for one byte, which spreads it to the even bits. */
  method UtabEntryOf(m: int) returns (e: int)
    requires 0 <= m < 256
    ensures e == Spread(m, 8)
  {
    e := UtabEntry(m);
    UtabSpreads(m);
  }

  /** The table filler of `init`: entry m of `ctab` and of `utab` for every byte m. */
  method FillTables() returns (c: array<int>, u: array<int>)
    ensures fresh(c) && fresh(u) && c.Length == 256 && u.Length == 256
    ensures forall m | 0 <= m < 256 :: c[m] == CtabEntry(m) && u[m] == UtabEntry(m)
  {
    c := new int[0x100];
    u := new int[0x100];
    for m := 0 to 0x100
      modifies c, u
      invariant c != u
      invariant forall k | 0 <= k < m :: c[k] == CtabValue(k)
      invariant forall k | 0 <= k < m :: u[k] == Spread(k, 8)
    {
      c[m] := CtabEntryOf(m);
      u[m] := UtabEntryOf(m);
    }
    forall m | 0 <= m < 256 ensures c[m] == CtabEntry(m) && u[m] == UtabEntry(m) {
      CtabGathers(m);
      UtabSpreads(m);
    }
  }

  /** A HEALPix index object; `init` must run before the other members are used. */
  class HealpixIndex {
    var nside: int
    var nl2: int
    var nl3: int
    var nl4: int
    var npface: int
    var ncap: int
    var npix: int
    /** None once `init` has computed an order of NaN or -Infinity. */
    var order: Option<int>
    var ctab: array<int>
    var utab: array<int>

    /** `new HealpixIndex(nside)` stores nside only. */
    constructor (nside: int)
      ensures this.nside == nside && ctab.Length == 0 && utab.Length == 0
    {
      this.nside := nside;
      nl2, nl3, nl4, npface, ncap, npix := 0, 0, 0, 0, 0, 0;
      order := None;
      ctab := new int[0];
      utab := new int[0];
    }

    /** The tables `init` fills. */
    predicate Tables()
      reads this, ctab, utab
    {
      ctab.Length == 256 && utab.Length == 256 &&
      forall m | 0 <= m < 256 :: ctab[m] == CtabEntry(m) && utab[m] == UtabEntry(m)
    }

    /** `utab` spreads each byte to the even bits of a 16-bit value. */
    predicate SpreadTable()
      reads this, utab
    {
      utab.Length == 256 && forall m | 0 <= m < 256 :: utab[m] == Spread(m, 8)
    }

    /** `ctab` gathers the even bits of each byte to bits 0..3 and its odd bits to bits 8..11. */
    predicate CompactTable()
      reads this, ctab
    {
      ctab.Length == 256 && forall m | 0 <= m < 256 :: ctab[m] == CtabValue(m)
    }

    /** What the two tables `init` fills contain. */
    lemma TablesContents()
      requires Tables()
      ensures SpreadTable() && CompactTable()
    {
      forall m | 0 <= m < 256 ensures utab[m] == Spread(m, 8) {
        UtabSpreads(m);
      }
      forall m | 0 <= m < 256 ensures ctab[m] == CtabValue(m) {
        CtabGathers(m);
      }
    }

    /** The state after `init` on nside = 2^o: both tables filled, the order known, and
        `npface - 1` masking a non-negative int32 index down to its remainder by 4^o. */
    predicate Ready(o: nat)
      reads this, ctab, utab
    {
      SpreadTable() && CompactTable() && o <= ORDER_MAX && order == Some(o) && InFaceMask(o)
    }

    /** `ipix & (npface - 1)` is `ipix % 4^o` on every non-negative int32 index. */
    predicate InFaceMask(o: nat)
      reads this
    {
      forall v | 0 <= v < TWO31 :: JsAnd(v, npface - 1) == v % Pow2(2 * o)
    }

    /** With npface = 4^o, `npface - 1` is the in-face mask. */
    lemma FaceMaskOfPow2(o: nat)
      requires o <= ORDER_MAX && npface == Pow2(2 * o)
      ensures InFaceMask(o)
    {
      forall v | 0 <= v < TWO31 ensures JsAnd(v, npface - 1) == v % Pow2(2 * o) {
        IndexSplit(v, 2 * o);
      }
    }

    /** `init()`: fills both 256-entry tables and derives the sizes and the order of nside. */
    method Init()
      modifies this
      ensures nside == old(nside) && Tables() && fresh(ctab) && fresh(utab)
      ensures nl2 == 2 * nside && nl3 == 3 * nside && nl4 == 4 * nside
      ensures npface == nside * nside && ncap == 2 * nside * (nside - 1) && npix == 12 * npface
      ensures order == Nside2Order(nside)
    {
      ctab, utab := FillTables();
      nl2, nl3, nl4 := 2 * nside, 3 * nside, 4 * nside;
      npface := nside * nside;
      ncap := 2 * nside * (nside - 1);
      npix := 12 * npface;
      order := Nside2Order(nside);
    }

    /** After `init` on a power of two 2^o with o <= ORDER_MAX, the object is Ready(o). */
    lemma InitReady(o: nat)
      requires Tables() && o <= ORDER_MAX && nside == Pow2(o)
      requires npface == nside * nside && order == Nside2Order(nside)
      ensures Ready(o) && npface == Pow2(2 * o)
    {
      Nside2OrderPow2(o);
      Pow2Square(o);
      TablesContents();
      FaceMaskOfPow2(o);
    }

    /** The first n of the eight `utab` terms of xyf2nest, or-ed from the left; term i is
        `utab[(v >> 8q) & 0xff] << (16q + c)` with v = ix for i < 4 and iy after, q = i % 4 and
        c = i / 4 (shift counts 0, 16, 32, 48, 1, 17, 33, 49). */
    function SpreadLookup(ix: int, iy: int, n: nat): int
      reads this, utab
      requires utab.Length == 256 && 1 <= n <= 8
    {
      var i := n - 1;
      var t := LookupTerm(if i < 4 then ix else iy, i % 4, i / 4);
      if n == 1 then t else JsOr(SpreadLookup(ix, iy, n - 1), t)
    }

    /** `utab[(v >> 8q) & 0xff] << (16q + c)`. */
    function LookupTerm(v: int, q: nat, c: nat): int
      reads this, utab
      requires utab.Length == 256
    {
      JsShl(utab[Byte(JsSar(v, 8 * q))], 16 * q + c)
    }

    /** `xyf2nest(ix, iy, face_num)`: `(face_num << 2 * order)` plus the interleaving. */
    function XyfToNest(ix: int, iy: int, face: int): int
      reads this, utab
      requires utab.Length == 256
    {
      JsShl(face, ShiftCount(order)) + SpreadLookup(ix, iy, 8)
    }

    lemma LookupValue(v: int, q: nat, c: nat)
      requires SpreadTable() && 0 <= v < Pow2(14) && q < 4 && c <= 1
      ensures LookupTerm(v, q, c) == TermValue(v, q, c) < Pow2(29)
    {
      ByteLookup(v, q);
      JsTerm(v, q, c);
    }

    /** One more term: `acc | term` stays exact while both are below 2^29. */
    lemma SpreadLookupStep(ix: int, iy: int, i: nat)
      requires SpreadTable() && 0 <= ix < Pow2(14) && 0 <= iy < Pow2(14) && 1 <= i < 8
      requires SpreadLookup(ix, iy, i) == TermFold(ix, iy, i)
      ensures SpreadLookup(ix, iy, i + 1) == TermFold(ix, iy, i + 1)
    {
      var v := if i < 4 then ix else iy;
      var a, b := TermFold(ix, iy, i), TermAt(ix, iy, i);
      TermFoldBound(ix, iy, i);
      LookupValue(v, i % 4, i / 4);
      assert b == TermValue(v, i % 4, i / 4);
      assert Pow2(29) < TWO31 by { Pow2Values(); }
      JsOrSmall(a, b);
      assert SpreadLookup(ix, iy, i + 1) == JsOr(SpreadLookup(ix, iy, i), LookupTerm(v, i % 4, i / 4));
      assert TermFold(ix, iy, i + 1) == Or(a, b);
    }

    lemma {:induction false} SpreadLookupFold(ix: int, iy: int, n: nat)
      requires SpreadTable() && 0 <= ix < Pow2(14) && 0 <= iy < Pow2(14) && 1 <= n <= 8
      ensures SpreadLookup(ix, iy, n) == TermFold(ix, iy, n)
    {
      if n == 1 {
        LookupValue(ix, 0, 0);
        assert SpreadLookup(ix, iy, 1) == LookupTerm(ix, 0, 0);
        assert TermFold(ix, iy, 1) == TermValue(ix, 0, 0);
      } else {
        SpreadLookupFold(ix, iy, n - 1);
        SpreadLookupStep(ix, iy, n - 1);
      }
    }

    /** The eight bytes of ix and iy looked up in `utab` interleave the coordinates. */
    lemma SpreadLookupInterleaves(ix: int, iy: int, o: nat)
      requires SpreadTable() && o <= 14 && 0 <= ix < Pow2(o) && 0 <= iy < Pow2(o)
      ensures SpreadLookup(ix, iy, 8) == HealpixBigBackup.Interleave(ix, iy, o)
    {
      Pow2Mono(o, 14);
      SpreadLookupFold(ix, iy, 8);
      TermFoldInterleaves(ix, iy, o);
    }

    /** `nest2xyf(ipix)`: the face is `ipix >> 2 * order`, the in-face index `ipix & (npface - 1)`
        and each coordinate collects every other bit of it through `ctab`. */
    function NestToXyf(ipix: int): Xyf
      reads this, ctab
      requires ctab.Length == 256
    {
      var face := JsSar(ipix, ShiftCount(order));
      var pix := JsAnd(ipix, npface - 1);
      var ix := CtabLookup(CompactEven(pix));
      var pix1 := JsSar(pix, 1);
      var iy := CtabLookup(CompactEven(pix1));
      Xyf(ix, iy, face)
    }

    /** The or of the four `ctab` terms of nest2xyf. */
    function CtabLookup(raw: int): int
      reads this, ctab
      requires ctab.Length == 256
    {
      JsOr(JsOr(JsOr(
        ctab[Byte(raw)],
        JsShl(ctab[Byte(JsSar(raw, 8))], 4)),
        JsShl(ctab[Byte(JsSar(raw, 16))], 16)),
        JsShl(ctab[Byte(JsSar(raw, 24))], 20))
    }

    lemma CtabLookupLow(raw: int)
      requires CompactTable() && 0 <= raw < Pow2(16)
      ensures ctab[Byte(raw)] == CtabValue(raw % 256) < 0x1000
    {
      Pow2Mono(16, 31);
      Pow2Values();
      ByteOf(raw);
      CtabValueBits(raw % 256, 0);
    }

    lemma CtabLookupHigh(raw: int)
      requires CompactTable() && 0 <= raw < Pow2(16)
      ensures JsShl(ctab[Byte(JsSar(raw, 8))], 4) == Shl(CtabValue(Shr(raw, 8) % 256), 4) < 0x1_0000
    {
      assert Pow2(16) < TWO31 && Pow2(4) == 16 by { Pow2Values(); }
      var h := Shr(raw, 8);
      JsSarSmall(raw, 8);
      ShrLe(raw, 8);
      ByteOf(h);
      var c := CtabValue(h % 256);
      assert ctab[Byte(JsSar(raw, 8))] == c;
      CtabValueBits(h % 256, 0);
      ShlIsMul(c, 4);
      JsShlExact(c, 4);
    }

    /** Bytes 2 and 3 of a 16-bit raw value are 0, and `ctab[0] << t` is 0. */
    lemma CtabLookupZero(raw: int, s: nat, t: nat)
      requires CompactTable() && 0 <= raw < Pow2(16) && 16 <= s < 32 && t < 32
      ensures JsShl(ctab[Byte(JsSar(raw, s))], t) == 0
    {
      assert Pow2(31) == TWO31 by { Pow2Values(); }
      Pow2Mono(16, 31);
      JsSarSmall(raw, s);
      ShrBelow(raw, 16, s);
      ByteOf(0);
      assert Gather(0, 4) == 0;
      assert ctab[Byte(JsSar(raw, s))] == CtabValue(0) == 0;
      ShlZero(t % 32);
      assert JsShl(0, t) == 0;
    }

    /** On a raw value below 2^16 the four `ctab` terms are the natural CtabPair(raw). */
    lemma CtabLookupPair(raw: int)
      requires CompactTable() && 0 <= raw < Pow2(16)
      ensures CtabLookup(raw) == CtabPair(raw)
    {
      CtabLookupLow(raw);
      CtabLookupHigh(raw);
      CtabLookupZero(raw, 16, 16);
      CtabLookupZero(raw, 24, 20);
      var a, b := CtabValue(raw % 256), Shl(CtabValue(Shr(raw, 8) % 256), 4);
      assert 0x1_0000 < TWO31;
      JsOrSmall(a, b);
      JsOrSmall(Or(a, b), 0);
      JsOrSmall(Or(a, b), 0);
    }

    /** One coordinate of nest2xyf: the even bits of an in-face index below 2^31. */
    lemma CompactLookup(pix: int)
      requires CompactTable() && 0 <= pix < TWO31
      ensures CtabLookup(CompactEven(pix)) == Gather(pix, 16)
    {
      Pow2Values();
      CompactEvenValue(pix);
      RawBound(pix);
      CtabLookupPair(Raw(pix));
      CompactGathers(pix);
    }

    /** The face and the in-face index nest2xyf takes from a non-negative int32 index. */
    lemma NestSplit(ipix: int, o: nat)
      requires Ready(o) && 0 <= ipix < TWO31
      ensures JsSar(ipix, ShiftCount(order)) == ipix / Pow2(2 * o)
      ensures JsAnd(ipix, npface - 1) == ipix % Pow2(2 * o) < TWO31
    {
      assert ShiftCount(order) == 2 * o < 31;
      IndexSplit(ipix, 2 * o);
      assert JsAnd(ipix, npface - 1) == ipix % Pow2(2 * o);
    }

    /** Both coordinates nest2xyf gathers from an in-face index below 2^31. */
    lemma NestCoordinates(pix: int)
      requires CompactTable() && 0 <= pix < TWO31
      ensures CtabLookup(CompactEven(pix)) == Gather(pix, 16)
      ensures CtabLookup(CompactEven(JsSar(pix, 1))) == Gather(Shr(pix, 1), 16)
    {
      JsSarSmall(pix, 1);
      ShrLe(pix, 1);
      CompactLookup(pix);
      CompactLookup(Shr(pix, 1));
    }

    /** On a non-negative int32 index, nest2xyf splits off the face `ipix / 4^o` and gathers the
        even bits of `ipix % 4^o` into ix and its odd bits into iy. */
    lemma NestToXyfValue(ipix: int, o: nat)
      requires Ready(o) && 0 <= ipix < TWO31
      ensures NestToXyf(ipix) == Xyf(Gather(ipix % Pow2(2 * o), 16), Gather(Shr(ipix % Pow2(2 * o), 1), 16), ipix / Pow2(2 * o))
    {
      NestSplit(ipix, o);
      NestToXyfOf(ipix, ipix % Pow2(2 * o), ipix / Pow2(2 * o));
    }

    /** nest2xyf once its face and in-face index are known. */
    lemma NestToXyfOf(ipix: int, pix: int, face: int)
      requires CompactTable() && 0 <= pix < TWO31
      requires JsAnd(ipix, npface - 1) == pix && JsSar(ipix, ShiftCount(order)) == face
      ensures NestToXyf(ipix) == Xyf(Gather(pix, 16), Gather(Shr(pix, 1), 16), face)
    {
      NestAssemble(ipix, pix, CtabLookup(CompactEven(pix)), CtabLookup(CompactEven(JsSar(pix, 1))), face);
      NestCoordinates(pix);
    }

    /** nest2xyf assembled from the values of its three lookups. */
    lemma NestAssemble(ipix: int, pix: int, ix: int, iy: int, face: int)
      requires ctab.Length == 256 && JsAnd(ipix, npface - 1) == pix
      requires CtabLookup(CompactEven(pix)) == ix
      requires CtabLookup(CompactEven(JsSar(pix, 1))) == iy
      requires JsSar(ipix, ShiftCount(order)) == face
      ensures NestToXyf(ipix) == Xyf(ix, iy, face)
    {
    }

    /** On a non-negative face whose first index stays below 2^31, xyf2nest is
        `face * 4^o` plus the interleaving of coordinates below 2^o. */
    lemma XyfToNestValue(ix: int, iy: int, face: int, o: nat)
      requires Ready(o) && 0 <= ix < Pow2(o) && 0 <= iy < Pow2(o)
      requires 0 <= face && face * Pow2(2 * o) < TWO31
      ensures XyfToNest(ix, iy, face) == face * Pow2(2 * o) + HealpixBigBackup.Interleave(ix, iy, o)
    {
      FaceShift(face, 2 * o);
      SpreadLookupInterleaves(ix, iy, o);
      assert ShiftCount(order) == 2 * o;
    }

    /** nest2xyf recovers the coordinates and face xyf2nest packed, while the packed index stays
        below 2^31. */
    lemma NestXyfRoundTrip(ix: int, iy: int, face: int, o: nat)
      requires Ready(o) && 0 <= ix < Pow2(o) && 0 <= iy < Pow2(o)
      requires 0 <= face && (face + 1) * Pow2(2 * o) <= TWO31
      ensures NestToXyf(XyfToNest(ix, iy, face)) == Xyf(ix, iy, face)
    {
      FaceBelow(face, Pow2(2 * o));
      XyfToNestValue(ix, iy, face, o);
      NestOfIndex(XyfToNest(ix, iy, face), ix, iy, face, o);
    }

    /** nest2xyf of `face * 4^o` plus the interleaving of two coordinates below 2^o. */
    lemma NestOfIndex(ipix: int, ix: int, iy: int, face: int, o: nat)
      requires Ready(o) && 0 <= ix < Pow2(o) && 0 <= iy < Pow2(o)
      requires 0 <= face && (face + 1) * Pow2(2 * o) <= TWO31
      requires ipix == face * Pow2(2 * o) + HealpixBigBackup.Interleave(ix, iy, o)
      ensures NestToXyf(ipix) == Xyf(ix, iy, face)
    {
      var p := Pow2(2 * o);
      HealpixBigBackup.InterleaveBound(ix, iy, o);
      FaceSplit(ipix, face, p, HealpixBigBackup.Interleave(ix, iy, o));
      GatherInterleave(ix, iy, o);
      NestToXyfValue(ipix, o);
    }

    /** xyf2nest rebuilds every non-negative int32 index from what nest2xyf extracts. */
    lemma XyfNestRoundTrip(ipix: int, o: nat)
      requires Ready(o) && 0 <= ipix < TWO31
      ensures var r := NestToXyf(ipix); XyfToNest(r.ix, r.iy, r.face) == ipix
    {
      var p := Pow2(2 * o);
      var pix, face := ipix % p, ipix / p;
      DivNonNegative(ipix, p);
      NestToXyfValue(ipix, o);
      var r := NestToXyf(ipix);
      assert r == Xyf(Gather(pix, 16), Gather(Shr(pix, 1), 16), face);
      GatherBelow(pix, o);
      InterleaveGather(pix, o);
      DivModSplit(ipix, p);
      assert 0 <= r.ix < Pow2(o) && 0 <= r.iy < Pow2(o);
      XyfToNestValue(r.ix, r.iy, face, o);
    }

    /** At ORDER_MAX the int32 shift of xyf2nest overflows: face 8 lands on -2^31. */
    lemma XyfToNestOverflows()
      requires SpreadTable() && order == Some(14)
      ensures XyfToNest(0, 0, 8) == -0x8000_0000
    {
      SpreadLookupZero();
      assert ShiftCount(order) == 28;
      JsShlFace8();
    }

    /** The eight `utab` terms of two zero coordinates or to 0. */
    lemma SpreadLookupZero()
      requires SpreadTable()
      ensures SpreadLookup(0, 0, 8) == 0
    {
      SpreadLookupInterleaves(0, 0, 14);
      InterleaveZero(14);
    }

    /** nest2xyf reads that index back as face -8. */
    lemma NestToXyfOverflowedFace()
      requires order == Some(14) && ctab.Length == 256
      ensures NestToXyf(-0x8000_0000).face == -8
    {
      assert ShiftCount(order) == 28;
      JsSarFace8();
    }
  }
}

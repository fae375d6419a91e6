/** The BigInt HEALPix index helpers of healpixBigBackup.js: nside and pixel counts of an order,
    the nested bit interleaving of a face-local (x, y) pair, and the packing of (order, ipix)
    into one "uniq" integer. */
module HealpixBigBackup {
  import opened Bits
  import opened Wrappers

  const NS_MAX: nat := 16777216
  const ORDER_MAX: nat := 24

  /** The largest integer a Number holds exactly, the bound the index asserts check. */
  const MAX_SAFE: nat := 0x1f_ffff_ffff_ffff

  // ---------------------------------------------------------------------------
  // Orders, nsides and pixel counts

  /** `order2nside`: the Number shift `1 << order`. */
  function Order2Nside(order: int): int
  {
    JsShl(1, order)
  }

  /** `nside2Npix`: the number of pixels of the whole sphere. */
  function Nside2Npix(nside: int): int
  {
    12 * nside * nside
  }

  /** An order below 31 has nside 2^order. */
  lemma Order2NsidePow(order: int)
    requires 0 <= order < 31
    ensures Order2Nside(order) == Pow2(order)
  {
    JsShlOne(order);
  }

  /** Order 31 reaches the int32 sign bit, and the shift count wraps modulo 32. */
  lemma Order2NsideWraps(order: int)
    ensures Order2Nside(31) < 0
    ensures Order2Nside(order + 32) == Order2Nside(order)
  {
    assert (order + 32) % 32 == order % 32;
    ShlIsMul(1, 31);
    Pow2Values();
    assert ToUint32(1) == 1;
  }

  /** At every order up to 30 the sphere has 12 * 4^order pixels. */
  lemma NpixOfOrder(order: nat)
    requires order < 31
    ensures Nside2Npix(Order2Nside(order)) == 12 * Pow2(2 * order)
  {
    Order2NsidePow(order);
    Pow2Square(order);
    MulSquare(12, Pow2(order), Pow2(2 * order));
  }

  // ---------------------------------------------------------------------------
  // wrap and clip

  /** x is a whole number. */
  predicate Whole(x: real)
  {
    x == x.Floor as real
  }

  /** JavaScript `%` on finite Numbers: a minus the whole multiple of b that truncation toward
      zero gives, so the result takes the sign of the dividend (NaN, None here, for 0). */
  function JsRem(a: real, b: real): (r: Option<real>)
    ensures r.None? <==> b == 0.0
    ensures r.Some? ==> -(if b < 0.0 then -b else b) < r.value < (if b < 0.0 then -b else b)
    ensures r.Some? && a >= 0.0 ==> r.value >= 0.0
    ensures r.Some? && a < 0.0 ==> r.value <= 0.0
    ensures r.Some? ==> Whole((a - r.value) / b)
  {
    if b == 0.0 then None
    else
      var m := if b < 0.0 then -b else b;
      var n := if a < 0.0 then -a else a;
      var q := (n / m).Floor as real;
      FloorBounds(n, m, q);
      var rem := n - m * q;
      QuotientOfRem(a, b, m, n, q, rem);
      Some(if a >= 0.0 then rem else -rem)
  }

  /** The whole quotient q of n by m > 0 leaves a remainder in [0, m). */
  lemma FloorBounds(n: real, m: real, q: real)
    requires m > 0.0 && q == (n / m).Floor as real
    ensures m * q <= n < m * q + m
  {
    var x := n / m;
    assert q <= x < q + 1.0;
    MulOfDiv(n, m);
    MulLe(m, q, x);
    MulLt(m, x, q + 1.0);
    assert m * (q + 1.0) == m * q + m;
  }

  lemma MulOfDiv(n: real, m: real)
    requires m != 0.0
    ensures m * (n / m) == n
  {
  }

  lemma MulLe(m: real, x: real, y: real)
    requires m > 0.0 && x <= y
    ensures m * x <= m * y
  {
    assert m * y - m * x == m * (y - x);
  }

  lemma MulLt(m: real, x: real, y: real)
    requires m > 0.0 && x < y
    ensures m * x < m * y
  {
    assert m * y - m * x == m * (y - x);
  }

  lemma QuotientOfRem(a: real, b: real, m: real, n: real, q: real, rem: real)
    requires b != 0.0 && m == (if b < 0.0 then -b else b) && n == (if a < 0.0 then -a else a)
    requires Whole(q) && rem == n - m * q
    ensures Whole((a - (if a >= 0.0 then rem else -rem)) / b)
  {
    var d := a - (if a >= 0.0 then rem else -rem);
    var k := if (a >= 0.0) == (b >= 0.0) then q else -q;
    assert d == k * b;
    DivOfMul(d, k, b);
    WholeNeg(q);
  }

  lemma DivOfMul(d: real, k: real, b: real)
    requires b != 0.0 && d == k * b
    ensures d / b == k
  {
  }

  lemma WholeNeg(x: real)
    requires Whole(x)
    ensures Whole(-x)
  {
    assert (-x).Floor == -(x.Floor);
  }

  /** `wrap(A, B)`: A reduced into the period B; NaN (None) when B is 0. */
  function Wrap(a: real, b: real): Option<real>
  {
    if a < 0.0 then
      match JsRem(-a, b)
      case None => None
      case Some(m) => Some(b - m)
    else JsRem(a, b)
  }

  /** For a positive period, wrap gives a value that differs from A by a whole number of periods
      and lies in [0, B]; it is B itself exactly when A is a negative whole multiple of B, and
      below B otherwise, in particular whenever A is not negative. */
  lemma WrapRange(a: real, b: real)
    requires b > 0.0
    ensures Wrap(a, b).Some?
    ensures 0.0 <= Wrap(a, b).value <= b
    ensures Whole((Wrap(a, b).value - a) / b)
    ensures Wrap(a, b).value == b <==> a < 0.0 && Whole(a / b)
  {
    if a < 0.0 {
      var m := JsRem(-a, b).value;
      assert Wrap(a, b) == Some(b - m);
      WrapNegative(a, b, m);
    } else {
      var r := JsRem(a, b).value;
      assert Wrap(a, b) == Some(r);
      WholeSwapped(a, r, b);
    }
  }

  lemma WholeSwapped(a: real, r: real, b: real)
    requires b != 0.0 && Whole((a - r) / b)
    ensures Whole((r - a) / b)
  {
    var k := (a - r) / b;
    MulOfDiv(a - r, b);
    DivOfMul(r - a, -k, b);
    WholeNeg(k);
  }

  lemma WrapNegative(a: real, b: real, m: real)
    requires b > 0.0 && a < 0.0 && 0.0 <= m < b && Whole((-a - m) / b)
    ensures Whole((b - m - a) / b)
    ensures m == 0.0 <==> Whole(a / b)
  {
    var k := (-a - m) / b;
    var f := m / b;
    MulOfDiv(-a - m, b);
    MulOfDiv(m, b);
    ShiftedQuotient(b - m - a, b, k);
    QuotientSplit(a, b, k, f);
    if m == 0.0 {
      WholeNeg(k);
    } else {
      FractionBounds(m, b);
      WholeBelowNeg(k);
      NotWholeBetween(a / b, -k - 1.0);
    }
  }

  lemma QuotientSplit(a: real, b: real, k: real, f: real)
    requires b != 0.0 && a == -(b * k) - b * f
    ensures a / b == -k - f
  {
    assert a == (-k - f) * b;
    DivOfMul(a, -k - f, b);
  }

  lemma WholeBelowNeg(k: real)
    requires Whole(k)
    ensures Whole(-k - 1.0)
  {
    assert (-k - 1.0).Floor == -(k.Floor) - 1;
  }

  /** d = (k + 1) * b with k whole makes d / b whole. */
  lemma ShiftedQuotient(d: real, b: real, k: real)
    requires b != 0.0 && Whole(k) && d == b * k + b
    ensures Whole(d / b)
  {
    DivOfMul(d, k + 1.0, b);
    assert (k + 1.0).Floor == k.Floor + 1;
  }

  lemma FractionBounds(m: real, b: real)
    requires 0.0 < m < b
    ensures 0.0 < m / b < 1.0
  {
    MulOfDiv(m, b);
    if m / b >= 1.0 {
      MulLe(b, 1.0, m / b);
      assert false;
    }
    if m / b <= 0.0 {
      MulLe(b, m / b, 0.0);
      assert false;
    }
  }

  /** A number strictly between two consecutive whole numbers is not whole. */
  lemma NotWholeBetween(x: real, j: real)
    requires Whole(j) && j < x < j + 1.0
    ensures !Whole(x)
  {
    assert x.Floor == j.Floor;
  }

  /** `clip(Z, A, B)`: Z limited to [A, B] (A wins when the bounds are crossed). */
  function Clip(z: real, a: real, b: real): (r: real)
    ensures a <= b ==> a <= r <= b
    ensures a <= z <= b ==> r == z
    ensures z < a ==> r == a
    ensures r == z || r == a || r == b
  {
    if z < a then a else if z > b then b else z
  }

  // ---------------------------------------------------------------------------
  // bit_combine / bit_decombine

  /** Term i of `bit_combine`: `(x & 2^(i+1) | y & 2^i) << (i+1)`. */
  function CombineTerm(x: nat, y: nat, i: nat): nat
  {
    Shl(Or(And(x, Pow2(i + 1)), And(y, Pow2(i))), i + 1)
  }

  /** `x & 1` or-ed with the first k terms, left to right as the expression is written. */
  function CombineTerms(x: nat, y: nat, k: nat): nat
  {
    if k == 0 then And(x, Pow2(0)) else Or(CombineTerms(x, y, k - 1), CombineTerm(x, y, k - 1))
  }

  /** `bit_combine(x, y)`: the 25 interleaving terms, then `y & BigInt(0x2000000) << 26n`, which
      JavaScript parses as `y & (2^25 << 26)`. */
  function BitCombine(x: nat, y: nat): nat
  {
    Or(CombineTerms(x, y, 25), And(y, Shl(0x200_0000, 26)))
  }

  /** Term i of the x half of `bit_decombine`: `(p & 2^(2i)) >> i`. */
  function DecombineX(p: nat, k: nat): nat
  {
    if k == 0 then 0 else Or(DecombineX(p, k - 1), Shr(And(p, Pow2(2 * (k - 1))), k - 1))
  }

  /** Term i of the y half of `bit_decombine`: `(p & 2^(2i+1)) >> (i+1)`. */
  function DecombineY(p: nat, k: nat): nat
  {
    if k == 0 then 0 else Or(DecombineY(p, k - 1), Shr(And(p, Pow2(2 * (k - 1) + 1)), k))
  }

  datatype XY = XY(x: nat, y: nat)

  /** `bit_decombine(p)`: 26 bits of x from the even positions, 25 bits of y from the odd ones. */
  function BitDecombine(p: nat): XY
  {
    XY(DecombineX(p, 26), DecombineY(p, 25))
  }

  /** Reference definition of the nested layout: bit k of x at 2k, bit k of y at 2k+1. */
  function Interleave(x: nat, y: nat, n: nat): nat
  {
    Spread(x, n) + 2 * Spread(y, n)
  }

  lemma CombineTermBits(x: nat, y: nat, i: nat, j: nat)
    ensures Bit(CombineTerm(x, y, i), j) ==
      if j == 2 * i + 2 then Bit(x, i + 1) else if j == 2 * i + 1 then Bit(y, i) else 0
  {
    var inner := Or(And(x, Pow2(i + 1)), And(y, Pow2(i)));
    BitShl(inner, i + 1, j);
    if j >= i + 1 {
      var m := j - i - 1;
      BitOr(And(x, Pow2(i + 1)), And(y, Pow2(i)), m);
      BitAnd(x, Pow2(i + 1), m);
      BitAnd(y, Pow2(i), m);
      BitPow2(i + 1, m);
      BitPow2(i, m);
    }
  }

  lemma {:induction false} CombineTermsBits(x: nat, y: nat, k: nat, j: nat)
    ensures Bit(CombineTerms(x, y, k), j) ==
      if j <= 2 * k then (if j % 2 == 0 then Bit(x, j / 2) else Bit(y, j / 2)) else 0
    decreases k
  {
    if k == 0 {
      BitAnd(x, Pow2(0), j);
      BitPow2(0, j);
    } else {
      CombineTermsBits(x, y, k - 1, j);
      CombineTermBits(x, y, k - 1, j);
      BitOr(CombineTerms(x, y, k - 1), CombineTerm(x, y, k - 1), j);
    }
  }

  /** The bits of `bit_combine`: bit 2k is bit k of x (k < 26), bit 2k+1 is bit k of y (k < 25),
      bit 51 is bit 51 of y, and nothing else is set. */
  lemma BitCombineBits(x: nat, y: nat, j: nat)
    ensures Bit(BitCombine(x, y), j) ==
      if j <= 50 then (if j % 2 == 0 then Bit(x, j / 2) else Bit(y, j / 2))
      else if j == 51 then Bit(y, 51) else 0
  {
    var mask := Shl(0x200_0000, 26);
    var a, b := CombineTerms(x, y, 25), And(y, mask);
    assert BitCombine(x, y) == Or(a, b);
    CombineTermsBits(x, y, 25, j);
    BitOr(a, b, j);
    CombineHighBit(y, j);
  }

  /** The masked term of bit_combine keeps bit 51 of y alone. */
  lemma CombineHighBit(y: nat, j: nat)
    ensures Bit(And(y, Shl(0x200_0000, 26)), j) == if j == 51 then Bit(y, 51) else 0
  {
    var mask := Shl(0x200_0000, 26);
    BitAnd(y, mask, j);
    CombineMaskBit(j);
    var bm, yb := Bit(mask, j), Bit(y, j);
    if j != 51 {
      assert bm == 0;
      assert yb * bm == 0;
    } else {
      assert bm == 1;
      assert yb * bm == yb;
    }
  }

  /** `2^25 << 26` has bit 51 alone. */
  lemma CombineMaskBit(j: nat)
    ensures Bit(Shl(0x200_0000, 26), j) == if j == 51 then 1 else 0
  {
    BitShl(0x200_0000, 26, j);
    assert Pow2(25) == 0x200_0000 by { Pow2Values(); }
    if j >= 26 { BitPow2(25, j - 26); }
  }

  lemma {:induction false} DecombineXBits(p: nat, k: nat, j: nat)
    ensures Bit(DecombineX(p, k), j) == if j < k then Bit(p, 2 * j) else 0
    decreases k
  {
    if k == 0 {
      BitZero(j);
    } else {
      var i := k - 1;
      DecombineXBits(p, i, j);
      BitOr(DecombineX(p, i), Shr(And(p, Pow2(2 * i)), i), j);
      DecombineXTermBit(p, i, j);
    }
  }

  /** Term i of the x half moves bit 2i of p to bit i. */
  lemma DecombineXTermBit(p: nat, i: nat, j: nat)
    ensures Bit(Shr(And(p, Pow2(2 * i)), i), j) == if j == i then Bit(p, 2 * i) else 0
  {
    var a := And(p, Pow2(2 * i));
    BitShr(a, i, j);
    BitAnd(p, Pow2(2 * i), j + i);
    BitPow2(2 * i, j + i);
    if j == i {
      assert Bit(a, j + i) == Bit(p, 2 * i);
    } else {
      assert Bit(a, j + i) == 0;
    }
  }

  lemma {:induction false} DecombineYBits(p: nat, k: nat, j: nat)
    ensures Bit(DecombineY(p, k), j) == if j < k then Bit(p, 2 * j + 1) else 0
    decreases k
  {
    if k == 0 {
      BitZero(j);
    } else {
      var i := k - 1;
      DecombineYBits(p, i, j);
      BitOr(DecombineY(p, i), Shr(And(p, Pow2(2 * i + 1)), k), j);
      DecombineYTermBit(p, i, j);
    }
  }

  /** Term i of the y half moves bit 2i+1 of p to bit i. */
  lemma DecombineYTermBit(p: nat, i: nat, j: nat)
    ensures Bit(Shr(And(p, Pow2(2 * i + 1)), i + 1), j) == if j == i then Bit(p, 2 * i + 1) else 0
  {
    var a := And(p, Pow2(2 * i + 1));
    BitShr(a, i + 1, j);
    BitAnd(p, Pow2(2 * i + 1), j + i + 1);
    BitPow2(2 * i + 1, j + i + 1);
    if j == i {
      assert Bit(a, j + i + 1) == Bit(p, 2 * i + 1);
    } else {
      assert Bit(a, j + i + 1) == 0;
    }
  }

  lemma BitCombineEven(x: nat, y: nat, j: nat)
    requires j < 26
    ensures Bit(BitCombine(x, y), 2 * j) == Bit(x, j)
  {
    var k := 2 * j;
    assert k % 2 == 0 && k / 2 == j && k <= 50;
    BitCombineBits(x, y, k);
  }

  lemma BitCombineOdd(x: nat, y: nat, j: nat)
    requires j < 25
    ensures Bit(BitCombine(x, y), 2 * j + 1) == Bit(y, j)
  {
    var k := 2 * j + 1;
    assert k % 2 == 1 && k / 2 == j && k <= 50;
    BitCombineBits(x, y, k);
  }

  lemma DecombineCombineXBit(x: nat, y: nat, j: nat)
    requires x < Pow2(26)
    ensures Bit(DecombineX(BitCombine(x, y), 26), j) == Bit(x, j)
  {
    DecombineXBits(BitCombine(x, y), 26, j);
    if j < 26 {
      BitCombineEven(x, y, j);
    } else {
      BitAbove(x, 26, j);
    }
  }

  lemma DecombineCombineYBit(x: nat, y: nat, j: nat)
    requires y < Pow2(25)
    ensures Bit(DecombineY(BitCombine(x, y), 25), j) == Bit(y, j)
  {
    DecombineYBits(BitCombine(x, y), 25, j);
    if j < 25 {
      BitCombineOdd(x, y, j);
    } else {
      BitAbove(y, 25, j);
    }
  }

  /** `bit_decombine` inverts `bit_combine` on the asserted domain x < 2^26, y < 2^25. */
  lemma DecombineCombine(x: nat, y: nat)
    requires x < Pow2(26) && y < Pow2(25)
    ensures BitDecombine(BitCombine(x, y)) == XY(x, y)
  {
    var p := BitCombine(x, y);
    forall j: nat ensures Bit(DecombineX(p, 26), j) == Bit(x, j) {
      DecombineCombineXBit(x, y, j);
    }
    forall j: nat ensures Bit(DecombineY(p, 25), j) == Bit(y, j) {
      DecombineCombineYBit(x, y, j);
    }
    BitsEqual(DecombineX(p, 26), x);
    BitsEqual(DecombineY(p, 25), y);
  }

  /** `bit_combine` inverts `bit_decombine` on every p below 2^51. */
  lemma CombineDecombine(p: nat)
    requires p < Pow2(51)
    ensures BitCombine(BitDecombine(p).x, BitDecombine(p).y) == p
  {
    var d := BitDecombine(p);
    forall j: nat ensures Bit(BitCombine(d.x, d.y), j) == Bit(p, j) {
      CombineDecombineBit(p, j);
    }
    BitsEqual(BitCombine(d.x, d.y), p);
  }

  lemma CombineDecombineBit(p: nat, j: nat)
    requires p < Pow2(51)
    ensures Bit(BitCombine(DecombineX(p, 26), DecombineY(p, 25)), j) == Bit(p, j)
  {
    var x, y := DecombineX(p, 26), DecombineY(p, 25);
    BitCombineBits(x, y, j);
    if j <= 50 {
      var k := j / 2;
      DecombineXBits(p, 26, k);
      DecombineYBits(p, 25, k);
      if j % 2 == 0 {
        assert 2 * k == j;
      } else {
        assert 2 * k + 1 == j;
      }
    } else {
      DecombineYBits(p, 25, 51);
      BitAbove(p, 51, j);
    }
  }

  lemma {:induction false} InterleaveBits(x: nat, y: nat, n: nat, j: nat)
    ensures Bit(Interleave(x, y, n), j) ==
      if j < 2 * n then (if j % 2 == 0 then Bit(x, j / 2) else Bit(y, j / 2)) else 0
  {
    var sy := 2 * Spread(y, n);
    forall i: nat ensures Bit(Spread(x, n), i) == 0 || Bit(sy, i) == 0 {
      BitSpread(x, n, i);
      BitDouble(Spread(y, n), 0, i);
      if i >= 1 { BitSpread(y, n, i - 1); }
    }
    AddDisjoint(Spread(x, n), sy);
    BitOr(Spread(x, n), sy, j);
    BitSpread(x, n, j);
    BitDouble(Spread(y, n), 0, j);
    if j >= 1 { BitSpread(y, n, j - 1); }
  }

  /** Coordinates below 2^n interleave into an index below 4^n. */
  lemma InterleaveBound(x: nat, y: nat, n: nat)
    requires x < Pow2(n) && y < Pow2(n)
    ensures Interleave(x, y, n) < Pow2(2 * n)
  {
    forall j: nat | j >= 2 * n ensures Bit(Interleave(x, y, n), j) == 0 {
      InterleaveBits(x, y, n, j);
    }
    BitsBound(Interleave(x, y, n), 2 * n);
  }

  /** On coordinates below 2^n (n <= 25), `bit_combine` is the nested interleaving. */
  lemma BitCombineIsInterleave(x: nat, y: nat, n: nat)
    requires n <= 25 && x < Pow2(n) && y < Pow2(n)
    ensures BitCombine(x, y) == Interleave(x, y, n)
  {
    forall j: nat ensures Bit(BitCombine(x, y), j) == Bit(Interleave(x, y, n), j) {
      BitCombineBits(x, y, j);
      InterleaveBits(x, y, n, j);
      if j / 2 >= n {
        BitAbove(x, n, j / 2);
        BitAbove(y, n, j / 2);
      }
      if j == 51 { BitAbove(y, n, 51); }
    }
    BitsEqual(BitCombine(x, y), Interleave(x, y, n));
  }

  // ---------------------------------------------------------------------------
  // fxy2nest / nest2fxy

  datatype Fxy = Fxy(f: nat, x: nat, y: nat)

  /** `fxy2nest(nside, f, x, y)`: the base-pixel offset plus the interleaved coordinates. */
  function FxyToNest(nside: nat, f: nat, x: nat, y: nat): nat
  {
    NestIndex(nside, f, BitCombine(x, y))
  }

  /** The arithmetic of `fxy2nest`: `f * nside * nside + k`. */
  function NestIndex(nside: nat, f: nat, k: nat): nat
  {
    MulNonNegative(f, nside, nside);
    f * nside * nside + k
  }

  /** `nest2fxy(nside, ipix)`: base pixel and in-face index by division by nside^2, then
      `bit_decombine`. The source first converts ipix with `Number(ipix)`, which is exact up to
      MAX_SAFE; ipix is taken exactly here. */
  function NestToFxy(nside: nat, ipix: nat): Fxy
    requires nside > 0
  {
    var nside2 := nside * nside;
    var k := ipix % nside2;
    Fxy(ipix / nside2, BitDecombine(k).x, BitDecombine(k).y)
  }

  lemma NestIndexSquare(nside: nat, npix: int, f: nat, k: nat)
    requires npix == nside * nside
    ensures NestIndex(nside, f, k) == f * npix + k
  {
    MulSquare(f, nside, npix);
  }

  /** Dividing a packed index by nside^2 gives back the face and the in-face index. */
  lemma NestIndexDivMod(nside: nat, npix: int, f: nat, k: nat)
    requires npix == nside * nside && k < npix
    ensures NestIndex(nside, f, k) / npix == f && NestIndex(nside, f, k) % npix == k
  {
    NestIndexSquare(nside, npix, f, k);
    DivModUnique(NestIndex(nside, f, k), npix, f, k);
  }

  /** Packing the quotient and the remainder by nside^2 rebuilds the index. */
  lemma NestIndexOfSplit(nside: nat, npix: int, ipix: nat)
    requires nside > 0 && npix == nside * nside
    ensures NestIndex(nside, ipix / npix, ipix % npix) == ipix
  {
    NestIndexSquare(nside, npix, ipix / npix, ipix % npix);
    DivModSplit(ipix, npix);
  }

  lemma NestToFxySquare(nside: nat, npix: int, ipix: nat)
    requires nside > 0 && npix == nside * nside
    ensures NestToFxy(nside, ipix) ==
      Fxy(ipix / npix, BitDecombine(ipix % npix).x, BitDecombine(ipix % npix).y)
  {
  }

  /** At nside 2^order, `fxy2nest` adds f * 4^order to the interleaved coordinates. */
  lemma FxyToNestValue(order: nat, f: nat, x: nat, y: nat)
    requires order <= ORDER_MAX && x < Pow2(order) && y < Pow2(order)
    ensures FxyToNest(Pow2(order), f, x, y) == f * Pow2(2 * order) + Interleave(x, y, order)
    ensures Interleave(x, y, order) < Pow2(2 * order)
  {
    Pow2Square(order);
    NestIndexSquare(Pow2(order), Pow2(2 * order), f, BitCombine(x, y));
    BitCombineIsInterleave(x, y, order);
    InterleaveBound(x, y, order);
  }

  /** `nest2fxy` splits an index packed from face f and in-face index k back into f and k. */
  lemma NestIndexRoundTrip(nside: nat, npix: int, f: nat, k: nat)
    requires nside > 0 && npix == nside * nside && k < npix
    ensures NestToFxy(nside, NestIndex(nside, f, k)) ==
      Fxy(f, BitDecombine(k).x, BitDecombine(k).y)
  {
    NestIndexDivMod(nside, npix, f, k);
    NestToFxySquare(nside, npix, NestIndex(nside, f, k));
  }

  /** The round trip at any nside, for coordinates that `bit_decombine` recovers. */
  lemma NestFxyRoundTripAt(nside: nat, npix: int, f: nat, x: nat, y: nat)
    requires nside > 0 && npix == nside * nside && BitCombine(x, y) < npix
    requires BitDecombine(BitCombine(x, y)) == XY(x, y)
    ensures NestToFxy(nside, FxyToNest(nside, f, x, y)) == Fxy(f, x, y)
  {
    NestIndexRoundTrip(nside, npix, f, BitCombine(x, y));
  }

  /** Coordinates below 2^order combine below 4^order and decombine back. */
  lemma CombineInFace(order: nat, x: nat, y: nat)
    requires order <= ORDER_MAX && x < Pow2(order) && y < Pow2(order)
    ensures BitCombine(x, y) < Pow2(2 * order)
    ensures BitDecombine(BitCombine(x, y)) == XY(x, y)
  {
    BitCombineIsInterleave(x, y, order);
    InterleaveBound(x, y, order);
    Pow2Mono(order, 25);
    DecombineCombine(x, y);
  }

  /** `nest2fxy` recovers the face and coordinates that `fxy2nest` packed, for each of the
      twelve base faces (so every index packed stays below 12 * 4^24, within MAX_SAFE). */
  lemma NestFxyRoundTrip(order: nat, f: nat, x: nat, y: nat)
    requires order <= ORDER_MAX && f < 12 && x < Pow2(order) && y < Pow2(order)
    ensures NestToFxy(Pow2(order), FxyToNest(Pow2(order), f, x, y)) == Fxy(f, x, y)
  {
    Pow2Square(order);
    CombineInFace(order, x, y);
    NestFxyRoundTripAt(Pow2(order), Pow2(2 * order), f, x, y);
  }

  /** `fxy2nest` rebuilds every pixel index from what `nest2fxy` extracts, for every index that
      `Number(ipix)` holds exactly (above MAX_SAFE the conversion rounds and the round trip can
      miss). */
  lemma FxyNestRoundTrip(order: nat, ipix: nat)
    requires order <= 25 && ipix <= MAX_SAFE
    ensures var r := NestToFxy(Pow2(order), ipix); FxyToNest(Pow2(order), r.f, r.x, r.y) == ipix
  {
    var nside, npix := Pow2(order), Pow2(2 * order);
    Pow2Square(order);
    NestToFxySquare(nside, npix, ipix);
    var k := ipix % npix;
    Pow2Mono(2 * order, 51);
    CombineDecombine(k);
    NestIndexOfSplit(nside, npix, ipix);
  }

  // ---------------------------------------------------------------------------
  // The uniq codec

  /** `orderpix2uniq(order, ipix)`: 4 * (4^order - 1) + ipix, in exact BigInt arithmetic. */
  function EncodeUniq(order: nat, ipix: int): int
  {
    4 * (Pow2(2 * order) - 1) + ipix
  }

  /** The number of times the loop of `uniq2orderpix` divides l by 4 before l drops below 4. */
  function Log4(l: int): nat
    decreases l
  {
    if l < 4 then 0 else 1 + Log4(l / 4)
  }

  /** `uniq2orderpix(uniq)`: the assertion only logs, so a too-large uniq is flagged and decoded. */
  method DecodeUniq(uniq: int) returns (order: nat, ipix: int, warned: bool)
    ensures warned <==> uniq > MAX_SAFE
    ensures order == Log4(uniq / 4 + 1)
    ensures EncodeUniq(order, ipix) == uniq
  {
    warned := !(uniq <= MAX_SAFE);
    order := 0;
    var l := uniq / 4 + 1;
    while l >= 4
      invariant order + Log4(l) == Log4(uniq / 4 + 1)
      decreases l
    {
      l := l / 4;
      order := order + 1;
    }
    ipix := uniq - (Pow2(2 * order) - 1) * 4;
  }

  lemma {:induction false} Log4Bounds(l: int)
    requires l >= 1
    ensures Pow2(2 * Log4(l)) <= l < Pow2(2 * Log4(l) + 2)
    decreases l
  {
    if l >= 4 {
      Log4Bounds(l / 4);
      var o := Log4(l / 4);
      assert Pow2(2 * (o + 1)) == 4 * Pow2(2 * o);
      assert Pow2(2 * (o + 1) + 2) == 4 * Pow2(2 * o + 2);
    }
  }

  lemma {:induction false} Log4Unique(l: int, o: nat)
    requires Pow2(2 * o) <= l < Pow2(2 * o + 2)
    ensures Log4(l) == o
    decreases o
  {
    if o > 0 {
      assert Pow2(2 * o) == 4 * Pow2(2 * (o - 1));
      assert Pow2(2 * o + 2) == 4 * Pow2(2 * (o - 1) + 2);
      Log4Unique(l / 4, o - 1);
    } else {
      assert l < 4;
    }
  }

  /** Every non-negative uniq decodes to a pixel of its order: 0 <= ipix < 12 * 4^order. */
  lemma DecodedPixelInRange(uniq: int)
    requires uniq >= 0
    ensures var o := Log4(uniq / 4 + 1);
      0 <= uniq - 4 * (Pow2(2 * o) - 1) < 12 * Pow2(2 * o)
  {
    var o := Log4(uniq / 4 + 1);
    Log4Bounds(uniq / 4 + 1);
    assert Pow2(2 * o + 2) == 4 * Pow2(2 * o);
  }

  /** `uniq2orderpix` inverts `orderpix2uniq` on valid pixels: it finds the same order. */
  lemma DecodeEncodeOrder(order: nat, ipix: int)
    requires 0 <= ipix < 12 * Pow2(2 * order)
    ensures Log4(EncodeUniq(order, ipix) / 4 + 1) == order
  {
    var p := Pow2(2 * order);
    assert EncodeUniq(order, ipix) / 4 + 1 == p + ipix / 4;
    assert Pow2(2 * order + 2) == 4 * p;
    Log4Unique(p + ipix / 4, order);
  }

  /** Distinct valid (order, ipix) pairs get distinct uniq values. */
  lemma EncodeUniqInjective(o1: nat, p1: int, o2: nat, p2: int)
    requires 0 <= p1 < 12 * Pow2(2 * o1) && 0 <= p2 < 12 * Pow2(2 * o2)
    requires EncodeUniq(o1, p1) == EncodeUniq(o2, p2)
    ensures o1 == o2 && p1 == p2
  {
    DecodeEncodeOrder(o1, p1);
    DecodeEncodeOrder(o2, p2);
  }

  /** The first uniq of order o+1 directly follows the last uniq of order o. */
  lemma UniqOrderBoundary(order: nat)
    ensures EncodeUniq(order + 1, 0) == EncodeUniq(order, 12 * Pow2(2 * order) - 1) + 1
  {
    assert Pow2(2 * (order + 1)) == 4 * Pow2(2 * order);
  }
}

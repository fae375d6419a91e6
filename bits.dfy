/** Bit-level arithmetic on unbounded naturals (the semantics of BigInt `&`, `|`, `<<`, `>>` on
    non-negative operands), and the 32-bit conversions JavaScript applies to the operands of its
    Number bitwise operators. */
module Bits {

  function Pow2(n: nat): (r: nat)
    ensures r >= 1
  {
    if n == 0 then 1 else 2 * Pow2(n - 1)
  }

  /** Bit i of x. */
  function Bit(x: nat, i: nat): (b: nat)
    ensures b <= 1
  {
    if i == 0 then x % 2 else Bit(x / 2, i - 1)
  }

  /** Bitwise and. */
  function And(a: nat, b: nat): nat
    decreases a
  {
    if a == 0 || b == 0 then 0
    else 2 * And(a / 2, b / 2) + (if a % 2 == 1 && b % 2 == 1 then 1 else 0)
  }

  /** Bitwise or. */
  function Or(a: nat, b: nat): nat
    decreases a + b
  {
    if a == 0 then b
    else if b == 0 then a
    else 2 * Or(a / 2, b / 2) + (if a % 2 == 1 || b % 2 == 1 then 1 else 0)
  }

  /** `x << s` on a non-negative BigInt. */
  function Shl(x: nat, s: nat): nat
  {
    if s == 0 then x else 2 * Shl(x, s - 1)
  }

  /** `x >> s` on a non-negative BigInt. */
  function Shr(x: nat, s: nat): nat
  {
    if s == 0 then x else Shr(x / 2, s - 1)
  }

  /** Places bit k of x, for k < n, at bit 2k; every other bit is zero. */
  function Spread(x: nat, n: nat): nat
  {
    if n == 0 then 0 else x % 2 + 4 * Spread(x / 2, n - 1)
  }

  /** Collects the even bits 0, 2, ..., 2(n-1) of p into bits 0 .. n-1. */
  function Gather(p: nat, n: nat): nat
  {
    if n == 0 then 0 else p % 2 + 2 * Gather(p / 4, n - 1)
  }

  // ---------------------------------------------------------------------------
  // Arithmetic steps

  lemma Pow2Add(a: nat, b: nat)
    ensures Pow2(a + b) == Pow2(a) * Pow2(b)
    decreases a
  {
    if a > 0 {
      Pow2Add(a - 1, b);
      assert Pow2(a + b) == 2 * Pow2(a - 1 + b);
    }
  }

  /** The powers of two the model's masks and bounds use. */
  lemma Pow2Values()
    ensures Pow2(8) == 0x100 && Pow2(16) == 0x1_0000 && Pow2(24) == 0x100_0000
    ensures Pow2(25) == 0x200_0000 && Pow2(26) == 0x400_0000 && Pow2(28) == 0x1000_0000
    ensures Pow2(30) == 0x4000_0000 && Pow2(31) == 0x8000_0000 && Pow2(32) == 0x1_0000_0000
    ensures Pow2(51) == 0x8_0000_0000_0000 && Pow2(14) == 0x4000 && Pow2(15) == 0x8000
  {
    Pow2Add(8, 8);
    Pow2Add(16, 8);
    Pow2Add(24, 1);
    Pow2Add(24, 2);
    Pow2Add(24, 4);
    Pow2Add(24, 6);
    Pow2Add(30, 1);
    Pow2Add(16, 16);
    Pow2Add(26, 25);
  }

  lemma SquareDouble(a: int, b: int, c: int, d: int)
    requires b == 2 * a && c == a * a && d == 4 * c
    ensures b * b == d
  {
  }

  /** 4^n, as nside^2 at order n. */
  lemma {:induction false} Pow2Square(n: nat)
    ensures Pow2(n) * Pow2(n) == Pow2(2 * n)
  {
    if n > 0 {
      Pow2Square(n - 1);
      assert Pow2(2 * n) == 4 * Pow2(2 * (n - 1));
      SquareDouble(Pow2(n - 1), Pow2(n), Pow2(2 * (n - 1)), Pow2(2 * n));
    }
  }

  lemma MulNonNegative(a: nat, b: nat, c: nat)
    ensures a * b * c >= 0
  {
  }

  lemma MulSquare(f: int, p: int, q: int)
    requires q == p * p
    ensures f * p * p == f * q
  {
  }

  lemma Pow2Thirty()
    ensures Pow2(30) == 0x4000_0000
  {
    Pow2Values();
  }

  lemma DivModSplit(x: int, d: int)
    requires d > 0
    ensures x == x / d * d + x % d && 0 <= x % d < d
  {
  }

  lemma DivNonNegative(x: int, d: int)
    requires x >= 0 && d > 0
    ensures 0 <= x / d && x / d * d <= x
  {
  }

  lemma DivModUnique(x: int, d: int, q: int, r: int)
    requires d > 0 && 0 <= r < d && x == q * d + r
    ensures x / d == q && x % d == r
  {
    var q0, r0 := x / d, x % d;
    assert (q - q0) * d == r0 - r;
    if q > q0 {
      MulAtLeast(q - q0, d);
    } else if q < q0 {
      MulAtLeast(q0 - q, d);
    }
  }

  lemma {:induction false} MulAtLeast(k: nat, d: nat)
    requires k >= 1
    ensures k * d >= d
    decreases k
  {
    if k > 1 {
      MulAtLeast(k - 1, d);
      assert k * d == (k - 1) * d + d;
    }
  }

  lemma DivModStep(x: nat, p: nat)
    requires p >= 1
    ensures x / (2 * p) == (x / 2) / p
    ensures x % (2 * p) == 2 * ((x / 2) % p) + x % 2
  {
    var q, r2 := (x / 2) / p, (x / 2) % p;
    assert x / 2 == q * p + r2;
    assert x == q * (2 * p) + (2 * r2 + x % 2);
    DivModUnique(x, 2 * p, q, 2 * r2 + x % 2);
  }

  // ---------------------------------------------------------------------------
  // Bits of the basic operations

  lemma {:induction false} BitZero(i: nat)
    ensures Bit(0, i) == 0
  {
    if i > 0 { BitZero(i - 1); }
  }

  lemma {:induction false} BitPow2(m: nat, i: nat)
    ensures Bit(Pow2(m), i) == if i == m then 1 else 0
    decreases i
  {
    if i == 0 {
    } else if m == 0 {
      BitZero(i - 1);
    } else {
      BitPow2(m - 1, i - 1);
    }
  }

  lemma {:induction false} BitDouble(y: nat, c: nat, i: nat)
    requires c <= 1
    ensures Bit(2 * y + c, i) == if i == 0 then c else Bit(y, i - 1)
  {
  }

  lemma {:induction false} BitAnd(a: nat, b: nat, i: nat)
    ensures Bit(And(a, b), i) == Bit(a, i) * Bit(b, i)
    decreases a
  {
    if a == 0 || b == 0 {
      BitZero(i);
    } else if i > 0 {
      BitAnd(a / 2, b / 2, i - 1);
    }
  }

  lemma {:induction false} BitOr(a: nat, b: nat, i: nat)
    ensures Bit(Or(a, b), i) == if Bit(a, i) == 1 || Bit(b, i) == 1 then 1 else 0
    decreases a + b
  {
    if a == 0 {
      BitZero(i);
    } else if b == 0 {
      BitZero(i);
    } else if i > 0 {
      BitOr(a / 2, b / 2, i - 1);
    }
  }

  lemma {:induction false} BitShl(x: nat, s: nat, i: nat)
    ensures Bit(Shl(x, s), i) == if i < s then 0 else Bit(x, i - s)
    decreases s
  {
    if s > 0 {
      BitDouble(Shl(x, s - 1), 0, i);
      if i > 0 { BitShl(x, s - 1, i - 1); }
    }
  }

  lemma {:induction false} BitShr(x: nat, s: nat, i: nat)
    ensures Bit(Shr(x, s), i) == Bit(x, i + s)
    decreases s
  {
    if s > 0 { BitShr(x / 2, s - 1, i); }
  }

  lemma {:induction false} ShlIsMul(x: nat, s: nat)
    ensures Shl(x, s) == x * Pow2(s)
    decreases s
  {
    if s > 0 {
      ShlIsMul(x, s - 1);
      assert x * Pow2(s) == 2 * (x * Pow2(s - 1));
    }
  }

  lemma {:induction false} ShrLe(x: nat, s: nat)
    ensures Shr(x, s) <= x
    decreases s
  {
    if s > 0 { ShrLe(x / 2, s - 1); }
  }

  /** Shifting a value below 2^n right by n or more leaves 0. */
  lemma {:induction false} ShrBelow(x: nat, n: nat, s: nat)
    requires x < Pow2(n) && n <= s
    ensures Shr(x, s) == 0
    decreases s
  {
    if s > 0 {
      ShrBelow(x / 2, if n == 0 then 0 else n - 1, s - 1);
    }
  }

  lemma {:induction false} ShrIsDiv(x: nat, s: nat)
    ensures Shr(x, s) == x / Pow2(s)
    decreases s
  {
    if s > 0 {
      ShrIsDiv(x / 2, s - 1);
      DivModStep(x, Pow2(s - 1));
    }
  }

  lemma {:induction false} BitMod(x: nat, n: nat, i: nat)
    ensures Bit(x % Pow2(n), i) == if i < n then Bit(x, i) else 0
    decreases n
  {
    if n == 0 {
      BitZero(i);
    } else {
      var p := Pow2(n - 1);
      DivModStep(x, p);
      var r := (x / 2) % p;
      assert x % Pow2(n) == 2 * r + x % 2;
      BitDouble(r, x % 2, i);
      if i > 0 { BitMod(x / 2, n - 1, i - 1); }
    }
  }

  lemma {:induction false} BitSpread(x: nat, n: nat, i: nat)
    ensures Bit(Spread(x, n), i) == if i < 2 * n && i % 2 == 0 then Bit(x, i / 2) else 0
    decreases n
  {
    if n == 0 {
      BitZero(i);
    } else if i >= 2 {
      var s, t := Spread(x / 2, n - 1), Spread(x, n);
      assert t / 2 == 2 * s && (t / 2) / 2 == s;
      assert Bit(t, i) == Bit(s, i - 2);
      BitSpread(x / 2, n - 1, i - 2);
      assert (i - 2) / 2 == i / 2 - 1;
    } else if i == 1 {
      var t := Spread(x, n);
      assert t / 2 == 2 * Spread(x / 2, n - 1);
    }
  }

  lemma {:induction false} BitGather(p: nat, n: nat, i: nat)
    ensures Bit(Gather(p, n), i) == if i < n then Bit(p, 2 * i) else 0
    decreases n
  {
    if n == 0 {
      BitZero(i);
    } else if i > 0 {
      BitGather(p / 4, n - 1, i - 1);
      assert p / 4 == (p / 2) / 2;
    }
  }

  // ---------------------------------------------------------------------------
  // From bits back to numbers

  lemma {:induction false} GatherBound(p: nat, n: nat)
    ensures Gather(p, n) < Pow2(n)
  {
    if n > 0 { GatherBound(p / 4, n - 1); }
  }

  /** Two naturals with the same bits are equal. */
  lemma {:induction false} BitsEqual(a: nat, b: nat)
    requires forall i: nat :: Bit(a, i) == Bit(b, i)
    ensures a == b
    decreases a + b
  {
    if a != 0 || b != 0 {
      assert Bit(a, 0) == Bit(b, 0);
      forall i: nat ensures Bit(a / 2, i) == Bit(b / 2, i) {
        assert Bit(a, i + 1) == Bit(b, i + 1);
      }
      BitsEqual(a / 2, b / 2);
    }
  }

  /** A natural whose bits from n upwards are zero is below 2^n, and conversely. */
  lemma {:induction false} BitsBound(x: nat, n: nat)
    requires forall i: nat :: i >= n ==> Bit(x, i) == 0
    ensures x < Pow2(n)
    decreases n
  {
    if n == 0 {
      forall i: nat ensures Bit(x, i) == Bit(0, i) { BitZero(i); }
      BitsEqual(x, 0);
    } else {
      forall i: nat | i >= n - 1 ensures Bit(x / 2, i) == 0 {
        assert Bit(x, i + 1) == 0;
      }
      BitsBound(x / 2, n - 1);
    }
  }

  lemma {:induction false} BitAbove(x: nat, n: nat, i: nat)
    requires x < Pow2(n) && i >= n
    ensures Bit(x, i) == 0
    decreases n
  {
    if n == 0 {
      BitZero(i);
    } else {
      BitAbove(x / 2, n - 1, i - 1);
    }
  }

  /** The sum of two naturals without a common bit is their bitwise or. */
  lemma {:induction false} AddDisjoint(a: nat, b: nat)
    requires forall i: nat :: Bit(a, i) == 0 || Bit(b, i) == 0
    ensures a + b == Or(a, b)
    decreases a + b
  {
    if a != 0 && b != 0 {
      assert Bit(a, 0) == 0 || Bit(b, 0) == 0;
      forall i: nat ensures Bit(a / 2, i) == 0 || Bit(b / 2, i) == 0 {
        assert Bit(a, i + 1) == 0 || Bit(b, i + 1) == 0;
      }
      AddDisjoint(a / 2, b / 2);
    }
  }

  lemma {:induction false} AndLe(a: nat, b: nat)
    ensures And(a, b) <= a && And(a, b) <= b
    decreases a
  {
    if a != 0 && b != 0 {
      AndLe(a / 2, b / 2);
    }
  }

  /** Bits 0 .. k-1 of 2^k - 1 are set, and no other. */
  lemma {:induction false} BitLowMask(k: nat, i: nat)
    ensures Bit(Pow2(k) - 1, i) == if i < k then 1 else 0
    decreases k
  {
    if k == 0 {
      BitZero(i);
    } else {
      BitDouble(Pow2(k - 1) - 1, 1, i);
      if i > 0 { BitLowMask(k - 1, i - 1); }
    }
  }

  /** Masking with 2^k - 1 keeps the remainder modulo 2^k. */
  lemma AndLowMask(x: nat, k: nat)
    ensures And(x, Pow2(k) - 1) == x % Pow2(k)
  {
    forall i: nat ensures Bit(And(x, Pow2(k) - 1), i) == Bit(x % Pow2(k), i) {
      BitAnd(x, Pow2(k) - 1, i);
      BitLowMask(k, i);
      BitMod(x, k, i);
    }
    BitsEqual(And(x, Pow2(k) - 1), x % Pow2(k));
  }

  lemma OrBound(a: nat, b: nat, n: nat)
    requires a < Pow2(n) && b < Pow2(n)
    ensures Or(a, b) < Pow2(n)
  {
    forall i: nat | i >= n ensures Bit(Or(a, b), i) == 0 {
      BitOr(a, b, i);
      BitAbove(a, n, i);
      BitAbove(b, n, i);
    }
    BitsBound(Or(a, b), n);
  }

  // ---------------------------------------------------------------------------
  // JavaScript Number bitwise operators (ECMAScript ToInt32 / ToUint32 on integral values)

  const TWO32: nat := 0x1_0000_0000
  const TWO31: nat := 0x8000_0000

  function ToUint32(v: int): (r: nat)
    ensures r < TWO32
  {
    v % TWO32
  }

  function ToInt32(v: int): (r: int)
    ensures -(TWO31 as int) <= r < TWO31
  {
    var m := ToUint32(v);
    if m >= TWO31 then m - TWO32 else m
  }

  /** `a << s` on Numbers: the shift count is taken modulo 32 and the result wraps to int32. */
  function JsShl(a: int, s: int): int
  {
    ToInt32(Shl(ToUint32(a), s % 32))
  }

  /** `a >> s` on Numbers: an arithmetic (sign-propagating) shift of the int32 value. */
  function JsSar(a: int, s: int): int
  {
    ToInt32(a) / Pow2(s % 32)
  }

  /** `a & b` on Numbers. */
  function JsAnd(a: int, b: int): int
  {
    ToInt32(And(ToUint32(a), ToUint32(b)))
  }

  /** `a | b` on Numbers. */
  function JsOr(a: int, b: int): int
  {
    ToInt32(Or(ToUint32(a), ToUint32(b)))
  }

  lemma Int32Small(v: int)
    requires 0 <= v < TWO31
    ensures ToUint32(v) == v && ToInt32(v) == v
  {
  }

  /** A shift whose result stays below 2^31 is exact. */
  lemma JsShlExact(a: nat, s: nat)
    requires a < TWO32 && s < 32 && Shl(a, s) < TWO31
    ensures JsShl(a, s) == Shl(a, s)
  {
    assert ToUint32(a) == a && s % 32 == s;
    Int32Small(Shl(a, s));
  }

  lemma Pow2Below31(s: nat)
    requires s < 31
    ensures Pow2(s) < TWO31
  {
    Pow2Mono(s, 30);
    Pow2Thirty();
  }

  /** `1 << s` for a count below 31 is 2^s. */
  lemma JsShlOne(s: nat)
    requires s < 31
    ensures JsShl(1, s) == Pow2(s)
  {
    ShlOne(s);
    Pow2Below31(s);
    JsShlExact(1, s);
  }

  /** `v & m` for a mask below 2^31 masks the low 32 bits of v and stays non-negative. */
  lemma JsAndMask(v: int, m: int)
    requires 0 <= m < TWO31
    ensures JsAnd(v, m) == And(ToUint32(v), m) && 0 <= JsAnd(v, m) <= m
  {
    Int32Small(m);
    AndLe(ToUint32(v), m);
    Int32Small(And(ToUint32(v), m));
  }

  lemma JsAndSmall(a: int, b: int)
    requires 0 <= a < TWO31 && 0 <= b < TWO31
    ensures JsAnd(a, b) == And(a, b) && And(a, b) <= a && And(a, b) <= b
  {
    JsAndMask(a, b);
    Int32Small(a);
    AndLe(a, b);
  }

  /** A mask whose low 32 bits are all zero clears every Number. */
  lemma JsAndHighMask(v: int, m: int)
    requires ToUint32(m) == 0
    ensures JsAnd(v, m) == 0
  {
  }

  lemma JsOrSmall(a: int, b: int)
    requires 0 <= a < TWO31 && 0 <= b < TWO31
    ensures JsOr(a, b) == Or(a, b) && Or(a, b) < TWO31
  {
    Int32Small(a);
    Int32Small(b);
    Pow2Values();
    OrBound(a, b, 31);
    Int32Small(Or(a, b));
  }

  lemma JsSarSmall(a: int, s: int)
    requires 0 <= a < TWO31 && 0 <= s < 32
    ensures JsSar(a, s) == Shr(a, s)
  {
    Int32Small(a);
    assert s % 32 == s;
    ShrIsDiv(a, s);
  }

  lemma {:induction false} ShlOne(s: nat)
    ensures Shl(1, s) == Pow2(s)
  {
    if s > 0 { ShlOne(s - 1); }
  }

  lemma Pow2Mono(a: nat, b: nat)
    requires a <= b
    ensures Pow2(a) <= Pow2(b)
  {
    Pow2Add(a, b - a);
    MulAtLeast(Pow2(b - a), Pow2(a));
  }
}

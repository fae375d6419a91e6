/** The prototype-based copy of the HEALPix index helpers in healpixBig.js. Its arithmetic is the
    one of healpixBigBackup.js (order2nside, nside2npix, wrap and clip are the same expressions),
    but the uniq codec works on BigInt operands only, with no conversion of Numbers, and its
    bit_combine mixes a Number and a BigInt in its first assertion. */
module HealpixBig {
  import opened Bits
  import opened Wrappers
  import HealpixBigBackup

  const NS_MAX: nat := 8388608
  const ORDER_MAX: nat := 23

  /** An integral JavaScript value: a Number or a BigInt. */
  datatype JsInt = Num(n: int) | Big(b: int)
  {
    function Value(): int
    {
      if Num? then n else b
    }
  }

  /** The errors JavaScript throws here: the TypeError of an arithmetic operator that mixes a
      BigInt and a Number, and the ReferenceError of a name that is not in scope. */
  datatype JsError = MixedBigIntTypes | UndefinedName(name: string)

  datatype OrderPix = OrderPix(order: nat, ipix: int)

  /** BigInt `a << s`: a negative count shifts right, rounding toward minus infinity. */
  function BigShl(a: int, s: int): int
  {
    if s >= 0 then a * Pow2(s) else a / Pow2(-s)
  }

  /** `orderpix2uniq(order, ipix)`: `4n * ((1n << (2n * order)) - 1n) + ipix`. Both operands
      must be BigInts: `2n * order` throws for a Number order, and the final `+ ipix` for a
      Number ipix. */
  function EncodeUniq(order: JsInt, ipix: JsInt): Result<int, JsError>
  {
    if order.Num? || ipix.Num? then Err(MixedBigIntTypes)
    else Ok(4 * (BigShl(1, 2 * order.b) - 1) + ipix.b)
  }

  /** On BigInt operands with a non-negative order the codec is the one of healpixBigBackup.js;
      any Number operand throws. */
  lemma EncodeUniqAgrees(order: JsInt, ipix: JsInt)
    ensures EncodeUniq(order, ipix).Ok? <==> order.Big? && ipix.Big?
    ensures order.Big? && order.b >= 0 && ipix.Big? ==>
      EncodeUniq(order, ipix) == Ok(HealpixBigBackup.EncodeUniq(order.b, ipix.b))
  {
    if order.Big? && order.b >= 0 && ipix.Big? {
      ShlIsMul(1, 2 * order.b);
      assert BigShl(1, 2 * order.b) == Pow2(2 * order.b);
    }
  }

  /** A negative BigInt order shifts the 1 out, so the "pixel" is offset by -4. */
  lemma EncodeUniqNegativeOrder(order: int, ipix: int)
    requires order < 0
    ensures EncodeUniq(Big(order), Big(ipix)) == Ok(ipix - 4)
  {
    var d := Pow2(-2 * order);
    assert d >= 2 by {
      Pow2Mono(1, -2 * order);
      assert Pow2(1) == 2;
    }
    DivModUnique(1, d, 0, 1);
    assert BigShl(1, 2 * order) == 0;
  }

  /** `uniq2orderpix(uniq)`: the assertion `uniq <= 0x1fffffffffffff` only logs (a mixed
      comparison is allowed), then `uniq >> 2n` throws for a Number. A BigInt is decoded by the
      loop of healpixBigBackup.js. */
  method DecodeUniq(uniq: JsInt) returns (r: Result<OrderPix, JsError>, warned: bool)
    ensures warned <==> uniq.Value() > HealpixBigBackup.MAX_SAFE
    ensures r.Err? <==> uniq.Num?
    ensures r.Ok? ==> r.value.order == HealpixBigBackup.Log4(uniq.b / 4 + 1)
    ensures r.Ok? ==> EncodeUniq(Big(r.value.order), Big(r.value.ipix)) == Ok(uniq.b)
  {
    warned := !(uniq.Value() <= HealpixBigBackup.MAX_SAFE);
    if uniq.Num? {
      return Err(MixedBigIntTypes), warned;
    }
    var order, ipix, _ := HealpixBigBackup.DecodeUniq(uniq.b);
    EncodeUniqAgrees(Big(order), Big(ipix));
    r := Ok(OrderPix(order, ipix));
  }

  /** Decoding an encoded valid BigInt pair gives the pair back. */
  lemma UniqRoundTrip(order: nat, ipix: int, uniq: int)
    requires 0 <= ipix < 12 * Pow2(2 * order)
    requires EncodeUniq(Big(order), Big(ipix)) == Ok(uniq)
    ensures HealpixBigBackup.Log4(uniq / 4 + 1) == order
    ensures forall o: nat, p: int :: EncodeUniq(Big(o), Big(p)) == Ok(uniq) && o == order ==> p == ipix
  {
    EncodeUniqAgrees(Big(order), Big(ipix));
    HealpixBigBackup.DecodeEncodeOrder(order, ipix);
    forall o: nat, p: int | EncodeUniq(Big(o), Big(p)) == Ok(uniq) && o == order
      ensures p == ipix
    {
      EncodeUniqAgrees(Big(o), Big(p));
    }
  }

  // ---------------------------------------------------------------------------
  // bit_combine and fxy2nest as written

  /** `bit_combine(x, y)`: its first statement evaluates `1 << 26n`, a Number shifted by a
      BigInt, which throws before the assertion or the combination can run. */
  function BitCombine(x: JsInt, y: JsInt): (r: Result<nat, JsError>)
  {
    Err(MixedBigIntTypes)
  }

  /** `fxy2nest(nside, f, x, y)`: `f * nside * nside` (which throws when it mixes the two kinds),
      plus a bare `bit_combine(x, y)`. Only the prototype method of that name exists, so the bare
      name is not in scope and evaluating it throws before any combination runs. */
  function FxyToNest(nside: JsInt, f: JsInt, x: JsInt, y: JsInt): Result<int, JsError>
  {
    if f.Num? != nside.Num? then Err(MixedBigIntTypes)
    else Err(UndefinedName("bit_combine"))
  }

  /** Every call of `bit_combine` throws the TypeError of `1 << 26n`, and every call of
      `fxy2nest` throws, with the ReferenceError of the bare `bit_combine` whenever its product
      does not throw first; healpixBigBackup.js writes the bound as `1n << 26n` and its
      combination is undone by its decombination (HealpixBigBackup.DecombineCombine). */
  lemma BitCombineAlwaysThrows(x: JsInt, y: JsInt, nside: JsInt, f: JsInt)
    ensures BitCombine(x, y) == Err(MixedBigIntTypes)
    ensures FxyToNest(nside, f, x, y).Err?
    ensures f.Num? == nside.Num? ==> FxyToNest(nside, f, x, y) == Err(UndefinedName("bit_combine"))
  {
  }
}

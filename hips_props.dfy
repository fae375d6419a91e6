// The property parsing of a HiPS (Hierarchical Progressive Survey) image layer, after
// src/js/HiPS.js: the `PropertyParser` readers of the `properties` file, the choice of the
// tile format and of the coordinate frame in `_parseProperties`, and the index a HiPS read
// from a local folder (a FileList) builds of its tiles.
//
// JavaScript's string-to-number conversion (unary `+`) and `parseFloat` are parameters: the
// model does not fix how a numeric text converts, only what the code does with the Number it
// gets back.

module HipsProperties {
  import opened Wrappers
  import opened JsStrings
  import opened Bits

  /** The key/value pairs of a HiPS `properties` file. */
  type Properties = map<string, string>

  /** `properties && properties[key]` tested for truthiness: the value, when the properties
      exist and hold a non-empty string under key. */
  function TruthyProp(props: Option<Properties>, key: string): Option<string>
  {
    if props.Some? && key in props.value && props.value[key] != "" then Some(props.value[key])
    else None
  }

  /** `properties && properties[key] && +properties[key]` tested for truthiness: the number,
      unless the property is missing or empty or converts to NaN or to 0. */
  function NumberProp(props: Option<Properties>, key: string, toNumber: string -> Num)
    : Option<real>
  {
    match TruthyProp(props, key)
    case None => None
    case Some(s) => if toNumber(s).Val? && toNumber(s).v != 0.0 then Some(toNumber(s).v) else None
  }

  // ---------------------------------------------------------------------------------------
  // Tile size
  // ---------------------------------------------------------------------------------------

  const DEFAULT_TILE_SIZE: real := 512.0

  /** The tile width the properties give, or 512. */
  function TileWidth(props: Option<Properties>, toNumber: string -> Num): real
  {
    match NumberProp(props, "hips_tile_width", toNumber)
    case Some(w) => w
    case None => DEFAULT_TILE_SIZE
  }

  /** The integer ToInt32 starts from: a finite Number truncated toward zero. */
  function Trunc(x: real): int
  {
    if x >= 0.0 then x.Floor else -((-x).Floor)
  }

  /** The guard `tileSize & (tileSize - 1 !== 0)` as JavaScript evaluates it: `!==` binds
      tighter than `&`, so the width is and-ed with the boolean, that is with 1 or 0. */
  predicate ResetAsWritten(w: real)
  {
    JsAnd(Trunc(w), if w - 1.0 != 0.0 then 1 else 0) != 0
  }

  /** `PropertyParser.tileSize` as written: the width, or 512 when the guard fires. */
  function TileSizeAsWritten(props: Option<Properties>, toNumber: string -> Num): real
  {
    var w := TileWidth(props, toNumber);
    if ResetAsWritten(w) then DEFAULT_TILE_SIZE else w
  }

  /** n is 2^k for some k. */
  predicate IsPow2(n: nat)
    decreases n
  {
    n == 1 || (n >= 2 && n % 2 == 0 && IsPow2(n / 2))
  }

  /** x is a whole power of two. */
  predicate IsPowerOfTwo(x: real)
  {
    x >= 1.0 && x == x.Floor as real && IsPow2(x.Floor)
  }

  /** `PropertyParser.tileSize` as its comment means it: the width when it is a power of two,
      512 otherwise. */
  function TileSize(props: Option<Properties>, toNumber: string -> Num): real
  {
    var w := TileWidth(props, toNumber);
    if IsPowerOfTwo(w) then w else DEFAULT_TILE_SIZE
  }

  lemma {:induction false} Pow2IsPow2(k: nat)
    ensures IsPow2(Pow2(k))
  {
    if k > 0 {
      Pow2IsPow2(k - 1);
      assert Pow2(k) / 2 == Pow2(k - 1);
    }
  }

  /** The tile size is always a power of two, the width itself when that is one. */
  lemma TileSizeIsPowerOfTwo(props: Option<Properties>, toNumber: string -> Num)
    ensures IsPowerOfTwo(TileSize(props, toNumber))
    ensures IsPowerOfTwo(TileWidth(props, toNumber)) ==>
      TileSize(props, toNumber) == TileWidth(props, toNumber)
  {
    Pow2IsPow2(9);
    assert Pow2(9) == 512;
  }

  lemma JsAndOne(x: int)
    ensures JsAnd(x, 1) == x % 2
    ensures JsAnd(x, 0) == 0
  {
    JsAndMask(x, 1);
    AndLowMask(ToUint32(x), 1);
    assert Pow2(1) == 2;
    var q := x / TWO32;
    assert x == TWO32 * q + ToUint32(x);
    assert TWO32 * q == 2 * (TWO31 * q);
    JsAndMask(x, 0);
  }

  /** The guard as written is an odd test: it fires exactly when the truncated width is odd and
      the width is not 1, so it never rejects an even width. */
  lemma ResetAsWrittenIsOddTest(w: real)
    ensures ResetAsWritten(w) <==> Trunc(w) % 2 == 1 && w != 1.0
  {
    JsAndOne(Trunc(w));
  }

  lemma AndSelf(m: nat)
    ensures And(m, m) == m
  {
  }

  /** The test the guard means, `(n & (n - 1)) !== 0` for a width 1 <= n < 2^31, fails exactly
      on the powers of two. */
  lemma {:induction false} PowerOfTwoTest(n: nat)
    requires 1 <= n < TWO31
    ensures JsAnd(n, n - 1) == 0 <==> IsPow2(n)
  {
    JsAndSmall(n, n - 1);
    PowerOfTwoAnd(n);
  }

  lemma {:induction false} PowerOfTwoAnd(n: nat)
    requires 1 <= n
    ensures And(n, n - 1) == 0 <==> IsPow2(n)
    decreases n
  {
    if n >= 2 {
      if n % 2 == 0 {
        assert (n - 1) / 2 == n / 2 - 1;
        assert And(n, n - 1) == 2 * And(n / 2, n / 2 - 1);
        PowerOfTwoAnd(n / 2);
      } else {
        assert (n - 1) / 2 == n / 2;
        assert And(n, n - 1) == 2 * And(n / 2, n / 2);
        AndSelf(n / 2);
      }
    }
  }

  /** On a width that is a power of two the guard as written does not fire, so both versions
      agree there. */
  lemma AsWrittenAgreesOnPowersOfTwo(props: Option<Properties>, toNumber: string -> Num)
    requires IsPowerOfTwo(TileWidth(props, toNumber))
    ensures TileSizeAsWritten(props, toNumber) == TileSize(props, toNumber)
  {
    var w := TileWidth(props, toNumber);
    ResetAsWrittenIsOddTest(w);
    assert Trunc(w) == w.Floor;
  }

  /** A tile width of 384, which is not a power of two, passes the guard as written, while the
      intended test replaces it by 512. */
  lemma WidthNotPowerOfTwoKept(toNumber: string -> Num)
    requires toNumber("384") == Val(384.0)
    ensures var props := Some(map["hips_tile_width" := "384"]);
      TileSizeAsWritten(props, toNumber) == 384.0 && !IsPowerOfTwo(384.0)
      && TileSize(props, toNumber) == DEFAULT_TILE_SIZE
  {
    var props := Some(map["hips_tile_width" := "384"]);
    assert TileWidth(props, toNumber) == 384.0;
    ResetAsWrittenIsOddTest(384.0);
    assert (384.0).Floor == 384;
    assert !IsPow2(3);
    assert !IsPow2(384) by {
      assert !IsPow2(6);
      assert !IsPow2(12);
      assert !IsPow2(24);
      assert !IsPow2(48);
      assert !IsPow2(96);
      assert !IsPow2(192);
    }
  }

  // ---------------------------------------------------------------------------------------
  // The other readers of PropertyParser
  // ---------------------------------------------------------------------------------------

  /** `PropertyParser.cooFrame`: "ICRSd" for a planetary body, else the frame property, else
      "ICRS"; never empty, so it always overrides the option. */
  function CooFrame(props: Option<Properties>): (r: string)
    ensures r != ""
    ensures TruthyProp(props, "hips_body").Some? ==> r == "ICRSd"
  {
    if TruthyProp(props, "hips_body").Some? then "ICRSd"
    else match TruthyProp(props, "hips_frame")
      case Some(f) => f
      case None => "ICRS"
  }

  /** `PropertyParser.maxOrder`, falsy results read as None. */
  function MaxOrder(props: Option<Properties>, toNumber: string -> Num): Option<real>
  {
    NumberProp(props, "hips_order", toNumber)
  }

  /** `PropertyParser.minOrder`: the order, or 0. */
  function MinOrder(props: Option<Properties>, toNumber: string -> Num): real
  {
    match NumberProp(props, "hips_order_min", toNumber)
    case Some(m) => m
    case None => 0.0
  }

  /** `PropertyParser.skyFraction`: the fraction, or 0. */
  function SkyFraction(props: Option<Properties>, toNumber: string -> Num): real
  {
    match NumberProp(props, "moc_sky_fraction", toNumber)
    case Some(f) => f
    case None => 0.0
  }

  /** `PropertyParser.bitpix`, falsy results read as None. */
  function Bitpix(props: Option<Properties>, toNumber: string -> Num): Option<real>
  {
    NumberProp(props, "hips_pixel_bitpix", toNumber)
  }

  /** `PropertyParser.isPlanetaryBody`: a `hips_body` entry is present, even an empty one. */
  predicate IsPlanetaryBody(props: Option<Properties>)
  {
    props.Some? && "hips_body" in props.value
  }

  /** `PropertyParser.cutouts`: the first two space-separated fields of `hips_pixel_cut` through
      parseFloat (a missing second field is `parseFloat(undefined)`, NaN); None for both when the
      property is missing or empty. */
  function Cutouts(props: Option<Properties>, parseFloat: string -> Num): (Option<Num>, Option<Num>)
  {
    match TruthyProp(props, "hips_pixel_cut")
    case None => (None, None)
    case Some(c) =>
      var cuts := Split(c, ' ');
      (Some(parseFloat(cuts[0])), Some(if |cuts| > 1 then parseFloat(cuts[1]) else NaN))
  }

  /** A cut property "min max" gives both numbers. */
  lemma CutoutsOfPair(props: Properties, parseFloat: string -> Num, lo: string, hi: string)
    requires ' ' !in lo && ' ' !in hi
    requires "hips_pixel_cut" in props && props["hips_pixel_cut"] == lo + " " + hi
    ensures Cutouts(Some(props), parseFloat) == (Some(parseFloat(lo)), Some(parseFloat(hi)))
  {
    var c := lo + " " + hi;
    assert c[|lo|] == ' ';
    assert IndexOf(c, ' ') == |lo|;
    assert c[..|lo|] == lo && c[|lo| + 1..] == hi;
    assert IndexOf(hi, ' ') < 0;
    assert Split(c, ' ') == [lo, hi];
  }

  /** The smallest initial field of view the properties may ask for (about 0.1 arcsecond). */
  const MIN_INITIAL_FOV: real := 0.00002777777

  /** `PropertyParser.initialFov`: the field of view, with any value below the minimum (a
      negative one included) replaced by a full 360 degrees; falsy results read as None. */
  function InitialFov(props: Option<Properties>, toNumber: string -> Num): Option<real>
  {
    match NumberProp(props, "hips_initial_fov", toNumber)
    case None => None
    case Some(f) => if f < MIN_INITIAL_FOV then Some(360.0) else Some(f)
  }

  /** The initial field of view is never below the minimum; it is the property's own value
      whenever that is, and missing exactly when the property gives no number. */
  lemma InitialFovBounds(props: Option<Properties>, toNumber: string -> Num)
    ensures var r := InitialFov(props, toNumber);
      && (r.None? <==> NumberProp(props, "hips_initial_fov", toNumber).None?)
      && (r.Some? ==> r.value >= MIN_INITIAL_FOV)
      && (r.Some? && r.value != 360.0 ==> r == NumberProp(props, "hips_initial_fov", toNumber))
  {
  }

  /** The minimum order and the sky fraction are 0 exactly when the property gives no number
      (a missing, empty, NaN or zero value). */
  lemma NumberDefaults(props: Option<Properties>, toNumber: string -> Num)
    ensures MinOrder(props, toNumber) == 0.0 <==> NumberProp(props, "hips_order_min", toNumber).None?
    ensures SkyFraction(props, toNumber) == 0.0
      <==> NumberProp(props, "moc_sky_fraction", toNumber).None?
  {
  }

  // ---------------------------------------------------------------------------------------
  // Tile formats
  // ---------------------------------------------------------------------------------------

  /** The raw `hips_tile_format` value, or "jpeg". */
  function RawFormats(props: Option<Properties>): string
  {
    match TruthyProp(props, "hips_tile_format")
    case Some(f) => f
    case None => "jpeg"
  }

  /** `PropertyParser.formats`: the raw value split on single spaces, each piece lower-cased. */
  function Formats(props: Option<Properties>): (r: seq<string>)
    ensures |r| >= 1
  {
    var pieces := Split(RawFormats(props), ' ');
    seq(|pieces|, i requires 0 <= i < |pieces| => LowerString(pieces[i]))
  }

  lemma LowerSpace(a: string, b: string, sep: char)
    requires !('A' <= sep <= 'Z')
    ensures LowerString(a + [sep] + b) == LowerString(a) + [sep] + LowerString(b)
  {
    LowerConcat(a + [sep], b);
    LowerConcat(a, [sep]);
    assert LowerString([sep]) == [sep];
  }

  /** Lower-casing piece by piece and joining is lower-casing the joined text. */
  lemma {:induction false} JoinLowered(parts: seq<string>, sep: char)
    requires |parts| >= 1 && !('A' <= sep <= 'Z')
    ensures var lowered := seq(|parts|, i requires 0 <= i < |parts| => LowerString(parts[i]));
      JoinWith(lowered, sep) == LowerString(JoinWith(parts, sep))
  {
    var lowered := seq(|parts|, i requires 0 <= i < |parts| => LowerString(parts[i]));
    if |parts| > 1 {
      var rest := parts[1..];
      JoinLowered(rest, sep);
      var loweredRest := seq(|rest|, i requires 0 <= i < |rest| => LowerString(rest[i]));
      assert lowered[1..] == loweredRest;
      LowerSpace(parts[0], JoinWith(rest, sep), sep);
    }
  }

  /** The formats are the lower-cased raw value cut at its spaces: joined again with spaces they
      give it back, no format holds a space or an upper-case letter, and a file without the
      property offers "jpeg" alone. */
  lemma FormatsSplit(props: Option<Properties>)
    ensures JoinWith(Formats(props), ' ') == LowerString(RawFormats(props))
    ensures forall i | 0 <= i < |Formats(props)| ::
      ' ' !in Formats(props)[i] && forall c | c in Formats(props)[i] :: !('A' <= c <= 'Z')
    ensures TruthyProp(props, "hips_tile_format").None? ==> Formats(props) == ["jpeg"]
  {
    FormatsRejoin(props);
    FormatsClean(props);
    if TruthyProp(props, "hips_tile_format").None? {
      FormatsDefault(props);
    }
  }

  lemma FormatsRejoin(props: Option<Properties>)
    ensures JoinWith(Formats(props), ' ') == LowerString(RawFormats(props))
  {
    var raw := RawFormats(props);
    SplitJoin(raw, ' ');
    JoinLowered(Split(raw, ' '), ' ');
  }

  lemma FormatsClean(props: Option<Properties>)
    ensures forall i | 0 <= i < |Formats(props)| ::
      ' ' !in Formats(props)[i] && forall c | c in Formats(props)[i] :: !('A' <= c <= 'Z')
  {
    var raw := RawFormats(props);
    var pieces := Split(raw, ' ');
    SplitPieces(raw, ' ');
    forall i | 0 <= i < |Formats(props)|
      ensures ' ' !in Formats(props)[i] && forall c | c in Formats(props)[i] :: !('A' <= c <= 'Z')
    {
      var f := Formats(props)[i];
      assert f == LowerString(pieces[i]);
      forall j | 0 <= j < |f| ensures f[j] != ' ' && !('A' <= f[j] <= 'Z') {
        assert pieces[i][j] != ' ';
      }
    }
  }

  lemma FormatsDefault(props: Option<Properties>)
    requires TruthyProp(props, "hips_tile_format").None?
    ensures Formats(props) == ["jpeg"]
  {
    assert RawFormats(props) == "jpeg";
    assert IndexOf("jpeg", ' ') < 0;
    assert Split("jpeg", ' ') == ["jpeg"];
    assert LowerString("jpeg") == "jpeg";
  }

  // ---------------------------------------------------------------------------------------
  // The tile format and the frame in _parseProperties
  // ---------------------------------------------------------------------------------------

  /** Why no tile format can be used: the requested one is not provided, or none of the
      offered formats is supported. */
  datatype FormatError = NotProvided(format: string) | Unsupported(formats: seq<string>)

  /** The formats a request is checked against the offer for. */
  const CHECKED_FORMATS: seq<string> := ["fits", "webp", "png", "jpeg"]

  /** The formats in the order they are preferred when none is requested. */
  const PREFERENCE: seq<string> := ["webp", "png", "jpeg", "fits"]

  /** A requested format lower-cased, with "jpg" read as "jpeg". */
  function RequestedFormat(f: string): string
  {
    var lower := LowerString(f);
    if lower == "jpg" then "jpeg" else lower
  }

  /** The tile format: the requested one, unless it is a checked format the offer lacks; with
      no request, the most preferred format offered. */
  function SelectFormat(requested: Option<string>, formats: seq<string>)
    : Result<string, FormatError>
  {
    match requested
    case Some(f) =>
      var fmt := RequestedFormat(f);
      if fmt == "fits" && "fits" !in formats then Err(NotProvided(fmt))
      else if fmt == "webp" && "webp" !in formats then Err(NotProvided(fmt))
      else if fmt == "png" && "png" !in formats then Err(NotProvided(fmt))
      else if fmt == "jpeg" && "jpeg" !in formats then Err(NotProvided(fmt))
      else Ok(fmt)
    case None =>
      if "webp" in formats then Ok("webp")
      else if "png" in formats then Ok("png")
      else if "jpeg" in formats then Ok("jpeg")
      else if "fits" in formats then Ok("fits")
      else Err(Unsupported(formats))
  }

  /** The first of prefs that formats offers. */
  function FirstOffered(prefs: seq<string>, formats: seq<string>): (r: Option<string>)
    ensures r.Some? ==> r.value in prefs && r.value in formats
    ensures r.None? <==> forall i | 0 <= i < |prefs| :: prefs[i] !in formats
  {
    if prefs == [] then None
    else if prefs[0] in formats then Some(prefs[0])
    else FirstOffered(prefs[1..], formats)
  }

  /** With no request, the format chosen is the first of the preference order on offer, and
      the choice fails exactly when none of them is offered. */
  lemma PreferredFormat(formats: seq<string>)
    ensures SelectFormat(None, formats)
      == match FirstOffered(PREFERENCE, formats)
         case Some(f) => Ok(f)
         case None => Err(Unsupported(formats))
  {
    var png, jpeg, fits: seq<string> := ["png", "jpeg", "fits"], ["jpeg", "fits"], ["fits"];
    assert PREFERENCE[0] == "webp" && PREFERENCE[1..] == png;
    assert png[0] == "png" && png[1..] == jpeg;
    assert jpeg[0] == "jpeg" && jpeg[1..] == fits;
    assert fits[0] == "fits" && fits[1..] == [];
    if "webp" !in formats {
      assert FirstOffered(PREFERENCE, formats) == FirstOffered(png, formats);
      if "png" !in formats {
        assert FirstOffered(png, formats) == FirstOffered(jpeg, formats);
        if "jpeg" !in formats {
          assert FirstOffered(jpeg, formats) == FirstOffered(fits, formats);
        }
      }
    }
  }

  /** A request is honoured exactly when it is not a checked format missing from the offer;
      "jpg", in any case, is a request for "jpeg". */
  lemma RequestedFormatChecked(f: string, formats: seq<string>)
    ensures var fmt := RequestedFormat(f);
      SelectFormat(Some(f), formats)
        == if fmt in CHECKED_FORMATS && fmt !in formats then Err(NotProvided(fmt)) else Ok(fmt)
    ensures LowerString(f) == "jpg" ==> RequestedFormat(f) == "jpeg"
  {
  }

  /** Whatever the request, a checked format that is chosen is on offer. */
  lemma SelectedFormatOffered(requested: Option<string>, formats: seq<string>)
    ensures var r := SelectFormat(requested, formats);
      r.Ok? && r.value in CHECKED_FORMATS ==> r.value in formats
  {
  }

  /** The frame `_parseProperties` settles on: ICRS for the equatorial names, GAL for the
      galactic ones, and ICRS (with a warning) for anything else. */
  function NormalisedFrame(f: Option<string>): (r: string)
    ensures r == "ICRS" || r == "GAL"
    ensures r == "GAL" <==> f == Some("galactic") || f == Some("GAL")
  {
    if f == Some("ICRS") || f == Some("ICRSd") || f == Some("equatorial") || f == Some("j2000")
    then "ICRS"
    else if f == Some("galactic") || f == Some("GAL") then "GAL"
    else "ICRS"
  }

  // ---------------------------------------------------------------------------------------
  // The HiPS layer
  // ---------------------------------------------------------------------------------------

  /** The options a HiPS is created with; None stands for an option left undefined. */
  datatype HipsOptions = HipsOptions(
    maxOrder: Option<real>,
    minOrder: Option<real>,
    cooFrame: Option<string>,
    tileSize: Option<real>,
    skyFraction: Option<real>,
    longitudeReversed: Option<bool>,
    imgFormat: Option<string>,
    formats: Option<seq<string>>)

  /** The fields of a HiPS that property parsing sets; None stands for undefined (and, for the
      number fields, any falsy value). */
  datatype HipsState = HipsState(
    maxOrder: Option<real>,
    minOrder: real,
    tileSize: Option<real>,
    formats: Option<seq<string>>,
    cooFrame: Option<string>,
    skyFraction: Option<real>,
    initialFov: Option<real>,
    longitudeReversed: bool,
    imgFormat: Option<string>)

  /** The fields as the constructor sets them from the options. */
  function Initial(options: HipsOptions): HipsState
  {
    HipsState(
      options.maxOrder,
      match options.minOrder case Some(m) => m case None => 0.0,
      options.tileSize,
      options.formats,
      options.cooFrame,
      options.skyFraction,
      None,
      match options.longitudeReversed case Some(b) => b case None => false,
      options.imgFormat)
  }

  /** The format a HiPS was created with, when it is truthy. */
  function Requested(imgFormat: Option<string>): Option<string>
  {
    if imgFormat.Some? && imgFormat.value != "" then imgFormat else None
  }

  /** The orders, the tile size and the formats `_parseProperties` reads. */
  function ReadTilingOf(st: HipsState, props: Properties, toNumber: string -> Num): HipsState
  {
    var p := Some(props);
    var minOrder := MinOrder(p, toNumber);
    st.(
      maxOrder := if MaxOrder(p, toNumber).Some? then MaxOrder(p, toNumber) else st.maxOrder,
      tileSize := Some(TileSizeAsWritten(p, toNumber)),
      formats := Some(Formats(p)),
      minOrder := if minOrder != 0.0 then minOrder else st.minOrder)
  }

  /** The frame, the sky fraction, the initial field of view and the longitude direction
      `_parseProperties` reads. */
  function ReadSkyOf(st: HipsState, props: Properties, toNumber: string -> Num): HipsState
  {
    var p := Some(props);
    st.(
      cooFrame := Some(CooFrame(p)),
      skyFraction := Some(SkyFraction(p, toNumber)),
      initialFov := InitialFov(p, toNumber),
      longitudeReversed := st.longitudeReversed || TruthyProp(p, "hips_body").Some?)
  }

  /** Everything `_parseProperties` reads from the properties before it chooses the format. */
  function ReadFields(st: HipsState, props: Properties, toNumber: string -> Num): HipsState
  {
    ReadSkyOf(ReadTilingOf(st, props, toNumber), props, toNumber)
  }

  /** The format choice against the offer, then the frame normalisation; a request is stored
      lower-cased even when the check then throws. */
  function Chosen(st: HipsState, offered: seq<string>): (HipsState, Option<FormatError>)
  {
    var requested := Requested(st.imgFormat);
    match SelectFormat(requested, offered)
    case Err(e) =>
      (st.(imgFormat := if requested.Some? then Some(RequestedFormat(requested.value)) else st.imgFormat),
       Some(e))
    case Ok(f) => (st.(imgFormat := Some(f), cooFrame := Some(NormalisedFrame(st.cooFrame))), None)
  }

  /** The fields after `_parseProperties`, and the error it throws, if any. The fields read
      before the format check keep their new values when it throws; the frame is normalised
      only after it. */
  function ParsedProperties(st: HipsState, props: Properties, toNumber: string -> Num)
    : (HipsState, Option<FormatError>)
  {
    Chosen(ReadFields(st, props, toNumber), Formats(Some(props)))
  }

  /** After a successful parse: the format is chosen and, if a checked one, offered; the offer
      is the parsed one; the tile size is what `PropertyParser.tileSize` gives, which is the
      width whenever the width is a power of two; the frame is ICRS or GAL, ICRS for a planetary
      body, whose longitudes are then reversed. */
  lemma ParsedLayer(st: HipsState, props: Properties, toNumber: string -> Num)
    ensures var (st', err) := ParsedProperties(st, props, toNumber);
      err.None? ==>
        && st'.formats == Some(Formats(Some(props)))
        && st'.imgFormat.Some?
        && (st'.imgFormat.value in CHECKED_FORMATS ==> st'.imgFormat.value in st'.formats.value)
        && st'.tileSize == Some(TileSizeAsWritten(Some(props), toNumber))
        && (IsPowerOfTwo(TileWidth(Some(props), toNumber)) ==>
              st'.tileSize == Some(TileWidth(Some(props), toNumber)))
        && (st'.cooFrame == Some("ICRS") || st'.cooFrame == Some("GAL"))
        && (TruthyProp(Some(props), "hips_body").Some? ==>
              st'.cooFrame == Some("ICRS") && st'.longitudeReversed)
  {
    TileSizeIsPowerOfTwo(Some(props), toNumber);
    if IsPowerOfTwo(TileWidth(Some(props), toNumber)) {
      AsWrittenAgreesOnPowersOfTwo(Some(props), toNumber);
    }
    SelectedFormatOffered(Requested(st.imgFormat), Formats(Some(props)));
  }

  /** The parse fails exactly when the format choice does, and the fields set before the check
      are the same either way. */
  lemma ParseFailsOnFormatOnly(st: HipsState, props: Properties, toNumber: string -> Num)
    ensures var (st', err) := ParsedProperties(st, props, toNumber);
      && (err.Some? <==> SelectFormat(Requested(st.imgFormat), Formats(Some(props))).Err?)
      && st'.minOrder == (if MinOrder(Some(props), toNumber) != 0.0
                          then MinOrder(Some(props), toNumber) else st.minOrder)
      && st'.initialFov == InitialFov(Some(props), toNumber)
  {
  }

  /** An empty properties file: a 512 tile size, the "jpeg" offer, the minimum order kept, no
      initial field of view, the ICRS frame and, with no request, the jpeg format. */
  lemma ParsedEmptyProperties(st: HipsState, toNumber: string -> Num)
    requires st.imgFormat.None?
    ensures ParsedProperties(st, map[], toNumber)
      == (st.(tileSize := Some(DEFAULT_TILE_SIZE), formats := Some(["jpeg"]), cooFrame := Some("ICRS"),
              skyFraction := Some(0.0), initialFov := None, imgFormat := Some("jpeg")), None)
  {
    var p: Option<Properties> := Some(map[]);
    FormatsSplit(p);
    assert Formats(p) == ["jpeg"];
    assert TileSizeAsWritten(p, toNumber) == DEFAULT_TILE_SIZE by {
      ResetAsWrittenIsOddTest(DEFAULT_TILE_SIZE);
      assert Trunc(DEFAULT_TILE_SIZE) == 512;
    }
    var read := ReadFields(st, map[], toNumber);
    assert read == st.(tileSize := Some(DEFAULT_TILE_SIZE), formats := Some(["jpeg"]),
                       cooFrame := Some("ICRS"), skyFraction := Some(0.0), initialFov := None);
    assert SelectFormat(None, ["jpeg"]) == Ok("jpeg");
  }

  // ---------------------------------------------------------------------------------------
  // The index of a local HiPS folder
  // ---------------------------------------------------------------------------------------

  /** A file of a local HiPS folder: its path relative to the chosen folder, and the identity
      of the file object. */
  datatype LocalFile = LocalFile(path: string, id: nat)

  /** Where a tile file is filed: `localFiles[order][ipix][format]`. */
  datatype TileKey = TileKey(order: Num, ipix: Num, format: string)

  /** The index: tiles by order, pixel and format, and the properties and MOC files. */
  datatype LocalFiles = LocalFiles(
    tiles: map<Num, map<Num, map<string, LocalFile>>>,
    properties: Option<LocalFile>,
    moc: Option<LocalFile>)

  predicate IsTilePath(path: string)
  {
    Includes(path, "Norder") && Includes(path, "Npix")
  }

  /** The key of a tile path: the order is the text after the first "Norder" up to the next
      '/', the pixel the text after the first "Npix" up to the next '.', and the format the
      text after that dot up to the one after it ("undefined" when there is no dot). */
  function TileKeyOf(path: string, toNumber: string -> Num): TileKey
    requires IsTilePath(path)
  {
    var order := Split(path[Find(path, "Norder") + 6..], '/')[0];
    var tile := Split(path[Find(path, "Npix") + 4..], '.');
    TileKey(toNumber(order), toNumber(tile[0]), if |tile| > 1 then tile[1] else "undefined")
  }

  /** The file filed under k, if any. */
  function Lookup(tiles: map<Num, map<Num, map<string, LocalFile>>>, k: TileKey)
    : Option<LocalFile>
  {
    if k.order in tiles && k.ipix in tiles[k.order] && k.format in tiles[k.order][k.ipix]
    then Some(tiles[k.order][k.ipix][k.format])
    else None
  }

  /** The tiles with file filed under k, creating the inner maps that are missing. */
  function Put(tiles: map<Num, map<Num, map<string, LocalFile>>>, k: TileKey, file: LocalFile)
    : map<Num, map<Num, map<string, LocalFile>>>
  {
    var byPixel := if k.order in tiles then tiles[k.order] else map[];
    var byFormat := if k.ipix in byPixel then byPixel[k.ipix] else map[];
    tiles[k.order := byPixel[k.ipix := byFormat[k.format := file]]]
  }

  /** Filing a file changes what is filed under its key and nothing else. */
  lemma PutLookup(tiles: map<Num, map<Num, map<string, LocalFile>>>, k: TileKey,
                  file: LocalFile, other: TileKey)
    ensures Lookup(Put(tiles, k, file), other)
      == if other == k then Some(file) else Lookup(tiles, other)
  {
  }

  /** The index after one more file of the list. */
  function Indexed(lf: LocalFiles, file: LocalFile, toNumber: string -> Num): LocalFiles
  {
    var path := file.path;
    var withTile :=
      if IsTilePath(path) then lf.(tiles := Put(lf.tiles, TileKeyOf(path, toNumber), file))
      else lf;
    var withProperties :=
      if Includes(path, "properties") then withTile.(properties := Some(file)) else withTile;
    if Includes(path, "Moc") then withProperties.(moc := Some(file)) else withProperties
  }

  /** The index of a list of files, filed in list order. */
  function IndexFiles(files: seq<LocalFile>, toNumber: string -> Num): LocalFiles
  {
    if files == [] then LocalFiles(map[], None, None)
    else Indexed(IndexFiles(files[..|files| - 1], toNumber), files[|files| - 1], toNumber)
  }

  /** The last position whose file satisfies p, or -1. */
  function LastWhere(files: seq<LocalFile>, p: LocalFile -> bool): (r: int)
    ensures -1 <= r < |files|
    ensures r >= 0 ==> p(files[r])
    ensures forall i | r < i < |files| :: !p(files[i])
  {
    if files == [] then -1
    else if p(files[|files| - 1]) then |files| - 1
    else LastWhere(files[..|files| - 1], p)
  }

  function At(files: seq<LocalFile>, i: int): Option<LocalFile>
    requires i < |files|
  {
    if i < 0 then None else Some(files[i])
  }

  /** Tile files whose path has key k. */
  function KeyedAs(k: TileKey, toNumber: string -> Num): LocalFile -> bool
  {
    (f: LocalFile) => IsTilePath(f.path) && TileKeyOf(f.path, toNumber) == k
  }

  /** Files whose path contains name. */
  function Named(name: string): LocalFile -> bool
  {
    (f: LocalFile) => Includes(f.path, name)
  }

  lemma IndexedStep(lf: LocalFiles, file: LocalFile, toNumber: string -> Num)
    ensures Indexed(lf, file, toNumber).tiles
      == if IsTilePath(file.path) then Put(lf.tiles, TileKeyOf(file.path, toNumber), file) else lf.tiles
    ensures Indexed(lf, file, toNumber).properties
      == if Named("properties")(file) then Some(file) else lf.properties
    ensures Indexed(lf, file, toNumber).moc == if Named("Moc")(file) then Some(file) else lf.moc
  {
  }

  /** Under every key the index holds the last tile file of the list with that key, and
      nothing when there is none. */
  lemma {:induction false} IndexedTiles(files: seq<LocalFile>, toNumber: string -> Num, k: TileKey)
    ensures Lookup(IndexFiles(files, toNumber).tiles, k)
      == At(files, LastWhere(files, KeyedAs(k, toNumber)))
  {
    if files != [] {
      var init, last := files[..|files| - 1], files[|files| - 1];
      var before := IndexFiles(init, toNumber);
      var keyed := KeyedAs(k, toNumber);
      IndexedTiles(init, toNumber, k);
      IndexedStep(before, last, toNumber);
      if IsTilePath(last.path) {
        PutLookup(before.tiles, TileKeyOf(last.path, toNumber), last, k);
      }
      if !keyed(last) {
        var i := LastWhere(init, keyed);
        assert LastWhere(files, keyed) == i;
        assert At(files, i) == At(init, i);
      }
    }
  }

  /** The properties and MOC entries are the last files whose paths name them. */
  lemma {:induction false} IndexedNamedFiles(files: seq<LocalFile>, toNumber: string -> Num)
    ensures IndexFiles(files, toNumber).properties == At(files, LastWhere(files, Named("properties")))
    ensures IndexFiles(files, toNumber).moc == At(files, LastWhere(files, Named("Moc")))
  {
    if files != [] {
      var init, last := files[..|files| - 1], files[|files| - 1];
      var props, moc := Named("properties"), Named("Moc");
      IndexedNamedFiles(init, toNumber);
      IndexedStep(IndexFiles(init, toNumber), last, toNumber);
      if !props(last) {
        var i := LastWhere(init, props);
        assert LastWhere(files, props) == i;
        assert At(files, i) == At(init, i);
      }
      if !moc(last) {
        var i := LastWhere(init, moc);
        assert LastWhere(files, moc) == i;
        assert At(files, i) == At(init, i);
      }
    }
  }

  /** The FileList loop of the HiPS constructor. */
  method IndexLocalFiles(files: seq<LocalFile>, toNumber: string -> Num) returns (lf: LocalFiles)
    ensures lf == IndexFiles(files, toNumber)
  {
    lf := LocalFiles(map[], None, None);
    for i := 0 to |files|
      invariant lf == IndexFiles(files[..i], toNumber)
    {
      var file := files[i];
      var path := file.path;
      if IsTilePath(path) {
        var k := TileKeyOf(path, toNumber);
        var byPixel := if k.order in lf.tiles then lf.tiles[k.order] else map[];
        var byFormat := if k.ipix in byPixel then byPixel[k.ipix] else map[];
        lf := lf.(tiles := lf.tiles[k.order := byPixel[k.ipix := byFormat[k.format := file]]]);
      }
      if Includes(path, "properties") {
        lf := lf.(properties := Some(file));
      }
      if Includes(path, "Moc") {
        lf := lf.(moc := Some(file));
      }
      assert files[..i + 1][..i] == files[..i];
    }
    assert files[..|files|] == files;
  }

  /** Where a HiPS is read from: a URL, the files of a local folder (a `FileList`), or an
      index of local files already built (any other object). */
  datatype Location = Url(url: string) | Folder(files: seq<LocalFile>) | Index(index: LocalFiles)

  class HiPS {
    var maxOrder: Option<real>
    var minOrder: real
    var tileSize: Option<real>
    var formats: Option<seq<string>>
    var cooFrame: Option<string>
    var skyFraction: Option<real>
    var initialFov: Option<real>
    var longitudeReversed: bool
    var imgFormat: Option<string>
    var localFiles: Option<LocalFiles>

    function State(): HipsState
      reads this
    {
      HipsState(maxOrder, minOrder, tileSize, formats, cooFrame, skyFraction, initialFov,
                longitudeReversed, imgFormat)
    }

    /** A HiPS from its location and options; a local folder is indexed, an index is kept
        as given, and a URL has no local files. */
    constructor (location: Location, options: HipsOptions, toNumber: string -> Num)
      ensures State() == Initial(options)
      ensures localFiles == match location
                              case Folder(files) => Some(IndexFiles(files, toNumber))
                              case Index(index) => Some(index)
                              case Url(_) => None
    {
      match location {
        case Folder(files) =>
          var lf := IndexLocalFiles(files, toNumber);
          localFiles := Some(lf);
        case Index(index) =>
          localFiles := Some(index);
        case Url(_) =>
          localFiles := None;
      }
      var st := Initial(options);
      maxOrder, minOrder, tileSize, formats := st.maxOrder, st.minOrder, st.tileSize, st.formats;
      cooFrame, skyFraction, initialFov := st.cooFrame, st.skyFraction, st.initialFov;
      longitudeReversed, imgFormat := st.longitudeReversed, st.imgFormat;
    }

    /** `_parseProperties`: reads the properties into the fields; err is what it throws. */
    method ParseProperties(props: Properties, toNumber: string -> Num) returns (err: Option<FormatError>)
      modifies this`maxOrder, this`minOrder, this`tileSize, this`formats, this`cooFrame
      modifies this`skyFraction, this`initialFov, this`longitudeReversed, this`imgFormat
      ensures (State(), err) == ParsedProperties(old(State()), props, toNumber)
    {
      ReadTiling(props, toNumber);
      ReadSky(props, toNumber);
      err := ChooseFormat(Formats(Some(props)));
    }

    /** The part of `_parseProperties` that reads the orders, the tile size and the formats. */
    method ReadTiling(props: Properties, toNumber: string -> Num)
      modifies this`maxOrder, this`minOrder, this`tileSize, this`formats
      ensures State() == ReadTilingOf(old(State()), props, toNumber)
    {
      var p := Some(props);
      var parsedMaxOrder, parsedMinOrder := MaxOrder(p, toNumber), MinOrder(p, toNumber);
      maxOrder := if parsedMaxOrder.Some? then parsedMaxOrder else maxOrder;
      tileSize := Some(TileSizeAsWritten(p, toNumber));
      formats := Some(Formats(p));
      minOrder := if parsedMinOrder != 0.0 then parsedMinOrder else minOrder;
    }

    /** The part of `_parseProperties` that reads the frame, the sky fraction, the initial
        field of view and the planetary body. */
    method ReadSky(props: Properties, toNumber: string -> Num)
      modifies this`cooFrame, this`skyFraction, this`initialFov, this`longitudeReversed
      ensures State() == ReadSkyOf(old(State()), props, toNumber)
    {
      var p := Some(props);
      cooFrame := Some(CooFrame(p));
      skyFraction := Some(SkyFraction(p, toNumber));
      initialFov := InitialFov(p, toNumber);
      longitudeReversed := longitudeReversed || TruthyProp(p, "hips_body").Some?;
    }

    method ChooseFormat(offered: seq<string>) returns (err: Option<FormatError>)
      modifies this`maxOrder, this`minOrder, this`tileSize, this`formats, this`cooFrame
      modifies this`skyFraction, this`initialFov, this`longitudeReversed, this`imgFormat
      ensures (State(), err) == Chosen(old(State()), offered)
    {
      if imgFormat.Some? && imgFormat.value != "" {
        var fmt := RequestedFormat(imgFormat.value);
        imgFormat := Some(fmt);
        if fmt == "fits" && "fits" !in offered {
          return Some(NotProvided(fmt));
        }
        if fmt == "webp" && "webp" !in offered {
          return Some(NotProvided(fmt));
        }
        if fmt == "png" && "png" !in offered {
          return Some(NotProvided(fmt));
        }
        if fmt == "jpeg" && "jpeg" !in offered {
          return Some(NotProvided(fmt));
        }
      } else if "webp" in offered {
        imgFormat := Some("webp");
      } else if "png" in offered {
        imgFormat := Some("png");
      } else if "jpeg" in offered {
        imgFormat := Some("jpeg");
      } else if "fits" in offered {
        imgFormat := Some("fits");
      } else {
        return Some(Unsupported(offered));
      }
      cooFrame := Some(NormalisedFrame(cooFrame));
      err := None;
    }
  }
}

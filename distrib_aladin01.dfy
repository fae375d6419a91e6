// The 0.1 release of the Aladin Lite bundle, where it differs from the 2014 one: a tile
// buffer of 1000 slots that forgets the url "null", and the parsing of coordinate strings in
// decimal or sexagesimal notation into longitude, latitude and precision. Its `Strings.trim`,
// `Tokenizer` and `Downloader` are those of the 2014 bundle (minus CORS) and are reused.

module DistribAladin01 {
  import opened Wrappers
  import opened JsStrings
  import opened DistribAladin

  // ---------------------------------------------------------------------------------------
  // TileBuffer
  // ---------------------------------------------------------------------------------------

  const NB_MAX_TILES_01: nat := 1000

  /** The property name JavaScript uses for a tile's url: null becomes "null". */
  function UrlKey(url: Option<string>): string
  {
    if url.Some? then url.value else "null"
  }

  /** Every url of the map names the slot that holds it; every slot holding a url other
      than "null" is found under it. A tile whose url is the string "null" may be missing
      from the map, since evicting a never-used slot deletes the key "null". */
  predicate Indexed01(tilesMap: map<string, nat>, slots: seq<Option<string>>)
  {
    (forall u | u in tilesMap :: tilesMap[u] < |slots| && slots[tilesMap[u]] == Some(u))
    && (forall i | 0 <= i < |slots| && slots[i].Some? && slots[i].value != "null" ::
          slots[i].value in tilesMap && tilesMap[slots[i].value] == i)
  }

  /** The map never has more urls than there are slots. */
  lemma Indexed01Bound(tilesMap: map<string, nat>, slots: seq<Option<string>>)
    requires Indexed01(tilesMap, slots)
    ensures |tilesMap| <= |slots|
  {
    forall u | u in tilesMap
      ensures u in HeldUrls(slots)
    {
      HeldUrlsSpec(slots, tilesMap[u]);
    }
    SubsetCard(tilesMap.Keys, HeldUrls(slots));
  }

  /** Giving slot p to a url not in the map, after deleting the key of the slot's old url,
      keeps the map and the slots in agreement. */
  lemma Reassigned01Indexed(tilesMap: map<string, nat>, slots: seq<Option<string>>, url: string,
                            p: nat)
    requires Indexed01(tilesMap, slots) && p < |slots| && url !in tilesMap
    ensures Indexed01((tilesMap - {UrlKey(slots[p])})[url := p], slots[p := Some(url)])
  {
  }

  /** `TileBuffer` of the 0.1 release: 1000 slots, url or null each. */
  class TileBuffer {
    var pointer: nat
    var tilesMap: map<string, nat>
    const tilesArray: array<Option<string>>

    ghost predicate Valid()
      reads this, tilesArray
    {
      tilesArray.Length == NB_MAX_TILES_01 && pointer < NB_MAX_TILES_01
      && Indexed01(tilesMap, tilesArray[..])
    }

    constructor()
      ensures Valid() && fresh(tilesArray) && pointer == 0 && tilesMap == map[]
      ensures forall i | 0 <= i < tilesArray.Length :: tilesArray[i] == None
    {
      pointer := 0;
      tilesMap := map[];
      tilesArray := new Option<string>[NB_MAX_TILES_01](_ => None);
    }

    /** `getTile`: the slot the map gives for the url. */
    function GetTile(url: string): (r: Option<nat>)
      reads this, tilesArray
      requires Valid()
      ensures r.Some? ==> r.value < tilesArray.Length && tilesArray[r.value] == Some(url)
      ensures url != "null" ==> (r.Some? <==> Some(url) in tilesArray[..])
    {
      if url in tilesMap then Some(tilesMap[url]) else None
    }

    /** `addTile`: None for a url the map has; otherwise the key of the url the slot under
        the pointer held, "null" for an unused slot, is deleted, the slot is given the url,
        and the pointer moves on, wrapping at 1000. */
    method AddTile(url: string) returns (r: Option<nat>)
      requires Valid()
      modifies this`pointer, this`tilesMap, tilesArray
      ensures Valid()
      ensures old(url in tilesMap) ==> r == None && unchanged(this, tilesArray)
      ensures !old(url in tilesMap) ==>
        r == Some(old(pointer))
        && tilesArray[..] == old(tilesArray[..])[old(pointer) := Some(url)]
        && tilesMap == (old(tilesMap) - {UrlKey(old(tilesArray[pointer]))})[url := old(pointer)]
        && pointer == (old(pointer) + 1) % NB_MAX_TILES_01
    {
      if url in tilesMap {
        return None;
      }
      var curTile := tilesArray[pointer];
      tilesMap := tilesMap - {UrlKey(curTile)};
      Reassigned01Indexed(old(tilesMap), tilesArray[..], url, pointer);
      tilesArray[pointer] := Some(url);
      tilesMap := tilesMap[url := pointer];
      r := Some(pointer);
      pointer := pointer + 1;
      if pointer >= NB_MAX_TILES_01 {
        pointer := 0;
      }
    }
  }

  /** A tile whose url is the string "null" is lost from the map once a never-used slot is
      recycled: slot 0 still holds it, but the map no longer finds it, so the agreement the
      2014 buffer keeps fails. */
  lemma NullUrlForgotten(s0: seq<Option<string>>)
    requires |s0| == NB_MAX_TILES_01 && s0[0] == Some("null")
    requires forall i | 1 <= i < |s0| :: s0[i] == None
    ensures Indexed(map["null" := 0], s0)
    ensures var m1 := (map["null" := 0] - {UrlKey(s0[1])})["a" := 1];
            var s1 := s0[1 := Some("a")];
            Indexed01(m1, s1) && s1[0] == Some("null") && "null" !in m1 && !Indexed(m1, s1)
  {
    var m1 := (map["null" := 0] - {UrlKey(s0[1])})["a" := 1];
    var s1 := s0[1 := Some("a")];
    assert m1 == map["a" := 1];
    assert s1[0].Some? && s1[0].value !in m1;
  }

  // ---------------------------------------------------------------------------------------
  // Numbers
  // ---------------------------------------------------------------------------------------

  function Add(a: Num, b: Num): Num
  {
    if a.Val? && b.Val? then Val(a.v + b.v) else NaN
  }

  function Mul(a: Num, b: Num): Num
  {
    if a.Val? && b.Val? then Val(a.v * b.v) else NaN
  }

  function Neg(a: Num): Num
  {
    if a.Val? then Val(-a.v) else NaN
  }

  // ---------------------------------------------------------------------------------------
  // Coo.parse
  // ---------------------------------------------------------------------------------------

  /** `Coo.factor[i]`: seconds per degree, minute and second; `undefined`, so NaN, past
      the third field. */
  function Factor(i: nat): Num
  {
    if i == 0 then Val(3600.0) else if i == 1 then Val(60.0) else if i == 2 then Val(1.0)
    else NaN
  }

  /** The sum, in seconds, of the sexagesimal fields read so far. */
  function SexaSum(parseFloat: string -> Num, toks: seq<string>): Num
  {
    if toks == [] then Val(0.0)
    else Add(SexaSum(parseFloat, toks[..|toks| - 1]),
             Mul(parseFloat(toks[|toks| - 1]), Factor(|toks| - 1)))
  }

  /** The precision the `switch` of field i sets: 1 or 2 for degrees, 3 or 4 for minutes,
      5 or more for seconds with decimals; from the fourth field on it is kept. */
  function PrecStep(pr: int, i: nat, tok: string): int
  {
    var dec := IndexOf(tok, '.');
    if i == 0 then (if dec < 0 then 1 else 2)
    else if i == 1 then (if dec < 0 then 3 else 4)
    else if i == 2 then (if dec < 0 then 5 else 4 + |tok| - dec)
    else pr
  }

  function SexaPrec(toks: seq<string>): int
  {
    if toks == [] then 0 else PrecStep(SexaPrec(toks[..|toks| - 1]), |toks| - 1, toks[|toks| - 1])
  }

  /** The precision of a decimal number: the count of characters after its first '.'. */
  function DecimalPrec(s: string): (r: int)
    ensures 0 <= r < |s| || r == 0
  {
    var p := IndexOf(s, '.');
    if p < 0 then 0 else |s| - p - 1
  }

  /** The precision of a decimal number is the length of its fraction. */
  lemma DecimalPrecFraction(a: string, b: string)
    requires '.' !in a
    ensures DecimalPrec(a + "." + b) == |b|
  {
    var s := a + "." + b;
    assert s[|a|] == '.';
    assert forall i | 0 <= i < |a| :: s[i] == a[i];
    assert IndexOf(s, '.') == |a|;
  }

  /** Sexagesimal fields without decimals give the precisions 1, 3 and 5 for one, two and
      three fields. */
  lemma {:induction false} SexaPrecWhole(toks: seq<string>)
    requires forall i | 0 <= i < |toks| :: '.' !in toks[i]
    ensures SexaPrec(toks) == if |toks| == 0 then 0
                              else if |toks| >= 3 then 5 else 2 * |toks| - 1
  {
    if toks != [] {
      SexaPrecWhole(toks[..|toks| - 1]);
    }
  }

  /** Three fields read as degrees (or hours), minutes and seconds. */
  lemma SexaSumThree(parseFloat: string -> Num, d: string, m: string, s: string)
    requires parseFloat(d).Val? && parseFloat(m).Val? && parseFloat(s).Val?
    ensures SexaSum(parseFloat, [d, m, s])
            == Val(parseFloat(d).v * 3600.0 + parseFloat(m).v * 60.0 + parseFloat(s).v)
  {
    assert [d, m, s][..2] == [d, m];
    assert [d, m][..1] == [d];
    assert [d][..0] == [];
    var x, y, z := parseFloat(d).v, parseFloat(m).v, parseFloat(s).v;
    assert SexaSum(parseFloat, [d]) == Val(0.0 + x * 3600.0);
    assert SexaSum(parseFloat, [d, m]) == Val(0.0 + x * 3600.0 + y * 60.0);
  }

  /** A fourth field makes the value NaN, whatever the fields say. */
  lemma {:induction false} SexaSumTooMany(parseFloat: string -> Num, toks: seq<string>)
    requires |toks| > 3
    ensures SexaSum(parseFloat, toks) == NaN
  {
    if |toks| > 4 {
      SexaSumTooMany(parseFloat, toks[..|toks| - 1]);
    }
  }

  /** Reading one more field extends the sum and the precision by that field's step. */
  lemma SexaSnoc(parseFloat: string -> Num, done: seq<string>, tok: string)
    ensures SexaSum(parseFloat, done + [tok])
            == Add(SexaSum(parseFloat, done), Mul(parseFloat(tok), Factor(|done|)))
    ensures SexaPrec(done + [tok]) == PrecStep(SexaPrec(done), |done|, tok)
  {
    assert (done + [tok])[..|done|] == done;
  }

  lemma ConsumeOne(done: seq<string>, tok: string, before: seq<string>, after: seq<string>)
    requires before == [tok] + after
    ensures (done + [tok]) + after == done + before
  {
  }

  /** `parseLon`: the string trimmed of spaces is a decimal number of degrees if it has no
      space; otherwise sexagesimal fields of hours, minutes and seconds, turned into
      degrees. The second component is the precision `parseLon` records. */
  function LonOf(parseFloat: string -> Num, str: string): (Num, int)
  {
    var s := Trimmed(str, ' ');
    if IndexOf(s, ' ') < 0 then (parseFloat(s), DecimalPrec(s))
    else
      var toks := Tokens(Trimmed(s, ' '), ' ');
      (Mul(SexaSum(parseFloat, toks), Val(15.0 / 3600.0)), SexaPrec(toks))
  }

  /** The sign `parseLat` reads: +1 for a leading '+', -1 for anything else. */
  function LatSign(s: string): real
  {
    if s != [] && s[0] == '+' then 1.0 else -1.0
  }

  /** `parseLat`: the string trimmed of spaces loses its first character, its sign; the
      rest is a decimal number of degrees or sexagesimal degrees, minutes and seconds. */
  function LatOf(parseFloat: string -> Num, str: string): (Num, int)
  {
    var t := Trimmed(str, ' ');
    var sign := LatSign(t);
    var s := if t == [] then [] else t[1..];
    if IndexOf(s, ' ') < 0 then (Mul(parseFloat(s), Val(sign)), DecimalPrec(s))
    else
      var toks := Tokens(Trimmed(s, ' '), ' ');
      (Mul(SexaSum(parseFloat, toks), Val(sign / 3600.0)), SexaPrec(toks))
  }

  /** Where `parse` splits a coordinate string: the first '+', or failing one the first
      '-', or -1. */
  function SignIndex(str: string): (p: int)
    ensures p == -1 <==> '+' !in str && '-' !in str
    ensures p >= 0 ==> p < |str| && (str[p] == '+' || str[p] == '-')
    ensures p >= 0 && str[p] == '-' ==> '+' !in str && '-' !in str[..p]
    ensures p >= 0 && str[p] == '+' ==> '+' !in str[..p]
  {
    var p := IndexOf(str, '+');
    if p < 0 then IndexOf(str, '-') else p
  }

  /** A '+' or '-' as the first character of the latitude sets its sign, and no other. */
  lemma LatSignSymmetric(parseFloat: string -> Num, rest: string)
    requires rest == [] || rest[|rest| - 1] != ' '
    ensures LatOf(parseFloat, "+" + rest).0 == Neg(LatOf(parseFloat, "-" + rest).0)
    ensures LatOf(parseFloat, "+" + rest).1 == LatOf(parseFloat, "-" + rest).1
  {
    TrimmedSigned('+', rest);
    TrimmedSigned('-', rest);
    assert ("+" + rest)[1..] == rest && ("-" + rest)[1..] == rest;
  }

  /** Any first character other than '+' reads as a minus sign, and is dropped. */
  lemma LatSignOtherwiseMinus(parseFloat: string -> Num, c: char, rest: string)
    requires c != '+' && c != ' ' && (rest == [] || rest[|rest| - 1] != ' ')
    ensures LatOf(parseFloat, [c] + rest) == LatOf(parseFloat, "-" + rest)
  {
    TrimmedSigned(c, rest);
    TrimmedSigned('-', rest);
    assert ([c] + rest)[1..] == rest && ("-" + rest)[1..] == rest;
  }

  /** A string starting and ending with something other than a space is its own trim. */
  lemma TrimmedSigned(c: char, rest: string)
    requires c != ' ' && (rest == [] || rest[|rest| - 1] != ' ')
    ensures Trimmed([c] + rest, ' ') == [c] + rest
  {
    var s := [c] + rest;
    assert StripStart(s, ' ') == s;
    assert s[|s| - 1] != ' ';
  }

  /** `Coo.parse`: no sign gives NaN for both angles and precision 0; otherwise the text
      before the sign is the longitude and the rest the latitude, and the precision is the
      latitude's. */
  function CooOf(parseFloat: string -> Num, str: string): (r: (Num, Num, int))
    ensures '+' !in str && '-' !in str ==> r == (NaN, NaN, 0)
  {
    var p := SignIndex(str);
    if p < 0 then (NaN, NaN, 0)
    else
      var lat := LatOf(parseFloat, str[p..]);
      (LonOf(parseFloat, str[..p]).0, lat.0, lat.1)
  }

  /** `Coo`, with the fields `parse` sets. The cartesian fields are not modelled. */
  class Coo {
    var lon: Num
    var lat: Num
    var prec: int

    /** `new Coo(longitude, latitude, prec)`. A missing angle, as in `new Coo()` before
        `parse`, is passed as NaN, which is what arithmetic makes of `undefined`; a missing
        precision is passed as 0. */
    constructor(longitude: Num, latitude: Num, precision: int)
      ensures lon == longitude && lat == latitude && prec == precision
    {
      lon, lat, prec := longitude, latitude, precision;
    }

    /** `parse`. `parseFloat` is JavaScript's, given as a parameter. */
    method Parse(str: string, parseFloat: string -> Num)
      modifies this
      ensures (lon, lat, prec) == CooOf(parseFloat, str)
    {
      var p := IndexOf(str, '+');
      if p < 0 {
        p := IndexOf(str, '-');
      }
      if p < 0 {
        lon, lat, prec := NaN, NaN, 0;
        return;
      }
      var strlon := str[..p];
      var strlat := str[p..];
      lon := ParseLon(strlon, parseFloat);
      lat := ParseLat(strlat, parseFloat);
    }

    /** `parseLon`: the longitude in degrees; sets the precision. */
    method ParseLon(str: string, parseFloat: string -> Num) returns (v: Num)
      modifies this`prec
      ensures (v, prec) == LonOf(parseFloat, str)
    {
      var s := Trim(str, ' ');
      if IndexOf(s, ' ') < 0 {
        var p := IndexOf(s, '.');
        prec := if p < 0 then 0 else |s| - p - 1;
        return parseFloat(s);
      }
      var l, pr := ReadSexagesimal(s, parseFloat);
      prec := pr;
      v := Mul(l, Val(15.0 / 3600.0));
    }

    /** `parseLat`: the latitude in degrees; sets the precision. */
    method ParseLat(str: string, parseFloat: string -> Num) returns (v: Num)
      modifies this`prec
      ensures (v, prec) == LatOf(parseFloat, str)
    {
      var t := Trim(str, ' ');
      var sign := if |t| > 0 && t[0] == '+' then 1.0 else -1.0;
      var s := if |t| > 0 then t[1..] else [];
      if IndexOf(s, ' ') < 0 {
        var p := IndexOf(s, '.');
        prec := if p < 0 then 0 else |s| - p - 1;
        return Mul(parseFloat(s), Val(sign));
      }
      var l, pr := ReadSexagesimal(s, parseFloat);
      prec := pr;
      v := Mul(l, Val(sign / 3600.0));
    }
  }

  /** The `Tokenizer` loop shared by `parseLon` and `parseLat`: the sum in seconds of the
      space-separated fields, and the precision they set. */
  method ReadSexagesimal(s: string, parseFloat: string -> Num) returns (l: Num, pr: int)
    ensures l == SexaSum(parseFloat, Tokens(Trimmed(s, ' '), ' '))
    ensures pr == SexaPrec(Tokens(Trimmed(s, ' '), ' '))
  {
    var stok := new Tokenizer(s, ' ');
    assert stok.text[0..] == stok.text;
    ghost var all := stok.Remaining();
    ghost var done: seq<string> := [];
    var i := 0;
    l, pr := Val(0.0), 0;
    while stok.HasMore()
      invariant stok.Valid() && stok.sep == ' '
      invariant done + stok.Remaining() == all && i == |done|
      invariant l == SexaSum(parseFloat, done) && pr == SexaPrec(done)
      decreases |stok.text| - stok.pos
    {
      ghost var before := stok.Remaining();
      var tok := stok.NextToken();
      var dec := IndexOf(tok, '.');
      l := Add(l, Mul(parseFloat(tok), Factor(i)));
      if i == 0 {
        pr := if dec < 0 then 1 else 2;
      } else if i == 1 {
        pr := if dec < 0 then 3 else 4;
      } else if i == 2 {
        pr := if dec < 0 then 5 else 4 + |tok| - dec;
      }
      i := i + 1;
      SexaSnoc(parseFloat, done, tok);
      ConsumeOne(done, tok, before, stok.Remaining());
      done := done + [tok];
    }
    assert stok.Remaining() == [];
    assert done + [] == done;
  }
}

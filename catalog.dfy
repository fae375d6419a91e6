// The column logic of a catalogue in src/js/Catalog.js: finding the right ascension and
// declination columns among the fields of a table (`findRADecFields`), keying the fields
// (`parseFields`), and the three parallel arrays a catalogue keeps, its sources and their
// right ascensions and declinations (`addSources`, `remove`, `getSource`).

module AladinCatalog {
  import opened Wrappers
  import opened JsStrings

  // ---------------------------------------------------------------------------------------
  // Fields and how a column is designated
  // ---------------------------------------------------------------------------------------

  /** A field of a table: its optional ID, name and UCD (unified content descriptor). */
  datatype Field = Field(id: Option<string>, name: Option<string>, ucd: Option<string>)

  /** A column given by the caller: an integer index, or the ID or name of a field. */
  datatype FieldRef = Index(i: int) | Name(s: string)

  predicate TruthyString(s: Option<string>)
  {
    s.Some? && s.value != ""
  }

  predicate TruthyRef(ref: Option<FieldRef>)
  {
    match ref
    case None => false
    case Some(Index(i)) => i != 0
    case Some(Name(s)) => s != ""
  }

  /** A column index found so far; index 0 is falsy and counts as not found. */
  predicate TruthyIndex(idx: Option<int>)
  {
    idx.Some? && idx.value != 0
  }

  /** The field is the one whose ID or name is s. */
  predicate Designates(f: Field, s: string)
  {
    (TruthyString(f.id) && f.id.value == s) || (TruthyString(f.name) && f.name.value == s)
  }

  /** The first field that s designates. */
  function FirstDesignated(fields: seq<Field>, s: string): (r: Option<nat>)
    ensures r.None? <==> forall l | 0 <= l < |fields| :: !Designates(fields[l], s)
    ensures r.Some? ==> r.value < |fields| && Designates(fields[r.value], s)
                        && forall l | 0 <= l < r.value :: !Designates(fields[l], s)
  {
    if fields == [] then None
    else if Designates(fields[0], s) then Some(0)
    else match FirstDesignated(fields[1..], s)
      case None => None
      case Some(k) =>
        assert forall l | 1 <= l < k + 1 :: fields[l] == fields[1..][l - 1];
        Some(k + 1)
  }

  /** The column a given reference resolves to: an integer index below the number of
      fields is taken as it is (a negative one too), a string is looked up among the IDs
      and names; a falsy reference, an index past the end, or no field at all resolve to
      nothing. */
  function GivenColumn(fields: seq<Field>, ref: Option<FieldRef>): (r: Option<int>)
    ensures r.Some? ==> r.value < |fields|
    ensures r.Some? && ref.Some? && ref.value.Name? ==> 0 <= r.value && Designates(fields[r.value], ref.value.s)
  {
    if !TruthyRef(ref) || fields == [] then None
    else match ref.value
      case Index(i) => if i < |fields| then Some(i) else None
      case Name(s) => match FirstDesignated(fields, s)
        case None => None
        case Some(k) => Some(k)
  }

  // ---------------------------------------------------------------------------------------
  // The two guessing heuristics
  // ---------------------------------------------------------------------------------------

  /** The UCD heuristic, then the column-name heuristic. */
  datatype Heuristic = Ucds | Names

  /** The lower-cased UCD of a field, without surrounding white space. */
  function UcdOf(f: Field): string
    requires f.ucd.Some?
  {
    TrimWhiteSpace(LowerString(f.ucd.value))
  }

  /** The lower-cased name of a field, or its ID, or the empty string. */
  function NameOf(f: Field): string
  {
    LowerString(if TruthyString(f.name) then f.name.value
                else if TruthyString(f.id) then f.id.value else "")
  }

  /** Some string of ps is a prefix of s (`s.indexOf(p) == 0`). */
  predicate PrefixedBy(s: string, ps: seq<string>)
  {
    ps != [] && (StartsWith(s, ps[0]) || PrefixedBy(s, ps[1..]))
  }

  /** The name prefixes of right ascension columns, as listed (one of them twice). */
  const RA_NAMES: seq<string> := ["ra", "_ra", "ra(icrs)", "_ra", "alpha"]

  /** The name prefixes of declination columns. */
  const DEC_NAMES: seq<string> := ["dej2000", "_dej2000", "de", "de(icrs)", "_de", "delta"]

  /** The field looks like a right ascension column to the heuristic. */
  predicate LooksRa(h: Heuristic, f: Field)
  {
    match h
    case Ucds => TruthyString(f.ucd)
                 && PrefixedBy(UcdOf(f), ["pos.eq.ra", "pos_eq_ra"])
    case Names => PrefixedBy(NameOf(f), RA_NAMES)
  }

  /** The field looks like a declination column to the heuristic. */
  predicate LooksDec(h: Heuristic, f: Field)
  {
    match h
    case Ucds => TruthyString(f.ucd)
                 && PrefixedBy(UcdOf(f), ["pos.eq.dec", "pos_eq_dec"])
    case Names => PrefixedBy(NameOf(f), DEC_NAMES)
  }

  /** The columns found so far: right ascension, declination. */
  type Found = (Option<int>, Option<int>)

  /** Which fields look like a right ascension column to the heuristic. */
  function RaFlags(h: Heuristic, fields: seq<Field>): (r: seq<bool>)
    ensures |r| == |fields| && forall i | 0 <= i < |fields| :: r[i] == LooksRa(h, fields[i])
  {
    seq(|fields|, i requires 0 <= i < |fields| => LooksRa(h, fields[i]))
  }

  /** Which fields look like a declination column to the heuristic. */
  function DecFlags(h: Heuristic, fields: seq<Field>): (r: seq<bool>)
    ensures |r| == |fields| && forall i | 0 <= i < |fields| :: r[i] == LooksDec(h, fields[i])
  {
    seq(|fields|, i requires 0 <= i < |fields| => LooksDec(h, fields[i]))
  }

  /** A heuristic's pass over the fields from l on, given which fields look like a right
      ascension and which like a declination: a field is taken as the right ascension
      column while none truthy is found yet, else as the declination column likewise. The
      UCD pass (`stops`) ends as soon as both are found, index 0 included; the name pass
      goes on to the last field. */
  function Scan(isRa: seq<bool>, isDec: seq<bool>, stops: bool, l: nat, found: Found): (r: Found)
    requires |isDec| == |isRa| && l <= |isRa|
    decreases |isRa| - l
  {
    var (ra, dec) := found;
    if l == |isRa| || (stops && ra.Some? && dec.Some?) then found
    else if !TruthyIndex(ra) && isRa[l] then Scan(isRa, isDec, stops, l + 1, (Some(l), dec))
    else if !TruthyIndex(dec) && isDec[l] then Scan(isRa, isDec, stops, l + 1, (ra, Some(l)))
    else Scan(isRa, isDec, stops, l + 1, found)
  }

  /** The pass of a heuristic over all the fields. */
  function Pass(h: Heuristic, fields: seq<Field>, found: Found): Found
  {
    Scan(RaFlags(h, fields), DecFlags(h, fields), h == Ucds, 0, found)
  }

  /** The given columns, resolved. */
  function Given(fields: seq<Field>, raField: Option<FieldRef>, decField: Option<FieldRef>): Found
  {
    (GivenColumn(fields, raField), GivenColumn(fields, decField))
  }

  /** What follows the UCD pass: the name pass only when neither column is found; columns
      0 and 1 when either is still missing. */
  function Located(fields: seq<Field>, afterUcds: Found): (int, int)
  {
    var found := if afterUcds.0.None? && afterUcds.1.None? then Pass(Names, fields, (None, None))
                 else afterUcds;
    if found.0.None? || found.1.None? then (0, 1) else (found.0.value, found.1.value)
  }

  /** `findRADecFields`: the given columns, completed by the UCD pass, then located. */
  function FindRADec(fields: seq<Field>, raField: Option<FieldRef>, decField: Option<FieldRef>): (int, int)
  {
    Located(fields, Pass(Ucds, fields, Given(fields, raField, decField)))
  }

  /** A pass over fields none of which is recognised finds nothing new. */
  lemma {:induction false} ScanNothing(isRa: seq<bool>, isDec: seq<bool>, stops: bool, l: nat, found: Found)
    requires |isDec| == |isRa| && l <= |isRa|
    requires forall m | l <= m < |isRa| :: !isRa[m] && !isDec[m]
    ensures Scan(isRa, isDec, stops, l, found) == found
    decreases |isRa| - l
  {
    if l < |isRa| {
      ScanNothing(isRa, isDec, stops, l + 1, found);
    }
  }

  /** When k is the first field recognised as a right ascension and j the first recognised
      as a declination, both non-zero and different, a pass from nothing finds (k, j): from
      any point l of it, knowing those found before l. */
  lemma {:induction false} ScanFirst(isRa: seq<bool>, isDec: seq<bool>, stops: bool, l: nat, k: nat, j: nat)
    requires |isDec| == |isRa| && l <= |isRa| && 0 < k < |isRa| && 0 < j < |isRa| && k != j
    requires forall m | 0 <= m < k :: !isRa[m]
    requires forall m | 0 <= m < j :: !isDec[m]
    requires isRa[k] && isDec[j]
    ensures Scan(isRa, isDec, stops, l, (if l > k then Some(k) else None, if l > j then Some(j) else None))
            == (Some(k), Some(j))
    decreases |isRa| - l
  {
    if l < |isRa| && !(stops && l > k && l > j) {
      ScanFirst(isRa, isDec, stops, l + 1, k, j);
    }
  }

  /** Column 0 is falsy: a right ascension found there is replaced by the next one, as
      long as the declination is not yet found. */
  lemma ScanSkipsColumnZero()
    ensures Scan([true, true, false], [false, false, true], true, 0, (None, None)) == (Some(1), Some(2))
  {
  }

  /** Columns given explicitly, as index or name, take precedence when both resolve. */
  lemma GivenColumnsFirst(fields: seq<Field>, raField: Option<FieldRef>, decField: Option<FieldRef>)
    requires GivenColumn(fields, raField).Some? && GivenColumn(fields, decField).Some?
    ensures FindRADec(fields, raField, decField)
            == (GivenColumn(fields, raField).value, GivenColumn(fields, decField).value)
  {
  }

  /** Without given columns, the first columns whose UCDs start with `pos.eq.ra` and
      `pos.eq.dec` are taken, when neither is column 0. */
  lemma UcdColumns(fields: seq<Field>, raField: Option<FieldRef>, decField: Option<FieldRef>, k: nat, j: nat)
    requires GivenColumn(fields, raField).None? && GivenColumn(fields, decField).None?
    requires 0 < k < |fields| && 0 < j < |fields| && k != j
    requires forall m | 0 <= m < k :: !LooksRa(Ucds, fields[m])
    requires forall m | 0 <= m < j :: !LooksDec(Ucds, fields[m])
    requires LooksRa(Ucds, fields[k]) && LooksDec(Ucds, fields[j])
    ensures FindRADec(fields, raField, decField) == (k, j)
  {
    assert Pass(Ucds, fields, (None, None)) == (Some(k), Some(j)) by {
      ScanFirst(RaFlags(Ucds, fields), DecFlags(Ucds, fields), true, 0, k, j);
    }
  }

  /** Without given columns and without position UCDs, the first columns whose names look
      like a right ascension and a declination are taken, when neither is column 0. */
  lemma NameColumns(fields: seq<Field>, raField: Option<FieldRef>, decField: Option<FieldRef>, k: nat, j: nat)
    requires GivenColumn(fields, raField).None? && GivenColumn(fields, decField).None?
    requires forall m | 0 <= m < |fields| :: !LooksRa(Ucds, fields[m]) && !LooksDec(Ucds, fields[m])
    requires 0 < k < |fields| && 0 < j < |fields| && k != j
    requires forall m | 0 <= m < k :: !LooksRa(Names, fields[m])
    requires forall m | 0 <= m < j :: !LooksDec(Names, fields[m])
    requires LooksRa(Names, fields[k]) && LooksDec(Names, fields[j])
    ensures FindRADec(fields, raField, decField) == (k, j)
  {
    assert Pass(Ucds, fields, (None, None)) == (None, None) by {
      ScanNothing(RaFlags(Ucds, fields), DecFlags(Ucds, fields), true, 0, (None, None));
    }
    assert Pass(Names, fields, (None, None)) == (Some(k), Some(j)) by {
      ScanFirst(RaFlags(Names, fields), DecFlags(Names, fields), false, 0, k, j);
    }
  }

  /** The name pass runs only when neither column is found: one column found, the other
      not, falls back to columns 0 and 1 whatever the names say. */
  lemma HalfFoundFallsBack(fields: seq<Field>, raField: Option<FieldRef>, decField: Option<FieldRef>)
    requires var found := Pass(Ucds, fields, Given(fields, raField, decField));
             found.0.Some? != found.1.Some?
    ensures FindRADec(fields, raField, decField) == (0, 1)
  {
  }

  /** With nothing given and no field recognised by either heuristic, the first two
      columns are taken. */
  lemma LastResort(fields: seq<Field>, raField: Option<FieldRef>, decField: Option<FieldRef>)
    requires GivenColumn(fields, raField).None? && GivenColumn(fields, decField).None?
    requires forall m | 0 <= m < |fields| :: !LooksRa(Ucds, fields[m]) && !LooksDec(Ucds, fields[m])
    requires forall m | 0 <= m < |fields| :: !LooksRa(Names, fields[m]) && !LooksDec(Names, fields[m])
    ensures FindRADec(fields, raField, decField) == (0, 1)
  {
    assert Pass(Ucds, fields, (None, None)) == (None, None) by {
      ScanNothing(RaFlags(Ucds, fields), DecFlags(Ucds, fields), true, 0, (None, None));
    }
    assert Pass(Names, fields, (None, None)) == (None, None) by {
      ScanNothing(RaFlags(Names, fields), DecFlags(Names, fields), false, 0, (None, None));
    }
  }

  /** The search loop for a given column. */
  method FindGivenField(fields: seq<Field>, ref: Option<FieldRef>) returns (idx: Option<int>)
    ensures idx == GivenColumn(fields, ref)
  {
    idx := None;
    if TruthyRef(ref) {
      var l := 0;
      while l < |fields|
        invariant 0 <= l <= |fields|
        invariant idx.None?
        invariant l > 0 && ref.value.Index? ==> ref.value.i >= |fields|
        invariant ref.value.Name? ==> forall m | 0 <= m < l :: !Designates(fields[m], ref.value.s)
      {
        var field := fields[l];
        if ref.value.Index? && ref.value.i < |fields| {
          idx := Some(ref.value.i);
          break;
        }
        if ref.value.Name? && Designates(field, ref.value.s) {
          idx := Some(l);
          break;
        }
        l := l + 1;
      }
    }
  }

  /** One heuristic's loop over the fields. */
  method ScanFields(h: Heuristic, fields: seq<Field>, found: Found) returns (r: Found)
    ensures r == Pass(h, fields, found)
  {
    ghost var isRa, isDec := RaFlags(h, fields), DecFlags(h, fields);
    var (raFieldIdx, decFieldIdx) := found;
    var l := 0;
    while l < |fields|
      invariant 0 <= l <= |fields|
      invariant Scan(isRa, isDec, h == Ucds, l, (raFieldIdx, decFieldIdx)) == Pass(h, fields, found)
    {
      if h == Ucds && raFieldIdx.Some? && decFieldIdx.Some? {
        break;
      }
      var field := fields[l];
      if !TruthyIndex(raFieldIdx) && LooksRa(h, field) {
        raFieldIdx := Some(l);
      } else if !TruthyIndex(decFieldIdx) && LooksDec(h, field) {
        decFieldIdx := Some(l);
      }
      l := l + 1;
    }
    r := (raFieldIdx, decFieldIdx);
  }

  /** `findRADecFields`. */
  method FindRADecFields(fields: seq<Field>, raField: Option<FieldRef>, decField: Option<FieldRef>)
    returns (raFieldIdx: int, decFieldIdx: int)
    ensures (raFieldIdx, decFieldIdx) == FindRADec(fields, raField, decField)
  {
    var ra := FindGivenField(fields, raField);
    var dec := FindGivenField(fields, decField);
    var found := ScanFields(Ucds, fields, (ra, dec));
    if found.0.None? && found.1.None? {
      found := ScanFields(Names, fields, (None, None));
    }
    if found.0.None? || found.1.None? {
      raFieldIdx, decFieldIdx := 0, 1;
    } else {
      raFieldIdx, decFieldIdx := found.0.value, found.1.value;
    }
  }

  // ---------------------------------------------------------------------------------------
  // parseFields
  // ---------------------------------------------------------------------------------------

  /** A keyed field: its name with spaces turned into underscores, and its index. */
  datatype ParsedField = ParsedField(name: string, idx: nat)

  /** The field has a key: a truthy name, or else an ID (possibly empty). */
  predicate HasKey(f: Field)
  {
    TruthyString(f.name) || f.id.Some?
  }

  /** `key.split(' ').join('_')`. */
  function Underscored(s: string): (r: string)
    ensures |r| == |s|
  {
    if s == [] then [] else [if s[0] == ' ' then '_' else s[0]] + Underscored(s[1..])
  }

  /** Every space becomes an underscore and every other character is kept. */
  lemma {:induction false} UnderscoredChars(s: string)
    ensures var r := Underscored(s);
            ' ' !in r && forall i | 0 <= i < |s| :: r[i] == if s[i] == ' ' then '_' else s[i]
  {
    if s != [] {
      UnderscoredChars(s[1..]);
      var r := Underscored(s);
      assert r[1..] == Underscored(s[1..]);
    }
  }

  /** The key of a field: its name if truthy, else its ID, spaces made underscores. */
  function Key(f: Field): string
  {
    Underscored(if TruthyString(f.name) then f.name.value else if f.id.Some? then f.id.value else "")
  }

  /** The entry a field is stored under: 'ra' and 'dec' for the position columns. */
  function EntryName(fields: seq<Field>, i: int, raIdx: int, decIdx: int): string
    requires 0 <= i < |fields|
  {
    if i == raIdx then "ra" else if i == decIdx then "dec" else Key(fields[i])
  }

  /** The entries of the first n fields, each written over the one before it under the same
      entry name; None when one of them has no key (reading its key throws). */
  function ParsedPrefix(fields: seq<Field>, n: nat, raIdx: int, decIdx: int): Option<map<string, ParsedField>>
    requires n <= |fields|
  {
    if n == 0 then Some(map[])
    else match ParsedPrefix(fields, n - 1, raIdx, decIdx)
      case None => None
      case Some(m) =>
        if !HasKey(fields[n - 1]) then None
        else Some(m[EntryName(fields, n - 1, raIdx, decIdx) := ParsedField(Key(fields[n - 1]), n - 1)])
  }

  /** Parsing fails exactly when some field has no key. */
  lemma {:induction false} ParsedFails(fields: seq<Field>, n: nat, raIdx: int, decIdx: int)
    requires n <= |fields|
    ensures ParsedPrefix(fields, n, raIdx, decIdx).None? <==> exists i | 0 <= i < n :: !HasKey(fields[i])
  {
    if n > 0 {
      ParsedFails(fields, n - 1, raIdx, decIdx);
    }
  }

  /** Every field has an entry. */
  lemma {:induction false} ParsedCovers(fields: seq<Field>, n: nat, raIdx: int, decIdx: int)
    requires n <= |fields| && ParsedPrefix(fields, n, raIdx, decIdx).Some?
    ensures var m := ParsedPrefix(fields, n, raIdx, decIdx).value;
            forall i | 0 <= i < n :: EntryName(fields, i, raIdx, decIdx) in m
  {
    if n > 0 {
      ParsedCovers(fields, n - 1, raIdx, decIdx);
    }
  }

  /** Each entry is the last field stored under its name, with that field's key and index. */
  lemma {:induction false} ParsedLastWins(fields: seq<Field>, n: nat, raIdx: int, decIdx: int)
    requires n <= |fields| && ParsedPrefix(fields, n, raIdx, decIdx).Some?
    ensures var m := ParsedPrefix(fields, n, raIdx, decIdx).value;
      forall e | e in m ::
        m[e].idx < n && EntryName(fields, m[e].idx, raIdx, decIdx) == e
        && m[e].name == Key(fields[m[e].idx])
        && forall j | m[e].idx < j < n :: EntryName(fields, j, raIdx, decIdx) != e
  {
    if n > 0 {
      ParsedLastWins(fields, n - 1, raIdx, decIdx);
      var m' := ParsedPrefix(fields, n - 1, raIdx, decIdx).value;
      var last := EntryName(fields, n - 1, raIdx, decIdx);
      var m := ParsedPrefix(fields, n, raIdx, decIdx).value;
      assert m == m'[last := ParsedField(Key(fields[n - 1]), n - 1)];
      forall e | e in m
        ensures m[e].idx < n && EntryName(fields, m[e].idx, raIdx, decIdx) == e
                && m[e].name == Key(fields[m[e].idx])
                && forall j | m[e].idx < j < n :: EntryName(fields, j, raIdx, decIdx) != e
      {
        if e != last {
          var i := m'[e].idx;
          assert m[e] == m'[e];
          assert forall j | i < j < n - 1 :: EntryName(fields, j, raIdx, decIdx) != e;
          assert EntryName(fields, n - 1, raIdx, decIdx) != e;
        } else {
          assert m[e].idx == n - 1;
        }
      }
    }
  }

  /** The right ascension column is stored under 'ra' unless a later field is keyed 'ra'. */
  lemma RaEntry(fields: seq<Field>, raIdx: int, decIdx: int)
    requires 0 <= raIdx < |fields|
    requires ParsedPrefix(fields, |fields|, raIdx, decIdx).Some?
    requires forall j | raIdx < j < |fields| :: EntryName(fields, j, raIdx, decIdx) != "ra"
    ensures var m := ParsedPrefix(fields, |fields|, raIdx, decIdx).value;
            "ra" in m && m["ra"] == ParsedField(Key(fields[raIdx]), raIdx)
  {
    ParsedCovers(fields, |fields|, raIdx, decIdx);
    ParsedLastWins(fields, |fields|, raIdx, decIdx);
    var m := ParsedPrefix(fields, |fields|, raIdx, decIdx).value;
    assert EntryName(fields, raIdx, raIdx, decIdx) == "ra";
  }

  /** The `forEach` loop of `parseFields` over already located columns. */
  method KeyFields(fields: seq<Field>, raFieldIdx: int, decFieldIdx: int)
    returns (parsedFields: Option<map<string, ParsedField>>)
    ensures parsedFields == ParsedPrefix(fields, |fields|, raFieldIdx, decFieldIdx)
  {
    var m: map<string, ParsedField> := map[];
    var fieldIdx := 0;
    while fieldIdx < |fields|
      invariant 0 <= fieldIdx <= |fields|
      invariant ParsedPrefix(fields, fieldIdx, raFieldIdx, decFieldIdx) == Some(m)
    {
      var field := fields[fieldIdx];
      if !HasKey(field) {
        assert ParsedPrefix(fields, fieldIdx + 1, raFieldIdx, decFieldIdx) == None;
        NoneStaysNone(fields, fieldIdx + 1, raFieldIdx, decFieldIdx);
        return None;
      }
      var key := Key(field);
      var nameField := if fieldIdx == raFieldIdx then "ra"
                       else if fieldIdx == decFieldIdx then "dec" else key;
      m := m[nameField := ParsedField(key, fieldIdx)];
      fieldIdx := fieldIdx + 1;
    }
    parsedFields := Some(m);
  }

  lemma {:induction false} NoneStaysNone(fields: seq<Field>, n: nat, raIdx: int, decIdx: int)
    requires n <= |fields| && ParsedPrefix(fields, n, raIdx, decIdx).None?
    ensures ParsedPrefix(fields, |fields|, raIdx, decIdx).None?
    decreases |fields| - n
  {
    if n < |fields| {
      NoneStaysNone(fields, n + 1, raIdx, decIdx);
    }
  }

  /** `Catalog.parseFields`. */
  function ParseFields(fields: seq<Field>, raField: Option<FieldRef>, decField: Option<FieldRef>)
    : Option<map<string, ParsedField>>
  {
    var (raIdx, decIdx) := FindRADec(fields, raField, decField);
    ParsedPrefix(fields, |fields|, raIdx, decIdx)
  }

  method ParseFieldsOf(fields: seq<Field>, raField: Option<FieldRef>, decField: Option<FieldRef>)
    returns (parsedFields: Option<map<string, ParsedField>>)
    ensures parsedFields == ParseFields(fields, raField, decField)
  {
    var raFieldIdx, decFieldIdx := FindRADecFields(fields, raField, decField);
    parsedFields := KeyFields(fields, raFieldIdx, decFieldIdx);
  }

  // ---------------------------------------------------------------------------------------
  // Sources and the parallel ra/dec columns
  // ---------------------------------------------------------------------------------------

  /** A source object: its position, and the keys of its data, in order. */
  class Source {
    const ra: real
    const dec: real
    const dataKeys: seq<string>

    constructor(ra: real, dec: real, dataKeys: seq<string>)
      ensures this.ra == ra && this.dec == dec && this.dataKeys == dataKeys
    {
      this.ra, this.dec, this.dataKeys := ra, dec, dataKeys;
    }
  }

  /** The fields made from a source's data keys when a catalogue has none yet. */
  function DataFields(s: Source): (r: seq<Field>)
    ensures |r| == |s.dataKeys|
  {
    seq(|s.dataKeys|, i requires 0 <= i < |s.dataKeys| => Field(None, Some(s.dataKeys[i]), None))
  }

  /** A data key is empty exactly when the field made of it has no key. */
  lemma DataFieldsKeyed(s: Source)
    ensures forall i | 0 <= i < |s.dataKeys| :: HasKey(DataFields(s)[i]) <==> s.dataKeys[i] != ""
  {
  }

  /** The sources with their positions as columns. */
  datatype Table = Table(sources: seq<Source>, ra: seq<real>, dec: seq<real>)

  /** The columns have one entry per source, its right ascension and declination. */
  predicate Columnar(t: Table)
  {
    |t.ra| == |t.sources| && |t.dec| == |t.sources|
    && forall i | 0 <= i < |t.sources| :: t.ra[i] == t.sources[i].ra && t.dec[i] == t.sources[i].dec
  }

  /** The sources added at the end, their positions pushed on the columns. */
  function Appended(t: Table, news: seq<Source>): Table
  {
    Table(t.sources + news, t.ra + seq(|news|, k requires 0 <= k < |news| => news[k].ra),
          t.dec + seq(|news|, k requires 0 <= k < |news| => news[k].dec))
  }

  /** `indexOf`: the first position of the source object, by identity. */
  function IndexOfSource(sources: seq<Source>, s: Source): (r: Option<nat>)
    ensures r.None? <==> s !in sources
    ensures r.Some? ==> r.value < |sources| && sources[r.value] == s
                        && forall i | 0 <= i < r.value :: sources[i] != s
  {
    if sources == [] then None
    else if sources[0] == s then Some(0)
    else match IndexOfSource(sources[1..], s)
      case None => None
      case Some(k) =>
        assert forall i | 1 <= i < k + 1 :: sources[i] == sources[1..][i - 1];
        Some(k + 1)
  }

  /** The first occurrence of the source taken out of the three arrays; nothing when absent. */
  function Removed(t: Table, s: Source): Table
    requires Columnar(t)
  {
    match IndexOfSource(t.sources, s)
    case None => t
    case Some(i) =>
      Table(t.sources[..i] + t.sources[i + 1..], t.ra[..i] + t.ra[i + 1..], t.dec[..i] + t.dec[i + 1..])
  }

  lemma AppendedColumnar(t: Table, news: seq<Source>)
    requires Columnar(t)
    ensures Columnar(Appended(t, news)) && |Appended(t, news).sources| == |t.sources| + |news|
  {
  }

  /** Removing keeps the columns in step with the sources, one source fewer when present. */
  lemma RemovedColumnar(t: Table, s: Source)
    requires Columnar(t)
    ensures Columnar(Removed(t, s))
    ensures |Removed(t, s).sources| == if s in t.sources then |t.sources| - 1 else |t.sources|
  {
    match IndexOfSource(t.sources, s)
    case None =>
    case Some(i) =>
      var r := Removed(t, s);
      forall k | 0 <= k < |r.sources|
        ensures r.ra[k] == r.sources[k].ra && r.dec[k] == r.sources[k].dec
      {
        if k >= i {
          assert r.sources[k] == t.sources[k + 1] && r.ra[k] == t.ra[k + 1] && r.dec[k] == t.dec[k + 1];
        }
      }
  }

  /** Adding a source the catalogue does not hold and then removing it restores it. */
  lemma RemoveUndoesAdd(t: Table, s: Source)
    requires Columnar(t) && s !in t.sources
    ensures Removed(Appended(t, [s]), s) == t
  {
    var a := Appended(t, [s]);
    assert a.sources == t.sources + [s];
    assert IndexOfSource(a.sources, s) == Some(|t.sources|);
    assert a.sources[..|t.sources|] == t.sources;
    assert a.ra[..|t.sources|] == t.ra;
    assert a.dec[..|t.sources|] == t.dec;
  }

  /** `getSource` on a catalogue's sources: the source at the index, or null past the end (and
      undefined below 0). */
  function SourceAt(sources: seq<Source>, idx: int): (r: Option<Source>)
    ensures r.Some? <==> 0 <= idx < |sources|
    ensures r.Some? ==> r.value == sources[idx]
  {
    if idx < |sources| then (if idx >= 0 then Some(sources[idx]) else None) else None
  }

  /** After adding, the k-th added source is found at its place after the old ones. */
  lemma SourceAtAppended(t: Table, news: seq<Source>, k: nat)
    requires k < |news|
    ensures SourceAt(Appended(t, news).sources, |t.sources| + k) == Some(news[k])
  {
  }

  /** The loop of `addSources`: the sources appended, their positions pushed one by one. */
  method PushPositions(t: Table, news: seq<Source>) returns (r: Table)
    ensures r == Appended(t, news)
  {
    r := t.(sources := t.sources + news);
    var k := 0;
    while k < |news|
      invariant 0 <= k <= |news|
      invariant r == Appended(t, news[..k]).(sources := t.sources + news)
    {
      assert news[..k + 1] == news[..k] + [news[k]];
      r := r.(ra := r.ra + [news[k].ra], dec := r.dec + [news[k].dec]);
      k := k + 1;
    }
    assert news[..k] == news;
  }

  /** A catalogue: its fields once known, the columns it was told to use, and its sources
      with their position columns. */
  class Catalog {
    const raField: Option<FieldRef>
    const decField: Option<FieldRef>
    var fields: Option<map<string, ParsedField>>
    var sources: seq<Source>
    var ra: seq<real>
    var dec: seq<real>

    function Contents(): Table
      reads this
    {
      Table(sources, ra, dec)
    }

    ghost predicate Valid()
      reads this
    {
      Columnar(Contents())
    }

    /** A catalogue without sources and without fields. */
    constructor(raField: Option<FieldRef>, decField: Option<FieldRef>)
      ensures Valid() && Contents() == Table([], [], []) && fields.None?
      ensures this.raField == raField && this.decField == decField
    {
      this.raField, this.decField := raField, decField;
      fields := None;
      sources, ra, dec := [], [], [];
    }

    /** `addSources`: nothing for no sources; a catalogue without fields first takes them
        from the data keys of the first source (which throws, changing nothing, when one of
        them is empty); then the sources are appended and their positions pushed. */
    method AddSources(newSources: seq<Source>) returns (ok: bool)
      requires Valid()
      modifies this
      ensures Valid()
      ensures ok <==> newSources == [] || old(fields).Some? || ParseFields(DataFields(newSources[0]), raField, decField).Some?
      ensures !ok || newSources == [] ==> unchanged(this)
      ensures ok && newSources != [] ==>
        Contents() == Appended(old(Contents()), newSources)
        && fields == if old(fields).Some? then old(fields)
                     else ParseFields(DataFields(newSources[0]), raField, decField)
    {
      if |newSources| == 0 {
        return true;
      }
      if fields.None? {
        var parsed := ParseFieldsOf(DataFields(newSources[0]), raField, decField);
        if parsed.None? {
          return false;
        }
        fields := parsed;
      }
      var t := PushPositions(Contents(), newSources);
      AppendedColumnar(Contents(), newSources);
      sources, ra, dec := t.sources, t.ra, t.dec;
      ok := true;
    }

    /** `remove`: the first occurrence of the source object leaves the three arrays at the
        same index; nothing happens when the catalogue does not hold it. */
    method Remove(source: Source)
      requires Valid()
      modifies this`sources, this`ra, this`dec
      ensures Valid()
      ensures Contents() == Removed(old(Contents()), source)
    {
      var idx := IndexOfSource(sources, source);
      RemovedColumnar(Contents(), source);
      if idx.None? {
        return;
      }
      var i := idx.value;
      sources := sources[..i] + sources[i + 1..];
      ra := ra[..i] + ra[i + 1..];
      dec := dec[..i] + dec[i + 1..];
    }
  }
}

// The SAMP (Simple Application Messaging Protocol) Web Profile client of
// src/js/libs/samp.js: the typing of SAMP values, their XML-RPC encoding, the parameter
// check before a call, the matching of message types against subscriptions, and the
// client tracker that follows the hub's registration events.

module Samp {
  import opened Wrappers
  import opened JsStrings

  // ---------------------------------------------------------------------------------------
  // Values and their SAMP types
  // ---------------------------------------------------------------------------------------

  /** A JavaScript value as far as SAMP is concerned: strings, arrays, plain objects (their
      members in enumeration order), and the values SAMP does not admit. */
  datatype JsValue =
    | JsString(s: string)
    | JsArray(items: seq<JsValue>)
    | JsObject(members: seq<Member>)
    | JsNumber(n: real)
    | JsBool(b: bool)
    | JsNull
    | JsUndefined

  datatype Member = Member(key: string, value: JsValue)

  datatype SampType = TypeString | TypeList | TypeMap

  /** What goes wrong: a value of no SAMP type, an unknown type name in a check list, or
      parameters that do not match the check list. */
  datatype SampError = IllegalType | UnknownType(name: string) | ParamMismatch

  /** `TYPE_STRING`, `TYPE_LIST`, `TYPE_MAP`. */
  function TypeName(t: SampType): string
  {
    match t
    case TypeString => "string"
    case TypeList => "list"
    case TypeMap => "map"
  }

  /** `getSampType`: strings, arrays and objects have a SAMP type; anything else throws. */
  function GetSampType(v: JsValue): (r: Result<SampType, SampError>)
    ensures r.Ok? <==> v.JsString? || v.JsArray? || v.JsObject?
    ensures r.Ok? ==> (r.value == TypeString <==> v.JsString?) && (r.value == TypeList <==> v.JsArray?)
    ensures r.Err? ==> r.error == IllegalType
  {
    match v
    case JsString(_) => Ok(TypeString)
    case JsArray(_) => Ok(TypeList)
    case JsObject(_) => Ok(TypeMap)
    case _ => Err(IllegalType)
  }

  /** A SAMP object: strings, lists and maps all the way down. */
  predicate Legal(v: JsValue)
  {
    match v
    case JsString(_) => true
    case JsArray(items) => forall i | 0 <= i < |items| :: Legal(items[i])
    case JsObject(members) => forall i | 0 <= i < |members| :: Legal(members[i].value)
    case _ => false
  }

  // ---------------------------------------------------------------------------------------
  // escapeXml
  // ---------------------------------------------------------------------------------------

  /** `s.replace(/c/g, rep)`. */
  function ReplaceAll(s: string, c: char, rep: string): (r: string)
    ensures c !in rep ==> c !in r
  {
    if s == [] then [] else (if s[0] == c then rep else [s[0]]) + ReplaceAll(s[1..], c, rep)
  }

  /** `XmlRpc.escapeXml`: '&' is replaced first, then '<' and '>'. */
  function EscapeXml(s: string): string
  {
    ReplaceAll(ReplaceAll(ReplaceAll(s, '&', "&amp;"), '<', "&lt;"), '>', "&gt;")
  }

  /** The entity of one character. */
  function EscapeChar(c: char): string
  {
    if c == '&' then "&amp;" else if c == '<' then "&lt;" else if c == '>' then "&gt;" else [c]
  }

  /** Each character replaced by its entity, independently of the others. */
  function Escaped(s: string): string
  {
    if s == [] then [] else EscapeChar(s[0]) + Escaped(s[1..])
  }

  /** s starts with the entity "&amp;". */
  predicate AtAmp(s: string)
  {
    |s| >= 5 && s[0] == '&' && s[1] == 'a' && s[2] == 'm' && s[3] == 'p' && s[4] == ';'
  }

  /** s starts with the entity "&lt;", or "&gt;" when `lt` is false. */
  predicate AtAngle(s: string, lt: bool)
  {
    |s| >= 4 && s[0] == '&' && s[1] == (if lt then 'l' else 'g') && s[2] == 't' && s[3] == ';'
  }

  /** Decoding the three entities back, as an XML parser does. */
  function Unescape(s: string): string
    decreases |s|
  {
    if s == [] then []
    else if AtAmp(s) then "&" + Unescape(s[5..])
    else if AtAngle(s, true) then "<" + Unescape(s[4..])
    else if AtAngle(s, false) then ">" + Unescape(s[4..])
    else [s[0]] + Unescape(s[1..])
  }

  lemma {:induction false} ReplaceAllAppend(a: string, b: string, c: char, rep: string)
    ensures ReplaceAll(a + b, c, rep) == ReplaceAll(a, c, rep) + ReplaceAll(b, c, rep)
  {
    if a == [] {
      assert a + b == b;
    } else {
      assert (a + b)[0] == a[0] && (a + b)[1..] == a[1..] + b;
      ReplaceAllAppend(a[1..], b, c, rep);
    }
  }

  lemma ReplaceAllOne(x: char, c: char, rep: string)
    ensures ReplaceAll([x], c, rep) == if x == c then rep else [x]
  {
    assert [x][1..] == [];
  }

  /** A string without c is kept as it is. */
  lemma {:induction false} ReplaceAllAbsent(s: string, c: char, rep: string)
    requires c !in s
    ensures ReplaceAll(s, c, rep) == s
  {
    if s != [] {
      ReplaceAllAbsent(s[1..], c, rep);
      assert s == [s[0]] + s[1..];
    }
  }

  lemma EscapeOneChar(c: char)
    ensures EscapeXml([c]) == EscapeChar(c)
  {
    ReplaceAllOne(c, '&', "&amp;");
    if c == '&' {
      ReplaceAllAbsent("&amp;", '<', "&lt;");
      ReplaceAllAbsent("&amp;", '>', "&gt;");
    } else {
      ReplaceAllOne(c, '<', "&lt;");
      if c == '<' {
        ReplaceAllAbsent("&lt;", '>', "&gt;");
      } else {
        ReplaceAllOne(c, '>', "&gt;");
      }
    }
  }

  /** Replacing '&' first makes the three passes escape each character once: the passes
      agree with the per-character escape. */
  lemma {:induction false} EscapeXmlPerChar(s: string)
    ensures EscapeXml(s) == Escaped(s)
  {
    if s != [] {
      var c, t := s[0], s[1..];
      assert s == [c] + t;
      EscapeXmlPerChar(t);
      EscapeOneChar(c);
      ReplaceAllAppend([c], t, '&', "&amp;");
      var r1c, r1t := ReplaceAll([c], '&', "&amp;"), ReplaceAll(t, '&', "&amp;");
      ReplaceAllAppend(r1c, r1t, '<', "&lt;");
      ReplaceAllAppend(ReplaceAll(r1c, '<', "&lt;"), ReplaceAll(r1t, '<', "&lt;"), '>', "&gt;");
    }
  }

  /** Had '&' been replaced last, the entities of '<' would be escaped a second time. */
  lemma AmpersandLastDoubleEscapes()
    ensures ReplaceAll(ReplaceAll(ReplaceAll("<", '<', "&lt;"), '>', "&gt;"), '&', "&amp;") == "&amp;lt;"
  {
    ReplaceAllOne('<', '<', "&lt;");
    ReplaceAllAbsent("&lt;", '>', "&gt;");
    assert "&lt;" == ['&'] + "lt;";
    ReplaceAllAppend(['&'], "lt;", '&', "&amp;");
    ReplaceAllOne('&', '&', "&amp;");
    ReplaceAllAbsent("lt;", '&', "&amp;");
  }

  /** Decoding the escaped string gives the string back. */
  lemma {:induction false} UnescapeEscaped(s: string)
    ensures Unescape(Escaped(s)) == s
  {
    if s != [] {
      var c, t := s[0], s[1..];
      UnescapeEscaped(t);
      var e := Escaped(s);
      assert e == EscapeChar(c) + Escaped(t);
      if c == '&' {
        assert AtAmp(e) && e[5..] == Escaped(t);
      } else if c == '<' {
        assert !AtAmp(e) && AtAngle(e, true) && e[4..] == Escaped(t);
      } else if c == '>' {
        assert !AtAmp(e) && !AtAngle(e, true) && AtAngle(e, false) && e[4..] == Escaped(t);
      } else {
        assert e[0] == c && !AtAmp(e) && !AtAngle(e, true) && !AtAngle(e, false) && e[1..] == Escaped(t);
      }
    }
  }

  /** The escaped text has no markup, and it decodes back to the text. */
  lemma EscapeXmlSound(s: string)
    ensures '<' !in EscapeXml(s) && '>' !in EscapeXml(s)
    ensures Unescape(EscapeXml(s)) == s
  {
    EscapeXmlPerChar(s);
    UnescapeEscaped(s);
    EscapedNoMarkup(s);
  }

  lemma {:induction false} EscapedNoMarkup(s: string)
    ensures '<' !in Escaped(s) && '>' !in Escaped(s)
  {
    if s != [] {
      EscapedNoMarkup(s[1..]);
    }
  }

  // ---------------------------------------------------------------------------------------
  // valueToXml
  // ---------------------------------------------------------------------------------------

  /** `lines.join("\n")`. */
  function Join(lines: seq<string>): string
  {
    if lines == [] then [] else if |lines| == 1 then lines[0] else lines[0] + "\n" + Join(lines[1..])
  }

  /** The lines so far in front of a result's lines; an error stays an error. */
  function Prepend(acc: seq<string>, r: Result<seq<string>, SampError>): Result<seq<string>, SampError>
  {
    match r
    case Ok(lines) => Ok(acc + lines)
    case Err(e) => Err(e)
  }

  /** `XmlRpc.valueToXml`: a string as an escaped `<string>` value; a list as an `<array>`
      of its items' values; a map as a `<struct>` of `<member>`s, each with its escaped name
      and its value; each nesting level indented six more spaces than the element around
      it. A value that is not a SAMP object, at any depth, throws. */
  function ValueToXml(v: JsValue, prefix: string): Result<string, SampError>
    decreases v, 1, 0
  {
    match GetSampType(v)
    case Err(e) => Err(e)
    case Ok(TypeString) => Ok(prefix + "<value><string>" + EscapeXml(v.s) + "</string></value>")
    case Ok(TypeList) =>
      (match Prepend([prefix + "<value>", prefix + "  <array>", prefix + "    <data>"], ItemsXml(v, 0, prefix))
       case Err(e) => Err(e)
       case Ok(lines) => Ok(Join(lines + [prefix + "    </data>", prefix + "  </array>", prefix + "</value>"])))
    case Ok(TypeMap) =>
      match Prepend([prefix + "<value>", prefix + "  <struct>"], MembersXml(v, 0, prefix))
      case Err(e) => Err(e)
      case Ok(lines) => Ok(Join(lines + [prefix + "  </struct>", prefix + "</value>"]))
  }

  /** The values of the items of a list from i on, one string each. */
  function ItemsXml(v: JsValue, i: nat, prefix: string): Result<seq<string>, SampError>
    requires v.JsArray? && i <= |v.items|
    decreases v, 0, |v.items| - i
  {
    if i == |v.items| then Ok([])
    else match ValueToXml(v.items[i], prefix + "      ")
      case Err(e) => Err(e)
      case Ok(x) => Prepend([x], ItemsXml(v, i + 1, prefix))
  }

  /** The members of a map from i on, four strings each. */
  function MembersXml(v: JsValue, i: nat, prefix: string): Result<seq<string>, SampError>
    requires v.JsObject? && i <= |v.members|
    decreases v, 0, |v.members| - i
  {
    if i == |v.members| then Ok([])
    else match ValueToXml(v.members[i].value, prefix + "      ")
      case Err(e) => Err(e)
      case Ok(x) =>
        Prepend([prefix + "    <member>", prefix + "      <name>" + EscapeXml(v.members[i].key) + "</name>",
                 x, prefix + "    </member>"], MembersXml(v, i + 1, prefix))
  }

  /** The encoding succeeds exactly for SAMP objects. */
  lemma {:induction false} ValueToXmlLegal(v: JsValue, prefix: string)
    ensures ValueToXml(v, prefix).Ok? <==> Legal(v)
    decreases v, 1, 0
  {
    match v
    case JsArray(items) => ItemsXmlLegal(v, 0, prefix);
    case JsObject(members) => MembersXmlLegal(v, 0, prefix);
    case _ =>
  }

  lemma {:induction false} ItemsXmlLegal(v: JsValue, i: nat, prefix: string)
    requires v.JsArray? && i <= |v.items|
    ensures ItemsXml(v, i, prefix).Ok? <==> forall k | i <= k < |v.items| :: Legal(v.items[k])
    decreases v, 0, |v.items| - i
  {
    if i < |v.items| {
      ValueToXmlLegal(v.items[i], prefix + "      ");
      ItemsXmlLegal(v, i + 1, prefix);
    }
  }

  lemma {:induction false} MembersXmlLegal(v: JsValue, i: nat, prefix: string)
    requires v.JsObject? && i <= |v.members|
    ensures MembersXml(v, i, prefix).Ok? <==> forall k | i <= k < |v.members| :: Legal(v.members[k].value)
    decreases v, 0, |v.members| - i
  {
    if i < |v.members| {
      ValueToXmlLegal(v.members[i].value, prefix + "      ");
      MembersXmlLegal(v, i + 1, prefix);
    }
  }

  /** A string is encoded as one `<value><string>` line whose content has no markup and
      decodes back to the string. */
  lemma StringToXml(s: string, prefix: string)
    ensures var r := ValueToXml(JsString(s), prefix);
      r.Ok? && exists e :: r.value == prefix + "<value><string>" + e + "</string></value>"
                           && '<' !in e && '>' !in e && Unescape(e) == s
  {
    EscapeXmlSound(s);
    var e := EscapeXml(s);
    assert ValueToXml(JsString(s), prefix).value == prefix + "<value><string>" + e + "</string></value>";
  }

  lemma PrependAssoc(a: seq<string>, b: seq<string>, r: Result<seq<string>, SampError>)
    ensures Prepend(a, Prepend(b, r)) == Prepend(a + b, r)
  {
    if r.Ok? {
      assert a + (b + r.value) == (a + b) + r.value;
    }
  }

  /** `XmlRpc.valueToXml` as written: recursive, its loops pushing lines that are then
      joined. */
  method ValueToXmlOf(v: JsValue, prefix: string) returns (r: Result<string, SampError>)
    ensures r == ValueToXml(v, prefix)
    decreases v, 1
  {
    var t := GetSampType(v);
    if t.Err? {
      return Err(t.error);
    }
    if t.value == TypeString {
      return Ok(prefix + "<value><string>" + EscapeXml(v.s) + "</string></value>");
    }
    var result: seq<string>;
    if t.value == TypeList {
      result := [prefix + "<value>", prefix + "  <array>", prefix + "    <data>"];
      var i := 0;
      while i < |v.items|
        invariant 0 <= i <= |v.items|
        invariant Prepend([prefix + "<value>", prefix + "  <array>", prefix + "    <data>"], ItemsXml(v, 0, prefix))
                  == Prepend(result, ItemsXml(v, i, prefix))
      {
        var x := ValueToXmlOf(v.items[i], prefix + "      ");
        if x.Err? {
          assert ItemsXml(v, i, prefix) == Err(x.error);
          return Err(x.error);
        }
        PrependAssoc(result, [x.value], ItemsXml(v, i + 1, prefix));
        result := result + [x.value];
        i := i + 1;
      }
      assert ItemsXml(v, i, prefix) == Ok([]) && result + [] == result;
      result := result + [prefix + "    </data>", prefix + "  </array>", prefix + "</value>"];
    } else {
      result := [prefix + "<value>", prefix + "  <struct>"];
      var i := 0;
      while i < |v.members|
        invariant 0 <= i <= |v.members|
        invariant Prepend([prefix + "<value>", prefix + "  <struct>"], MembersXml(v, 0, prefix))
                  == Prepend(result, MembersXml(v, i, prefix))
      {
        var x := ValueToXmlOf(v.members[i].value, prefix + "      ");
        if x.Err? {
          assert MembersXml(v, i, prefix) == Err(x.error);
          return Err(x.error);
        }
        var lines := [prefix + "    <member>", prefix + "      <name>" + EscapeXml(v.members[i].key) + "</name>",
                      x.value, prefix + "    </member>"];
        PrependAssoc(result, lines, MembersXml(v, i + 1, prefix));
        result := result + lines;
        i := i + 1;
      }
      assert MembersXml(v, i, prefix) == Ok([]) && result + [] == result;
      result := result + [prefix + "  </struct>", prefix + "</value>"];
    }
    r := Ok(Join(result));
  }

  // ---------------------------------------------------------------------------------------
  // checkParams
  // ---------------------------------------------------------------------------------------

  predicate KnownType(t: string)
  {
    t == "string" || t == "list" || t == "map"
  }

  /** The first type name that is not a SAMP type. */
  function FirstUnknown(types: seq<string>): (r: Option<nat>)
    ensures r.None? <==> forall i | 0 <= i < |types| :: KnownType(types[i])
    ensures r.Some? ==> r.value < |types| && !KnownType(types[r.value])
                        && forall i | 0 <= i < r.value :: KnownType(types[i])
  {
    if types == [] then None
    else if !KnownType(types[0]) then Some(0)
    else match FirstUnknown(types[1..])
      case None => None
      case Some(k) => Some(k + 1)
  }

  /** The SAMP type names of the parameters; the first parameter of no SAMP type throws. */
  function ActualTypes(params: seq<JsValue>): (r: Result<seq<string>, SampError>)
    ensures r.Ok? <==> forall i | 0 <= i < |params| :: GetSampType(params[i]).Ok?
    ensures r.Ok? ==> |r.value| == |params|
                      && forall i | 0 <= i < |params| :: r.value[i] == TypeName(GetSampType(params[i]).value)
    ensures r.Err? ==> r.error == IllegalType
  {
    if params == [] then Ok([])
    else match ActualTypes(params[..|params| - 1])
      case Err(e) => Err(e)
      case Ok(ts) =>
        match GetSampType(params[|params| - 1])
        case Err(e) => Err(e)
        case Ok(t) => Ok(ts + [TypeName(t)])
  }

  /** `XmlRpc.checkParams`: first an unknown name in the type list, then a parameter of no
      SAMP type, then a different number of types and parameters or a type that differs, is
      an error. */
  function CheckParams(params: seq<JsValue>, types: seq<string>): Result<(), SampError>
  {
    match FirstUnknown(types)
    case Some(i) => Err(UnknownType(types[i]))
    case None =>
      match ActualTypes(params)
      case Err(e) => Err(e)
      case Ok(actual) => if actual == types then Ok(()) else Err(ParamMismatch)
  }

  /** The parameters pass exactly when there are as many as types, each of the type named
      at its place. */
  lemma CheckParamsOk(params: seq<JsValue>, types: seq<string>)
    ensures CheckParams(params, types).Ok? <==>
      |types| == |params|
      && forall i | 0 <= i < |params| :: GetSampType(params[i]).Ok? && TypeName(GetSampType(params[i]).value) == types[i]
  {
    if |types| == |params| && forall i | 0 <= i < |params| :: GetSampType(params[i]).Ok? && TypeName(GetSampType(params[i]).value) == types[i] {
      assert forall i | 0 <= i < |types| :: KnownType(types[i]);
    }
  }

  /** The first loop of `checkParams`: each type name must be a SAMP type. */
  method FindUnknownType(typeList: seq<string>) returns (r: Option<nat>)
    ensures r == FirstUnknown(typeList)
  {
    var i := 0;
    while i < |typeList|
      invariant 0 <= i <= |typeList|
      invariant forall k | 0 <= k < i :: KnownType(typeList[k])
    {
      if typeList[i] != "string" && typeList[i] != "list" && typeList[i] != "map" {
        return Some(i);
      }
      i := i + 1;
    }
    return None;
  }

  /** The second loop of `checkParams`: the SAMP types of the parameters. */
  method ActualTypesOf(paramList: seq<JsValue>) returns (r: Result<seq<string>, SampError>)
    ensures r == ActualTypes(paramList)
  {
    var actualTypeList: seq<string> := [];
    var i := 0;
    while i < |paramList|
      invariant 0 <= i <= |paramList|
      invariant ActualTypes(paramList[..i]) == Ok(actualTypeList)
    {
      assert paramList[..i + 1][..i] == paramList[..i];
      var t := GetSampType(paramList[i]);
      if t.Err? {
        return Err(t.error);
      }
      actualTypeList := actualTypeList + [TypeName(t.value)];
      i := i + 1;
    }
    assert paramList[..i] == paramList;
    r := Ok(actualTypeList);
  }

  /** `XmlRpc.checkParams` as written: its two loops, then the comparison loop. */
  method CheckParamsOf(paramList: seq<JsValue>, typeList: seq<string>) returns (r: Result<(), SampError>)
    ensures r == CheckParams(paramList, typeList)
  {
    var unknown := FindUnknownType(typeList);
    if unknown.Some? {
      return Err(UnknownType(typeList[unknown.value]));
    }
    var actual := ActualTypesOf(paramList);
    if actual.Err? {
      return Err(actual.error);
    }
    var ok := SameTypes(typeList, actual.value);
    if !ok {
      return Err(ParamMismatch);
    }
    r := Ok(());
  }

  /** The last loop of `checkParams`: as many types as parameters, and the same ones. */
  method SameTypes(typeList: seq<string>, actualTypeList: seq<string>) returns (ok: bool)
    ensures ok <==> typeList == actualTypeList
  {
    var npar := |actualTypeList|;
    ok := |typeList| == npar;
    var i := 0;
    while ok && i < npar
      invariant 0 <= i <= npar
      invariant ok ==> |typeList| == npar && forall k | 0 <= k < i :: typeList[k] == actualTypeList[k]
      invariant !ok ==> typeList != actualTypeList
    {
      ok := ok && typeList[i] == actualTypeList[i];
      i := i + 1;
    }
  }

  // ---------------------------------------------------------------------------------------
  // isSubscribed
  // ---------------------------------------------------------------------------------------

  /** The characters '.' does not match in a JavaScript regular expression. */
  predicate LineTerminator(c: char)
  {
    c == '\n' || c == '\r' || c == '\U{2028}' || c == '\U{2029}'
  }

  /** `/^(.*)\.\*$/.exec(pattern)`: the part before a trailing ".*", when it holds no line
      terminator. */
  function WildcardPrefix(pattern: string): (r: Option<string>)
    ensures r.Some? ==> pattern == r.value + ".*" && forall i | 0 <= i < |r.value| :: !LineTerminator(r.value[i])
  {
    if |pattern| >= 2 && pattern[|pattern| - 2..] == ".*"
       && forall i | 0 <= i < |pattern| - 2 :: !LineTerminator(pattern[i])
    then Some(pattern[..|pattern| - 2])
    else None
  }

  /** `matching`: the pattern is the message type, or '*', or "p.*" with the type starting
      with p. */
  predicate Matching(pattern: string, mtype: string)
  {
    pattern == mtype || pattern == "*"
    || (WildcardPrefix(pattern).Some? && StartsWith(mtype, WildcardPrefix(pattern).value))
  }

  /** `isSubscribed` over the keys of a subscriptions map. */
  predicate Subscribed(keys: seq<string>, mtype: string)
  {
    exists i | 0 <= i < |keys| :: Matching(keys[i], mtype)
  }

  /** `isSubscribed`, its loop over the keys of the map. */
  method IsSubscribed(keys: seq<string>, mtype: string) returns (r: bool)
    ensures r <==> Subscribed(keys, mtype)
  {
    var i := 0;
    while i < |keys|
      invariant 0 <= i <= |keys|
      invariant forall k | 0 <= k < i :: !Matching(keys[k], mtype)
    {
      if Matching(keys[i], mtype) {
        return true;
      }
      i := i + 1;
    }
    return false;
  }

  /** A pattern "p.*" covers every message type that starts with p, and "*" covers all. */
  lemma WildcardCovers(p: string, rest: string)
    requires forall i | 0 <= i < |p| :: !LineTerminator(p[i])
    ensures Matching(p + ".*", p + rest)
    ensures Matching("*", rest)
  {
    var pattern := p + ".*";
    assert pattern[|pattern| - 2..] == ".*";
    assert pattern[..|pattern| - 2] == p;
    assert (p + rest)[..|p|] == p;
  }

  /** A pattern without wildcard covers only its own message type. */
  lemma ExactOnly(pattern: string, mtype: string)
    requires pattern != "*" && !(|pattern| >= 2 && pattern[|pattern| - 2..] == ".*")
    ensures Matching(pattern, mtype) <==> pattern == mtype
  {
  }

  // ---------------------------------------------------------------------------------------
  // CallableClient.calculateSubscriptions and the ClientTracker
  // ---------------------------------------------------------------------------------------

  /** `calculateSubscriptions`: an empty map under each message type a handler exists for. */
  method CalculateSubscriptions(handlerKeys: seq<string>) returns (subs: map<string, JsValue>)
    ensures subs.Keys == set mt | mt in handlerKeys
    ensures forall mt | mt in subs :: subs[mt] == JsObject([])
  {
    subs := map[];
    var i := 0;
    while i < |handlerKeys|
      invariant 0 <= i <= |handlerKeys|
      invariant subs.Keys == set k | 0 <= k < i :: handlerKeys[k]
      invariant forall mt | mt in subs :: subs[mt] == JsObject([])
    {
      subs := subs[handlerKeys[i] := JsObject([])];
      i := i + 1;
    }
    assert forall mt :: mt in handlerKeys <==> exists k | 0 <= k < |handlerKeys| :: handlerKeys[k] == mt;
  }

  /** The message types a client tracker handles, in the order of its handler table. */
  const TRACKER_MTYPES: seq<string> := [
    "samp.hub.event.shutdown", "samp.hub.disconnect", "samp.hub.event.register",
    "samp.hub.event.unregister", "samp.hub.event.metadata", "samp.hub.event.subscriptions"]

  /** A tracker notified of a message type it subscribes to under its own subscriptions
      handles it: the keys of those subscriptions are exactly the handled types. */
  lemma TrackerSubscribesToItsEvents(subs: map<string, JsValue>, mtype: string)
    requires subs.Keys == set mt | mt in TRACKER_MTYPES
    requires mtype in TRACKER_MTYPES
    ensures mtype in subs
    ensures Subscribed(TRACKER_MTYPES, mtype)
  {
    var i :| 0 <= i < |TRACKER_MTYPES| && TRACKER_MTYPES[i] == mtype;
    assert Matching(TRACKER_MTYPES[i], mtype);
  }

  /** What a tracker knows of the other clients: the registered ids, and the metadata and
      subscriptions of clients. */
  datatype TrackerState = TrackerState(ids: set<string>, metas: map<string, JsValue>, subs: map<string, JsValue>)

  /** A hub event about client `id` carrying `data`, as the tracker records it. */
  function Recorded(st: TrackerState, mtype: string, id: string, data: JsValue): TrackerState
  {
    if mtype == "samp.hub.event.register" then st.(ids := st.ids + {id})
    else if mtype == "samp.hub.event.unregister" then
      TrackerState(st.ids - {id}, st.metas - {id}, st.subs - {id})
    else if mtype == "samp.hub.event.metadata" then st.(metas := st.metas[id := data])
    else if mtype == "samp.hub.event.subscriptions" then st.(subs := st.subs[id := data])
    else st
  }

  /** Unregistering forgets the client everywhere and leaves every other client as it was. */
  lemma UnregisterForgets(st: TrackerState, id: string, data: JsValue, other: string)
    requires other != id
    ensures var r := Recorded(st, "samp.hub.event.unregister", id, data);
      id !in r.ids && id !in r.metas && id !in r.subs
      && (other in r.ids <==> other in st.ids)
      && (other in r.metas <==> other in st.metas) && (other in r.metas ==> r.metas[other] == st.metas[other])
      && (other in r.subs <==> other in st.subs) && (other in r.subs ==> r.subs[other] == st.subs[other])
  {
  }

  /** A client that registers, declares metadata and subscriptions, and unregisters leaves
      no trace when it was not known before. */
  lemma RegisterThenUnregister(st: TrackerState, id: string, meta: JsValue, subs: JsValue, data: JsValue)
    requires id !in st.ids && id !in st.metas && id !in st.subs
    ensures var s1 := Recorded(st, "samp.hub.event.register", id, JsNull);
            var s2 := Recorded(s1, "samp.hub.event.metadata", id, meta);
            var s3 := Recorded(s2, "samp.hub.event.subscriptions", id, subs);
            Recorded(s3, "samp.hub.event.unregister", id, data) == st
  {
    var s1 := Recorded(st, "samp.hub.event.register", id, JsNull);
    var s2 := Recorded(s1, "samp.hub.event.metadata", id, meta);
    var s3 := Recorded(s2, "samp.hub.event.subscriptions", id, subs);
    assert s3.ids - {id} == st.ids;
    assert s3.metas - {id} == st.metas;
    assert s3.subs - {id} == st.subs;
  }

  /** `ClientTracker`: the maps of registered ids, metadata and subscriptions, and whether
      the tracker has closed its connection. */
  class ClientTracker {
    var ids: set<string>
    var metas: map<string, JsValue>
    var subs: map<string, JsValue>
    var closed: bool

    function State(): TrackerState
      reads this
    {
      TrackerState(ids, metas, subs)
    }

    constructor()
      ensures State() == TrackerState({}, map[], map[]) && !closed
    {
      ids, metas, subs, closed := {}, map[], map[], false;
    }

    /** `receiveNotification` with the tracker's handlers: a hub event about client `id`
        with its metadata or subscriptions `data`. It is handled exactly when the tracker
        has a handler for its type; shutdown and disconnect close the connection. */
    method ReceiveNotification(mtype: string, id: string, data: JsValue) returns (handled: bool)
      modifies this
      ensures handled <==> mtype in TRACKER_MTYPES
      ensures State() == Recorded(old(State()), mtype, id, data)
      ensures closed == (old(closed) || mtype == "samp.hub.event.shutdown" || mtype == "samp.hub.disconnect")
    {
      handled := true;
      if mtype == "samp.hub.event.shutdown" || mtype == "samp.hub.disconnect" {
        closed := true;
      } else if mtype == "samp.hub.event.register" {
        ids := ids + {id};
      } else if mtype == "samp.hub.event.unregister" {
        ids := ids - {id};
        metas := metas - {id};
        subs := subs - {id};
      } else if mtype == "samp.hub.event.metadata" {
        metas := metas[id := data];
      } else if mtype == "samp.hub.event.subscriptions" {
        subs := subs[id := data];
      } else {
        handled := false;
      }
    }

    /** The `getRegisteredClients` answer of `init`: the registered ids are replaced by the
        list the hub returns. */
    method SetRegisteredClients(idlist: seq<string>)
      modifies this`ids
      ensures ids == set id | id in idlist
    {
      ids := {};
      var i := 0;
      while i < |idlist|
        invariant 0 <= i <= |idlist|
        invariant ids == set k | 0 <= k < i :: idlist[k]
      {
        ids := ids + {idlist[i]};
        i := i + 1;
      }
      assert forall id :: id in idlist <==> exists k | 0 <= k < |idlist| :: idlist[k] == id;
    }
  }
}

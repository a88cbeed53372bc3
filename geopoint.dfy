/** geopoint.go: the three textual forms of a "geopoint" cell. The default form is
    "lon,lat" (a space may follow the comma), the array form is "[lon,lat]" and the object
    form is a JSON object with "lon" and "lat" members. */
module GeoPointCodec {
  import opened Wrappers
  import opened Decimal
  import opened Host
  import opened Values
  import Integer
  import opened SchemaField

  const GeoPointArrayFormat := "array"
  const GeoPointObjectFormat := "object"

  // ----- the two regular expressions -----

  /** Every character is a digit or '.', and no two are '.'. */
  predicate DigitsWithOneDot(s: string)
  {
    && (forall i :: 0 <= i < |s| ==> IsDigit(s[i]) || s[i] == '.')
    && (forall i, j :: 0 <= i < j < |s| && s[i] == '.' ==> s[j] != '.')
  }

  /** A coordinate of the default form: `[-+]?[0-9]*\.?[0-9]*` (possibly empty). */
  predicate DefaultCoordinate(s: string)
  {
    DigitsWithOneDot(Integer.Unsigned(s))
  }

  /** A coordinate of the array form: `[-+]?[0-9]*\.?[0-9]+` (ends in a digit). */
  predicate ArrayCoordinate(s: string)
  {
    var u := Integer.Unsigned(s);
    DigitsWithOneDot(u) && |u| > 0 && IsDigit(u[|u| - 1])
  }

  /** geoPointDefaultRegexp or geoPointArrayRegexp. */
  datatype Pattern = DefaultPattern | ArrayPattern

  predicate Coordinate(p: Pattern, s: string)
  {
    if p.DefaultPattern? then DefaultCoordinate(s) else ArrayCoordinate(s)
  }

  /** The separator between the two coordinates. */
  function Separator(spaced: bool): string
  {
    if spaced then ", " else ","
  }

  /** The anchored text around a pattern's pair: nothing, or the array form's brackets. */
  function Wrap(p: Pattern, inner: string): string
  {
    if p.DefaultPattern? then inner else "[" + inner + "]"
  }

  /** The text a pattern matches: two coordinates joined by "," or ", ", in brackets for
      the array form. */
  function Render(p: Pattern, x: string, spaced: bool, y: string): string
  {
    Wrap(p, x + Separator(spaced) + y)
  }

  /** No coordinate holds the separator characters or a bracket. */
  lemma CoordinateChars(p: Pattern, s: string, i: nat)
    requires Coordinate(p, s) && i < |s|
    ensures s[i] != ',' && s[i] != ' ' && s[i] != '[' && s[i] != ']'
  {
    var u := Integer.Unsigned(s);
    if |s| > 0 && Integer.IsSign(s[0]) && i > 0 {
      assert s[i] == u[i - 1];
    }
  }

  /** Index of the first ',' of s. */
  function IndexOfComma(s: string): (r: Option<nat>)
    ensures r.Some? ==> r.value < |s| && s[r.value] == ','
    ensures r.Some? ==> forall k :: 0 <= k < r.value ==> s[k] != ','
    ensures r.None? ==> forall k :: 0 <= k < |s| ==> s[k] != ','
  {
    if |s| == 0 then None
    else if s[0] == ',' then Some(0)
    else match IndexOfComma(s[1..])
      case None => None
      case Some(i) => Some(i + 1)
  }

  /** The text before the first comma, and the text after it less one leading space. */
  function SplitPair(s: string): Option<(string, string)>
  {
    match IndexOfComma(s)
    case None => None
    case Some(i) =>
      var rest := s[i + 1..];
      Some((s[..i], if |rest| > 0 && rest[0] == ' ' then rest[1..] else rest))
  }

  /** The text between the pattern's anchors: the whole value, or the inside of the
      brackets. */
  function Body(p: Pattern, value: string): Option<string>
  {
    if p.DefaultPattern? then Some(value)
    else if |value| >= 2 && value[0] == '[' && value[|value| - 1] == ']' then Some(value[1..|value| - 1])
    else None
  }

  lemma BodySound(p: Pattern, value: string)
    requires Body(p, value).Some?
    ensures value == Wrap(p, Body(p, value).value)
  {
    if p.ArrayPattern? {
      var b := value[1..|value| - 1];
      assert value == [value[0]] + b + [value[|value| - 1]];
    }
  }

  lemma BodyOfWrap(p: Pattern, inner: string)
    ensures Body(p, Wrap(p, inner)) == Some(inner)
  {
    if p.ArrayPattern? {
      var v := Wrap(p, inner);
      assert v[1..|v| - 1] == inner;
    }
  }

  /** r.FindStringSubmatch(value)'s two groups, or None when the value does not match. */
  function Submatch(p: Pattern, value: string): (r: Option<(string, string)>)
    ensures r.Some? ==> Coordinate(p, r.value.0) && Coordinate(p, r.value.1)
  {
    match Body(p, value)
    case None => None
    case Some(b) =>
      match SplitPair(b)
      case None => None
      case Some((x, y)) => if Coordinate(p, x) && Coordinate(p, y) then Some((x, y)) else None
  }

  /** A match is the two groups with a separator between them, anchored as the pattern
      says. */
  lemma SubmatchSound(p: Pattern, value: string)
    requires Submatch(p, value).Some?
    ensures var (x, y) := Submatch(p, value).value;
      value == Render(p, x, false, y) || value == Render(p, x, true, y)
  {
    BodySound(p, value);
    SplitPairSound(Body(p, value).value);
  }

  lemma SplitPairSound(b: string)
    requires SplitPair(b).Some?
    ensures var (x, y) := SplitPair(b).value;
      b == x + Separator(false) + y || b == x + Separator(true) + y
  {
    var i := IndexOfComma(b).value;
    var rest := b[i + 1..];
    assert b == b[..i] + "," + rest;
    if |rest| > 0 && rest[0] == ' ' {
      assert rest == " " + rest[1..];
      assert b == b[..i] + ", " + rest[1..];
    }
  }

  /** Joining two coordinates splits back into them. */
  lemma SplitPairOf(p: Pattern, x: string, spaced: bool, y: string)
    requires Coordinate(p, x) && Coordinate(p, y)
    ensures SplitPair(x + Separator(spaced) + y) == Some((x, y))
  {
    var inner := x + Separator(spaced) + y;
    forall k | 0 <= k < |x|
      ensures inner[k] != ','
    {
      CoordinateChars(p, x, k);
    }
    assert inner[|x|] == ',';
    assert IndexOfComma(inner) == Some(|x|);
    var rest := inner[|x| + 1..];
    assert inner[..|x|] == x;
    if spaced {
      assert rest == " " + y;
      assert rest[1..] == y;
    } else {
      assert rest == y;
      if |y| > 0 {
        CoordinateChars(p, y, 0);
      }
    }
  }

  /** Every text of the pattern's shape matches, with exactly its two coordinates as the
      groups (the converse of SubmatchSound). */
  lemma SubmatchComplete(p: Pattern, x: string, spaced: bool, y: string)
    requires Coordinate(p, x) && Coordinate(p, y)
    ensures Submatch(p, Render(p, x, spaced, y)) == Some((x, y))
  {
    BodyOfWrap(p, x + Separator(spaced) + y);
    SplitPairOf(p, x, spaced, y);
  }

  /** strconv.ParseFloat(s, 64) with its error discarded: 0 when it fails. */
  function ParseCoordinate(lib: Library, s: string): real
  {
    match lib.parseFloat(s)
    case None => 0.0
    case Some(x) => x
  }

  /** applyGeoPointRegexp */
  function ApplyGeoPointRegexp(lib: Library, p: Pattern, value: string): (r: Result<GeoPoint>)
    ensures r.Err? ==> r.error == InvalidGeoPoint(value)
  {
    match Submatch(p, value)
    case None => Err(InvalidGeoPoint(value))
    case Some((x, y)) =>
      if |x| == 0 || |y| == 0 then Err(InvalidGeoPoint(value))
      else Ok(GeoPoint(ParseCoordinate(lib, x), ParseCoordinate(lib, y)))
  }

  /** A value of the pattern's shape with two non-empty coordinates is accepted, and its
      point holds the two numbers ParseFloat reads (0 where it fails). */
  lemma ApplyAccepts(lib: Library, p: Pattern, x: string, spaced: bool, y: string)
    requires Coordinate(p, x) && Coordinate(p, y) && |x| > 0 && |y| > 0
    ensures ApplyGeoPointRegexp(lib, p, Render(p, x, spaced, y))
         == Ok(GeoPoint(ParseCoordinate(lib, x), ParseCoordinate(lib, y)))
  {
    SubmatchComplete(p, x, spaced, y);
  }

  /** Everything accepted has the pattern's shape with two non-empty coordinates. */
  lemma ApplySound(lib: Library, p: Pattern, value: string)
    requires ApplyGeoPointRegexp(lib, p, value).Ok?
    ensures exists x, spaced, y ::
      && Coordinate(p, x) && Coordinate(p, y) && |x| > 0 && |y| > 0
      && value == Render(p, x, spaced, y)
      && ApplyGeoPointRegexp(lib, p, value).value == GeoPoint(ParseCoordinate(lib, x), ParseCoordinate(lib, y))
  {
    var (x, y) := Submatch(p, value).value;
    SubmatchSound(p, value);
    if value == Render(p, x, false, y) {
      assert Render(p, x, false, y) == value;
    } else {
      assert Render(p, x, true, y) == value;
    }
  }

  /** An array coordinate is never empty, so the array form fails exactly when the
      pattern does not match. */
  lemma ArrayFailsOnlyOnMismatch(lib: Library, value: string)
    ensures ApplyGeoPointRegexp(lib, ArrayPattern, value).Err? <==> Submatch(ArrayPattern, value).None?
  {
  }

  // ----- the object form -----

  /** ASCII lower case, the folding encoding/json applies to match a key with a field. */
  function LowerAscii(c: char): (l: char)
    ensures 'A' <= c <= 'Z' ==> l as int == c as int + 32
    ensures !('A' <= c <= 'Z') ==> l == c
  {
    if 'A' <= c <= 'Z' then (c as int + 32) as char else c
  }

  /** A JSON key that encoding/json assigns to the field whose lower-case name is given. */
  predicate KeyNames(key: string, name: string)
  {
    |key| == |name| && forall i :: 0 <= i < |key| ==> LowerAscii(key[i]) == name[i]
  }

  /** A member for "lon" or "lat" whose value is neither a number nor null: decoding it
      into a *float64 is an UnmarshalTypeError. */
  predicate BadMember(ms: seq<(string, Json)>)
  {
    exists i :: 0 <= i < |ms| && (KeyNames(ms[i].0, "lon") || KeyNames(ms[i].0, "lat"))
                              && !(ms[i].1.JNumber? || ms[i].1.JNull?)
  }

  /** The *float64 a field is left with: the last member naming it decides; null leaves
      it nil. */
  function FinalNumber(ms: seq<(string, Json)>, name: string): Option<real>
  {
    if |ms| == 0 then None
    else if KeyNames(ms[|ms| - 1].0, name) then
      match ms[|ms| - 1].1
      case JNumber(n) => Some(n)
      case _ => None
    else FinalNumber(ms[..|ms| - 1], name)
  }

  /** FinalNumber reads the last member naming the field, and only it. */
  lemma {:induction false} FinalNumberLast(ms: seq<(string, Json)>, name: string, x: real)
    ensures FinalNumber(ms, name) == Some(x) <==>
      exists i :: 0 <= i < |ms| && KeyNames(ms[i].0, name) && ms[i].1 == JNumber(x)
                  && forall k :: i < k < |ms| ==> !KeyNames(ms[k].0, name)
  {
    if |ms| > 0 {
      var n := |ms| - 1;
      var front := ms[..n];
      if KeyNames(ms[n].0, name) {
        if FinalNumber(ms, name) == Some(x) {
          assert ms[n].1 == JNumber(x);
        }
      } else {
        FinalNumberLast(front, name, x);
        if FinalNumber(ms, name) == Some(x) {
          var i :| 0 <= i < |front| && KeyNames(front[i].0, name) && front[i].1 == JNumber(x)
                   && forall k :: i < k < |front| ==> !KeyNames(front[k].0, name);
          assert ms[i] == front[i];
          assert forall k :: i < k < |ms| ==> !KeyNames(ms[k].0, name) by {
            forall k | i < k < |ms|
              ensures !KeyNames(ms[k].0, name)
            {
              if k < n {
                assert ms[k] == front[k];
              }
            }
          }
        }
        if exists i :: 0 <= i < |ms| && KeyNames(ms[i].0, name) && ms[i].1 == JNumber(x)
                       && forall k :: i < k < |ms| ==> !KeyNames(ms[k].0, name) {
          var i :| 0 <= i < |ms| && KeyNames(ms[i].0, name) && ms[i].1 == JNumber(x)
                   && forall k :: i < k < |ms| ==> !KeyNames(ms[k].0, name);
          assert i < n;
          assert front[i] == ms[i];
          assert forall k :: i < k < |front| ==> !KeyNames(front[k].0, name) by {
            forall k | i < k < |front|
              ensures !KeyNames(front[k].0, name)
            {
              assert front[k] == ms[k];
            }
          }
        }
      }
    }
  }

  /** GeoPoint.UnmarshalJSON on a document encoding/json has already decoded: a JSON
      null leaves both coordinates nil, a member of the wrong type is a type error, and
      each of "lon" and "lat" must end up holding a number. */
  function DecodeGeoPoint(data: string, j: Json): (r: Result<GeoPoint>)
    ensures r.Ok? ==> j.JObject? && !BadMember(j.members)
    ensures r.Ok? ==> (FinalNumber(j.members, "lon") == Some(r.value.lon)
                       && FinalNumber(j.members, "lat") == Some(r.value.lat))
    ensures r.Err? ==> r.error in {InvalidGeoPoint(data), JSONTypeMismatch}
  {
    match j
    case JNull => Err(InvalidGeoPoint(data))
    case JObject(ms) =>
      if BadMember(ms) then Err(JSONTypeMismatch)
      else
        (match (FinalNumber(ms, "lon"), FinalNumber(ms, "lat"))
         case (Some(lon), Some(lat)) => Ok(GeoPoint(lon, lat))
         case _ => Err(InvalidGeoPoint(data)))
    case _ => Err(JSONTypeMismatch)
  }

  /** An object whose coordinates are well typed and both present decodes to them. */
  lemma DecodeGeoPointComplete(data: string, ms: seq<(string, Json)>, lon: real, lat: real)
    requires !BadMember(ms)
    requires FinalNumber(ms, "lon") == Some(lon) && FinalNumber(ms, "lat") == Some(lat)
    ensures DecodeGeoPoint(data, JObject(ms)) == Ok(GeoPoint(lon, lat))
  {
  }

  /** json.Unmarshal into a GeoPoint: the text must be valid JSON first. */
  function UnmarshalGeoPoint(lib: Library, value: string): (r: Result<GeoPoint>)
    ensures lib.unmarshalJSON(value).None? ==> r == Err(InvalidJSON(value))
    ensures lib.unmarshalJSON(value).Some? ==> r == DecodeGeoPoint(value, lib.unmarshalJSON(value).value)
  {
    match lib.unmarshalJSON(value)
    case None => Err(InvalidJSON(value))
    case Some(j) => DecodeGeoPoint(value, j)
  }

  /** An object naming no "lon" member is refused. */
  lemma ObjectNeedsLon(lib: Library, value: string, ms: seq<(string, Json)>)
    requires lib.unmarshalJSON(value) == Some(JObject(ms))
    requires forall i :: 0 <= i < |ms| ==> !KeyNames(ms[i].0, "lon")
    ensures UnmarshalGeoPoint(lib, value).Err?
  {
    if UnmarshalGeoPoint(lib, value).Ok? {
      FinalNumberLast(ms, "lon", UnmarshalGeoPoint(lib, value).value.lon);
    }
  }

  // ----- castGeoPoint and uncastGeoPoint -----

  /** castGeoPoint */
  function CastGeoPoint(lib: Library, format: string, value: string): (r: Result<GeoPoint>)
    ensures IsDefaultFormat(format) ==> r == ApplyGeoPointRegexp(lib, DefaultPattern, value)
    ensures format == GeoPointArrayFormat ==> r == ApplyGeoPointRegexp(lib, ArrayPattern, value)
    ensures format == GeoPointObjectFormat ==> r == UnmarshalGeoPoint(lib, value)
    ensures !IsDefaultFormat(format) && format != GeoPointArrayFormat && format != GeoPointObjectFormat
            ==> r == Err(InvalidGeoPointFormat(format))
  {
    if IsDefaultFormat(format) then ApplyGeoPointRegexp(lib, DefaultPattern, value)
    else if format == GeoPointArrayFormat then ApplyGeoPointRegexp(lib, ArrayPattern, value)
    else if format == GeoPointObjectFormat then UnmarshalGeoPoint(lib, value)
    else Err(InvalidGeoPointFormat(format))
  }

  /** fmt's %+v of a GeoPoint. */
  function ShowGeoPoint(lib: Library, g: GeoPoint): string
  {
    "{Lon:" + lib.formatFloat(g.lon) + " Lat:" + lib.formatFloat(g.lat) + "}"
  }

  /** A text of a textual form is echoed when the form accepts it. */
  function Echo(lib: Library, p: Pattern, format: string, gp: Value): Result<string>
  {
    if gp.VString? then
      match ApplyGeoPointRegexp(lib, p, gp.s)
      case Ok(_) => Ok(gp.s)
      case Err(e) => Err(e)
    else Err(GeoPointTypeMismatch(format))
  }

  /** uncastGeoPoint */
  function UncastGeoPoint(lib: Library, format: string, gp: Value): (r: Result<string>)
    ensures !IsDefaultFormat(format) && format != GeoPointArrayFormat && format != GeoPointObjectFormat
            ==> r == Err(InvalidGeoPointFormat(format))
    ensures (IsDefaultFormat(format) || format == GeoPointArrayFormat) && !gp.VString?
            ==> r == Err(GeoPointTypeMismatch(format))
    ensures format == GeoPointObjectFormat && !gp.VGeoPoint? ==> r == Err(GeoPointTypeMismatch(format))
  {
    if IsDefaultFormat(format) then Echo(lib, DefaultPattern, format, gp)
    else if format == GeoPointArrayFormat then Echo(lib, ArrayPattern, format, gp)
    else if format == GeoPointObjectFormat then
      if gp.VGeoPoint? then Ok(ShowGeoPoint(lib, gp.p)) else Err(GeoPointTypeMismatch(format))
    else Err(InvalidGeoPointFormat(format))
  }

  /** In the two textual forms, uncasting a string gives it back exactly when casting it
      succeeds, and fails with the cast's error otherwise. */
  lemma UncastEchoesCast(lib: Library, format: string, s: string)
    requires IsDefaultFormat(format) || format == GeoPointArrayFormat
    ensures CastGeoPoint(lib, format, s).Ok? ==> UncastGeoPoint(lib, format, VString(s)) == Ok(s)
    ensures CastGeoPoint(lib, format, s).Err?
            ==> UncastGeoPoint(lib, format, VString(s)) == Err(InvalidGeoPoint(s))
  {
  }

  /** The object form renders a point as fmt's %+v does. */
  lemma UncastObject(lib: Library, g: GeoPoint)
    ensures UncastGeoPoint(lib, GeoPointObjectFormat, VGeoPoint(g))
         == Ok("{Lon:" + lib.formatFloat(g.lon) + " Lat:" + lib.formatFloat(g.lat) + "}")
  {
  }

  // ----- a default form that only reads numerals -----

  /** Some character of s is a digit. */
  predicate HasDigit(s: string)
  {
    exists i :: 0 <= i < |s| && IsDigit(s[i])
  }

  /** A decimal numeral, the text strconv.ParseFloat reads without an exponent: an
      optional sign, then digits with at most one '.', and at least one digit. */
  ghost predicate DecimalNumeral(s: string)
  {
    var u := Integer.Unsigned(s);
    exists a, b :: AllDigits(a) && AllDigits(b) && |a| + |b| > 0 && (u == a + b || u == a + "." + b)
  }

  /** applyGeoPointRegexp for the default form, refusing a coordinate without a digit
      (such as "+", "-" or ".") instead of reading it as 0. */
  function CorrectedApplyDefault(lib: Library, value: string): (r: Result<GeoPoint>)
    ensures r.Err? ==> r.error == InvalidGeoPoint(value)
    ensures r.Ok? ==> Submatch(DefaultPattern, value).Some?
  {
    match Submatch(DefaultPattern, value)
    case None => Err(InvalidGeoPoint(value))
    case Some((x, y)) =>
      if !HasDigit(x) || !HasDigit(y) then Err(InvalidGeoPoint(value))
      else Ok(GeoPoint(ParseCoordinate(lib, x), ParseCoordinate(lib, y)))
  }

  /** castGeoPoint with the corrected default form. */
  function CorrectedCastGeoPoint(lib: Library, format: string, value: string): (r: Result<GeoPoint>)
    ensures IsDefaultFormat(format) ==> r == CorrectedApplyDefault(lib, value)
    ensures !IsDefaultFormat(format) ==> r == CastGeoPoint(lib, format, value)
  {
    if IsDefaultFormat(format) then CorrectedApplyDefault(lib, value) else CastGeoPoint(lib, format, value)
  }

  /** A default coordinate holding a digit is a decimal numeral. */
  lemma NumeralOfCoordinate(s: string)
    requires DefaultCoordinate(s) && HasDigit(s)
    ensures DecimalNumeral(s)
  {
    var u := Integer.Unsigned(s);
    var i :| 0 <= i < |s| && IsDigit(s[i]);
    var ui := if |s| > 0 && Integer.IsSign(s[0]) then i - 1 else i;
    assert 0 <= ui < |u| && IsDigit(u[ui]);
    if d :| 0 <= d < |u| && u[d] == '.' {
      var a, b := u[..d], u[d + 1..];
      assert u == a + "." + b;
      assert AllDigits(a) by {
        forall k | 0 <= k < |a|
          ensures IsDigit(a[k])
        {
          assert a[k] == u[k];
        }
      }
      assert AllDigits(b) by {
        forall k | 0 <= k < |b|
          ensures IsDigit(b[k])
        {
          assert b[k] == u[d + 1 + k];
        }
      }
      assert ui != d;
    } else {
      assert u == u + "";
    }
  }

  /** Under the correction every coordinate accepted in the default form is a decimal
      numeral, and the point is what ParseFloat reads from the two numerals. */
  lemma CorrectedReadsNumerals(lib: Library, value: string)
    requires CorrectedApplyDefault(lib, value).Ok?
    ensures var (x, y) := Submatch(DefaultPattern, value).value;
      && DecimalNumeral(x) && DecimalNumeral(y)
      && CorrectedApplyDefault(lib, value).value == GeoPoint(ParseCoordinate(lib, x), ParseCoordinate(lib, y))
  {
    var (x, y) := Submatch(DefaultPattern, value).value;
    NumeralOfCoordinate(x);
    NumeralOfCoordinate(y);
  }

  /** The correction changes nothing for coordinates that hold digits. */
  lemma CorrectedAgreesOnNumerals(lib: Library, x: string, spaced: bool, y: string)
    requires DefaultCoordinate(x) && DefaultCoordinate(y) && HasDigit(x) && HasDigit(y)
    ensures CorrectedApplyDefault(lib, Render(DefaultPattern, x, spaced, y))
         == ApplyGeoPointRegexp(lib, DefaultPattern, Render(DefaultPattern, x, spaced, y))
    ensures CorrectedApplyDefault(lib, Render(DefaultPattern, x, spaced, y)).Ok?
  {
    SubmatchComplete(DefaultPattern, x, spaced, y);
  }
}

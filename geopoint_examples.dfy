/** Worked cases of the geopoint codec: the texts each form accepts and refuses, and the
    default form's reading of coordinates that hold no digit. */
module GeoPointExamples {
  import opened Wrappers
  import opened Decimal
  import opened Host
  import opened Values
  import opened GeoPointCodec

  /** "90, 40" is a default-form point. */
  lemma DefaultAcceptsSpaced(lib: Library, t: string)
    requires t == "90, 40"
    ensures CastGeoPoint(lib, "", t) == Ok(GeoPoint(ParseCoordinate(lib, "90"), ParseCoordinate(lib, "40")))
  {
    assert Render(DefaultPattern, "90", true, "40") == t;
    ApplyAccepts(lib, DefaultPattern, "90", true, "40");
  }

  /** "-90.10,-40" is a default-form point. */
  lemma DefaultAcceptsSigned(lib: Library, u: string)
    requires u == "-90.10,-40"
    ensures CastGeoPoint(lib, "default", u)
         == Ok(GeoPoint(ParseCoordinate(lib, "-90.10"), ParseCoordinate(lib, "-40")))
  {
    var x, y := "-90.10", "-40";
    assert Integer.Unsigned(x) == "90.10" && Integer.Unsigned(y) == "40";
    assert Render(DefaultPattern, x, false, y) == u;
    ApplyAccepts(lib, DefaultPattern, x, false, y);
  }

  /** "[90.5, 40.44]" is an array-form point. */
  lemma ArrayAccepts(lib: Library, t: string)
    requires t == "[90.5, 40.44]"
    ensures CastGeoPoint(lib, "array", t)
         == Ok(GeoPoint(ParseCoordinate(lib, "90.5"), ParseCoordinate(lib, "40.44")))
  {
    var x, y := "90.5", "40.44";
    assert Render(ArrayPattern, x, true, y) == t;
    ApplyAccepts(lib, ArrayPattern, x, true, y);
  }

  /** "/10,10/" is not a default-form point, and "10,10" is not an array-form point. */
  lemma Refused(lib: Library, t: string, u: string)
    requires t == "/10,10/" && u == "10,10"
    ensures CastGeoPoint(lib, "default", t) == Err(InvalidGeoPoint(t))
    ensures CastGeoPoint(lib, "array", u) == Err(InvalidGeoPoint(u))
  {
    assert t[0] == '/';
    var i := IndexOfComma(t);
    if i.Some? {
      assert i.value > 0;
      var x := t[..i.value];
      assert x[0] == '/';
      assert !Coordinate(DefaultPattern, x);
    }
    assert u[0] != '[';
  }

  /** An unknown format is refused by both directions. */
  lemma UnknownFormat(lib: Library, value: string, g: GeoPoint, f: string)
    requires f == "badformat"
    ensures CastGeoPoint(lib, f, value) == Err(InvalidGeoPointFormat(f))
    ensures UncastGeoPoint(lib, f, VGeoPoint(g)) == Err(InvalidGeoPointFormat(f))
  {
  }

  /** {"lon": 90, "lat": 45} decodes to its two numbers; with "longi" in place of "lon" it
      is refused, and so is text that is not JSON. */
  lemma ObjectForm(lib: Library, good: string, bad: string, empty: string)
    requires lib.unmarshalJSON(good) == Some(JObject([("lon", JNumber(90.0)), ("lat", JNumber(45.0))]))
    requires lib.unmarshalJSON(bad) == Some(JObject([("longi", JNumber(90.0)), ("lat", JNumber(45.0))]))
    requires lib.unmarshalJSON(empty) == None
    ensures CastGeoPoint(lib, "object", good) == Ok(GeoPoint(90.0, 45.0))
    ensures CastGeoPoint(lib, "object", bad) == Err(InvalidGeoPoint(bad))
    ensures CastGeoPoint(lib, "object", empty) == Err(InvalidJSON(empty))
  {
    var ms := [("lon", JNumber(90.0)), ("lat", JNumber(45.0))];
    assert LowerAscii(ms[1].0[1]) == 'a' != "lon"[1];
    assert LowerAscii(ms[0].0[1]) == 'o' != "lat"[1];
    assert KeyNames(ms[0].0, "lon") && !KeyNames(ms[1].0, "lon");
    assert !KeyNames(ms[0].0, "lat") && KeyNames(ms[1].0, "lat");
    assert !BadMember(ms);
    assert FinalNumber(ms, "lat") == Some(45.0);
    assert forall k :: 0 < k < |ms| ==> !KeyNames(ms[k].0, "lon");
    FinalNumberLast(ms, "lon", 90.0);
    DecodeGeoPointComplete(good, ms, 90.0, 45.0);
    var ns := [("longi", JNumber(90.0)), ("lat", JNumber(45.0))];
    assert LowerAscii(ns[1].0[1]) == 'a' != "lon"[1];
    assert !KeyNames(ns[0].0, "lon") && !KeyNames(ns[1].0, "lon");
    ObjectNeedsLon(lib, bad, ns);
  }

  /** Finding, as written: "+,-" is accepted as the point (0, 0), although neither
      coordinate is a number strconv.ParseFloat reads. The corrected default form refuses
      it. */
  lemma SignsReadAsOrigin(lib: Library, t: string)
    requires t == "+,-"
    requires lib.parseFloat("+") == None && lib.parseFloat("-") == None
    ensures CastGeoPoint(lib, "default", t) == Ok(GeoPoint(0.0, 0.0))
    ensures CorrectedCastGeoPoint(lib, "default", t) == Err(InvalidGeoPoint(t))
  {
    var x, y := "+", "-";
    assert Integer.Unsigned(x) == "" && Integer.Unsigned(y) == "";
    assert Render(DefaultPattern, x, false, y) == t;
    ApplyAccepts(lib, DefaultPattern, x, false, y);
    SubmatchComplete(DefaultPattern, x, false, y);
    assert !HasDigit(x);
  }
}

/** The cases of duration_test.go, and the sub-second remainder that uncastDuration's
    output does not carry back through castDuration. */
module DurationExamples {
  import opened Wrappers
  import opened Decimal
  import opened Host
  import opened Values
  import opened Duration

  /** Every group is optional: "P", "PH" and "PfooHdddS" all denote 0; text without a 'P'
      is rejected. */
  lemma {:induction false} CastDurationEmptyComponents()
    ensures CastDuration("P") == Ok(0)
    ensures CastDuration("PH") == Ok(0)
    ensures CastDuration("PfooHdddS") == Ok(0)
    ensures CastDuration("C2H").Err?
  {
    EmptyTexts();
    EmptyAfterP("");
    EmptyAfterP("H");
    EmptyAfterP("fooHdddS");
    NoP();
  }

  lemma EmptyTexts()
    ensures "P" == "P" + "" && "PH" == "P" + "H" && "PfooHdddS" == "P" + "fooHdddS"
  {
  }

  lemma NoP()
    ensures CastDuration("C2H").Err?
  {
    assert "C2H"[0] != 'P' && "C2H"[1] != 'P' && "C2H"[2] != 'P';
  }

  /** A text after the 'P' that starts with neither a digit nor 'T' takes no group. */
  lemma {:induction false} EmptyAfterP(t: string)
    requires t == "" || (!IsDigit(t[0]) && t[0] != 'T')
    ensures CastDuration("P" + t) == Ok(0)
  {
    assert DigitPrefix(t) == "";
    AfterPOf(t, "", t, "", t, "", t, t, "", t, "", t, "");
    SubmatchAfterLeadingP(t);
    CastIs("P" + t, Captures("", "", "", "", "", ""), 0);
  }

  lemma FullText()
    ensures DesignatorText(3, 6, 4, 12, 30, 5, "") == "P3Y6M4DT12H30M5S"
  {
    assert Show(12) == "12";
    assert Show(30) == "30";
  }

  lemma FullCast(t: string, n: int)
    requires t == DesignatorText(3, 6, 4, 12, 30, 5, "") && n == DesignatorTotal(3, 6, 4, 12, 30, 5, "")
    ensures CastDuration(t) == Ok(n)
  {
    FullTotal(n);
    CastDesignatorText(3, 6, 4, 12, 30, 5, "");
  }

  lemma FullTotal(n: int)
    requires n == DesignatorTotal(3, 6, 4, 12, 30, 5, "")
    ensures Ok(n) == Ok(3 * HoursInYear + 6 * HoursInMonth + 4 * HoursInDay + 12 * Hour + 30 * Minute + 5 * Second)
  {
    assert FracNanos("") == 0;
  }

  /** "P3Y6M4DT12H30M5S" is 3 years, 6 months, 4 days, 12 hours, 30 minutes and 5 seconds. */
  lemma CastDurationFull()
    ensures CastDuration("P3Y6M4DT12H30M5S") ==
              Ok(3 * HoursInYear + 6 * HoursInMonth + 4 * HoursInDay + 12 * Hour + 30 * Minute + 5 * Second)
  {
    FullText();
    FullCast("P3Y6M4DT12H30M5S", DesignatorTotal(3, 6, 4, 12, 30, 5, ""));
    FullTotal(DesignatorTotal(3, 6, 4, 12, 30, 5, ""));
  }

  lemma FractionalText()
    ensures "P22.519S" == "P" + SecondsDesignator(22, "519")
  {
    assert Show(22) == "22";
  }

  lemma FractionalNanos()
    ensures FracNanos("519") == 519 * Millisecond
  {
    assert ValueOf("519") == 519 by {
      assert "519"[..2] == "51";
      assert "51"[..1] == "5";
      assert "5"[..0] == "";
    }
    assert Pow10(6) == 1000000;
  }

  /** Fractional seconds: "P22.519S" is 22.519 seconds. */
  lemma CastDurationFractional()
    ensures CastDuration("P22.519S") == Ok(22 * Second + 519 * Millisecond)
  {
    FractionalText();
    FractionalNanos();
    CastSecondsOnly(22, "519", 22 * Second + 519 * Millisecond);
  }

  /** A bare 1M before any T is a month; after T it is a minute. */
  lemma CastDurationMonthsOrMinutes()
    ensures CastDuration("P1M") == Ok(HoursInMonth)
    ensures CastDuration("PT1M") == Ok(Minute)
  {
    OneMonthTexts();
    CastMonthsOnly(1);
    CastMinutesOnly(1);
  }

  lemma OneMonthTexts()
    ensures "P1M" == "P" + (Show(1) + "M") && "PT1M" == "P" + ("T" + (Show(1) + "M"))
  {
    assert Show(1) == "1";
  }

  /** Designators may be left out: "PT12H30M5S" is 12 hours, 30 minutes and 5 seconds. */
  lemma CastDurationOnlyTime()
    ensures CastDuration("PT12H30M5S") == Ok(12 * Hour + 30 * Minute + 5 * Second)
  {
    OnlyTimeText();
    OnlyTimeCast("PT12H30M5S", PartialTotal(None, None, None, Some(12), Some(30), Some((5, ""))));
    OnlyTimeTotal(PartialTotal(None, None, None, Some(12), Some(30), Some((5, ""))));
  }

  lemma OnlyTimeText()
    ensures PartialText(None, None, None, true, Some(12), Some(30), Some((5, ""))) == "PT12H30M5S"
  {
    assert Show(12) == "12";
    assert Show(30) == "30";
  }

  lemma OnlyTimeCast(t: string, n: int)
    requires t == PartialText(None, None, None, true, Some(12), Some(30), Some((5, ""))) && n == PartialTotal(None, None, None, Some(12), Some(30), Some((5, "")))
    ensures CastDuration(t) == Ok(n)
  {
    OnlyTimeTotal(n);
    CastPartialText(None, None, None, true, Some(12), Some(30), Some((5, "")));
  }

  lemma OnlyTimeTotal(n: int)
    requires n == PartialTotal(None, None, None, Some(12), Some(30), Some((5, "")))
    ensures Ok(n) == Ok(12 * Hour + 30 * Minute + 5 * Second)
  {
    assert FracNanos("") == 0;
  }

  /** "P3Y6M4D" is 3 years, 6 months and 4 days. */
  lemma CastDurationOnlyPeriod()
    ensures CastDuration("P3Y6M4D") == Ok(3 * HoursInYear + 6 * HoursInMonth + 4 * HoursInDay)
  {
    OnlyPeriodText();
    OnlyPeriodCast("P3Y6M4D", PartialTotal(Some(3), Some(6), Some(4), None, None, None));
    OnlyPeriodTotal(PartialTotal(Some(3), Some(6), Some(4), None, None, None));
  }

  lemma OnlyPeriodText()
    ensures PartialText(Some(3), Some(6), Some(4), false, None, None, None) == "P3Y6M4D"
  {
  }

  lemma OnlyPeriodCast(t: string, n: int)
    requires t == PartialText(Some(3), Some(6), Some(4), false, None, None, None) && n == PartialTotal(Some(3), Some(6), Some(4), None, None, None)
    ensures CastDuration(t) == Ok(n)
  {
    OnlyPeriodTotal(n);
    CastPartialText(Some(3), Some(6), Some(4), false, None, None, None);
  }

  lemma OnlyPeriodTotal(n: int)
    requires n == PartialTotal(Some(3), Some(6), Some(4), None, None, None)
    ensures Ok(n) == Ok(3 * HoursInYear + 6 * HoursInMonth + 4 * HoursInDay)
  {
  }

  /** An hour designator needs no 'T': "P2H" is 2 hours. */
  lemma CastDurationOnlyHour()
    ensures CastDuration("P2H") == Ok(2 * Hour)
  {
    OnlyHourText();
    OnlyHourCast("P2H", PartialTotal(None, None, None, Some(2), None, None));
    OnlyHourTotal(PartialTotal(None, None, None, Some(2), None, None));
  }

  lemma OnlyHourText()
    ensures PartialText(None, None, None, false, Some(2), None, None) == "P2H"
  {
  }

  lemma OnlyHourCast(t: string, n: int)
    requires t == PartialText(None, None, None, false, Some(2), None, None) && n == PartialTotal(None, None, None, Some(2), None, None)
    ensures CastDuration(t) == Ok(n)
  {
    OnlyHourTotal(n);
    CastPartialText(None, None, None, false, Some(2), None, None);
  }

  lemma OnlyHourTotal(n: int)
    requires n == PartialTotal(None, None, None, Some(2), None, None)
    ensures Ok(n) == Ok(2 * Hour)
  {
  }

  /** "P2Y" is 2 years of 360 days. */
  lemma CastDurationTwoYears()
    ensures CastDuration("P2Y") == Ok((2 * 360 * 24) * Hour)
  {
    TwoYearsText();
    TwoYearsCast("P2Y", PartialTotal(Some(2), None, None, None, None, None));
    TwoYearsTotal(PartialTotal(Some(2), None, None, None, None, None));
  }

  lemma TwoYearsText()
    ensures PartialText(Some(2), None, None, false, None, None, None) == "P2Y"
  {
  }

  lemma TwoYearsCast(t: string, n: int)
    requires t == PartialText(Some(2), None, None, false, None, None, None) && n == PartialTotal(Some(2), None, None, None, None, None)
    ensures CastDuration(t) == Ok(n)
  {
    TwoYearsTotal(n);
    CastPartialText(Some(2), None, None, false, None, None, None);
  }

  lemma TwoYearsTotal(n: int)
    requires n == PartialTotal(Some(2), None, None, None, None, None)
    ensures Ok(n) == Ok((2 * 360 * 24) * Hour)
  {
  }

  // ---------------------------------------------------------------------------------
  // uncastDuration
  // ---------------------------------------------------------------------------------

  /** 1y1mo1d1h1m0.5s, whose remainder Duration.String renders as "1h1m0.5s", encodes as
      "P1Y1M1DT1H1M0.5S", which decodes back to it. */
  lemma UncastDurationExample(lib: Library)
    requires lib.durationString(Hour + Minute + 500 * Millisecond) == "1h1m0.5s"
    ensures UncastDuration(lib, VDuration(HoursInYear + HoursInMonth + HoursInDay + Hour + Minute + 500 * Millisecond))
              == Ok("P1Y1M1DT1H1M0.5S")
    ensures CastDuration("P1Y1M1DT1H1M0.5S") ==
              Ok(HoursInYear + HoursInMonth + HoursInDay + Hour + Minute + 500 * Millisecond)
  {
    ExampleEncode(lib);
    ExampleDecode();
  }

  lemma ExampleEncode(lib: Library)
    requires lib.durationString(Hour + Minute + 500 * Millisecond) == "1h1m0.5s"
    ensures UncastDuration(lib, VDuration(HoursInYear + HoursInMonth + HoursInDay + Hour + Minute + 500 * Millisecond))
              == Ok("P1Y1M1DT1H1M0.5S")
  {
    ExampleDecompose();
    UncastIs(lib, HoursInYear + HoursInMonth + HoursInDay + Hour + Minute + 500 * Millisecond,
             Parts(1, 1, 1, Hour + Minute + 500 * Millisecond), "1h1m0.5s");
    ExampleUncastText(lib);
  }

  lemma ExampleDecode()
    ensures CastDuration("P1Y1M1DT1H1M0.5S") ==
              Ok(HoursInYear + HoursInMonth + HoursInDay + Hour + Minute + 500 * Millisecond)
  {
    ExampleText();
    ExampleCast("P1Y1M1DT1H1M0.5S", DesignatorTotal(1, 1, 1, 1, 1, 0, "5"));
    ExampleTotal(DesignatorTotal(1, 1, 1, 1, 1, 0, "5"));
  }

  /** What uncastDuration prints, given the decomposition and the remainder's rendering. */
  lemma UncastIs(lib: Library, n: int, p: Parts, s: string)
    requires Decompose(n) == p && lib.durationString(p.rest) == s
    ensures UncastDuration(lib, VDuration(n)) == Ok(Prefix(p) + ToUpper(lib, s))
  {
  }

  lemma ExampleDecompose()
    ensures Decompose(HoursInYear + HoursInMonth + HoursInDay + Hour + Minute + 500 * Millisecond) ==
              Parts(1, 1, 1, Hour + Minute + 500 * Millisecond)
  {
    DecomposeOf(1, 1, 1, Hour + Minute + 500 * Millisecond);
  }

  lemma ExampleUncastText(lib: Library)
    ensures Prefix(Parts(1, 1, 1, Hour + Minute + 500 * Millisecond)) + ToUpper(lib, "1h1m0.5s") == "P1Y1M1DT1H1M0.5S"
  {
    PrefixOf(1, 1, 1, Hour + Minute + 500 * Millisecond);
    ExampleUpper(lib);
  }

  lemma PrefixOf(y: nat, m: nat, d: nat, r: int)
    requires y < 10 && m < 10 && d < 10
    ensures Prefix(Parts(y, m, d, r)) == ['P', DigitChar(y), 'Y', DigitChar(m), 'M', DigitChar(d), 'D', 'T']
  {
  }

  lemma ExampleUpper(lib: Library)
    ensures ToUpper(lib, "1h1m0.5s") == "1H1M0.5S"
  {
  }

  lemma ExampleText()
    ensures DesignatorText(1, 1, 1, 1, 1, 0, "5") == "P1Y1M1DT1H1M0.5S"
  {
  }

  lemma ExampleCast(t: string, n: int)
    requires t == DesignatorText(1, 1, 1, 1, 1, 0, "5") && n == DesignatorTotal(1, 1, 1, 1, 1, 0, "5")
    ensures CastDuration(t) == Ok(n)
  {
    ExampleTotal(n);
    CastDesignatorText(1, 1, 1, 1, 1, 0, "5");
  }

  lemma ExampleTotal(n: int)
    requires n == DesignatorTotal(1, 1, 1, 1, 1, 0, "5")
    ensures Ok(n) == Ok(HoursInYear + HoursInMonth + HoursInDay + Hour + Minute + 500 * Millisecond)
  {
    assert ValueOf("5") == 5 by { assert "5"[..0] == ""; }
    assert Pow10(8) == 100000000;
  }

  // ---------------------------------------------------------------------------------
  // Sub-second remainders do not survive the round trip
  // ---------------------------------------------------------------------------------

  /** As written, a remainder below one second is rendered by Duration.String in ms, µs or
      ns, which castDuration reads back as something else: 500ms becomes
      "P0Y0M0DT500MS", and "500M" is then read as 500 minutes. */
  lemma UncastSubSecondMisread(lib: Library)
    requires lib.durationString(500 * Millisecond) == "500ms"
    ensures UncastDuration(lib, VDuration(500 * Millisecond)) == Ok("P0Y0M0DT500MS")
    ensures CastDuration("P0Y0M0DT500MS") == Ok(500 * Minute)
  {
    MisreadDecompose();
    UncastIs(lib, 500 * Millisecond, Parts(0, 0, 0, 500 * Millisecond), "500ms");
    MisreadUncastText(lib);
    MisreadCaptures("P0Y0M0DT500MS");
    MisreadSum();
    CastIs("P0Y0M0DT500MS", Captures("0Y", "0M", "0D", "", "500M", ""), 500 * Minute);
  }

  lemma MisreadDecompose()
    ensures Decompose(500 * Millisecond) == Parts(0, 0, 0, 500 * Millisecond)
  {
    DecomposeOf(0, 0, 0, 500 * Millisecond);
  }

  lemma MisreadUncastText(lib: Library)
    ensures Prefix(Parts(0, 0, 0, 500 * Millisecond)) + ToUpper(lib, "500ms") == "P0Y0M0DT500MS"
  {
    PrefixOf(0, 0, 0, 500 * Millisecond);
    MisreadUpper(lib);
  }

  lemma MisreadUpper(lib: Library)
    ensures ToUpper(lib, "500ms") == "500MS"
  {
  }

  lemma MisreadCaptures(value: string)
    requires value == "P0Y0M0DT500MS"
    ensures FindStringSubmatch(value) == Some(Captures("0Y", "0M", "0D", "", "500M", ""))
  {
    var t := value[1..];
    assert t == "0Y0M0DT500MS";
    assert value == "P" + t;
    MisreadAfterP(t);
    SubmatchAfterLeadingP(t);
  }

  lemma MisreadAfterP(t: string)
    requires t == "0Y0M0DT500MS"
    ensures AfterP(t) == Captures("0Y", "0M", "0D", "", "500M", "")
  {
    MisreadYears();
    MisreadMonths();
    MisreadDays();
    MisreadHours();
    MisreadMinutes();
    assert "T500MS"[1..] == "500MS";
    assert DigitPrefix("S") == "";
    AfterPOf(t, "0Y", "0M0DT500MS", "0M", "0DT500MS", "0D", "T500MS", "500MS",
             "", "500MS", "500M", "S", "");
  }

  lemma MisreadYears()
    ensures UnitGroup("0Y0M0DT500MS", 'Y') == ("0Y", "0M0DT500MS")
  {
    assert "0Y0M0DT500MS" == "0" + ("Y" + "0M0DT500MS");
    assert "0" + ['Y'] == "0Y";
    UnitGroupOf("0", 'Y', "0M0DT500MS");
  }

  lemma MisreadMonths()
    ensures UnitGroup("0M0DT500MS", 'M') == ("0M", "0DT500MS")
  {
    assert "0M0DT500MS" == "0" + ("M" + "0DT500MS");
    assert "0" + ['M'] == "0M";
    UnitGroupOf("0", 'M', "0DT500MS");
  }

  lemma MisreadDays()
    ensures UnitGroup("0DT500MS", 'D') == ("0D", "T500MS")
  {
    assert "0DT500MS" == "0" + ("D" + "T500MS");
    assert "0" + ['D'] == "0D";
    UnitGroupOf("0", 'D', "T500MS");
  }

  lemma MisreadHours()
    ensures UnitGroup("500MS", 'H') == ("", "500MS")
  {
    assert "500MS" == "500" + "MS";
    UnitGroupMismatch("500", "MS", 'H');
  }

  lemma MisreadMinutes()
    ensures UnitGroup("500MS", 'M') == ("500M", "S")
  {
    assert "500MS" == "500" + ("M" + "S");
    assert "500" + ['M'] == "500M";
    UnitGroupOf("500", 'M', "S");
  }

  lemma MisreadSum()
    ensures WellFormed(Captures("0Y", "0M", "0D", "", "500M", ""))
    ensures SumOfCaptures(Captures("0Y", "0M", "0D", "", "500M", "")) == 500 * Minute
  {
    ParseZero('Y', HoursInYear);
    ParseZero('M', HoursInMonth);
    ParseZero('D', HoursInDay);
    ParseFiveHundredMinutes();
  }

  lemma ParseZero(unit: char, multiplier: int)
    requires multiplier > 0
    ensures AllDigits(['0', unit][..1]) && ParseIntDuration(['0', unit], multiplier) == 0
  {
    assert Show(0) == "0";
    assert ['0', unit] == Show(0) + [unit];
    ParseUnitOf(0, unit, multiplier);
  }

  lemma ParseFiveHundredMinutes()
    ensures AllDigits("500M"[..3]) && ParseIntDuration("500M", Minute) == 500 * Minute
  {
    assert Show(500) == "500" by { assert Show(5) == "5"; assert Show(50) == "50"; }
    assert "500M" == Show(500) + ['M'];
    ParseUnitOf(500, 'M', Minute);
  }
}

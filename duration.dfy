/** duration.go: "duration" cells in the designator form of ISO 8601 durations
    (section 4.4.3.2 of ISO 8601:2004), e.g. "P3Y6M4DT12H30M5S". A year counts as 360
    days and a month as 30 days. Durations are int64 nanoseconds (time.Duration). */
module Duration {
  import opened Wrappers
  import opened Decimal
  import opened Host
  import opened Values

  const Nanosecond: int := 1
  const Microsecond: int := 1000
  const Millisecond: int := 1000 * Microsecond
  const Second: int := 1000 * Millisecond
  const Minute: int := 60 * Second
  const Hour: int := 60 * Minute
  /** hoursInYear, hoursInMonth and hoursInDay */
  const HoursInYear: int := 24 * 360 * Hour
  const HoursInMonth: int := 24 * 30 * Hour
  const HoursInDay: int := 24 * Hour

  // ---------------------------------------------------------------------------------
  // The regular expression
  //   P(?P<years>\d+Y)?(?P<months>\d+M)?(?P<days>\d+D)?T?(?P<hours>\d+H)?(?P<minutes>\d+M)?(?P<seconds>\d+\.?\d*S)?
  // searched for (unanchored, leftmost-first) by FindStringSubmatch.
  // ---------------------------------------------------------------------------------

  /** The submatches 1..6: each group's text, unit letter included, or "" when the group
      did not take part in the match. */
  datatype Captures = Captures(years: string, months: string, days: string,
                               hours: string, minutes: string, seconds: string)

  /** The longest run of digits at the start of t. */
  function DigitPrefix(t: string): (d: string)
    ensures |d| <= |t| && d == t[..|d|] && AllDigits(d)
    ensures |d| < |t| ==> !IsDigit(t[|d|])
  {
    if |t| > 0 && IsDigit(t[0]) then [t[0]] + DigitPrefix(t[1..]) else ""
  }

  lemma {:induction false} DigitPrefixOf(a: string, b: string)
    requires AllDigits(a) && |b| > 0 && !IsDigit(b[0])
    ensures DigitPrefix(a + b) == a
  {
    if |a| == 0 {
      assert a + b == b;
    } else {
      assert (a + b)[1..] == a[1..] + b;
      DigitPrefixOf(a[1..], b);
    }
  }

  /** A captured `\d+U` group: digits, then the unit letter. */
  predicate UnitText(v: string, unit: char)
  {
    |v| >= 2 && v[|v| - 1] == unit && AllDigits(v[..|v| - 1])
  }

  /** A captured `\d+\.?\d*S` group. */
  predicate SecondsText(v: string)
  {
    |v| >= 2 && v[|v| - 1] == 'S' &&
    var body := v[..|v| - 1];
    var ip := DigitPrefix(body);
    |ip| > 0 && (|ip| == |body| || (body[|ip|] == '.' && AllDigits(body[|ip| + 1..])))
  }

  /** The optional group `(\d+U)?` tried at the start of t. Greedy `\d+` must be followed
      by the unit; backtracking into the digits cannot help, so the group takes part iff
      the maximal digit run is non-empty and followed by the unit. */
  function UnitGroup(t: string, unit: char): (r: (string, string))
    requires !IsDigit(unit)
    ensures r.0 + r.1 == t
    ensures r.0 == "" || UnitText(r.0, unit)
  {
    var d := DigitPrefix(t);
    if |d| > 0 && |d| < |t| && t[|d|] == unit then
      assert t[..|d| + 1][..|d|] == d;
      (t[..|d| + 1], t[|d| + 1..])
    else ("", t)
  }

  /** The optional group `(\d+\.?\d*S)?` tried at the start of t. */
  function SecondsGroup(t: string): (r: (string, string))
    ensures r.0 + r.1 == t
    ensures r.0 == "" || SecondsText(r.0)
  {
    var d := DigitPrefix(t);
    if |d| == 0 || |d| == |t| then ("", t)
    else if t[|d|] == 'S' then
      WholeSecondsText(t, d);
      (t[..|d| + 1], t[|d| + 1..])
    else if t[|d|] == '.' then
      var f := DigitPrefix(t[|d| + 1..]);
      var k := |d| + 1 + |f|;
      if k < |t| && t[k] == 'S' then
        FractionalSecondsText(t, d, f);
        (t[..k + 1], t[k + 1..])
      else ("", t)
    else ("", t)
  }

  lemma WholeSecondsText(t: string, d: string)
    requires d == DigitPrefix(t) && 0 < |d| < |t| && t[|d|] == 'S'
    ensures SecondsText(t[..|d| + 1])
  {
    var v := t[..|d| + 1];
    assert v[..|v| - 1] == d;
    DigitPrefixAll(d);
  }

  lemma FractionalSecondsText(t: string, d: string, f: string)
    requires d == DigitPrefix(t) && 0 < |d| < |t| && t[|d|] == '.'
    requires f == DigitPrefix(t[|d| + 1..])
    requires |d| + 1 + |f| < |t| && t[|d| + 1 + |f|] == 'S'
    ensures SecondsText(t[..|d| + 1 + |f| + 1])
  {
    var k := |d| + 1 + |f|;
    var v := t[..k + 1];
    assert v[..|v| - 1] == t[..k];
    BodySplit(t, d, f);
    DigitPrefixOf(d, ['.'] + f);
    assert (d + (['.'] + f))[|d| + 1..] == f;
  }

  lemma BodySplit(t: string, d: string, f: string)
    requires |d| + 1 + |f| <= |t| && t[..|d|] == d && t[|d|] == '.' && t[|d| + 1..][..|f|] == f
    ensures t[..|d| + 1 + |f|] == d + (['.'] + f)
  {
    var k := |d| + 1 + |f|;
    assert t[..k] == t[..|d|] + t[|d|..k];
    assert t[|d|..k] == [t[|d|]] + t[|d| + 1..][..|f|];
  }

  lemma {:induction false} DigitPrefixAll(a: string)
    requires AllDigits(a)
    ensures DigitPrefix(a) == a
  {
    if |a| > 0 {
      DigitPrefixAll(a[1..]);
    }
  }

  /** What each capture can hold. */
  predicate WellFormed(c: Captures)
  {
    (c.years == "" || UnitText(c.years, 'Y')) && (c.months == "" || UnitText(c.months, 'M')) &&
    (c.days == "" || UnitText(c.days, 'D')) && (c.hours == "" || UnitText(c.hours, 'H')) &&
    (c.minutes == "" || UnitText(c.minutes, 'M')) && (c.seconds == "" || SecondsText(c.seconds))
  }

  /** The groups after the leading 'P', each taken greedily in turn; since every later
      part is optional, the greedy choice is never undone. */
  function AfterP(t: string): (c: Captures)
    ensures WellFormed(c)
  {
    var (y, t1) := UnitGroup(t, 'Y');
    var (mo, t2) := UnitGroup(t1, 'M');
    var (d, t3) := UnitGroup(t2, 'D');
    var t4 := if |t3| > 0 && t3[0] == 'T' then t3[1..] else t3;
    var (h, t5) := UnitGroup(t4, 'H');
    var (mi, t6) := UnitGroup(t5, 'M');
    var (s, _) := SecondsGroup(t6);
    Captures(y, mo, d, h, mi, s)
  }

  /** The position of the first 'P'. */
  function IndexOfP(value: string): (r: Option<nat>)
    ensures r.None? <==> 'P' !in value
    ensures r.Some? ==> r.value < |value| && value[r.value] == 'P' && 'P' !in value[..r.value]
  {
    if |value| == 0 then None
    else if value[0] == 'P' then Some(0)
    else
      var r := IndexOfP(value[1..]);
      assert value == [value[0]] + value[1..];
      if r.None? then None
      else
        assert value[..r.value + 1] == [value[0]] + value[1..][..r.value];
        Some(r.value + 1)
  }

  /** durationRegexp.FindStringSubmatch: the match starts at the first 'P'. */
  function FindStringSubmatch(value: string): (r: Option<Captures>)
    ensures r.None? <==> 'P' !in value
    ensures r.Some? ==> WellFormed(r.value)
  {
    match IndexOfP(value)
    case None => None
    case Some(i) => Some(AfterP(value[i + 1..]))
  }

  // ---------------------------------------------------------------------------------
  // castDuration
  // ---------------------------------------------------------------------------------

  /** parseIntDuration: an absent group is 0; otherwise the digits (strconv.Atoi, which
      clamps to MaxInt64) times the unit, with int64 wrap-around. */
  function ParseIntDuration(v: string, multiplier: int): int
    requires v == "" || AllDigits(v[..|v| - 1])
  {
    if |v| == 0 then 0 else Wrap64(AtoiDigits(v[..|v| - 1]) * multiplier)
  }

  /** The nanoseconds of a fraction's digits: the first nine, as if padded with zeros. */
  function FracNanos(f: string): (n: nat)
    requires AllDigits(f)
    ensures n < Second
  {
    Pow10Nine();
    if |f| >= 9 then
      ValueOfBound(f[..9]);
      ValueOf(f[..9])
    else
      ValueOfBound(f);
      PowAdd(|f|, 9 - |f|);
      MulBelow(ValueOf(f), Pow10(|f|), Pow10(9 - |f|));
      ValueOf(f) * Pow10(9 - |f|)
  }

  lemma Pow10Nine()
    ensures Pow10(9) == Second
  {
    assert Pow10(3) == 1000;
    assert Pow10(6) == 1000 * Pow10(3);
  }

  lemma {:induction false} PowAdd(a: nat, b: nat)
    ensures Pow10(a + b) == Pow10(a) * Pow10(b)
  {
    if a > 0 {
      PowAdd(a - 1, b);
      assert Pow10(a + b) == 10 * Pow10(a - 1 + b);
    }
  }

  lemma MulBelow(x: nat, y: nat, p: nat)
    requires x < y && p > 0
    ensures x * p < y * p
  {
  }

  /** parseSeconds: an absent group is 0; otherwise the decimal number of seconds in
      nanoseconds, digits beyond the ninth decimal place dropped. */
  function ParseSeconds(v: string): (n: nat)
    requires v == "" || SecondsText(v)
  {
    if |v| == 0 then 0
    else
      var body := v[..|v| - 1];
      var ip := DigitPrefix(body);
      var frac := if |ip| == |body| then "" else body[|ip| + 1..];
      ValueOf(ip) * Second + FracNanos(frac)
  }

  /** The sum castDuration forms from the submatches, in int64 arithmetic. */
  function SumOfCaptures(c: Captures): (n: int)
    requires WellFormed(c)
    ensures IsInt64(n)
  {
    var years := ParseIntDuration(c.years, HoursInYear);
    var months := ParseIntDuration(c.months, HoursInMonth);
    var days := ParseIntDuration(c.days, HoursInDay);
    var hours := ParseIntDuration(c.hours, Hour);
    var minutes := ParseIntDuration(c.minutes, Minute);
    var seconds := ParseSeconds(c.seconds);
    Wrap64(years + months + days + hours + minutes + Wrap64(seconds))
  }

  /** castDuration: an error exactly when the text has no 'P'; otherwise the sum of the
      present components. */
  function CastDuration(value: string): (r: Result<int>)
    ensures r.Err? <==> 'P' !in value
    ensures r.Err? ==> r.error == InvalidDuration(value)
    ensures r.Ok? ==> IsInt64(r.value)
  {
    match FindStringSubmatch(value)
    case None => Err(InvalidDuration(value))
    case Some(c) => Ok(SumOfCaptures(c))
  }

  // ---------------------------------------------------------------------------------
  // What castDuration reads from a text with every designator present
  // ---------------------------------------------------------------------------------

  /** The seconds designator: whole seconds, an optional fraction, 'S'. */
  function SecondsDesignator(s: nat, frac: string): string
  {
    Show(s) + (if frac == "" then "S" else "." + frac + "S")
  }

  /** "P{y}Y{m}M{d}DT{h}H{mi}M{s}[.{frac}]S" */
  function DesignatorText(y: nat, m: nat, d: nat, h: nat, mi: nat, s: nat, frac: string): string
  {
    "P" + (Show(y) + ("Y" + (Show(m) + ("M" + (Show(d) + ("D" + ("T" +
      (Show(h) + ("H" + (Show(mi) + ("M" + SecondsDesignator(s, frac))))))))))))
  }

  lemma {:induction false} UnitGroupOf(a: string, unit: char, rest: string)
    requires |a| > 0 && AllDigits(a) && !IsDigit(unit)
    ensures UnitGroup(a + ([unit] + rest), unit) == (a + [unit], rest)
  {
    DigitPrefixOf(a, [unit] + rest);
    var t := a + ([unit] + rest);
    assert t[..|a| + 1] == a + [unit];
    assert t[|a| + 1..] == rest;
  }

  lemma {:induction false} SecondsGroupOf(s: nat, frac: string)
    requires AllDigits(frac)
    ensures SecondsGroup(SecondsDesignator(s, frac)) == (SecondsDesignator(s, frac), "")
  {
    var a := Show(s);
    var t := SecondsDesignator(s, frac);
    if frac == "" {
      DigitPrefixOf(a, "S");
      assert t == a + "S";
      assert t[..|a| + 1] == t;
    } else {
      DigitPrefixOf(a, "." + frac + "S");
      assert t == a + ("." + frac + "S");
      assert t[|a|] == '.';
      assert t[|a| + 1..] == frac + "S";
      DigitPrefixOf(frac, "S");
      assert t[..|a| + 1 + |frac| + 1] == t;
    }
  }

  /** With every designator present, each group captures its own number. */
  lemma {:induction false} SubmatchOfDesignatorText(y: nat, m: nat, d: nat, h: nat, mi: nat, s: nat, frac: string)
    requires AllDigits(frac)
    ensures FindStringSubmatch(DesignatorText(y, m, d, h, mi, s, frac)) ==
              Some(Captures(Show(y) + "Y", Show(m) + "M", Show(d) + "D",
                            Show(h) + "H", Show(mi) + "M", SecondsDesignator(s, frac)))
  {
    var t6 := SecondsDesignator(s, frac);
    var t5 := Show(mi) + ("M" + t6);
    var t4 := Show(h) + ("H" + t5);
    var t3 := "T" + t4;
    var t2 := Show(d) + ("D" + t3);
    var t1 := Show(m) + ("M" + t2);
    var t0 := Show(y) + ("Y" + t1);
    var text := DesignatorText(y, m, d, h, mi, s, frac);
    assert text == "P" + t0;
    assert IndexOfP(text) == Some(0);
    assert text[1..] == t0;
    UnitGroupOf(Show(y), 'Y', t1);
    UnitGroupOf(Show(m), 'M', t2);
    UnitGroupOf(Show(d), 'D', t3);
    assert t3[0] == 'T' && t3[1..] == t4;
    UnitGroupOf(Show(h), 'H', t5);
    UnitGroupOf(Show(mi), 'M', t6);
    SecondsGroupOf(s, frac);
  }

  /** The value of a seconds designator. */
  lemma {:induction false} ParseSecondsOf(s: nat, frac: string)
    requires AllDigits(frac)
    ensures SecondsText(SecondsDesignator(s, frac))
    ensures ParseSeconds(SecondsDesignator(s, frac)) == s * Second + FracNanos(frac)
  {
    SecondsGroupOf(s, frac);
    SecondsBody(s, frac);
    ValueOfShow(s);
  }

  /** The text before the 'S': the whole seconds, then the fraction after a '.'. */
  lemma {:induction false} SecondsBody(s: nat, frac: string)
    requires AllDigits(frac)
    ensures var v := SecondsDesignator(s, frac);
      |v| >= 2 && var body := v[..|v| - 1];
      DigitPrefix(body) == Show(s) &&
      (if frac == "" then |body| == |Show(s)| else |body| > |Show(s)| && body[|Show(s)| + 1..] == frac)
  {
    var v := SecondsDesignator(s, frac);
    var body := v[..|v| - 1];
    if frac == "" {
      assert body == Show(s);
      DigitPrefixAll(Show(s));
    } else {
      assert body == Show(s) + ("." + frac);
      DigitPrefixOf(Show(s), "." + frac);
      assert body[|Show(s)| + 1..] == frac;
    }
  }

  /** years·360d + months·30d + days·24h + hours + minutes + seconds */
  function DesignatorTotal(y: nat, m: nat, d: nat, h: nat, mi: nat, s: nat, frac: string): int
    requires AllDigits(frac)
  {
    y * HoursInYear + m * HoursInMonth + d * HoursInDay + h * Hour + mi * Minute +
    s * Second + FracNanos(frac)
  }

  /** The sum castDuration computes: years·360d + months·30d + days·24h + hours +
      minutes + seconds, whenever that sum fits in an int64. */
  lemma {:induction false} CastDesignatorText(y: nat, m: nat, d: nat, h: nat, mi: nat, s: nat, frac: string)
    requires AllDigits(frac)
    requires DesignatorTotal(y, m, d, h, mi, s, frac) <= MaxInt64
    ensures CastDuration(DesignatorText(y, m, d, h, mi, s, frac)) ==
              Ok(DesignatorTotal(y, m, d, h, mi, s, frac))
  {
    var c := Captures(Show(y) + "Y", Show(m) + "M", Show(d) + "D",
                      Show(h) + "H", Show(mi) + "M", SecondsDesignator(s, frac));
    SubmatchOfDesignatorText(y, m, d, h, mi, s, frac);
    CastOfSubmatch(DesignatorText(y, m, d, h, mi, s, frac), c);
    SumOfDesignators(y, m, d, h, mi, s, frac);
  }

  lemma CastOfSubmatch(value: string, c: Captures)
    requires FindStringSubmatch(value) == Some(c)
    ensures WellFormed(c) && CastDuration(value) == Ok(SumOfCaptures(c))
  {
  }

  lemma CastIs(value: string, c: Captures, n: int)
    requires FindStringSubmatch(value) == Some(c) && WellFormed(c) && SumOfCaptures(c) == n
    ensures CastDuration(value) == Ok(n)
  {
  }

  lemma {:induction false} SumOfDesignators(y: nat, m: nat, d: nat, h: nat, mi: nat, s: nat, frac: string)
    requires AllDigits(frac)
    requires DesignatorTotal(y, m, d, h, mi, s, frac) <= MaxInt64
    ensures SumOfCaptures(Captures(Show(y) + "Y", Show(m) + "M", Show(d) + "D",
                                   Show(h) + "H", Show(mi) + "M", SecondsDesignator(s, frac))) ==
              DesignatorTotal(y, m, d, h, mi, s, frac)
  {
    MulGrows(y, HoursInYear);
    MulGrows(m, HoursInMonth);
    MulGrows(d, HoursInDay);
    MulGrows(h, Hour);
    MulGrows(mi, Minute);
    MulGrows(s, Second);
    ParseSecondsOf(s, frac);
    ParseUnitOf(y, 'Y', HoursInYear);
    ParseUnitOf(m, 'M', HoursInMonth);
    ParseUnitOf(d, 'D', HoursInDay);
    ParseUnitOf(h, 'H', Hour);
    ParseUnitOf(mi, 'M', Minute);
  }

  lemma {:induction false} ParseUnitOf(n: nat, unit: char, multiplier: int)
    requires 0 <= n * multiplier <= MaxInt64 && multiplier > 0
    ensures AllDigits((Show(n) + [unit])[..|Show(n)|])
    ensures ParseIntDuration(Show(n) + [unit], multiplier) == n * multiplier
  {
    var v := Show(n) + [unit];
    assert v[..|v| - 1] == Show(n);
    ValueOfShow(n);
    MulGrows(n, multiplier);
    assert AtoiDigits(Show(n)) == n;
  }

  lemma MulGrows(n: nat, m: int)
    requires m >= 1
    ensures n <= n * m
  {
  }

  /** An optional `(\d+U)?` group that does not apply leaves the text alone. */
  lemma {:induction false} UnitGroupMismatch(a: string, b: string, unit: char)
    requires AllDigits(a) && !IsDigit(unit) && |b| > 0 && !IsDigit(b[0]) && b[0] != unit
    ensures UnitGroup(a + b, unit) == ("", a + b)
  {
    DigitPrefixOf(a, b);
    assert (a + b)[|a|] == b[0];
  }

  /** The captures, given what each group takes in turn. */
  lemma AfterPOf(t: string, y: string, t1: string, mo: string, t2: string, d: string, t3: string,
                 t4: string, h: string, t5: string, mi: string, t6: string, s: string)
    requires UnitGroup(t, 'Y') == (y, t1) && UnitGroup(t1, 'M') == (mo, t2)
    requires UnitGroup(t2, 'D') == (d, t3)
    requires t4 == if |t3| > 0 && t3[0] == 'T' then t3[1..] else t3
    requires UnitGroup(t4, 'H') == (h, t5) && UnitGroup(t5, 'M') == (mi, t6)
    requires SecondsGroup(t6).0 == s
    ensures AfterP(t) == Captures(y, mo, d, h, mi, s)
  {
  }

  /** A value that starts with 'P' is matched from its second character. */
  lemma SubmatchAfterLeadingP(t: string)
    ensures FindStringSubmatch("P" + t) == Some(AfterP(t))
  {
    assert ("P" + t)[1..] == t;
  }

  /** "P{s}[.{frac}]S": only the seconds group takes part. */
  lemma {:induction false} CastSecondsOnly(s: nat, frac: string, n: int)
    requires AllDigits(frac) && n == s * Second + FracNanos(frac) && n <= MaxInt64
    ensures CastDuration("P" + SecondsDesignator(s, frac)) == Ok(n)
  {
    SecondsCast(s, frac);
    SecondsSum(s, frac, n);
  }

  lemma {:induction false} SecondsCast(s: nat, frac: string)
    requires AllDigits(frac)
    ensures WellFormed(Captures("", "", "", "", "", SecondsDesignator(s, frac)))
    ensures CastDuration("P" + SecondsDesignator(s, frac)) ==
              Ok(SumOfCaptures(Captures("", "", "", "", "", SecondsDesignator(s, frac))))
  {
    SecondsCaptures(s, frac);
    CastOfSubmatch("P" + SecondsDesignator(s, frac), Captures("", "", "", "", "", SecondsDesignator(s, frac)));
  }

  lemma {:induction false} SecondsCaptures(s: nat, frac: string)
    requires AllDigits(frac)
    ensures FindStringSubmatch("P" + SecondsDesignator(s, frac)) ==
              Some(Captures("", "", "", "", "", SecondsDesignator(s, frac)))
  {
    var t := SecondsDesignator(s, frac);
    var b := if frac == "" then "S" else "." + frac + "S";
    assert t == Show(s) + b;
    UnitGroupMismatch(Show(s), b, 'Y');
    UnitGroupMismatch(Show(s), b, 'M');
    UnitGroupMismatch(Show(s), b, 'D');
    UnitGroupMismatch(Show(s), b, 'H');
    SecondsGroupOf(s, frac);
    AfterPOf(t, "", t, "", t, "", t, t, "", t, "", t, t);
    SubmatchAfterLeadingP(t);
  }

  lemma {:induction false} SecondsSum(s: nat, frac: string, n: int)
    requires AllDigits(frac) && n == s * Second + FracNanos(frac) && n <= MaxInt64
    ensures WellFormed(Captures("", "", "", "", "", SecondsDesignator(s, frac)))
    ensures SumOfCaptures(Captures("", "", "", "", "", SecondsDesignator(s, frac))) == n
  {
    ParseSecondsOf(s, frac);
  }

  /** "P{n}M": a bare M before any T is months. */
  lemma {:induction false} CastMonthsOnly(n: nat)
    requires n * HoursInMonth <= MaxInt64
    ensures CastDuration("P" + (Show(n) + "M")) == Ok(n * HoursInMonth)
  {
    MonthsCaptures(n);
    MonthsSum(n);
    CastOfSubmatch("P" + (Show(n) + "M"), Captures("", Show(n) + "M", "", "", "", ""));
  }

  lemma {:induction false} MonthsCaptures(n: nat)
    ensures FindStringSubmatch("P" + (Show(n) + "M")) == Some(Captures("", Show(n) + "M", "", "", "", ""))
  {
    var t := Show(n) + "M";
    UnitGroupMismatch(Show(n), "M", 'Y');
    UnitGroupOf(Show(n), 'M', "");
    assert Show(n) + ("M" + "") == t;
    AfterPOf(t, "", t, t, "", "", "", "", "", "", "", "", "");
    SubmatchAfterLeadingP(t);
  }

  lemma {:induction false} MonthsSum(n: nat)
    requires n * HoursInMonth <= MaxInt64
    ensures WellFormed(Captures("", Show(n) + "M", "", "", "", ""))
    ensures SumOfCaptures(Captures("", Show(n) + "M", "", "", "", "")) == n * HoursInMonth
  {
    ParseUnitOf(n, 'M', HoursInMonth);
    MulGrows(n, HoursInMonth);
  }

  /** "PT{n}M": after the T the same M is minutes. */
  lemma {:induction false} CastMinutesOnly(n: nat)
    requires n * Minute <= MaxInt64
    ensures CastDuration("P" + ("T" + (Show(n) + "M"))) == Ok(n * Minute)
  {
    MinutesCaptures(n);
    MinutesSum(n);
    CastOfSubmatch("P" + ("T" + (Show(n) + "M")), Captures("", "", "", "", Show(n) + "M", ""));
  }

  lemma {:induction false} MinutesCaptures(n: nat)
    ensures FindStringSubmatch("P" + ("T" + (Show(n) + "M"))) == Some(Captures("", "", "", "", Show(n) + "M", ""))
  {
    var t := Show(n) + "M";
    var u := "T" + t;
    assert DigitPrefix(u) == "";
    UnitGroupMismatch(Show(n), "M", 'H');
    UnitGroupOf(Show(n), 'M', "");
    assert Show(n) + ("M" + "") == t;
    assert u[1..] == t;
    AfterPOf(u, "", u, "", u, "", u, t, "", t, t, "", "");
    SubmatchAfterLeadingP(u);
  }

  lemma {:induction false} MinutesSum(n: nat)
    requires n * Minute <= MaxInt64
    ensures WellFormed(Captures("", "", "", "", Show(n) + "M", ""))
    ensures SumOfCaptures(Captures("", "", "", "", Show(n) + "M", "")) == n * Minute
  {
    ParseUnitOf(n, 'M', Minute);
    MulGrows(n, Minute);
  }

  // ---------------------------------------------------------------------------------
  // What castDuration reads from a text with any of the designators left out
  // ---------------------------------------------------------------------------------

  /** An optional designator "{n}U": its text, or nothing. */
  function UnitPart(n: Option<nat>, unit: char): string
  {
    if n.None? then "" else Show(n.value) + [unit]
  }

  /** An optional seconds designator, given its whole seconds and fraction digits. */
  function SecondsPart(s: Option<(nat, string)>): string
  {
    if s.None? then "" else SecondsDesignator(s.value.0, s.value.1)
  }

  predicate FractionDigits(s: Option<(nat, string)>)
  {
    s.Some? ==> AllDigits(s.value.1)
  }

  /** The text with the present designators in their order, the 'T' written or not. */
  function PartialText(y: Option<nat>, m: Option<nat>, d: Option<nat>, withT: bool,
                       h: Option<nat>, mi: Option<nat>, s: Option<(nat, string)>): string
  {
    "P" + (UnitPart(y, 'Y') + (UnitPart(m, 'M') + (UnitPart(d, 'D') +
      ((if withT then "T" else "") + (UnitPart(h, 'H') + (UnitPart(mi, 'M') + SecondsPart(s)))))))
  }

  /** The captures of the present designators, "" for the absent ones. */
  function PartialCaptures(y: Option<nat>, m: Option<nat>, d: Option<nat>,
                           h: Option<nat>, mi: Option<nat>, s: Option<(nat, string)>): Captures
  {
    Captures(UnitPart(y, 'Y'), UnitPart(m, 'M'), UnitPart(d, 'D'),
             UnitPart(h, 'H'), UnitPart(mi, 'M'), SecondsPart(s))
  }

  function Amount(n: Option<nat>): nat
  {
    if n.None? then 0 else n.value
  }

  function SecondsAmount(s: Option<(nat, string)>): nat
    requires FractionDigits(s)
  {
    if s.None? then 0 else s.value.0 * Second + FracNanos(s.value.1)
  }

  /** The sum of the present components; an absent component adds nothing. */
  function PartialTotal(y: Option<nat>, m: Option<nat>, d: Option<nat>,
                        h: Option<nat>, mi: Option<nat>, s: Option<(nat, string)>): int
    requires FractionDigits(s)
  {
    Amount(y) * HoursInYear + Amount(m) * HoursInMonth + Amount(d) * HoursInDay +
    Amount(h) * Hour + Amount(mi) * Minute + SecondsAmount(s)
  }

  /** The character after the leading digits of t, when there are some and something
      follows them: the only character an optional `(\d+U)?` group looks at. */
  function Lead(t: string): Option<char>
  {
    var d := DigitPrefix(t);
    if |d| > 0 && |d| < |t| then Some(t[|d|]) else None
  }

  /** An optional unit group takes its own designator when present, and otherwise nothing,
      provided the text after it does not lead with the same unit. */
  lemma {:induction false} UnitStep(n: Option<nat>, unit: char, rest: string)
    requires !IsDigit(unit) && (n.None? ==> Lead(rest) != Some(unit))
    ensures UnitGroup(UnitPart(n, unit) + rest, unit) == (UnitPart(n, unit), rest)
    ensures Lead(UnitPart(n, unit) + rest) == if n.Some? then Some(unit) else Lead(rest)
  {
    if n.None? {
      assert UnitPart(n, unit) + rest == rest;
    } else {
      var a := Show(n.value);
      assert UnitPart(n, unit) + rest == a + ([unit] + rest);
      UnitGroupOf(a, unit, rest);
      DigitPrefixOf(a, [unit] + rest);
    }
  }

  /** The seconds group takes the whole seconds designator, which leads with 'S' or '.'. */
  lemma {:induction false} SecondsStep(s: Option<(nat, string)>)
    requires FractionDigits(s)
    ensures SecondsGroup(SecondsPart(s)) == (SecondsPart(s), "")
    ensures Lead(SecondsPart(s)) in {None, Some('S'), Some('.')}
  {
    if s.Some? {
      var (k, frac) := s.value;
      SecondsGroupOf(k, frac);
      var b := if frac == "" then "S" else "." + frac + "S";
      assert SecondsPart(s) == Show(k) + b;
      DigitPrefixOf(Show(k), b);
    }
  }

  /** The time designators start with a digit, or are absent altogether. */
  lemma TimeStartsWithDigit(h: Option<nat>, mi: Option<nat>, s: Option<(nat, string)>)
    ensures var t := UnitPart(h, 'H') + (UnitPart(mi, 'M') + SecondsPart(s));
      t == "" || IsDigit(t[0])
  {
    if s.Some? {
      assert SecondsPart(s) == Show(s.value.0) + (if s.value.1 == "" then "S" else "." + s.value.1 + "S");
    }
  }

  /** The groups after the 'T' take the time designators present, each exactly its own. */
  lemma {:induction false} TimeGroups(h: Option<nat>, mi: Option<nat>, s: Option<(nat, string)>)
    requires FractionDigits(s)
    ensures var t5 := UnitPart(mi, 'M') + SecondsPart(s);
      && UnitGroup(UnitPart(h, 'H') + t5, 'H') == (UnitPart(h, 'H'), t5)
      && UnitGroup(t5, 'M') == (UnitPart(mi, 'M'), SecondsPart(s))
      && SecondsGroup(SecondsPart(s)).0 == SecondsPart(s)
      && Lead(UnitPart(h, 'H') + t5) in {None, Some('H'), Some('M'), Some('S'), Some('.')}
      && (h.None? && mi.Some? <==> Lead(UnitPart(h, 'H') + t5) == Some('M'))
  {
    var t6 := SecondsPart(s);
    var t5 := UnitPart(mi, 'M') + t6;
    SecondsStep(s);
    UnitStep(mi, 'M', t6);
    UnitStep(h, 'H', t5);
  }

  /** The captures of a text with any designators left out are exactly its present
      designators. The 'T' may be left out unless a bare minutes designator would then
      follow the date part with no months or days before it, where it would read as
      months. */
  lemma {:induction false} SubmatchOfPartialText(y: Option<nat>, m: Option<nat>, d: Option<nat>, withT: bool,
                                                 h: Option<nat>, mi: Option<nat>, s: Option<(nat, string)>)
    requires FractionDigits(s)
    requires withT || m.Some? || d.Some? || h.Some? || mi.None?
    ensures FindStringSubmatch(PartialText(y, m, d, withT, h, mi, s)) == Some(PartialCaptures(y, m, d, h, mi, s))
  {
    var t6 := SecondsPart(s);
    var t5 := UnitPart(mi, 'M') + t6;
    var t4 := UnitPart(h, 'H') + t5;
    var t3 := (if withT then "T" else "") + t4;
    var t2 := UnitPart(d, 'D') + t3;
    var t1 := UnitPart(m, 'M') + t2;
    var t0 := UnitPart(y, 'Y') + t1;
    assert PartialText(y, m, d, withT, h, mi, s) == "P" + t0;
    TimeGroups(h, mi, s);
    TimeStartsWithDigit(h, mi, s);
    DateGroups(y, m, d, withT, t4);
    AfterPOf(t0, UnitPart(y, 'Y'), t1, UnitPart(m, 'M'), t2, UnitPart(d, 'D'), t3, t4,
             UnitPart(h, 'H'), t5, UnitPart(mi, 'M'), t6, SecondsPart(s));
    SubmatchAfterLeadingP(t0);
  }

  /** The date groups take the date designators present, each exactly its own, and the
      optional 'T' is dropped before the time groups. */
  lemma {:induction false} DateGroups(y: Option<nat>, m: Option<nat>, d: Option<nat>, withT: bool, t4: string)
    requires t4 == "" || IsDigit(t4[0])
    requires Lead(t4) != Some('Y') && Lead(t4) != Some('D')
    requires withT || m.Some? || d.Some? || Lead(t4) != Some('M')
    ensures var t3 := (if withT then "T" else "") + t4;
      var t2 := UnitPart(d, 'D') + t3;
      var t1 := UnitPart(m, 'M') + t2;
      && UnitGroup(UnitPart(y, 'Y') + t1, 'Y') == (UnitPart(y, 'Y'), t1)
      && UnitGroup(t1, 'M') == (UnitPart(m, 'M'), t2)
      && UnitGroup(t2, 'D') == (UnitPart(d, 'D'), t3)
      && t4 == (if |t3| > 0 && t3[0] == 'T' then t3[1..] else t3)
  {
    var t3 := (if withT then "T" else "") + t4;
    if withT {
      assert DigitPrefix(t3) == "";
      assert t3[0] == 'T' && t3[1..] == t4;
    } else {
      assert t3 == t4;
    }
    var t2 := UnitPart(d, 'D') + t3;
    var t1 := UnitPart(m, 'M') + t2;
    UnitStep(d, 'D', t3);
    UnitStep(m, 'M', t2);
    UnitStep(y, 'Y', t1);
  }

  /** An optional unit designator parses to its amount times the unit. */
  lemma {:induction false} UnitAmount(n: Option<nat>, unit: char, multiplier: int)
    requires multiplier > 0 && Amount(n) * multiplier <= MaxInt64
    ensures UnitPart(n, unit) == "" || UnitText(UnitPart(n, unit), unit)
    ensures ParseIntDuration(UnitPart(n, unit), multiplier) == Amount(n) * multiplier
  {
    if n.Some? {
      ParseUnitOf(n.value, unit, multiplier);
    }
  }

  /** castDuration's sum over the captures of the present designators. */
  lemma {:induction false} SumOfPartialCaptures(y: Option<nat>, m: Option<nat>, d: Option<nat>,
                                                h: Option<nat>, mi: Option<nat>, s: Option<(nat, string)>)
    requires FractionDigits(s) && PartialTotal(y, m, d, h, mi, s) <= MaxInt64
    ensures WellFormed(PartialCaptures(y, m, d, h, mi, s))
    ensures SumOfCaptures(PartialCaptures(y, m, d, h, mi, s)) == PartialTotal(y, m, d, h, mi, s)
  {
    var c := PartialCaptures(y, m, d, h, mi, s);
    UnitAmounts(y, m, d, h, mi, s);
    SecondsAmountOf(s);
    var ys, ms, ds := Amount(y) * HoursInYear, Amount(m) * HoursInMonth, Amount(d) * HoursInDay;
    var hs, mis, ss := Amount(h) * Hour, Amount(mi) * Minute, SecondsAmount(s);
    assert ys + ms + ds + hs + mis + ss == PartialTotal(y, m, d, h, mi, s);
    SumOfCapturesIs(c, ys, ms, ds, hs, mis, ss);
  }

  /** An optional seconds designator parses to its amount in nanoseconds. */
  lemma SecondsAmountOf(s: Option<(nat, string)>)
    requires FractionDigits(s)
    ensures SecondsPart(s) == "" || SecondsText(SecondsPart(s))
    ensures ParseSeconds(SecondsPart(s)) == SecondsAmount(s)
  {
    if s.Some? {
      ParseSecondsOf(s.value.0, s.value.1);
    }
  }

  /** castDuration's sum is the plain sum when every part is non-negative and the total
      fits in an int64. */
  lemma SumOfCapturesIs(c: Captures, ys: int, ms: int, ds: int, hs: int, mis: int, ss: int)
    requires WellFormed(c)
    requires ParseIntDuration(c.years, HoursInYear) == ys && ParseIntDuration(c.months, HoursInMonth) == ms
    requires ParseIntDuration(c.days, HoursInDay) == ds && ParseIntDuration(c.hours, Hour) == hs
    requires ParseIntDuration(c.minutes, Minute) == mis && ParseSeconds(c.seconds) == ss
    requires 0 <= ys && 0 <= ms && 0 <= ds && 0 <= hs && 0 <= mis && 0 <= ss
    requires ys + ms + ds + hs + mis + ss <= MaxInt64
    ensures SumOfCaptures(c) == ys + ms + ds + hs + mis + ss
  {
    SumInRange(ys, ms, ds, hs, mis, ss);
  }

  lemma UnitAmounts(y: Option<nat>, m: Option<nat>, d: Option<nat>,
                    h: Option<nat>, mi: Option<nat>, s: Option<(nat, string)>)
    requires FractionDigits(s) && PartialTotal(y, m, d, h, mi, s) <= MaxInt64
    ensures var c := PartialCaptures(y, m, d, h, mi, s);
      && (c.years == "" || UnitText(c.years, 'Y')) && (c.months == "" || UnitText(c.months, 'M'))
      && (c.days == "" || UnitText(c.days, 'D')) && (c.hours == "" || UnitText(c.hours, 'H'))
      && (c.minutes == "" || UnitText(c.minutes, 'M'))
      && ParseIntDuration(c.years, HoursInYear) == Amount(y) * HoursInYear
      && ParseIntDuration(c.months, HoursInMonth) == Amount(m) * HoursInMonth
      && ParseIntDuration(c.days, HoursInDay) == Amount(d) * HoursInDay
      && ParseIntDuration(c.hours, Hour) == Amount(h) * Hour
      && ParseIntDuration(c.minutes, Minute) == Amount(mi) * Minute
    ensures && 0 <= Amount(y) * HoursInYear && 0 <= Amount(m) * HoursInMonth && 0 <= Amount(d) * HoursInDay
            && 0 <= Amount(h) * Hour && 0 <= Amount(mi) * Minute
  {
    MulGrows(Amount(y), HoursInYear);
    MulGrows(Amount(m), HoursInMonth);
    MulGrows(Amount(d), HoursInDay);
    MulGrows(Amount(h), Hour);
    MulGrows(Amount(mi), Minute);
    UnitAmount(y, 'Y', HoursInYear);
    UnitAmount(m, 'M', HoursInMonth);
    UnitAmount(d, 'D', HoursInDay);
    UnitAmount(h, 'H', Hour);
    UnitAmount(mi, 'M', Minute);
  }

  /** Non-negative parts whose sum fits in an int64 add up without wrapping. */
  lemma SumInRange(a: int, b: int, c: int, d: int, e: int, f: int)
    requires 0 <= a && 0 <= b && 0 <= c && 0 <= d && 0 <= e && 0 <= f
    requires a + b + c + d + e + f <= MaxInt64
    ensures Wrap64(a + b + c + d + e + Wrap64(f)) == a + b + c + d + e + f
  {
  }

  /** castDuration of a designator text with any designators left out: the sum of the
      present components, each absent one contributing 0, whenever that sum fits in an
      int64. */
  lemma {:induction false} CastPartialText(y: Option<nat>, m: Option<nat>, d: Option<nat>, withT: bool,
                                           h: Option<nat>, mi: Option<nat>, s: Option<(nat, string)>)
    requires FractionDigits(s)
    requires withT || m.Some? || d.Some? || h.Some? || mi.None?
    requires PartialTotal(y, m, d, h, mi, s) <= MaxInt64
    ensures CastDuration(PartialText(y, m, d, withT, h, mi, s)) == Ok(PartialTotal(y, m, d, h, mi, s))
  {
    SubmatchOfPartialText(y, m, d, withT, h, mi, s);
    SumOfPartialCaptures(y, m, d, h, mi, s);
    CastIs(PartialText(y, m, d, withT, h, mi, s), PartialCaptures(y, m, d, h, mi, s), PartialTotal(y, m, d, h, mi, s));
  }

  // ---------------------------------------------------------------------------------
  // uncastDuration
  // ---------------------------------------------------------------------------------

  /** Go's `/` on integers: truncates toward zero. */
  function QuoT(a: int, b: int): (q: int)
    requires b > 0
  {
    if a >= 0 then a / b else -((-a) / b)
  }

  /** Go's `%` on integers: the remainder takes the sign of the dividend. */
  function RemT(a: int, b: int): (r: int)
    requires b > 0
    ensures a == QuoT(a, b) * b + r
    ensures a >= 0 ==> 0 <= r < b
    ensures a < 0 ==> -b < r <= 0
  {
    a - QuoT(a, b) * b
  }

  /** The components uncastDuration prints: whole years, months and days and the
      remainder below a day. */
  datatype Parts = Parts(years: int, months: int, days: int, rest: int)

  function Decompose(v: int): Parts
  {
    var y := QuoT(v, HoursInYear);
    var r1 := RemT(v, HoursInYear);
    var m := QuoT(r1, HoursInMonth);
    var r2 := RemT(r1, HoursInMonth);
    var d := QuoT(r2, HoursInDay);
    var r := RemT(r2, HoursInDay);
    Parts(y, m, d, r)
  }

  /** The decomposition is exact; for v >= 0 every component is in its natural range,
      and for v < 0 every component is at most 0 and above minus that range. */
  lemma {:induction false} DecomposeExact(v: int)
    ensures var p := Decompose(v);
      v == p.years * HoursInYear + p.months * HoursInMonth + p.days * HoursInDay + p.rest
    ensures var p := Decompose(v);
      v >= 0 ==> 0 <= p.years && 0 <= p.months < 12 && 0 <= p.days < 30 && 0 <= p.rest < HoursInDay
    ensures var p := Decompose(v);
      v < 0 ==> p.years <= 0 && -12 < p.months <= 0 && -30 < p.days <= 0 && -HoursInDay < p.rest <= 0
  {
    var p := Decompose(v);
    var r1 := RemT(v, HoursInYear);
    var r2 := RemT(r1, HoursInMonth);
    assert HoursInYear == 12 * HoursInMonth;
    assert HoursInMonth == 30 * HoursInDay;
    if v >= 0 {
      assert 0 <= r1 < 12 * HoursInMonth;
      assert p.months == r1 / HoursInMonth;
      assert 0 <= r2 < 30 * HoursInDay;
      assert p.days == r2 / HoursInDay;
      assert 0 <= v / HoursInYear;
    } else {
      assert -(12 * HoursInMonth) < r1 <= 0;
      assert p.months == -((-r1) / HoursInMonth);
      assert -(30 * HoursInDay) < r2 <= 0;
      assert p.days == -((-r2) / HoursInDay);
    }
  }

  /** Components in their natural ranges are exactly what Decompose recovers. */
  lemma {:induction false} DecomposeOf(y: nat, m: nat, d: nat, r: nat)
    requires m < 12 && d < 30 && r < HoursInDay
    ensures Decompose(y * HoursInYear + m * HoursInMonth + d * HoursInDay + r) == Parts(y, m, d, r)
  {
    var inDay := d * HoursInDay + r;
    var inYear := m * HoursInMonth + inDay;
    BelowNext(d, 30, HoursInDay, r);
    assert HoursInMonth == 30 * HoursInDay;
    BelowNext(m, 12, HoursInMonth, inDay);
    assert HoursInYear == 12 * HoursInMonth;
    DivUnique(y * HoursInYear + inYear, HoursInYear, y, inYear);
    DivUnique(inYear, HoursInMonth, m, inDay);
    DivUnique(inDay, HoursInDay, d, r);
  }

  lemma BelowNext(q: nat, n: nat, b: nat, r: nat)
    requires q < n && r < b
    ensures q * b + r < n * b
  {
    assert q * b <= (n - 1) * b;
  }

  lemma DivUnique(a: int, b: int, q: nat, r: nat)
    requires b > 0 && r < b && a == q * b + r
    ensures QuoT(a, b) == q && RemT(a, b) == r
  {
    var q', r' := a / b, a % b;
    assert a == q' * b + r';
    assert (q - q') * b == r' - r;
    if q > q' {
      MulAtLeast(q - q', b);
    } else if q < q' {
      MulAtLeast(q' - q, b);
    }
  }

  lemma MulAtLeast(k: int, b: int)
    requires k >= 1 && b > 0
    ensures k * b >= b
  {
  }

  /** unicode.ToUpper on one code point: ASCII letters are mapped here, every other code
      point by the library. */
  function UpperRune(lib: Library, c: char): char
  {
    if 'a' <= c <= 'z' then (c as int - 32) as char
    else if c as int < 0x80 then c
    else lib.upperNonAscii(c)
  }

  /** strings.ToUpper */
  function ToUpper(lib: Library, s: string): (u: string)
    ensures |u| == |s| && forall i :: 0 <= i < |s| ==> u[i] == UpperRune(lib, s[i])
  {
    seq(|s|, i requires 0 <= i < |s| => UpperRune(lib, s[i]))
  }

  lemma {:induction false} ToUpperAppend(lib: Library, a: string, b: string)
    ensures ToUpper(lib, a + b) == ToUpper(lib, a) + ToUpper(lib, b)
  {
  }

  /** Text without lower-case ASCII letters and without non-ASCII code points is left
      alone by ToUpper. */
  lemma {:induction false} ToUpperFixes(lib: Library, s: string)
    requires forall i :: 0 <= i < |s| ==> s[i] as int < 0x80 && !('a' <= s[i] <= 'z')
    ensures ToUpper(lib, s) == s
  {
  }

  /** "P{y}Y{m}M{d}DT", the part of the output uncastDuration prints itself. */
  function Prefix(p: Parts): string
  {
    "P" + ShowInt(p.years) + "Y" + ShowInt(p.months) + "M" + ShowInt(p.days) + "DT"
  }

  lemma {:induction false} ShowIntPlain(x: int)
    ensures forall i :: 0 <= i < |ShowInt(x)| ==> ShowInt(x)[i] as int < 0x80 && !('a' <= ShowInt(x)[i] <= 'z')
  {
    var s := Show(if x < 0 then -x else x);
    assert forall i :: 0 <= i < |s| ==> IsDigit(s[i]);
  }

  lemma {:induction false} PrefixUpper(lib: Library, p: Parts)
    ensures ToUpper(lib, Prefix(p)) == Prefix(p)
  {
    ShowIntPlain(p.years);
    ShowIntPlain(p.months);
    ShowIntPlain(p.days);
    ToUpperFixes(lib, Prefix(p));
  }

  /** uncastDuration: a time.Duration is printed as "P{y}Y{m}M{d}DT" followed by the
      remainder below one day as time.Duration's String renders it, all upper-cased.
      Any other value is an error. */
  function UncastDuration(lib: Library, in_: Value): (r: Result<string>)
    ensures r.Ok? <==> in_.VDuration?
    ensures r.Err? ==> r.error == NotADuration
    ensures in_.VDuration? ==>
              r.value == Prefix(Decompose(in_.nanos)) +
                         ToUpper(lib, lib.durationString(Decompose(in_.nanos).rest))
  {
    if !in_.VDuration? then Err(NotADuration)
    else
      var p := Decompose(in_.nanos);
      var out := ToUpper(lib, Prefix(p) + lib.durationString(p.rest));
      ToUpperAppend(lib, Prefix(p), lib.durationString(p.rest));
      PrefixUpper(lib, p);
      Ok(out)
  }

  // ---------------------------------------------------------------------------------
  // The corrected encoder
  // ---------------------------------------------------------------------------------

  /** Nanoseconds below one second as the digits after the decimal point: nothing for
      zero, otherwise nine digits with leading zeros. */
  function Fraction(ns: nat): (f: string)
    requires ns < Second
    ensures AllDigits(f)
  {
    if ns == 0 then "" else PadLeft(Show(ns), 9)
  }

  /** The designator text with every component written out, seconds carrying the
      nanoseconds as a nine-digit fraction. Negative durations have no designator
      form and keep the as-written text. */
  function CorrectedUncastDuration(lib: Library, in_: Value): (r: Result<string>)
    ensures r.Ok? <==> in_.VDuration?
    ensures r.Err? ==> r.error == NotADuration
  {
    if !in_.VDuration? || in_.nanos < 0 then UncastDuration(lib, in_)
    else
      var p := Decompose(in_.nanos);
      DecomposeExact(in_.nanos);
      var c := SplitRest(p.rest);
      Ok(DesignatorText(p.years, p.months, p.days, c.0, c.1, c.2, Fraction(c.3)))
  }

  /** The corrected encoder round-trips every non-negative duration. */
  lemma {:induction false} CorrectedRoundTrip(lib: Library, v: int)
    requires 0 <= v <= MaxInt64
    ensures CastDuration(CorrectedUncastDuration(lib, VDuration(v)).value) == Ok(v)
  {
    var p := Decompose(v);
    DecomposeExact(v);
    var c := SplitRest(p.rest);
    CorrectedTotal(v);
    CastDesignatorText(p.years, p.months, p.days, c.0, c.1, c.2, Fraction(c.3));
  }

  /** The components the corrected encoder writes add up to the duration again. */
  lemma {:induction false} CorrectedTotal(v: int)
    requires 0 <= v
    ensures var p := Decompose(v);
      p.years >= 0 && p.months >= 0 && p.days >= 0 && p.rest >= 0 &&
      var c := SplitRest(p.rest);
      DesignatorTotal(p.years, p.months, p.days, c.0, c.1, c.2, Fraction(c.3)) == v
  {
    var p := Decompose(v);
    DecomposeExact(v);
    var c := SplitRest(p.rest);
    FractionValue(c.3);
    TotalOfParts(p.years, p.months, p.days, c.0, c.1, c.2, Fraction(c.3), p.rest - c.3);
  }

  /** A non-negative remainder as hours, minutes, seconds and nanoseconds. */
  function SplitRest(r: nat): (c: (nat, nat, nat, nat))
    ensures c.3 < Second
    ensures r == c.0 * Hour + c.1 * Minute + c.2 * Second + c.3
  {
    var r1 := r % Hour;
    var r2 := r1 % Minute;
    (r / Hour, r1 / Minute, r2 / Second, r2 % Second)
  }

  lemma {:induction false} TotalOfParts(y: int, m: int, d: int, h: int, mi: int, s: int, frac: string, whole: int)
    requires 0 <= y && 0 <= m && 0 <= d && 0 <= h && 0 <= mi && 0 <= s && AllDigits(frac)
    requires whole == h * Hour + mi * Minute + s * Second
    ensures DesignatorTotal(y, m, d, h, mi, s, frac) ==
              y * HoursInYear + m * HoursInMonth + d * HoursInDay + whole + FracNanos(frac)
  {
  }

  /** The fraction's digits denote exactly the nanoseconds they were made from. */
  lemma {:induction false} FractionValue(ns: nat)
    requires ns < Second
    ensures FracNanos(Fraction(ns)) == ns
  {
    if ns > 0 {
      var f := PadLeft(Show(ns), 9);
      PadLeftValue(Show(ns), 9);
      ValueOfShow(ns);
      Pow10Nine();
      ShowLength(ns, 9);
      assert f[..9] == f;
    }
  }

  /** A number below 10^k has at most k digits. */
  lemma {:induction false} ShowLength(n: nat, k: nat)
    requires 1 <= k && n < Pow10(k)
    ensures |Show(n)| <= k
  {
    if n >= 10 {
      assert k >= 2;
      ShowLength(n / 10, k - 1);
    }
  }
}

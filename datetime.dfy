/** datetime.go: parsing "date", "time", "datetime", "year" and "yearmonth" cells with
    time.Parse, after rewriting a strftime-style format into a Go layout, and encoding a
    time as RFC 3339 (section 5.6 of RFC 3339) in UTC. */
module DateTime {
  import opened Wrappers
  import opened Host
  import opened Values
  import opened SchemaField

  /** The format that asks for any date form, which is refused. */
  const AnyDateFormat := "any"

  /** The fixed Go layouts of the default formats. */
  const DateLayout := "2006-01-02"
  const TimeLayout := "03:04:05"
  const RFC3339Layout := "2006-01-02T15:04:05Z07:00"
  const YearLayout := "2006"
  const YearMonthLayout := "2006-01"

  /** strftimeToGoConversionTable: each strftime token with the Go layout it becomes. */
  const StrftimeTable: seq<(string, string)> := [
    ("%d", "02"), ("%-d", "2"), ("%B", "January"), ("%b", "Jan"), ("%h", "Jan"),
    ("%m", "01"), ("%_m", " 1"), ("%-m", "1"), ("%Y", "2006"), ("%y", "06"),
    ("%H", "15"), ("%I", "03"), ("%M", "04"), ("%S", "05"), ("%f", "999999"),
    ("%z", "Z0700"), ("%:z", "Z07:00"), ("%Z", "MST"), ("%p", "PM")]

  /** An order in which `range` may visit the table: Go does not fix the iteration order
      of a map, so every permutation of its entries is possible. The table repeats no
      entry, so holding the same entries and as many of them makes a permutation. */
  predicate IsTableOrder(order: seq<(string, string)>)
  {
    && |order| == |StrftimeTable|
    && (forall k :: 0 <= k < |order| ==> order[k] in StrftimeTable)
    && (forall j :: 0 <= j < |StrftimeTable| ==> StrftimeTable[j] in order)
  }

  /** Every token starts with '%'. */
  predicate TokensStartWithPercent(order: seq<(string, string)>)
  {
    forall k :: 0 <= k < |order| ==> |order[k].0| > 0 && order[k].0[0] == '%'
  }

  lemma TableTokens()
    ensures TokensStartWithPercent(StrftimeTable)
  {
  }

  lemma TableOrderTokens(order: seq<(string, string)>)
    requires IsTableOrder(order)
    ensures TokensStartWithPercent(order)
  {
    TableTokens();
    forall k | 0 <= k < |order|
      ensures |order[k].0| > 0 && order[k].0[0] == '%'
    {
      var j :| 0 <= j < |StrftimeTable| && StrftimeTable[j] == order[k];
    }
  }

  /** strings.Replace(s, target, repl, -1): every non-overlapping occurrence of target, from the
      left, replaced by repl. */
  function ReplaceAll(s: string, target: string, repl: string): string
    requires |target| > 0
    decreases |s|
  {
    if |s| < |target| then s
    else if s[..|target|] == target then repl + ReplaceAll(s[|target|..], target, repl)
    else [s[0]] + ReplaceAll(s[1..], target, repl)
  }

  /** Text without target's first character has nothing to replace. */
  lemma {:induction false} ReplaceAllAbsent(s: string, target: string, repl: string)
    requires |target| > 0
    requires forall i :: 0 <= i < |s| ==> s[i] != target[0]
    ensures ReplaceAll(s, target, repl) == s
    decreases |s|
  {
    if |s| >= |target| {
      assert s[..|target|][0] == s[0];
      ReplaceAllAbsent(s[1..], target, repl);
      assert [s[0]] + s[1..] == s;
    }
  }

  /** The replacement of an occurrence at the front. */
  lemma ReplaceAllFront(target: string, repl: string, rest: string)
    requires |target| > 0
    ensures ReplaceAll(target + rest, target, repl) == repl + ReplaceAll(rest, target, repl)
  {
    assert (target + rest)[..|target|] == target;
    assert (target + rest)[|target|..] == rest;
  }

  /** The two characters a and b stand next to each other somewhere in s. */
  predicate HasPair(s: string, a: char, b: char)
  {
    exists i :: 0 <= i < |s| - 1 && s[i] == a && s[i + 1] == b
  }

  /** Text in which the first two characters of target never stand together holds no
      occurrence of target. */
  lemma {:induction false} ReplaceAllNoPair(s: string, target: string, repl: string)
    requires |target| >= 2
    requires !HasPair(s, target[0], target[1])
    ensures ReplaceAll(s, target, repl) == s
    decreases |s|
  {
    if |s| >= |target| {
      assert s[..|target|] != target by {
        assert s[..|target|][0] == s[0] && s[..|target|][1] == s[1];
        assert 0 < |s| - 1;
      }
      assert !HasPair(s[1..], target[0], target[1]) by {
        forall i | 0 <= i < |s[1..]| - 1
          ensures !(s[1..][i] == target[0] && s[1..][i + 1] == target[1])
        {
          assert s[1..][i] == s[i + 1] && s[1..][i + 1] == s[i + 2];
        }
      }
      ReplaceAllNoPair(s[1..], target, repl);
      assert [s[0]] + s[1..] == s;
    }
  }

  /** The Go layout the loop of castDefaultOrCustomTime builds: each token, in the order
      the map is visited, replaced in the text the previous tokens left. */
  function Translate(order: seq<(string, string)>, format: string): (r: string)
    requires TokensStartWithPercent(order)
    ensures (forall i :: 0 <= i < |format| ==> format[i] != '%') ==> r == format
  {
    if |order| == 0 then format
    else
      var next := ReplaceAll(format, order[0].0, order[0].1);
      assert (forall i :: 0 <= i < |format| ==> format[i] != '%') ==> next == format by {
        if forall i :: 0 <= i < |format| ==> format[i] != '%' {
          ReplaceAllAbsent(format, order[0].0, order[0].1);
        }
      }
      Translate(order[1..], next)
  }

  /** Visiting a + b is visiting a, then b. */
  lemma {:induction false} TranslateAppend(a: seq<(string, string)>, b: seq<(string, string)>, format: string)
    requires TokensStartWithPercent(a) && TokensStartWithPercent(b)
    ensures TokensStartWithPercent(a + b)
    ensures Translate(a + b, format) == Translate(b, Translate(a, format))
  {
    if |a| == 0 {
      assert a + b == b;
    } else {
      assert (a + b)[1..] == a[1..] + b;
      TranslateAppend(a[1..], b, ReplaceAll(format, a[0].0, a[0].1));
    }
  }

  /** Visiting a first token, then the rest. */
  lemma TranslateCons(e: (string, string), rest: seq<(string, string)>, format: string)
    requires |e.0| > 0 && e.0[0] == '%' && TokensStartWithPercent(rest)
    ensures TokensStartWithPercent([e] + rest)
    ensures Translate([e] + rest, format) == Translate(rest, ReplaceAll(format, e.0, e.1))
  {
    assert ([e] + rest)[1..] == rest;
  }

  /** Tokens that do not occur in the text leave it as it is. */
  lemma {:induction false} TranslateSkips(order: seq<(string, string)>, format: string)
    requires TokensStartWithPercent(order)
    requires forall k :: 0 <= k < |order| ==> |order[k].0| >= 2 && !HasPair(format, order[k].0[0], order[k].0[1])
    ensures Translate(order, format) == format
  {
    if |order| > 0 {
      ReplaceAllNoPair(format, order[0].0, order[0].1);
      TranslateSkips(order[1..], format);
    }
  }

  /** time.Parse(layout, value) followed by t.In(time.UTC). */
  function ParseUTC(lib: Library, layout: string, value: string): (r: Result<Time>)
    ensures lib.parseTime(layout, value).None? <==> r.Err?
    ensures r.Err? ==> r.error == TimeParseError(layout, value)
    ensures r.Ok? ==> r.value.loc == UTC && r.value.unixNanos == lib.parseTime(layout, value).value.unixNanos
  {
    match lib.parseTime(layout, value)
    case None => Err(TimeParseError(layout, value))
    case Some(t) => Ok(t.InUTC())
  }

  /** What castDefaultOrCustomTime returns. */
  function CustomTime(lib: Library, order: seq<(string, string)>, defaultLayout: string,
                      format: string, value: string): (r: Result<Time>)
    requires IsTableOrder(order)
    ensures IsDefaultFormat(format) ==> r == ParseUTC(lib, defaultLayout, value)
    ensures format == AnyDateFormat ==> r == Err(AnyDateFormatUnsupported)
  {
    TableOrderTokens(order);
    if IsDefaultFormat(format) then ParseUTC(lib, defaultLayout, value)
    else if format == AnyDateFormat then Err(AnyDateFormatUnsupported)
    else ParseUTC(lib, Translate(order, format), value)
  }

  /** castDefaultOrCustomTime */
  method CastDefaultOrCustomTime(lib: Library, order: seq<(string, string)>, defaultLayout: string,
                                 format: string, value: string) returns (r: Result<Time>)
    requires IsTableOrder(order)
    ensures r == CustomTime(lib, order, defaultLayout, format, value)
  {
    if IsDefaultFormat(format) {
      return ParseUTC(lib, defaultLayout, value);
    }
    if format == AnyDateFormat {
      return Err(AnyDateFormatUnsupported);
    }
    TableOrderTokens(order);
    var goFormat := format;
    var i := 0;
    while i < |order|
      invariant 0 <= i <= |order|
      invariant Translate(order[i..], goFormat) == Translate(order, format)
    {
      assert order[i..][1..] == order[i + 1..];
      goFormat := ReplaceAll(goFormat, order[i].0, order[i].1);
      i := i + 1;
    }
    return ParseUTC(lib, goFormat, value);
  }

  /** A custom format without '%' is used as the layout itself, and every success is
      normalised to UTC with the parsed instant kept. */
  lemma CustomTimeLiteralFormat(lib: Library, order: seq<(string, string)>, defaultLayout: string,
                                format: string, value: string)
    requires IsTableOrder(order)
    requires !IsDefaultFormat(format) && format != AnyDateFormat
    requires forall i :: 0 <= i < |format| ==> format[i] != '%'
    ensures CustomTime(lib, order, defaultLayout, format, value) == ParseUTC(lib, format, value)
  {
    TableOrderTokens(order);
  }

  /** Every successful cast is in UTC, at the instant time.Parse read with some layout. */
  lemma CustomTimeIsUTC(lib: Library, order: seq<(string, string)>, defaultLayout: string,
                        format: string, value: string)
    requires IsTableOrder(order)
    requires CustomTime(lib, order, defaultLayout, format, value).Ok?
    ensures var t := CustomTime(lib, order, defaultLayout, format, value).value;
      t.loc == UTC && exists layout :: lib.parseTime(layout, value).Some? && lib.parseTime(layout, value).value.unixNanos == t.unixNanos
  {
    TableOrderTokens(order);
    var layout := if IsDefaultFormat(format) then defaultLayout else Translate(order, format);
    assert lib.parseTime(layout, value).Some?;
  }

  /** castDate (datetime.go) */
  function CastDate(lib: Library, order: seq<(string, string)>, format: string, value: string): (r: Result<Time>)
    requires IsTableOrder(order)
    ensures IsDefaultFormat(format) ==> r == ParseUTC(lib, DateLayout, value)
  {
    CustomTime(lib, order, DateLayout, format, value)
  }

  /** castTime (datetime.go) */
  function CastTime(lib: Library, order: seq<(string, string)>, format: string, value: string): (r: Result<Time>)
    requires IsTableOrder(order)
    ensures IsDefaultFormat(format) ==> r == ParseUTC(lib, TimeLayout, value)
  {
    CustomTime(lib, order, TimeLayout, format, value)
  }

  /** castDateTime */
  function CastDateTime(lib: Library, order: seq<(string, string)>, format: string, value: string): (r: Result<Time>)
    requires IsTableOrder(order)
    ensures IsDefaultFormat(format) ==> r == ParseUTC(lib, RFC3339Layout, value)
  {
    CustomTime(lib, order, RFC3339Layout, format, value)
  }

  /** castYearMonth: the format plays no part. time.Parse's result is returned as it is,
      without a move to UTC. */
  function CastYearMonth(lib: Library, value: string): (r: Result<Time>)
    ensures r.Ok? <==> lib.parseTime(YearMonthLayout, value).Some?
    ensures r.Ok? ==> r.value == lib.parseTime(YearMonthLayout, value).value
  {
    match lib.parseTime(YearMonthLayout, value)
    case None => Err(TimeParseError(YearMonthLayout, value))
    case Some(t) => Ok(t)
  }

  /** castYear: as castYearMonth, with the layout "2006". */
  function CastYear(lib: Library, value: string): (r: Result<Time>)
    ensures r.Ok? <==> lib.parseTime(YearLayout, value).Some?
    ensures r.Ok? ==> r.value == lib.parseTime(YearLayout, value).value
  {
    match lib.parseTime(YearLayout, value)
    case None => Err(TimeParseError(YearLayout, value))
    case Some(t) => Ok(t)
  }

  /** encodeTime */
  function EncodeTime(lib: Library, v: Value): (r: Result<string>)
    ensures !v.VTime? ==> r == Err(NotATime)
    ensures v.VTime? ==> r == Ok(lib.formatRFC3339(Time(v.t.unixNanos, UTC)))
  {
    match v
    case VTime(t) => Ok(lib.formatRFC3339(t.InUTC()))
    case _ => Err(NotATime)
  }

  /** The encoding depends only on the instant: the same instant seen in any two
      locations encodes to the same text. */
  lemma EncodeTimeIgnoresLocation(lib: Library, n: int, a: Location, b: Location)
    ensures EncodeTime(lib, VTime(Time(n, a))) == EncodeTime(lib, VTime(Time(n, b)))
    ensures EncodeTime(lib, VTime(Time(n, a))).Ok?
  {
  }

  // ----- a translation that reads every token once -----

  predicate IsPrefix(t: string, s: string)
  {
    |t| <= |s| && s[..|t|] == t
  }

  /** Tokens are two or three characters long, never with '%' second; the
      three-character ones, and only they, have '-', '_' or ':' second. */
  lemma TableShapes()
    ensures forall a :: 0 <= a < |StrftimeTable| ==> 2 <= |StrftimeTable[a].0| <= 3
    ensures forall a :: 0 <= a < |StrftimeTable| ==> StrftimeTable[a].0[1] != '%'
    ensures forall a :: 0 <= a < |StrftimeTable| ==>
              (|StrftimeTable[a].0| == 3 <==> StrftimeTable[a].0[1] in "-_:")
  {
  }

  /** The position of a token in the table (-1 for any other text). */
  function TokenIndex(t: string): int
  {
    if t == "%d" then 0 else if t == "%-d" then 1 else if t == "%B" then 2
    else if t == "%b" then 3 else if t == "%h" then 4 else if t == "%m" then 5
    else if t == "%_m" then 6 else if t == "%-m" then 7 else if t == "%Y" then 8
    else if t == "%y" then 9 else if t == "%H" then 10 else if t == "%I" then 11
    else if t == "%M" then 12 else if t == "%S" then 13 else if t == "%f" then 14
    else if t == "%z" then 15 else if t == "%:z" then 16 else if t == "%Z" then 17
    else if t == "%p" then 18 else -1
  }

  /** No token appears twice in the table. */
  lemma TokenIndexInverts()
    ensures forall a :: 0 <= a < |StrftimeTable| ==> TokenIndex(StrftimeTable[a].0) == a
  {
  }

  /** No table token begins another one. */
  lemma TablePrefixFree()
    ensures forall a, b :: 0 <= a < |StrftimeTable| && 0 <= b < |StrftimeTable| && a != b
              && |StrftimeTable[a].0| <= |StrftimeTable[b].0|
              ==> StrftimeTable[b].0[..|StrftimeTable[a].0|] != StrftimeTable[a].0
  {
    TableShapes();
    TokenIndexInverts();
    forall a, b | 0 <= a < |StrftimeTable| && 0 <= b < |StrftimeTable| && a != b
                  && |StrftimeTable[a].0| <= |StrftimeTable[b].0|
      ensures StrftimeTable[b].0[..|StrftimeTable[a].0|] != StrftimeTable[a].0
    {
      var ta, tb := StrftimeTable[a].0, StrftimeTable[b].0;
      if |ta| == |tb| {
        assert tb[..|ta|] == tb;
        assert TokenIndex(ta) != TokenIndex(tb);
      } else {
        assert tb[..|ta|][1] == tb[1];
      }
    }
  }

  /** The first table index, from j on, whose token begins s. */
  function FirstMatch(s: string, j: nat): (r: Option<nat>)
    requires j <= |StrftimeTable|
    ensures r.Some? ==> j <= r.value < |StrftimeTable| && IsPrefix(StrftimeTable[r.value].0, s)
    ensures r.None? ==> forall k :: j <= k < |StrftimeTable| ==> !IsPrefix(StrftimeTable[k].0, s)
    decreases |StrftimeTable| - j
  {
    if j == |StrftimeTable| then None
    else if IsPrefix(StrftimeTable[j].0, s) then Some(j)
    else FirstMatch(s, j + 1)
  }

  /** A text that starts with a token starts with no other. */
  lemma OnlyTokenAtFront(j: nat, rest: string, a: nat)
    requires j < |StrftimeTable| && a < |StrftimeTable| && a != j
    ensures !IsPrefix(StrftimeTable[a].0, StrftimeTable[j].0 + rest)
  {
    TablePrefixFree();
    var s := StrftimeTable[j].0 + rest;
    var ta, tj := StrftimeTable[a].0, StrftimeTable[j].0;
    if |ta| <= |tj| {
      assert s[..|ta|] == tj[..|ta|];
    } else if |ta| <= |s| {
      assert s[..|ta|][..|tj|] == s[..|tj|] == tj;
    }
  }

  /** A token at the front of the text is the one that is read. */
  lemma MatchesToken(j: nat, rest: string)
    requires j < |StrftimeTable|
    ensures FirstMatch(StrftimeTable[j].0 + rest, 0) == Some(j)
  {
    var s := StrftimeTable[j].0 + rest;
    assert IsPrefix(StrftimeTable[j].0, s);
    var r := FirstMatch(s, 0);
    if r.Some? && r.value != j {
      OnlyTokenAtFront(j, rest, r.value);
    }
  }

  /** The format rewritten in one pass from the left: a table token is replaced by its
      layout, and the text a layout produced is not read again. */
  function ScanFormat(format: string): string
    decreases |format|
  {
    if |format| == 0 then ""
    else match FirstMatch(format, 0)
      case Some(j) =>
        TableTokens();
        StrftimeTable[j].1 + ScanFormat(format[|StrftimeTable[j].0|..])
      case None => [format[0]] + ScanFormat(format[1..])
  }

  /** One piece of a strftime format: a table token, or a character other than '%'. */
  datatype Piece = Token(index: nat) | Literal(c: char)

  predicate ValidPiece(p: Piece)
  {
    match p
    case Token(j) => j < |StrftimeTable|
    case Literal(c) => c != '%'
  }

  function FormatText(ps: seq<Piece>): string
    requires forall k :: 0 <= k < |ps| ==> ValidPiece(ps[k])
  {
    if |ps| == 0 then ""
    else
      assert ValidPiece(ps[0]);
      (match ps[0] case Token(j) => StrftimeTable[j].0 case Literal(c) => [c]) + FormatText(ps[1..])
  }

  /** The layout a format of pieces stands for: each token's layout, each other character
      kept. */
  function LayoutOf(ps: seq<Piece>): string
    requires forall k :: 0 <= k < |ps| ==> ValidPiece(ps[k])
  {
    if |ps| == 0 then ""
    else
      assert ValidPiece(ps[0]);
      (match ps[0] case Token(j) => StrftimeTable[j].1 case Literal(c) => [c]) + LayoutOf(ps[1..])
  }

  /** The one-pass rewriting gives every format exactly the layout its pieces stand for,
      with no dependence on an iteration order. */
  lemma {:induction false} ScanFormatPieces(ps: seq<Piece>)
    requires forall k :: 0 <= k < |ps| ==> ValidPiece(ps[k])
    ensures ScanFormat(FormatText(ps)) == LayoutOf(ps)
  {
    if |ps| > 0 {
      var rest := FormatText(ps[1..]);
      ScanFormatPieces(ps[1..]);
      match ps[0]
      case Token(j) =>
        var s := StrftimeTable[j].0 + rest;
        TableTokens();
        MatchesToken(j, rest);
        assert s[|StrftimeTable[j].0|..] == rest;
      case Literal(c) =>
        var s := [c] + rest;
        TableTokens();
        forall j | 0 <= j < |StrftimeTable| && |StrftimeTable[j].0| <= |s|
          ensures s[..|StrftimeTable[j].0|][0] == c
        {
        }
        assert s[1..] == rest;
    }
  }

  /** castDefaultOrCustomTime with the one-pass rewriting. */
  function CorrectedCustomTime(lib: Library, defaultLayout: string, format: string, value: string): (r: Result<Time>)
    ensures IsDefaultFormat(format) ==> r == ParseUTC(lib, defaultLayout, value)
    ensures format == AnyDateFormat ==> r == Err(AnyDateFormatUnsupported)
    ensures !IsDefaultFormat(format) && format != AnyDateFormat ==> r == ParseUTC(lib, ScanFormat(format), value)
  {
    if IsDefaultFormat(format) then ParseUTC(lib, defaultLayout, value)
    else if format == AnyDateFormat then Err(AnyDateFormatUnsupported)
    else ParseUTC(lib, ScanFormat(format), value)
  }
}

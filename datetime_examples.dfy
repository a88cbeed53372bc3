/** Worked cases of the strftime rewriting: the format "%%z" is rewritten differently
    depending on the order in which the token table is visited. */
module DateTimeExamples {
  import opened Wrappers
  import opened Host
  import opened DateTime

  /** The table in its declaration order is one possible visiting order. */
  lemma DeclarationOrder()
    ensures IsTableOrder(StrftimeTable)
  {
  }

  /** The declaration order with "%Z" and "%z" exchanged. */
  function SwappedOrder(): seq<(string, string)>
  {
    StrftimeTable[..15] + [StrftimeTable[17], StrftimeTable[16], StrftimeTable[15], StrftimeTable[18]]
  }

  lemma SwappedIsTableOrder()
    ensures IsTableOrder(SwappedOrder())
  {
    var o := SwappedOrder();
    assert forall k :: 0 <= k < 15 ==> o[k] == StrftimeTable[k];
    assert o[15] == StrftimeTable[17] && o[16] == StrftimeTable[16];
    assert o[17] == StrftimeTable[15] && o[18] == StrftimeTable[18];
    forall j | 0 <= j < |StrftimeTable|
      ensures StrftimeTable[j] in o
    {
      if j < 15 {
        assert o[j] == StrftimeTable[j];
      } else if j == 15 {
        assert o[17] == StrftimeTable[j];
      } else if j == 17 {
        assert o[15] == StrftimeTable[j];
      } else {
        assert o[j] == StrftimeTable[j];
      }
    }
  }

  /** In "%%z" a '%' is followed only by '%' or 'z'. */
  lemma PairsOfPercentPercentZ(s: string)
    requires s == "%%z"
    ensures forall a, b :: HasPair(s, a, b) ==> a == '%' && (b == '%' || b == 'z')
  {
  }

  /** In "%Z0700" the only '%' is followed by 'Z'. */
  lemma PairsOfPercentZ0700(s: string)
    requires s == "%Z0700"
    ensures forall b :: HasPair(s, '%', b) ==> b == 'Z'
  {
    forall b | HasPair(s, '%', b)
      ensures b == 'Z'
    {
      var i :| 0 <= i < |s| - 1 && s[i] == '%' && s[i + 1] == b;
      assert i == 0;
    }
  }

  /** The first fifteen tokens of the table do not occur in "%%z". */
  lemma HeadSkips(s: string)
    requires s == "%%z"
    ensures TokensStartWithPercent(StrftimeTable[..15])
    ensures Translate(StrftimeTable[..15], s) == s
  {
    TableTokens();
    PairsOfPercentPercentZ(s);
    var h := StrftimeTable[..15];
    assert forall k :: 0 <= k < |h| ==> |h[k].0| >= 2 && h[k].0[1] != '%' && h[k].0[1] != 'z';
    TranslateSkips(h, s);
  }

  lemma ReplaceLowerZ(s: string)
    requires s == "%%z"
    ensures ReplaceAll(s, "%z", "Z0700") == "%Z0700"
  {
    assert s[..2] != "%z" by {
      assert s[..2][1] == '%';
    }
    assert s[1..] == "%z" + "";
    ReplaceAllFront("%z", "Z0700", "");
  }

  lemma ReplaceUpperZ(s: string)
    requires s == "%Z0700"
    ensures ReplaceAll(s, "%Z", "MST") == "MST0700"
  {
    ReplaceAllFront("%Z", "MST", "0700");
    assert s == "%Z" + "0700";
    ReplaceAllAbsent("0700", "%Z", "MST");
  }

  lemma LastTokenSkips(s: string, e: (string, string))
    requires s == "MST0700" && e == ("%p", "PM")
    ensures TokensStartWithPercent([e])
    ensures Translate([e], s) == s
  {
    ReplaceAllAbsent(s, e.0, e.1);
    assert [e][1..] == [];
  }

  /** The last four tokens of the declaration order, visited in turn on "%%z". */
  lemma DeclarationTail(s: string, tail: seq<(string, string)>)
    requires s == "%%z"
    requires tail == [("%z", "Z0700"), ("%:z", "Z07:00"), ("%Z", "MST"), ("%p", "PM")]
    ensures TokensStartWithPercent(tail)
    ensures Translate(tail, s) == "MST0700"
  {
    var s1 := "%Z0700";
    ReplaceLowerZ(s);
    PairsOfPercentZ0700(s1);
    ReplaceAllNoPair(s1, "%:z", "Z07:00");
    ReplaceUpperZ(s1);
    var s2 := ReplaceAll(s1, "%Z", "MST");
    LastTokenSkips(s2, tail[3]);
    TranslateCons(tail[3], [], s2);
    TranslateCons(tail[2], [tail[3]], s1);
    TranslateCons(tail[1], tail[2..], s1);
    assert tail[1..] == [tail[1]] + tail[2..];
    TranslateCons(tail[0], tail[1..], s);
    assert tail == [tail[0]] + tail[1..];
  }

  /** The last four tokens of the exchanged order, visited in turn on "%%z". */
  lemma SwappedTail(s: string, tail: seq<(string, string)>)
    requires s == "%%z"
    requires tail == [("%Z", "MST"), ("%:z", "Z07:00"), ("%z", "Z0700"), ("%p", "PM")]
    ensures TokensStartWithPercent(tail)
    ensures Translate(tail, s) == "%Z0700"
  {
    var s1 := "%Z0700";
    PairsOfPercentPercentZ(s);
    ReplaceAllNoPair(s, "%Z", "MST");
    ReplaceAllNoPair(s, "%:z", "Z07:00");
    ReplaceLowerZ(s);
    PairsOfPercentZ0700(s1);
    ReplaceAllNoPair(s1, "%p", "PM");
    assert Translate([], s1) == s1;
    TranslateCons(tail[3], [], s1);
    TranslateCons(tail[2], [tail[3]], s);
    TranslateCons(tail[1], tail[2..], s);
    assert tail[1..] == [tail[1]] + tail[2..];
    TranslateCons(tail[0], tail[1..], s);
    assert tail == [tail[0]] + tail[1..];
  }

  /** Visiting the declaration order, "%%z" becomes "MST0700": "%z" is rewritten to
      "Z0700" first, and the "%Z" this leaves behind is rewritten again. */
  lemma DeclarationOrderLayout(s: string)
    requires s == "%%z"
    ensures TokensStartWithPercent(StrftimeTable)
    ensures Translate(StrftimeTable, s) == "MST0700"
  {
    TableTokens();
    HeadSkips(s);
    var tail := StrftimeTable[15..];
    assert StrftimeTable == StrftimeTable[..15] + tail;
    DeclarationTail(s, tail);
    TranslateAppend(StrftimeTable[..15], tail, s);
  }

  /** Visiting "%Z" before "%z", "%%z" becomes "%Z0700". */
  lemma SwappedOrderLayout(s: string)
    requires s == "%%z"
    ensures TokensStartWithPercent(SwappedOrder())
    ensures Translate(SwappedOrder(), s) == "%Z0700"
  {
    TableTokens();
    HeadSkips(s);
    var tail := [StrftimeTable[17], StrftimeTable[16], StrftimeTable[15], StrftimeTable[18]];
    SwappedTail(s, tail);
    TranslateAppend(StrftimeTable[..15], tail, s);
  }

  /** Finding, as written: the layout castDefaultOrCustomTime parses "%%z" with depends
      on the order in which Go happens to visit the map. */
  lemma TranslationDependsOnOrder(lib: Library, defaultLayout: string, s: string, value: string)
    requires s == "%%z"
    ensures IsTableOrder(StrftimeTable) && IsTableOrder(SwappedOrder())
    ensures CustomTime(lib, StrftimeTable, defaultLayout, s, value) == ParseUTC(lib, "MST0700", value)
    ensures CustomTime(lib, SwappedOrder(), defaultLayout, s, value) == ParseUTC(lib, "%Z0700", value)
    ensures "MST0700" != "%Z0700"
  {
    DeclarationOrder();
    SwappedIsTableOrder();
    DeclarationOrderLayout(s);
    SwappedOrderLayout(s);
  }

  /** No token starts with "%%". */
  lemma NoTokenAtPercentPercent(s: string)
    requires s == "%%z"
    ensures FirstMatch(s, 0).None?
  {
    TableShapes();
    forall j | 0 <= j < |StrftimeTable| && |StrftimeTable[j].0| <= |s|
      ensures s[..|StrftimeTable[j].0|] != StrftimeTable[j].0
    {
      assert s[..|StrftimeTable[j].0|][1] == '%';
    }
  }

  lemma ScanLowerZ(s: string)
    requires s == "%z"
    ensures ScanFormat(s) == "Z0700"
  {
    var ps := [Token(15)];
    assert ValidPiece(ps[0]) && ps[1..] == [];
    assert FormatText(ps) == s;
    assert LayoutOf(ps) == "Z0700";
    ScanFormatPieces(ps);
  }

  /** The one-pass rewriting reads "%%z" as a '%' followed by the token "%z". */
  lemma CorrectedLayout(lib: Library, defaultLayout: string, s: string, value: string)
    requires s == "%%z"
    ensures ScanFormat(s) == "%Z0700"
    ensures CorrectedCustomTime(lib, defaultLayout, s, value) == ParseUTC(lib, "%Z0700", value)
  {
    NoTokenAtPercentPercent(s);
    ScanLowerZ(s[1..]);
  }
}

/** integer.go: castInt, which is strconv.ParseInt(value, 10, 64). */
module Integer {
  import opened Wrappers
  import opened Decimal

  predicate IsSign(c: char) { c == '+' || c == '-' }

  /** The text after an optional leading sign. */
  function Unsigned(value: string): (u: string)
    ensures |value| > 0 && IsSign(value[0]) ==> u == value[1..]
    ensures !(|value| > 0 && IsSign(value[0])) ==> u == value
  {
    if |value| > 0 && IsSign(value[0]) then value[1..] else value
  }

  /** castInt: an optional sign followed by one or more decimal digits whose value lies
      in the int64 range. Any other text, the empty string and a lone sign are errors. */
  function CastInt(value: string): (r: Result<int>)
    ensures r.Ok? ==> IsInt64(r.value)
    ensures r.Ok? ==> |Unsigned(value)| > 0 && AllDigits(Unsigned(value))
    ensures r.Err? ==> r.error == ParseIntError(value)
  {
    var digits := Unsigned(value);
    if |digits| == 0 || !AllDigits(digits) then Err(ParseIntError(value))
    else
      var v: int := ValueOf(digits);
      var n := if value[0] == '-' then -v else v;
      if IsInt64(n) then Ok(n) else Err(ParseIntError(value))
  }

  /** A successful parse yields the signed value of the digits. */
  lemma CastIntValue(value: string)
    requires CastInt(value).Ok?
    ensures value[0] == '-' ==> CastInt(value).value == -(ValueOf(Unsigned(value)) as int)
    ensures value[0] != '-' ==> CastInt(value).value == ValueOf(Unsigned(value))
  {
  }

  /** Any character after the optional sign that is not a digit makes the parse fail. */
  lemma CastIntRejectsNonDigit(value: string, i: nat)
    requires i < |Unsigned(value)| && !IsDigit(Unsigned(value)[i])
    ensures CastInt(value).Err?
  {
  }

  /** The success direction: an optional sign, then one or more digits whose signed value
      is an int64, parses to that value. */
  lemma CastIntSucceeds(value: string)
    requires |Unsigned(value)| > 0 && AllDigits(Unsigned(value))
    requires IsInt64(if value[0] == '-' then -(ValueOf(Unsigned(value)) as int) else ValueOf(Unsigned(value)))
    ensures CastInt(value) == Ok(if value[0] == '-' then -(ValueOf(Unsigned(value)) as int) else ValueOf(Unsigned(value)))
  {
  }

  /** The decimal rendering of every int64 parses back to it, with or without a '+'. */
  lemma {:induction false} CastIntShowInt(n: int)
    requires IsInt64(n)
    ensures CastInt(ShowInt(n)) == Ok(n)
    ensures n >= 0 ==> CastInt("+" + Show(n)) == Ok(n)
  {
    if n < 0 {
      ValueOfShow(-n);
      var s := ShowInt(n);
      assert s[0] == '-';
      assert Unsigned(s) == Show(-n);
    } else {
      ValueOfShow(n);
      var s := Show(n);
      assert IsDigit(s[0]);
      assert Unsigned(s) == s;
      assert ("+" + s)[0] == '+';
      assert Unsigned("+" + s) == s;
    }
  }

  /** Every digit string whose value exceeds MaxInt64 is rejected, and so is its negation
      once below MinInt64. */
  lemma CastIntOutOfRange(digits: string)
    requires |digits| > 0 && AllDigits(digits) && ValueOf(digits) > MaxInt64
    ensures CastInt(digits).Err?
    ensures ValueOf(digits) > -MinInt64 ==> CastInt("-" + digits).Err?
  {
    assert Unsigned(digits) == digits;
    assert Unsigned("-" + digits) == digits;
  }

  /** The examples of integer_test.go, and the edge cases of the signature. */
  lemma CastIntExamples()
    ensures CastInt("+10") == Ok(10)
    ensures CastInt("10") == Ok(10)
    ensures CastInt("-10") == Ok(-10)
    ensures CastInt("+10++10").Err?
    ensures CastInt("").Err?
    ensures CastInt("-").Err?
    ensures CastInt("+").Err?
  {
    assert Unsigned("+10") == "10";
    assert Unsigned("-10") == "10";
    assert ValueOf("10") == 10 by {
      assert "10"[..1] == "1";
      assert ValueOf("1") == 1 by { assert "1"[..0] == ""; }
    }
    assert !IsDigit(Unsigned("+10++10")[2]);
    assert Unsigned("-") == "";
    assert Unsigned("+") == "";
  }
}

/** string.go: the length and pattern constraints of a "string" field and the format
    dispatch of decodeString. */
module StringCodec {
  import opened Wrappers
  import opened Host
  import opened Values

  const StringURI := "uri"
  const StringEmail := "email"
  const StringUUID := "uuid"
  const StringBinary := "binary"
  /** Only random UUIDs (version 4, section 4.1.3 of RFC 4122) are accepted. */
  const StringUUIDVersion: nat := 4

  /** Bytes of one code point in UTF-8. */
  function Utf8Width(c: char): (w: nat)
    ensures 1 <= w <= 4
    ensures (c as int < 0x80) <==> w == 1
  {
    if c as int < 0x80 then 1
    else if c as int < 0x800 then 2
    else if c as int < 0x10000 then 3
    else 4
  }

  /** Go's len(s): the number of bytes of the UTF-8 encoding. */
  function ByteLen(s: string): (n: nat)
    ensures n >= |s|
  {
    if |s| == 0 then 0 else Utf8Width(s[0]) + ByteLen(s[1..])
  }

  lemma {:induction false} ByteLenAppend(a: string, b: string)
    ensures ByteLen(a + b) == ByteLen(a) + ByteLen(b)
  {
    if |a| == 0 {
      assert a + b == b;
    } else {
      assert (a + b)[0] == a[0];
      assert (a + b)[1..] == a[1..] + b;
      ByteLenAppend(a[1..], b);
    }
  }

  /** Byte length and character count agree exactly on ASCII text. */
  lemma {:induction false} ByteLenAscii(s: string)
    ensures ByteLen(s) == |s| <==> forall i :: 0 <= i < |s| ==> s[i] as int < 0x80
  {
    if |s| > 0 {
      ByteLenAscii(s[1..]);
      assert forall i :: 1 <= i < |s| ==> s[i] == s[1..][i - 1];
    }
  }

  /** checkStringConstraints: non-zero minLength and maxLength bound the byte length,
      and a pattern must match. The checks run in that order and the first failure is
      reported. */
  function CheckStringConstraints(lib: Library, v: string, minLength: int, maxLength: int,
                                  pattern: Option<Regexp>): (err: Option<Error>)
    ensures err.None? <==>
              (minLength == 0 || ByteLen(v) >= minLength) &&
              (maxLength == 0 || ByteLen(v) <= maxLength) &&
              (pattern.Some? ==> lib.matchString(pattern.value, v))
    ensures minLength != 0 && ByteLen(v) < minLength ==>
              err == Some(BelowMinLength(v, ByteLen(v), minLength))
    ensures err.Some? && err.value.AboveMaxLength? ==> minLength == 0 || ByteLen(v) >= minLength
    ensures err.Some? && err.value.PatternMismatch? ==>
              (minLength == 0 || ByteLen(v) >= minLength) && (maxLength == 0 || ByteLen(v) <= maxLength)
  {
    if minLength != 0 && ByteLen(v) < minLength then Some(BelowMinLength(v, ByteLen(v), minLength))
    else if maxLength != 0 && ByteLen(v) > maxLength then Some(AboveMaxLength(v, ByteLen(v), maxLength))
    else if pattern.Some? && !lib.matchString(pattern.value, v) then Some(PatternMismatch(v))
    else None
  }

  /** A bound of 0 is no bound at all, whatever the length of the value. */
  lemma ZeroLengthBoundsAccept(lib: Library, v: string)
    ensures CheckStringConstraints(lib, v, 0, 0, None) == None
  {
  }

  /** decodeString: returns the value itself on every path, together with the first
      failure among the constraints and then the format's own check. */
  function DecodeString(lib: Library, format: string, value: string, c: Constraints): (r: (string, Option<Error>))
    ensures r.0 == value
    ensures CheckStringConstraints(lib, value, c.minLength, c.maxLength, c.pattern).Some? ==>
              r.1 == CheckStringConstraints(lib, value, c.minLength, c.maxLength, c.pattern)
    ensures CheckStringConstraints(lib, value, c.minLength, c.maxLength, c.pattern).None? ==>
              (format !in {StringURI, StringEmail, StringUUID} ==> r.1 == None)
    ensures CheckStringConstraints(lib, value, c.minLength, c.maxLength, c.pattern).None? ==>
              (format == StringURI ==> (r.1.None? <==> lib.parseRequestURI(value)))
    ensures CheckStringConstraints(lib, value, c.minLength, c.maxLength, c.pattern).None? ==>
              (format == StringEmail ==> (r.1.None? <==> lib.parseAddress(value)))
    ensures CheckStringConstraints(lib, value, c.minLength, c.maxLength, c.pattern).None? ==>
              (format == StringUUID ==> (r.1.None? <==> lib.uuidFromString(value) == (StringUUIDVersion, true)))
  {
    var err := CheckStringConstraints(lib, value, c.minLength, c.maxLength, c.pattern);
    if err.Some? then (value, err)
    else if format == StringURI then
      (value, if lib.parseRequestURI(value) then None else Some(InvalidURI(value)))
    else if format == StringEmail then
      (value, if lib.parseAddress(value) then None else Some(InvalidEmail(value)))
    else if format == StringUUID then
      var (version, ok) := lib.uuidFromString(value);
      if version != StringUUIDVersion then (value, Some(InvalidUUIDVersion(version)))
      else (value, if ok then None else Some(InvalidUUID(value)))
    else (value, None)
  }

  /** A UUID of any version other than 4 is rejected, even one the UUID parser accepts. */
  lemma UUIDVersionMustBeFour(lib: Library, value: string, version: nat)
    requires lib.uuidFromString(value) == (version, true) && version != StringUUIDVersion
    ensures DecodeString(lib, StringUUID, value, NoConstraints).1 == Some(InvalidUUIDVersion(version))
  {
  }

  /** The "binary" format, like any unknown format, adds no check of its own. */
  lemma BinaryFormatAddsNothing(lib: Library, value: string)
    ensures DecodeString(lib, StringBinary, value, NoConstraints) == (value, None)
  {
  }
}

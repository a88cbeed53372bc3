/** The Go standard-library services the core calls but whose code is not part of this
    model: time.Parse and Time.Format, regexp matching, url.ParseRequestURI,
    mail.ParseAddress, uuid.FromString, encoding/json decoding, strconv.ParseFloat,
    strconv.Unquote and float formatting. Each is an uninterpreted function carried in a
    `Library` value, so every property proved here holds for any behaviour of them. */
module Host {
  import opened Wrappers

  /** A time.Location: UTC, or any other named zone with its offset. */
  datatype Location = UTC | Zone(name: string, offsetSeconds: int)

  /** A time.Time: an instant (nanoseconds since the Unix epoch) seen in a location. */
  datatype Time = Time(unixNanos: int, loc: Location) {
    /** t.In(time.UTC): the same instant, seen in UTC. */
    function InUTC(): (u: Time)
      ensures u.unixNanos == unixNanos && u.loc == UTC
    {
      Time(unixNanos, UTC)
    }

    predicate After(u: Time) { unixNanos > u.unixNanos }

    predicate Before(u: Time) { unixNanos < u.unixNanos }
  }

  /** The value `var t time.Time` holds: January 1, year 1, 00:00:00 UTC. */
  const ZeroTime: Time := Time(-62135596800 * 1000000000, UTC)

  /** t.IsZero() */
  predicate IsZero(t: Time) { t.unixNanos == ZeroTime.unixNanos }

  /** A decoded JSON document (what encoding/json produces into an interface{}). Object
      members keep their textual order, duplicates included. */
  datatype Json =
    | JNull
    | JBool(b: bool)
    | JNumber(n: real)
    | JString(s: string)
    | JArray(items: seq<Json>)
    | JObject(members: seq<(string, Json)>)

  /** A compiled *regexp.Regexp, known by its source text. */
  datatype Regexp = Regexp(expr: string)

  datatype Library = Library(
    /** strconv.ParseFloat(s, 64): None when it reports an error. */
    parseFloat: string -> Option<real>,
    /** time.Parse(layout, value): None when it reports an error. */
    parseTime: (string, string) -> Option<Time>,
    /** t.Format(time.RFC3339) */
    formatRFC3339: Time -> string,
    /** re.MatchString(s) */
    matchString: (Regexp, string) -> bool,
    /** url.ParseRequestURI(s) succeeds */
    parseRequestURI: string -> bool,
    /** mail.ParseAddress(s) succeeds */
    parseAddress: string -> bool,
    /** uuid.FromString(s): the version nibble of the returned UUID, and whether no error
        was reported */
    uuidFromString: string -> (nat, bool),
    /** json.Unmarshal into an interface{}: None when the text is not valid JSON */
    unmarshalJSON: string -> Option<Json>,
    /** fmt's %v rendering of a float64 */
    formatFloat: real -> string,
    /** strconv.Unquote(s): None when it reports an error */
    unquote: string -> Option<string>,
    /** time.Duration's String method (for example "1h1m0.5s" or "500ms") */
    durationString: int -> string,
    /** unicode.ToUpper on a code point outside ASCII (for example 'µ' to 'Μ') */
    upperNonAscii: char -> char
  )
}

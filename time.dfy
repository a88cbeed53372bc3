/** time.go: a "time" cell, parsed with the layout "03:04:05" by default and checked
    against its minimum and maximum, and encoded as RFC 3339 text in UTC. */
module TimeCodec {
  import opened Wrappers
  import opened Host
  import opened Values
  import DateTime
  import Bounds

  /** castTimeWithoutCheckConstraints */
  function CastTimeWithoutCheckConstraints(lib: Library, order: seq<(string, string)>, format: string,
                                           value: string): (r: Result<Time>)
    requires DateTime.IsTableOrder(order)
    ensures r == DateTime.CustomTime(lib, order, DateTime.TimeLayout, format, value)
  {
    DateTime.CustomTime(lib, order, DateTime.TimeLayout, format, value)
  }

  /** castTime (time.go) */
  function CastTime(lib: Library, order: seq<(string, string)>, format: string, value: string,
                    c: Constraints): (r: Result<Time>)
    requires DateTime.IsTableOrder(order)
    ensures CastTimeWithoutCheckConstraints(lib, order, format, value).Err?
            ==> r == CastTimeWithoutCheckConstraints(lib, order, format, value)
    ensures r.Ok? ==> r == CastTimeWithoutCheckConstraints(lib, order, format, value)
  {
    Bounds.CastBounded(lib, order, DateTime.TimeLayout, format, value, c)
  }

  /** 11:45:00 passes a maximum of 11:45:01 and fails one of 11:44:59: given three texts
      time.Parse reads in that order, the middle one passes the larger bound and fails the
      smaller. */
  lemma TimeAgainstMaximum(lib: Library, order: seq<(string, string)>, lo: string, mid: string, hi: string,
                           a: Time, b: Time, d: Time)
    requires DateTime.IsTableOrder(order)
    requires lib.parseTime(DateTime.TimeLayout, lo) == Some(a)
    requires lib.parseTime(DateTime.TimeLayout, mid) == Some(b)
    requires lib.parseTime(DateTime.TimeLayout, hi) == Some(d)
    requires lo != "" && hi != "" && !IsZero(a) && !IsZero(d) && a.Before(b) && b.Before(d)
    ensures CastTime(lib, order, "default", mid, NoConstraints.(maximum := hi)) == Ok(b.InUTC())
    ensures CastTime(lib, order, "default", mid, NoConstraints.(maximum := lo)) == Err(AboveMaximum)
    ensures CastTime(lib, order, "default", mid, NoConstraints.(minimum := lo)) == Ok(b.InUTC())
    ensures CastTime(lib, order, "default", mid, NoConstraints.(minimum := hi)) == Err(BelowMinimum)
  {
  }

  /** uncastTime */
  function UncastTime(lib: Library, v: Value): (r: Result<string>)
    ensures !v.VTime? ==> r == Err(NotATime)
    ensures v.VTime? ==> r == Ok(lib.formatRFC3339(Time(v.t.unixNanos, UTC)))
  {
    DateTime.EncodeTime(lib, v)
  }

  /** time.Unix(1, 0), in whatever location, is written as the RFC 3339 text of that
      instant in UTC. */
  lemma UncastUnixSecond(lib: Library, loc: Location)
    ensures UncastTime(lib, VTime(Time(1000000000, loc))) == Ok(lib.formatRFC3339(Time(1000000000, UTC)))
  {
  }
}

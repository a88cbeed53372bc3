/** date.go: a "date" cell, parsed with the layout "2006-01-02" by default and checked
    against its minimum and maximum. */
module DateCodec {
  import opened Wrappers
  import opened Host
  import opened Values
  import DateTime
  import Bounds

  /** castDateWithoutChecks */
  function CastDateWithoutChecks(lib: Library, order: seq<(string, string)>, format: string,
                                 value: string): (r: Result<Time>)
    requires DateTime.IsTableOrder(order)
    ensures r == DateTime.CustomTime(lib, order, DateTime.DateLayout, format, value)
  {
    DateTime.CustomTime(lib, order, DateTime.DateLayout, format, value)
  }

  /** castDate (date.go) */
  function CastDate(lib: Library, order: seq<(string, string)>, format: string, value: string,
                    c: Constraints): (r: Result<Time>)
    requires DateTime.IsTableOrder(order)
    ensures CastDateWithoutChecks(lib, order, format, value).Err? ==> r == CastDateWithoutChecks(lib, order, format, value)
    ensures r.Ok? ==> r == CastDateWithoutChecks(lib, order, format, value)
  {
    Bounds.CastBounded(lib, order, DateTime.DateLayout, format, value, c)
  }

  /** A date after its maximum is refused, and one on or before it is accepted. */
  lemma DateAgainstMaximum(lib: Library, order: seq<(string, string)>, value: string, c: Constraints,
                           t: Time, max: Time)
    requires DateTime.IsTableOrder(order)
    requires lib.parseTime(DateTime.DateLayout, value) == Some(t)
    requires c.maximum != "" && c.minimum == ""
    requires lib.parseTime(DateTime.DateLayout, c.maximum) == Some(max) && !IsZero(max)
    ensures t.After(max) ==> CastDate(lib, order, "default", value, c) == Err(AboveMaximum)
    ensures !t.After(max) ==> CastDate(lib, order, "default", value, c) == Ok(t.InUTC())
  {
  }

  /** A date before its minimum is refused. */
  lemma DateBelowMinimum(lib: Library, order: seq<(string, string)>, value: string, c: Constraints,
                         t: Time, min: Time)
    requires DateTime.IsTableOrder(order)
    requires lib.parseTime(DateTime.DateLayout, value) == Some(t)
    requires c.maximum == "" && c.minimum != ""
    requires lib.parseTime(DateTime.DateLayout, c.minimum) == Some(min) && !IsZero(min)
    requires t.Before(min)
    ensures CastDate(lib, order, "default", value, c) == Err(BelowMinimum)
  {
  }
}

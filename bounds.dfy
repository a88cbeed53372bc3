/** The bound checks date.go and time.go share: the value is parsed first, then each
    non-empty bound with the same format, and the value is compared with the bounds. */
module Bounds {
  import opened Wrappers
  import opened Host
  import opened Values
  import DateTime

  /** checkConstraints, which date.go and time.go call but which is not part of this
      model: a bound that is the zero time stands for "no bound", and the value may not
      lie strictly after the maximum or strictly before the minimum. */
  function CheckTimeBounds(v: Time, max: Time, min: Time): (r: Result<Time>)
    ensures r.Ok? ==> r.value == v
    ensures !IsZero(max) && v.After(max) ==> r == Err(AboveMaximum)
    ensures (IsZero(max) || !v.After(max)) && !IsZero(min) && v.Before(min) ==> r == Err(BelowMinimum)
    ensures r.Ok? <==> (IsZero(max) || !v.After(max)) && (IsZero(min) || !v.Before(min))
  {
    if !IsZero(max) && v.After(max) then Err(AboveMaximum)
    else if !IsZero(min) && v.Before(min) then Err(BelowMinimum)
    else Ok(v)
  }

  /** A bound as date.go and time.go read it: the zero time when empty, else the text
      parsed with the value's format. */
  function ParseBound(lib: Library, order: seq<(string, string)>, layout: string, format: string,
                      bound: string): (r: Result<Time>)
    requires DateTime.IsTableOrder(order)
    ensures bound == "" ==> r == Ok(ZeroTime)
    ensures bound != "" ==> r == DateTime.CustomTime(lib, order, layout, format, bound)
  {
    if bound == "" then Ok(ZeroTime) else DateTime.CustomTime(lib, order, layout, format, bound)
  }

  /** The body of castDate (date.go) and of castTime (time.go), which differ only in
      the default layout. */
  function CastBounded(lib: Library, order: seq<(string, string)>, layout: string, format: string,
                       value: string, c: Constraints): (r: Result<Time>)
    requires DateTime.IsTableOrder(order)
    ensures DateTime.CustomTime(lib, order, layout, format, value).Err?
            ==> r == DateTime.CustomTime(lib, order, layout, format, value)
  {
    match DateTime.CustomTime(lib, order, layout, format, value)
    case Err(e) => Err(e)
    case Ok(y) =>
      match ParseBound(lib, order, layout, format, c.maximum)
      case Err(e) => Err(e)
      case Ok(max) =>
        match ParseBound(lib, order, layout, format, c.minimum)
        case Err(e) => Err(e)
        case Ok(min) => CheckTimeBounds(y, max, min)
  }

  /** With neither bound given, the cast is the unbounded cast. */
  lemma NoBoundsNoChecks(lib: Library, order: seq<(string, string)>, layout: string, format: string,
                         value: string, c: Constraints)
    requires DateTime.IsTableOrder(order)
    requires c.maximum == "" && c.minimum == ""
    ensures CastBounded(lib, order, layout, format, value, c) == DateTime.CustomTime(lib, order, layout, format, value)
  {
  }

  /** A given bound that does not parse fails the cast, once the value has parsed; the
      maximum is read before the minimum. */
  lemma UnparseableBound(lib: Library, order: seq<(string, string)>, layout: string, format: string,
                         value: string, c: Constraints)
    requires DateTime.IsTableOrder(order)
    requires DateTime.CustomTime(lib, order, layout, format, value).Ok?
    ensures c.maximum != "" && DateTime.CustomTime(lib, order, layout, format, c.maximum).Err?
            ==> CastBounded(lib, order, layout, format, value, c) == DateTime.CustomTime(lib, order, layout, format, c.maximum)
    ensures ParseBound(lib, order, layout, format, c.maximum).Ok? && c.minimum != ""
            && DateTime.CustomTime(lib, order, layout, format, c.minimum).Err?
            ==> CastBounded(lib, order, layout, format, value, c) == DateTime.CustomTime(lib, order, layout, format, c.minimum)
  {
  }

  /** A successful cast is the parsed value, and it lies within every given bound that
      parsed to a time other than the zero time. */
  lemma CastBoundedSound(lib: Library, order: seq<(string, string)>, layout: string, format: string,
                         value: string, c: Constraints)
    requires DateTime.IsTableOrder(order)
    requires CastBounded(lib, order, layout, format, value, c).Ok?
    ensures var t := CastBounded(lib, order, layout, format, value, c).value;
      && DateTime.CustomTime(lib, order, layout, format, value) == Ok(t)
      && ParseBound(lib, order, layout, format, c.maximum).Ok?
      && ParseBound(lib, order, layout, format, c.minimum).Ok?
      && var max := ParseBound(lib, order, layout, format, c.maximum).value;
         var min := ParseBound(lib, order, layout, format, c.minimum).value;
         (IsZero(max) || !t.After(max)) && (IsZero(min) || !t.Before(min))
  {
  }

  /** Conversely, a value that parses and lies within bounds that parse is accepted. */
  lemma CastBoundedComplete(lib: Library, order: seq<(string, string)>, layout: string, format: string,
                            value: string, c: Constraints, t: Time, max: Time, min: Time)
    requires DateTime.IsTableOrder(order)
    requires DateTime.CustomTime(lib, order, layout, format, value) == Ok(t)
    requires ParseBound(lib, order, layout, format, c.maximum) == Ok(max)
    requires ParseBound(lib, order, layout, format, c.minimum) == Ok(min)
    requires (IsZero(max) || !t.After(max)) && (IsZero(min) || !t.Before(min))
    ensures CastBounded(lib, order, layout, format, value, c) == Ok(t)
  {
  }
}

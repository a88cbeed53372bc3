/** boolean.go: castBoolean. */
module Boolean {
  import opened Wrappers

  /** The early-return scan of a value list, as the range loops of castBoolean do it. */
  function Found(values: seq<string>, value: string): (found: bool)
    ensures found <==> value in values
  {
    if |values| == 0 then false
    else if values[0] == value then true
    else Found(values[1..], value)
  }

  /** castBoolean: the true list is searched first, then the false list; a value in
      neither is an error. */
  function CastBoolean(value: string, trueValues: seq<string>, falseValues: seq<string>): (r: Result<bool>)
    ensures r == Ok(true) <==> value in trueValues
    ensures r == Ok(false) <==> value !in trueValues && value in falseValues
    ensures r.Err? <==> value !in trueValues && value !in falseValues
    ensures r.Err? ==> r.error == InvalidBoolean(value)
  {
    if Found(trueValues, value) then Ok(true)
    else if Found(falseValues, value) then Ok(false)
    else Err(InvalidBoolean(value))
  }

  /** Only membership matters: neither the order of the lists nor duplicates in them
      change the outcome. */
  lemma CastBooleanMembershipOnly(value: string, t1: seq<string>, f1: seq<string>,
                                  t2: seq<string>, f2: seq<string>)
    requires forall x :: x in t1 <==> x in t2
    requires forall x :: x in f1 <==> x in f2
    ensures CastBoolean(value, t1, f1) == CastBoolean(value, t2, f2)
  {
  }

  /** The cases of boolean_test.go: a value in both lists is true. */
  lemma CastBooleanExamples()
    ensures CastBoolean("1", ["1"], ["0"]) == Ok(true)
    ensures CastBoolean("0", ["1"], ["0"]) == Ok(false)
    ensures CastBoolean("1", ["1"], ["1"]) == Ok(true)
    ensures CastBoolean("x", ["1"], ["0"]).Err?
  {
  }
}

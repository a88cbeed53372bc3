/** What csv/reader.go and csv/table.go share: the physical source, the fields their
    creation options set, and what each option, and a run of options, leads to. */
module CsvSource {
  import opened Wrappers
  import opened Host
  import opened Schema
  import Infer
  import opened CsvIterator

  /** Source: a function that opens the physical data afresh on every call. Here, the
      reads every opening yields, or the error opening reports. */
  type Source = Result<seq<Read>>

  /** The fields the creation options set: Headers, Schema (nil is None) and skipHeaders. */
  datatype Def = Def(headers: seq<string>, schema: Option<Schema>, skipHeaders: bool)

  /** Where New starts: no headers, no schema, no header skipping. */
  const Fresh: Def := Def([], None, false)

  /** The creation options the two files define. ErrorOpts is errorOpts, which always
      fails; InferSchema exists for the Reader only. */
  datatype Opt =
    | LoadHeaders
    | SetHeaders(headers: seq<string>)
    | WithSchema(schema: Option<Schema>)
    | InferSchema
    | ErrorOpts

  /** An option's result: its error, or the fields after it. */
  function Outcome(err: Option<Error>, d: Def): (r: Result<Def>)
    ensures r.Err? <==> err.Some?
  {
    if err.Some? then Err(err.value) else Ok(d)
  }

  /** All: the rows of one full iteration. Iteration errors are not reported. */
  function AllSpec(src: Source, d: Def): Result<seq<seq<string>>>
  {
    if src.Err? then Err(src.error) else Ok(Drain(Initial(src.value, d.skipHeaders)))
  }

  /** LoadHeaders: the first row, when Next finds one, becomes the headers; header skipping
      is switched on in any case. An error opening the source is returned. */
  function LoadHeadersSpec(src: Source, d: Def): Result<Def>
  {
    if src.Err? then Err(src.error)
    else
      var (st, more) := NextSpec(Initial(src.value, d.skipHeaders));
      Ok(d.(headers := if more then st.current else d.headers, skipHeaders := true))
  }

  /** The rows InferSchema and Infer pass to schema.Infer. */
  function SampleOf(source: seq<Read>, d: Def): seq<seq<string>>
  {
    Take(Drain(Initial(source, d.skipHeaders)), MaxNumRowsInfer)
  }

  /** What schema.Infer promises: NotTabular at the first row whose length differs from
      the number of headers, and otherwise a schema inferred from the table. */
  predicate Infers(lib: Library, headers: seq<string>, table: seq<seq<string>>, r: Result<Schema>)
  {
    && (r.Err? <==> exists j :: 0 <= j < |table| && |table[j]| != |headers|)
    && (r.Err? ==> exists j :: 0 <= j < |table| && r.error == NotTabular(j) && |table[j]| != |headers|
                              && forall l :: 0 <= l < j ==> |table[l]| == |headers|)
    && (r.Ok? ==> Infer.Inferred(lib, headers, table, r.value))
  }

  /** InferSchema and Table.Infer: infer from the sample, then set the schema or return
      Infer's error. Infer may settle ties either way, so this is a relation. */
  ghost predicate InferStep(lib: Library, src: Source, d: Def, r: Result<Def>)
  {
    if src.Err? then r == Err(src.error)
    else
      var sample := SampleOf(src.value, d);
      match r
      case Err(e) => Infers(lib, d.headers, sample, Err(e))
      case Ok(after) =>
        && after.headers == d.headers && after.skipHeaders == d.skipHeaders && after.schema.Some?
        && Infers(lib, d.headers, sample, Ok(after.schema.value))
  }

  /** One option applied to fields d, with result r. */
  ghost predicate Step(lib: Library, src: Source, d: Def, o: Opt, r: Result<Def>)
  {
    match o
    case LoadHeaders => r == LoadHeadersSpec(src, d)
    case SetHeaders(h) => r == Ok(d.(headers := h))
    case WithSchema(s) => r == Ok(d.(schema := s))
    case InferSchema => InferStep(lib, src, d, r)
    case ErrorOpts => r == Err(OptionFailed)
  }

  /** New: the options run in order from d. The first failure is the result and the
      options after it are not run; otherwise the result is the fields after the last. */
  ghost predicate Runs(lib: Library, src: Source, d: Def, opts: seq<Opt>, r: Result<Def>)
    decreases |opts|
  {
    if opts == [] then r == Ok(d)
    else
      || (r.Err? && Step(lib, src, d, opts[0], r))
      || exists after :: Step(lib, src, d, opts[0], Ok(after)) && Runs(lib, src, after, opts[1..], r)
  }

  /** The options after a failing one make no difference, and a failing first option is
      the whole result. */
  lemma {:induction false} FailureStops(lib: Library, src: Source, d: Def, before: seq<Opt>, after: seq<Opt>,
                                        r: Result<Def>)
    ensures Runs(lib, src, d, before + [ErrorOpts] + after, r) <==> Runs(lib, src, d, before + [ErrorOpts], r)
    ensures before == [] ==> (Runs(lib, src, d, before + [ErrorOpts] + after, r) <==> r == Err(OptionFailed))
    decreases |before|
  {
    var long, short := before + [ErrorOpts] + after, before + [ErrorOpts];
    if before == [] {
      assert long[0] == ErrorOpts && short[0] == ErrorOpts && short[1..] == [];
    } else {
      assert long[0] == short[0] == before[0];
      assert long[1..] == before[1..] + [ErrorOpts] + after && short[1..] == before[1..] + [ErrorOpts];
      forall next: Def
        ensures Runs(lib, src, next, long[1..], r) <==> Runs(lib, src, next, short[1..], r)
      {
        FailureStops(lib, src, next, before[1..], after, r);
      }
    }
  }

  /** An option that opens the source reports the error of a source that cannot be opened. */
  lemma OpeningFails(lib: Library, src: Source, d: Def, o: Opt, r: Result<Def>)
    requires src.Err? && (o.LoadHeaders? || o.InferSchema?)
    ensures Step(lib, src, d, o, r) <==> r == Err(src.error)
  {
  }

  /** LoadHeaders on well-formed records: the first becomes the headers and, unless it is
      the only one, iterating afterwards yields exactly the records after it. */
  lemma LoadHeadersThenAll(lib: Library, rows: seq<seq<string>>, r: Result<Def>)
    requires |rows| != 1
    ensures (Runs(lib, Ok(Records(rows)), Fresh, [LoadHeaders], r)
             <==> r == Ok(Def(if rows == [] then [] else rows[0], None, true)))
    ensures AllSpec(Ok(Records(rows)), Def(if rows == [] then [] else rows[0], None, true)) == Ok(Tail(rows))
  {
    var src: Source := Ok(Records(rows));
    var loaded := Def(if rows == [] then [] else rows[0], None, true);
    if rows != [] {
      assert Records(rows)[1..] == Records(rows[1..]);
      assert NextSpec(Initial(Records(rows), false)) == (IterState(Records(rows[1..]), rows[0], None, false), true);
    } else {
      assert NextSpec(Initial(Records(rows), false)).1 == false;
    }
    assert LoadHeadersSpec(src, Fresh) == Ok(loaded);
    assert [LoadHeaders][1..] == [];
    if r == Ok(loaded) {
      assert Step(lib, src, Fresh, LoadHeaders, Ok(loaded)) && Runs(lib, src, loaded, [], r);
    }
    SkipHeaderRecords(rows);
  }

  /** SetHeaders consumes nothing: iterating afterwards yields every record. */
  lemma SetHeadersThenAll(lib: Library, rows: seq<seq<string>>, h: seq<string>, r: Result<Def>)
    ensures Runs(lib, Ok(Records(rows)), Fresh, [SetHeaders(h)], r) <==> r == Ok(Def(h, None, false))
    ensures AllSpec(Ok(Records(rows)), Def(h, None, false)) == Ok(rows)
  {
    var src: Source := Ok(Records(rows));
    var chosen := Def(h, None, false);
    assert [SetHeaders(h)][1..] == [];
    if r == Ok(chosen) {
      assert Step(lib, src, Fresh, SetHeaders(h), Ok(chosen)) && Runs(lib, src, chosen, [], r);
    }
    DrainRecords(rows, []);
  }

  /** A source holding only a non-empty header line: after LoadHeaders, iteration yields
      one empty row, so InferSchema reports the first sampled row as not tabular. */
  lemma HeaderOnlyInferFails(lib: Library, header: seq<string>, r: Result<Def>)
    requires header != []
    requires Runs(lib, Ok(Records([header])), Fresh, [LoadHeaders, InferSchema], r)
    ensures r == Err(NotTabular(0))
  {
    var src: Source := Ok(Records([header]));
    var opts := [LoadHeaders, InferSchema];
    var loaded := Def(header, None, true);
    assert Records([header])[1..] == [];
    assert NextSpec(Initial(Records([header]), false)) == (IterState([], header, None, false), true);
    assert LoadHeadersSpec(src, Fresh) == Ok(loaded);
    assert opts[0] == LoadHeaders && opts[1..] == [InferSchema] && opts[1..][1..] == [];
    HeaderOnlyYieldsEmptyRow(header);
    assert SampleOf(Records([header]), loaded) == [[]];
    assert Runs(lib, src, loaded, [InferSchema], r);
    var sample: seq<seq<string>> := [[]];
    assert |sample[0]| != |header|;
    forall after
      ensures !Step(lib, src, loaded, InferSchema, Ok(after))
    {
    }
    assert r.Err? && Step(lib, src, loaded, InferSchema, r);
    var j :| 0 <= j < |sample| && r.error == NotTabular(j);
  }
}

/** csv/reader.go: a table read from a CSV source, set up by creation options. */
module CsvReader {
  import opened Wrappers
  import opened Host
  import opened Schema
  import Infer
  import opened CsvIterator
  import opened CsvSource

  /** Reader: the tableDef fields and skipHeaders. */
  class Reader {
    const source: Source
    var headers: seq<string>
    var schema: Option<Schema>
    var skipHeaders: bool

    function Fields(): Def
      reads this
    {
      Def(headers, schema, skipHeaders)
    }

    /** The Reader New starts from. */
    constructor (source: Source)
      ensures this.source == source && Fields() == Fresh
    {
      this.source := source;
      headers := [];
      schema := None;
      skipHeaders := false;
    }

    /** Iter: the source's error, or a new iterator with the current schema and header
        skipping. */
    method Iter() returns (r: Result<CsvIter>)
      ensures source.Err? ==> r == Err(source.error)
      ensures source.Ok? ==> && r.Ok? && fresh(r.value)
                              && r.value.State() == Initial(source.value, skipHeaders)
                              && r.value.schema == schema
    {
      if source.Err? {
        return Err(source.error);
      }
      var it := new CsvIter(source.value, schema, skipHeaders);
      return Ok(it);
    }

    /** All: every row of a full iteration, in order. */
    method All() returns (r: Result<seq<seq<string>>>)
      ensures r == AllSpec(source, Fields())
    {
      var iter := Iter();
      if iter.Err? {
        return Err(iter.error);
      }
      var all := Collect(iter.value);
      return Ok(all);
    }

    /** LoadHeaders. */
    method LoadHeaders() returns (err: Option<Error>)
      modifies this
      ensures err.None? ==> Ok(Fields()) == LoadHeadersSpec(source, old(Fields()))
      ensures err.Some? ==> Err(err.value) == LoadHeadersSpec(source, old(Fields())) && Fields() == old(Fields())
    {
      var iter := Iter();
      if iter.Err? {
        return Some(iter.error);
      }
      var it := iter.value;
      var more := it.Next();
      if more {
        headers := it.Row();
      }
      skipHeaders := true;
      return None;
    }

    /** SetHeaders: only the headers change. */
    method SetHeaders(h: seq<string>)
      modifies this
      ensures Fields() == old(Fields()).(headers := h)
    {
      headers := h;
    }

    /** WithSchema: only the schema changes. */
    method WithSchema(s: Option<Schema>)
      modifies this
      ensures Fields() == old(Fields()).(schema := s)
    {
      schema := s;
    }

    /** InferSchema: infer from at most MaxNumRowsInfer rows; on success the schema is set. */
    method InferSchema(lib: Library) returns (err: Option<Error>)
      modifies this
      ensures InferStep(lib, source, old(Fields()), Outcome(err, Fields()))
    {
      var iter := Iter();
      if iter.Err? {
        return Some(iter.error);
      }
      var table := Sample(iter.value);
      var s := Infer.Infer(lib, headers, table);
      if s.Err? {
        return Some(s.error);
      }
      schema := Some(s.value);
      return None;
    }

    /** Running one creation option on the reader. */
    method Apply(lib: Library, o: Opt) returns (err: Option<Error>)
      modifies this
      ensures Step(lib, source, old(Fields()), o, Outcome(err, Fields()))
    {
      match o {
        case LoadHeaders =>
          err := LoadHeaders();
        case SetHeaders(h) =>
          SetHeaders(h);
          err := None;
        case WithSchema(s) =>
          WithSchema(s);
          err := None;
        case InferSchema =>
          err := InferSchema(lib);
        case ErrorOpts =>
          err := Some(OptionFailed);
      }
    }
  }

  /** New: a reader with the options run in order, or the first option's error. */
  method New(lib: Library, source: Source, opts: seq<Opt>) returns (r: Result<Reader>)
    ensures r.Ok? ==> fresh(r.value) && r.value.source == source && Runs(lib, source, Fresh, opts, Ok(r.value.Fields()))
    ensures r.Err? ==> Runs(lib, source, Fresh, opts, Err(r.error))
  {
    var t := new Reader(source);
    var i := 0;
    while i < |opts|
      invariant 0 <= i <= |opts| && fresh(t) && t.source == source
      invariant forall res :: Runs(lib, source, t.Fields(), opts[i..], res) ==> Runs(lib, source, Fresh, opts, res)
    {
      ghost var before := t.Fields();
      var err := t.Apply(lib, opts[i]);
      if err.Some? {
        assert Runs(lib, source, before, opts[i..], Err(err.value));
        return Err(err.value);
      }
      assert opts[i..][1..] == opts[i + 1..];
      forall res | Runs(lib, source, t.Fields(), opts[i + 1..], res)
        ensures Runs(lib, source, before, opts[i..], res)
      {
      }
      i := i + 1;
    }
    assert Runs(lib, source, t.Fields(), [], Ok(t.Fields()));
    return Ok(t);
  }
}

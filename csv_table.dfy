/** csv/table.go: the earlier form of the CSV-backed table, with Infer as a method rather
    than a creation option. */
module CsvTable {
  import opened Wrappers
  import opened Host
  import opened Schema
  import Inference = Infer
  import opened CsvIterator
  import opened CsvSource

  /** The creation options csv/table.go defines: those of csv/reader.go without
      InferSchema, since Infer is a method here. */
  datatype Opt =
    | LoadHeaders
    | SetHeaders(headers: seq<string>)
    | WithSchema(schema: Option<Schema>)
    | ErrorOpts

  /** The same option as csv/reader.go spells it. */
  function ReaderOpt(o: Opt): (r: CsvSource.Opt)
    ensures !r.InferSchema?
  {
    match o
    case LoadHeaders => CsvSource.LoadHeaders
    case SetHeaders(h) => CsvSource.SetHeaders(h)
    case WithSchema(s) => CsvSource.WithSchema(s)
    case ErrorOpts => CsvSource.ErrorOpts
  }

  /** One option run on fields d: without InferSchema every option is deterministic. */
  function StepOf(src: Source, d: Def, o: Opt): Result<Def>
  {
    match o
    case LoadHeaders => LoadHeadersSpec(src, d)
    case SetHeaders(h) => Ok(d.(headers := h))
    case WithSchema(s) => Ok(d.(schema := s))
    case ErrorOpts => Err(OptionFailed)
  }

  /** New: the options run in order from d, stopping at the first failure. */
  function RunOf(src: Source, d: Def, opts: seq<Opt>): Result<Def>
    decreases |opts|
  {
    if opts == [] then Ok(d)
    else match StepOf(src, d, opts[0])
      case Err(e) => Err(e)
      case Ok(after) => RunOf(src, after, opts[1..])
  }

  /** StepOf is the one result csv/reader.go's Step allows for the same option. */
  lemma StepAgrees(lib: Library, src: Source, d: Def, o: Opt)
    ensures Step(lib, src, d, ReaderOpt(o), StepOf(src, d, o))
  {
  }

  /** RunOf is a result csv/reader.go's Runs allows for the same options: the two New
      functions agree wherever their options do. */
  lemma {:induction false} RunAgrees(lib: Library, src: Source, d: Def, opts: seq<Opt>)
    ensures Runs(lib, src, d, ReaderOpts(opts), RunOf(src, d, opts))
    decreases |opts|
  {
    if opts != [] {
      StepAgrees(lib, src, d, opts[0]);
      assert ReaderOpts(opts)[0] == ReaderOpt(opts[0]);
      assert ReaderOpts(opts)[1..] == ReaderOpts(opts[1..]);
      match StepOf(src, d, opts[0]) {
        case Err(e) =>
        case Ok(after) =>
          RunAgrees(lib, src, after, opts[1..]);
      }
    }
  }

  function ReaderOpts(opts: seq<Opt>): (r: seq<CsvSource.Opt>)
    ensures |r| == |opts| && forall j :: 0 <= j < |opts| ==> r[j] == ReaderOpt(opts[j])
  {
    if opts == [] then [] else [ReaderOpt(opts[0])] + ReaderOpts(opts[1..])
  }

  /** Table: Headers, Source, Schema and skipHeaders. */
  class Table {
    const source: Source
    var headers: seq<string>
    var schema: Option<Schema>
    var skipHeaders: bool

    function Fields(): Def
      reads this
    {
      Def(headers, schema, skipHeaders)
    }

    /** The Table New starts from. */
    constructor (source: Source)
      ensures this.source == source && Fields() == Fresh
    {
      this.source := source;
      headers := [];
      schema := None;
      skipHeaders := false;
    }

    /** Iter: the source's error, or a new iterator with the current schema and header
        skipping. */
    method Iter() returns (r: Result<CsvIter>)
      ensures source.Err? ==> r == Err(source.error)
      ensures source.Ok? ==> && r.Ok? && fresh(r.value)
                              && r.value.State() == Initial(source.value, skipHeaders)
                              && r.value.schema == schema
    {
      if source.Err? {
        return Err(source.error);
      }
      var it := new CsvIter(source.value, schema, skipHeaders);
      return Ok(it);
    }

    /** All: every row of a full iteration, in order. */
    method All() returns (r: Result<seq<seq<string>>>)
      ensures r == AllSpec(source, Fields())
    {
      var iter := Iter();
      if iter.Err? {
        return Err(iter.error);
      }
      var all := Collect(iter.value);
      return Ok(all);
    }

    /** LoadHeaders. */
    method LoadHeaders() returns (err: Option<Error>)
      modifies this
      ensures err.None? ==> Ok(Fields()) == LoadHeadersSpec(source, old(Fields()))
      ensures err.Some? ==> Err(err.value) == LoadHeadersSpec(source, old(Fields())) && Fields() == old(Fields())
    {
      var iter := Iter();
      if iter.Err? {
        return Some(iter.error);
      }
      var it := iter.value;
      var more := it.Next();
      if more {
        headers := it.Row();
      }
      skipHeaders := true;
      return None;
    }

    /** SetHeaders: only the headers change. */
    method SetHeaders(h: seq<string>)
      modifies this
      ensures Fields() == old(Fields()).(headers := h)
    {
      headers := h;
    }

    /** WithSchema: only the schema changes. */
    method WithSchema(s: Option<Schema>)
      modifies this
      ensures Fields() == old(Fields()).(schema := s)
    {
      schema := s;
    }

    /** Infer: infer from at most MaxNumRowsInfer rows; on success the schema is set. */
    method Infer(lib: Library) returns (err: Option<Error>)
      modifies this
      ensures InferStep(lib, source, old(Fields()), Outcome(err, Fields()))
    {
      var iter := Iter();
      if iter.Err? {
        return Some(iter.error);
      }
      var table := Sample(iter.value);
      var s := Inference.Infer(lib, headers, table);
      if s.Err? {
        return Some(s.error);
      }
      schema := Some(s.value);
      return None;
    }

    /** Running one creation option on the table. */
    method Apply(o: Opt) returns (err: Option<Error>)
      modifies this
      ensures Outcome(err, Fields()) == StepOf(source, old(Fields()), o)
      ensures err.Some? ==> Fields() == old(Fields())
    {
      match o {
        case LoadHeaders =>
          err := LoadHeaders();
        case SetHeaders(h) =>
          SetHeaders(h);
          err := None;
        case WithSchema(s) =>
          WithSchema(s);
          err := None;
        case ErrorOpts =>
          err := Some(OptionFailed);
      }
    }
  }

  /** New: a table with the options run in order, or the first option's error. */
  method New(source: Source, opts: seq<Opt>) returns (r: Result<Table>)
    ensures r.Ok? ==> fresh(r.value) && r.value.source == source && RunOf(source, Fresh, opts) == Ok(r.value.Fields())
    ensures r.Err? ==> RunOf(source, Fresh, opts) == Err(r.error)
  {
    var t := new Table(source);
    var i := 0;
    while i < |opts|
      invariant 0 <= i <= |opts| && fresh(t) && t.source == source
      invariant RunOf(source, Fresh, opts) == RunOf(source, t.Fields(), opts[i..])
    {
      var err := t.Apply(opts[i]);
      assert opts[i..][1..] == opts[i + 1..];
      if err.Some? {
        return Err(err.value);
      }
      i := i + 1;
    }
    return Ok(t);
  }
}

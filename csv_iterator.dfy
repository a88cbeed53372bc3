/** csv/iterator.go: the iterator over a CSV source, with a sticky error and one-shot
    header skipping. The encoding/csv tokeniser is not modelled: a source is the sequence
    of results its Read calls return. */
module CsvIterator {
  import opened Wrappers
  import opened Schema
  import SchemaRows

  /** One result of csv.Reader.Read before the end of the input: a record, or a malformed
      line with the cells read from it and the parse error. When the results run out,
      every further Read reports io.EOF with no record. */
  datatype Read = Record(cells: seq<string>) | Malformed(cells: seq<string>, err: Error)

  /** The error a Read reports: none, io.EOF, or another error. */
  datatype Status = Fine | EndOfFile | Failed(err: Error)

  /** One Read: the record (nil, here [], at the end), its status and the reads left. */
  function ReadOne(rest: seq<Read>): (seq<string>, Status, seq<Read>)
  {
    if rest == [] then ([], EndOfFile, [])
    else match rest[0]
      case Record(cells) => (cells, Fine, rest[1..])
      case Malformed(cells, e) => (cells, Failed(e), rest[1..])
  }

  /** The error a status stands for; io.EOF is never stored, so it stands for none. */
  function Stored(status: Status): Option<Error>
  {
    if status.Failed? then Some(status.err) else None
  }

  /** The csvIterator fields Next updates, and the reads not yet made. */
  datatype IterState = IterState(rest: seq<Read>, current: seq<string>, err: Option<Error>, skipHeaders: bool)

  /** newIterator: nothing read and no error. */
  function Initial(source: seq<Read>, skipHeaders: bool): IterState
  {
    IterState(source, [], None, skipHeaders)
  }

  /** Next, as the Go code writes it: the new state, and whether its own Read got a
      record. With skipHeaders set, the flag is cleared and Next runs once more; that
      call's result is dropped. A true result always consumes a read, and the flag is
      only left set when nothing happened. */
  function NextSpec(st: IterState): (r: (IterState, bool))
    ensures |r.0.rest| <= |st.rest|
    ensures r.1 ==> |r.0.rest| < |st.rest|
    ensures r.0.skipHeaders ==> r.0 == st && !r.1
    decreases st.skipHeaders
  {
    if st.err.Some? then (st, false)
    else
      var (cells, status, rest) := ReadOne(st.rest);
      var read := st.(rest := rest, current := cells, err := Stored(status));
      if st.skipHeaders then (NextSpec(read.(skipHeaders := false)).0, status.Fine?)
      else (read, status.Fine?)
  }

  /** The rows `for iter.Next() { all = append(all, iter.Row()) }` collects from st. */
  function Drain(st: IterState): seq<seq<string>>
    decreases |st.rest|
  {
    var (next, more) := NextSpec(st);
    if more then [next.current] + Drain(next) else []
  }

  /** csvIterator. Its reader is the sequence of reads not yet made. */
  class CsvIter {
    const schema: Option<Schema>
    var rest: seq<Read>
    var current: seq<string>
    var err: Option<Error>
    var skipHeaders: bool

    function State(): IterState
      reads this
    {
      IterState(rest, current, err, skipHeaders)
    }

    /** newIterator. */
    constructor (source: seq<Read>, schema: Option<Schema>, skipHeaders: bool)
      ensures State() == Initial(source, skipHeaders) && this.schema == schema
    {
      this.schema := schema;
      rest := source;
      current := [];
      err := None;
      this.skipHeaders := skipHeaders;
    }

    method Next() returns (more: bool)
      modifies this
      ensures (State(), more) == NextSpec(old(State()))
      decreases skipHeaders
    {
      if err.Some? {
        return false;
      }
      var (cells, status, left) := ReadOne(rest);
      rest := left;
      current := cells;
      if !status.EndOfFile? {
        err := Stored(status);
      }
      if skipHeaders {
        skipHeaders := false;
        var _ := Next();
      }
      more := status.Fine?;
    }

    /** Row: the record of the most recent read (see NextReadsOne). */
    function Row(): (r: seq<string>)
      reads this
      ensures r == State().current
    {
      current
    }

    /** Err (named LastError here, beside the Result constructor): the stored error, which
        is never io.EOF (see NextReadsOne and StickyError). */
    function LastError(): (r: Option<Error>)
      reads this
      ensures r == State().err
    {
      err
    }

    /** CastRow: "table has no schema" without a schema, and otherwise the schema's
        CastRow on the current row. */
    method CastRow(b: SchemaRows.Binding, rec: SchemaRows.Record) returns (e: Option<Error>)
      requires rec.Valid()
      modifies rec
      ensures rec.Valid()
      ensures schema.None? ==> e == Some(NoSchema) && rec.values == old(rec.values)
      ensures schema.Some? ==>
                (rec.values, e) == SchemaRows.CastRowSpec(b, schema.value, current, rec.shape, old(rec.values))
    {
      if schema.None? {
        return Some(NoSchema);
      }
      e := SchemaRows.CastRow(b, schema.value, current, rec);
    }
  }

  /** The All loop: every row a true Next moves onto, in order. */
  method Collect(it: CsvIter) returns (all: seq<seq<string>>)
    modifies it
    ensures all == Drain(old(it.State()))
  {
    ghost var start := it.State();
    all := [];
    var more := it.Next();
    while more
      invariant more ==> all + [it.current] + Drain(it.State()) == Drain(start)
      invariant !more ==> all == Drain(start)
      decreases if more then |it.rest| + 1 else 0
    {
      all := all + [it.Row()];
      more := it.Next();
    }
  }

  /** maxNumRowsInfer: the most rows read to infer a schema. */
  const MaxNumRowsInfer: nat := 100

  /** The first n rows of s, or all of them when there are fewer. */
  function Take<T>(s: seq<T>, n: nat): (r: seq<T>)
    ensures |r| <= n && r <= s
    ensures |s| <= n ==> r == s
  {
    if |s| <= n then s else s[..n]
  }

  /** The sampling loop of InferSchema and Infer: the first MaxNumRowsInfer rows Next
      moves onto, or all of them when there are fewer. */
  method Sample(it: CsvIter) returns (table: seq<seq<string>>)
    modifies it
    ensures table == Take(Drain(old(it.State())), MaxNumRowsInfer)
  {
    ghost var start := it.State();
    table := [];
    var i := 0;
    while i < MaxNumRowsInfer
      invariant 0 <= i <= MaxNumRowsInfer && |table| == i
      invariant table + Drain(it.State()) == Drain(start)
    {
      var more := it.Next();
      if !more {
        return;
      }
      table := table + [it.Row()];
      i := i + 1;
    }
    assert Drain(start)[..MaxNumRowsInfer] == table;
  }

  // ----- Sources made of well-formed records -----

  /** A source whose reads are the given records. */
  function Records(rows: seq<seq<string>>): (r: seq<Read>)
    ensures |r| == |rows|
    ensures forall i :: 0 <= i < |rows| ==> r[i] == Record(rows[i])
  {
    seq(|rows|, i requires 0 <= i < |rows| => Record(rows[i]))
  }

  /** All the rows after the first, none when there are none. */
  function Tail<T>(rows: seq<T>): seq<T>
  {
    if rows == [] then [] else rows[1..]
  }

  /** Without header skipping, iteration yields every record, in order. */
  lemma {:induction false} DrainRecords(rows: seq<seq<string>>, current: seq<string>)
    ensures Drain(IterState(Records(rows), current, None, false)) == rows
    decreases |rows|
  {
    var st := IterState(Records(rows), current, None, false);
    if rows == [] {
      assert NextSpec(st).1 == false;
    } else {
      assert Records(rows)[1..] == Records(rows[1..]);
      var next := IterState(Records(rows[1..]), rows[0], None, false);
      assert NextSpec(st) == (next, true);
      DrainRecords(rows[1..], rows[0]);
    }
  }

  /** Iteration stops at the first malformed line: the records before it are yielded,
      its error is stored, and nothing after it is read. */
  lemma {:induction false} DrainStopsAtMalformed(rows: seq<seq<string>>, current: seq<string>,
                                                 cells: seq<string>, e: Error, after: seq<Read>)
    ensures Drain(IterState(Records(rows) + [Malformed(cells, e)] + after, current, None, false)) == rows
    decreases |rows|
  {
    var source := Records(rows) + [Malformed(cells, e)] + after;
    var st := IterState(source, current, None, false);
    if rows == [] {
      assert source[0] == Malformed(cells, e);
      var stopped := IterState(source[1..], cells, Some(e), false);
      assert NextSpec(st) == (stopped, false);
    } else {
      assert source[1..] == Records(rows[1..]) + [Malformed(cells, e)] + after;
      var next := IterState(source[1..], rows[0], None, false);
      assert NextSpec(st) == (next, true);
      DrainStopsAtMalformed(rows[1..], rows[0], cells, e, after);
    }
  }

  /** What Row and Err report after a Next with no header to skip and no stored error: a
      record and no error, true; a malformed line's cells and its error, false; at the end
      of the input, no record and no error (io.EOF is not stored), false. */
  lemma NextReadsOne(st: IterState)
    requires st.err.None? && !st.skipHeaders
    ensures st.rest == [] ==>
              NextSpec(st) == (st.(current := []), false)
    ensures st.rest != [] && st.rest[0].Record? ==>
              NextSpec(st) == (st.(rest := st.rest[1..], current := st.rest[0].cells), true)
    ensures st.rest != [] && st.rest[0].Malformed? ==>
              NextSpec(st) == (st.(rest := st.rest[1..], current := st.rest[0].cells, err := Some(st.rest[0].err)), false)
  {
  }

  /** Once an error is stored, Next reads nothing and reports false. */
  lemma StickyError(st: IterState)
    requires st.err.Some?
    ensures NextSpec(st) == (st, false) && Drain(st) == []
  {
  }

  /** With header skipping, a source of two or more records, or of none, yields every
      record after the first. */
  lemma SkipHeaderRecords(rows: seq<seq<string>>)
    requires |rows| != 1
    ensures Drain(Initial(Records(rows), true)) == Tail(rows)
  {
    var st := Initial(Records(rows), true);
    if rows == [] {
      assert NextSpec(st).1 == false;
    } else {
      assert Records(rows)[1..][1..] == Records(rows[2..]);
      var next := IterState(Records(rows[2..]), rows[1], None, false);
      assert NextSpec(st) == (next, true);
      DrainRecords(rows[2..], rows[1]);
      assert rows[1..] == [rows[1]] + rows[2..];
    }
  }

  /** With header skipping, a source holding only the header yields one empty (nil) row:
      Next reports its own Read of the header, while the dropped nested call met the
      end of the input. */
  lemma HeaderOnlyYieldsEmptyRow(header: seq<string>)
    ensures Drain(Initial(Records([header]), true)) == [[]]
  {
    var st := Initial(Records([header]), true);
    var ended := IterState([], [], None, false);
    assert Records([header])[1..] == [];
    assert NextSpec(st) == (ended, true);
    assert NextSpec(ended).1 == false;
  }

  // ----- Next returning the nested call's result -----

  /** Next as evidently intended: after skipping the header, the result is that of the
      read that follows it. */
  function CorrectedNextSpec(st: IterState): (r: (IterState, bool))
    ensures |r.0.rest| <= |st.rest|
    ensures r.1 ==> |r.0.rest| < |st.rest|
    decreases st.skipHeaders
  {
    if st.err.Some? then (st, false)
    else
      var (cells, status, rest) := ReadOne(st.rest);
      var read := st.(rest := rest, current := cells, err := Stored(status));
      if st.skipHeaders then CorrectedNextSpec(read.(skipHeaders := false))
      else (read, status.Fine?)
  }

  function CorrectedDrain(st: IterState): seq<seq<string>>
    decreases |st.rest|
  {
    var (next, more) := CorrectedNextSpec(st);
    if more then [next.current] + CorrectedDrain(next) else []
  }

  /** Without header skipping the corrected Next yields every record, as Next does. */
  lemma {:induction false} CorrectedDrainRecords(rows: seq<seq<string>>, current: seq<string>)
    ensures CorrectedDrain(IterState(Records(rows), current, None, false)) == rows
    decreases |rows|
  {
    var st := IterState(Records(rows), current, None, false);
    if rows == [] {
      assert CorrectedNextSpec(st).1 == false;
    } else {
      assert Records(rows)[1..] == Records(rows[1..]);
      var next := IterState(Records(rows[1..]), rows[0], None, false);
      assert CorrectedNextSpec(st) == (next, true);
      CorrectedDrainRecords(rows[1..], rows[0]);
    }
  }

  /** With header skipping, the corrected Next yields exactly the records after the
      header, whatever their number. */
  lemma CorrectedSkipsHeader(rows: seq<seq<string>>)
    ensures CorrectedDrain(Initial(Records(rows), true)) == Tail(rows)
  {
    var st := Initial(Records(rows), true);
    if rows == [] {
      assert CorrectedNextSpec(st).1 == false;
    } else {
      assert Records(rows)[1..] == Records(rows[1..]);
      var skipped := IterState(Records(rows[1..]), rows[0], None, false);
      assert CorrectedNextSpec(st) == CorrectedNextSpec(skipped);
      CorrectedDrainRecords(rows[1..], rows[0]);
    }
  }
}

/** table/table.go: a table held in memory as two slices, and the iterator over it. */
module Table {
  import opened Wrappers

  /** SliceTable, as FromSlices builds it: the headers and rows exactly as given. */
  datatype SliceTable = FromSlices(headers: seq<string>, content: seq<seq<string>>)
  {
    /** Headers: the headers FromSlices was given. */
    function Headers(): (r: seq<string>)
      ensures r == headers
    {
      headers
    }

    /** ReadAll never fails: it hands back the rows it was built with. */
    function ReadAll(): (r: Result<seq<seq<string>>>)
      ensures r.Ok? && r.value == content
    {
      Ok(content)
    }
  }

  /** The message Go panics with when Row is called with no current row. */
  const RowPanic: string := "index out of range"

  /** sliceIterator: a position into the rows, advanced by Next. */
  class SliceIterator {
    const content: seq<seq<string>>
    var pos: nat

    constructor (content: seq<seq<string>>)
      ensures this.content == content && pos == 0
    {
      this.content := content;
      pos := 0;
    }

    /** Next moves on one row and reports whether there is a row there: true on the
        first |content| calls and false on every call after them. */
    method Next() returns (more: bool)
      modifies this
      ensures pos == old(pos) + 1
      ensures more <==> old(pos) < |content|
      ensures old(pos) >= |content| ==> !more
    {
      pos := pos + 1;
      more := pos <= |content|;
    }

    /** Row is the row the last true Next moved onto; with no such row Go's slice index
        panics. */
    function Row(): (r: Result<seq<string>>)
      reads this
      ensures 1 <= pos <= |content| ==> r == Ok(content[pos - 1])
      ensures !(1 <= pos <= |content|) ==> r == Err(Panic(RowPanic))
    {
      if 1 <= pos <= |content| then Ok(content[pos - 1]) else Err(Panic(RowPanic))
    }

    /** Err (named LastError here, beside the Result constructor) and Close never report
        an error. */
    function LastError(): (r: Option<Error>)
      ensures r.None?
    {
      None
    }

    function Close(): (r: Option<Error>)
      ensures r.None?
    {
      None
    }
  }

  /** Iter always succeeds, with a new iterator before the first row. */
  method Iter(t: SliceTable) returns (it: SliceIterator)
    ensures fresh(it) && it.content == t.content && it.pos == 0
  {
    it := new SliceIterator(t.content);
  }
}

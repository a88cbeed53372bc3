/** schema.go, the row-binding half: CastRow fills a record's fields from a row of text
    cells, UncastRow turns a record back into cells ordered by schema position, and the
    column and table variants loop over them. A Go struct is a Record: its exported fields
    in declaration order, each with its name and optional `tableheader` tag. */
module SchemaRows {
  import opened Wrappers
  import opened Values
  import opened Schema

  /** The struct tag naming the header a struct field binds to. */
  const TableHeaderTag: string := "tableheader"

  /** An exported struct field: its Go name and the value of its `tableheader` tag. */
  datatype StructField = StructField(name: string, tag: Option<string>)

  /** The header a struct field binds to: its tag if it has one, else its own name. */
  function HeaderName(f: StructField): (h: string)
    ensures f.tag.Some? ==> h == f.tag.value
    ensures f.tag.None? ==> h == f.name
  {
    match f.tag
    case Some(t) => t
    case None => f.name
  }

  /** Field.Cast and Field.Uncast dispatch to the value codecs by field type; reflection
      decides whether a cast value can be stored into a struct field (structField.Set) or
      converted to a slice's element type (CastColumn). These are not part of this model and
      are taken as given functions. */
  datatype Binding = Binding(
    cast: (Field, string) -> Result<Value>,
    uncast: (Field, Value) -> Result<string>,
    assign: (StructField, Value) -> Option<Value>,
    convert: (string, Value) -> Option<Value>)

  /** A struct value being filled in: its field layout and current field values. */
  class Record {
    const shape: seq<StructField>
    var values: seq<Value>

    predicate Valid()
      reads this
    {
      |values| == |shape|
    }

    constructor (shape: seq<StructField>, values: seq<Value>)
      requires |values| == |shape|
      ensures this.shape == shape && this.values == values
      ensures Valid()
    {
      this.shape := shape;
      this.values := values;
    }
  }

  // ----- CastRow -----

  /** What CastRow does for one struct field: nothing (no schema field of that name, or a
      missing-value cell), an assignment, or a failure that aborts the row. */
  datatype Step = Skip | Assign(v: Value) | Fail(e: Error)

  function StepOf(b: Binding, s: Schema, row: seq<string>, f: StructField): (st: Step)
    requires |row| == |s.fields|
    ensures FieldIndex(s, HeaderName(f)) == InvalidPosition ==> st == Skip
    ensures (FieldIndex(s, HeaderName(f)) != InvalidPosition
             && IsMissingValue(s, row[FieldIndex(s, HeaderName(f))])) ==> st == Skip
    ensures st.Fail? ==> FieldIndex(s, HeaderName(f)) != InvalidPosition
  {
    var k := FieldIndex(s, HeaderName(f));
    if k == InvalidPosition || IsMissingValue(s, row[k]) then Skip
    else match b.cast(s.fields[k], row[k])
      case Err(e) => Fail(e)
      case Ok(v) =>
        (match b.assign(f, v)
         case None => Fail(CannotConvert(f.name))
         case Some(w) => Assign(w))
  }

  /** The value a struct field holds after its step, given what it held before. */
  function Applied(prior: Value, st: Step): Value
  {
    if st.Assign? then st.v else prior
  }

  /** The struct fields from i on, in declaration order: the values after the steps and the
      error that stopped them, if any. */
  function CastFields(b: Binding, s: Schema, row: seq<string>, shape: seq<StructField>,
                      values: seq<Value>, i: nat): (r: (seq<Value>, Option<Error>))
    requires |row| == |s.fields| && |values| == |shape| && i <= |shape|
    ensures |r.0| == |shape|
    decreases |shape| - i
  {
    if i == |shape| then (values, None)
    else match StepOf(b, s, row, shape[i])
      case Skip => CastFields(b, s, row, shape, values, i + 1)
      case Fail(e) => (values, Some(e))
      case Assign(w) => CastFields(b, s, row, shape, values[i := w], i + 1)
  }

  /** CastRow: the record's field values afterwards, and the error if the row failed. */
  function CastRowSpec(b: Binding, s: Schema, row: seq<string>, shape: seq<StructField>,
                       values: seq<Value>): (r: (seq<Value>, Option<Error>))
    requires |values| == |shape|
    ensures |r.0| == |shape|
    ensures |row| != |s.fields| ==> r == (values, Some(RowLengthMismatch(|row|, |s.fields|)))
  {
    if |row| != |s.fields| then (values, Some(RowLengthMismatch(|row|, |s.fields|)))
    else CastFields(b, s, row, shape, values, 0)
  }

  /** CastRow on a record, field by field; the first failure stops it, leaving the fields
      already assigned as they are. */
  method CastRow(b: Binding, s: Schema, row: seq<string>, rec: Record) returns (err: Option<Error>)
    requires rec.Valid()
    modifies rec
    ensures rec.Valid()
    ensures (rec.values, err) == CastRowSpec(b, s, row, rec.shape, old(rec.values))
  {
    if |row| != |s.fields| {
      return Some(RowLengthMismatch(|row|, |s.fields|));
    }
    ghost var goal := CastFields(b, s, row, rec.shape, rec.values, 0);
    var i := 0;
    while i < |rec.shape|
      invariant 0 <= i <= |rec.shape| && rec.Valid()
      invariant CastFields(b, s, row, rec.shape, rec.values, i) == goal
    {
      var f := rec.shape[i];
      var k := FieldIndex(s, HeaderName(f));
      if k != InvalidPosition {
        var cell := row[k];
        if !IsMissingValue(s, cell) {
          var v := b.cast(s.fields[k], cell);
          if v.Err? {
            return Some(v.error);
          }
          var w := b.assign(f, v.value);
          if w.None? {
            return Some(CannotConvert(f.name));
          }
          rec.values := rec.values[i := w.value];
        }
      }
      i := i + 1;
    }
    return None;
  }

  /** CastFields stops at the first failing struct field, `stop`; every field before it has
      had its step applied, every field from it on keeps its value, and there is no error
      exactly when no field failed. */
  lemma {:induction false} CastFieldsMeaning(b: Binding, s: Schema, row: seq<string>,
                                             shape: seq<StructField>, values: seq<Value>, i: nat)
    requires |row| == |s.fields| && |values| == |shape| && i <= |shape|
    ensures exists stop :: i <= stop <= |shape| && StoppedAt(b, s, row, shape, values, i, stop,
                                                   CastFields(b, s, row, shape, values, i))
    decreases |shape| - i
  {
    var r := CastFields(b, s, row, shape, values, i);
    if i == |shape| {
      assert StoppedAt(b, s, row, shape, values, i, i, r);
    } else {
      match StepOf(b, s, row, shape[i])
      case Skip =>
        CastFieldsMeaning(b, s, row, shape, values, i + 1);
        var stop :| i + 1 <= stop <= |shape| && StoppedAt(b, s, row, shape, values, i + 1, stop, r);
        StoppedAfterSkip(b, s, row, shape, values, i, stop, r);
      case Fail(e) =>
        assert StoppedAt(b, s, row, shape, values, i, i, r);
      case Assign(w) =>
        CastFieldsMeaning(b, s, row, shape, values[i := w], i + 1);
        var stop :| i + 1 <= stop <= |shape| && StoppedAt(b, s, row, shape, values[i := w], i + 1, stop, r);
        StoppedAfterAssign(b, s, row, shape, values, i, w, stop, r);
    }
  }

  lemma StoppedAfterSkip(b: Binding, s: Schema, row: seq<string>, shape: seq<StructField>,
                         values: seq<Value>, i: nat, stop: nat, r: (seq<Value>, Option<Error>))
    requires |row| == |s.fields| && |values| == |shape| && i < stop <= |shape|
    requires StepOf(b, s, row, shape[i]) == Skip
    requires StoppedAt(b, s, row, shape, values, i + 1, stop, r)
    ensures StoppedAt(b, s, row, shape, values, i, stop, r)
  {
  }

  lemma StoppedAfterAssign(b: Binding, s: Schema, row: seq<string>, shape: seq<StructField>,
                           values: seq<Value>, i: nat, w: Value, stop: nat, r: (seq<Value>, Option<Error>))
    requires |row| == |s.fields| && |values| == |shape| && i < stop <= |shape|
    requires StepOf(b, s, row, shape[i]) == Assign(w)
    requires StoppedAt(b, s, row, shape, values[i := w], i + 1, stop, r)
    ensures StoppedAt(b, s, row, shape, values, i, stop, r)
  {
  }

  /** The outcome r of running the struct fields from i on stops at `stop`. */
  predicate StoppedAt(b: Binding, s: Schema, row: seq<string>, shape: seq<StructField>,
                      values: seq<Value>, i: nat, stop: nat, r: (seq<Value>, Option<Error>))
    requires |row| == |s.fields| && |values| == |shape| && i <= stop <= |shape|
  {
    && (forall j :: i <= j < stop ==> !StepOf(b, s, row, shape[j]).Fail?)
    && (r.1.None? <==> stop == |shape|)
    && (r.1.Some? ==> stop < |shape| && StepOf(b, s, row, shape[stop]) == Fail(r.1.value))
    && |r.0| == |shape|
    && (forall j :: 0 <= j < |shape| ==>
          r.0[j] == if i <= j < stop then Applied(values[j], StepOf(b, s, row, shape[j])) else values[j])
  }

  /** CastRow succeeds exactly when the row has one cell per schema field and every bound,
      non-missing cell casts and can be stored; it then stores each such cell's value and
      leaves every other struct field as it was. */
  lemma CastRowSucceeds(b: Binding, s: Schema, row: seq<string>, shape: seq<StructField>,
                        values: seq<Value>)
    requires |values| == |shape|
    ensures CastRowSpec(b, s, row, shape, values).1.None? <==>
              |row| == |s.fields| && forall j :: 0 <= j < |shape| ==> !StepOf(b, s, row, shape[j]).Fail?
    ensures CastRowSpec(b, s, row, shape, values).1.None? ==>
              forall j :: 0 <= j < |shape| ==>
                CastRowSpec(b, s, row, shape, values).0[j] == Applied(values[j], StepOf(b, s, row, shape[j]))
  {
    if |row| == |s.fields| {
      CastFieldsMeaning(b, s, row, shape, values, 0);
    }
  }

  /** A struct field whose cell is one of the schema's missing values keeps its prior value,
      whether or not the row as a whole succeeds. */
  lemma CastRowKeepsMissing(b: Binding, s: Schema, row: seq<string>, shape: seq<StructField>,
                            values: seq<Value>, j: nat)
    requires |values| == |shape| && j < |shape| && |row| == |s.fields|
    requires FieldIndex(s, HeaderName(shape[j])) != InvalidPosition
    requires row[FieldIndex(s, HeaderName(shape[j]))] in s.missingValues
    ensures CastRowSpec(b, s, row, shape, values).0[j] == values[j]
  {
    CastFieldsMeaning(b, s, row, shape, values, 0);
  }

  /** The error CastRow reports is that of the first failing struct field; the fields before
      it have been assigned and the fields from it on are untouched. */
  lemma CastRowFirstError(b: Binding, s: Schema, row: seq<string>, shape: seq<StructField>,
                          values: seq<Value>)
    requires |values| == |shape| && |row| == |s.fields|
    requires CastRowSpec(b, s, row, shape, values).1.Some?
    ensures exists stop :: 0 <= stop < |shape|
              && StepOf(b, s, row, shape[stop]) == Fail(CastRowSpec(b, s, row, shape, values).1.value)
              && (forall j :: 0 <= j < stop ==> !StepOf(b, s, row, shape[j]).Fail?)
              && (forall j :: stop <= j < |shape| ==> CastRowSpec(b, s, row, shape, values).0[j] == values[j])
  {
    CastFieldsMeaning(b, s, row, shape, values, 0);
  }

  // ----- UncastRow -----

  /** A cell of the row being built, with the schema position it belongs at. */
  datatype RawCell = RawCell(pos: int, val: string)

  /** Whether a struct field binds to a schema field. */
  predicate Bound(s: Schema, f: StructField)
  {
    FieldIndex(s, HeaderName(f)) != InvalidPosition
  }

  /** The cells UncastRow collects from struct field i on, in struct order, or the first
      encoding error. */
  function RawCells(b: Binding, s: Schema, shape: seq<StructField>, values: seq<Value>, i: nat)
    : (r: Result<seq<RawCell>>)
    requires |values| == |shape| && i <= |shape|
    decreases |shape| - i
  {
    if i == |shape| then Ok([])
    else
      var k := FieldIndex(s, HeaderName(shape[i]));
      if k == InvalidPosition then RawCells(b, s, shape, values, i + 1)
      else match b.uncast(s.fields[k], values[i])
        case Err(e) => Err(e)
        case Ok(cell) =>
          (match RawCells(b, s, shape, values, i + 1)
           case Err(e) => Err(e)
           case Ok(rest) => Ok([RawCell(k, cell)] + rest))
  }

  /** The cell of struct field j, when it binds to a schema field and encodes. */
  predicate CellOf(b: Binding, s: Schema, shape: seq<StructField>, values: seq<Value>, j: nat, c: RawCell)
    requires |values| == |shape| && j < |shape|
  {
    Bound(s, shape[j]) && c.pos == FieldIndex(s, HeaderName(shape[j]))
    && b.uncast(s.fields[c.pos], values[j]) == Ok(c.val)
  }

  /** UncastRow's collection fails exactly when some bound struct field fails to encode;
      otherwise it holds one cell per bound struct field, each at its schema position with
      that field's encoding. */
  lemma {:induction false} RawCellsMeaning(b: Binding, s: Schema, shape: seq<StructField>,
                                           values: seq<Value>, i: nat)
    requires |values| == |shape| && i <= |shape|
    ensures RawCells(b, s, shape, values, i).Ok? <==>
              forall j :: i <= j < |shape| && Bound(s, shape[j]) ==>
                b.uncast(s.fields[FieldIndex(s, HeaderName(shape[j]))], values[j]).Ok?
    ensures RawCells(b, s, shape, values, i).Ok? ==>
              |RawCells(b, s, shape, values, i).value| == BoundCount(s, shape[i..])
              && forall c :: c in RawCells(b, s, shape, values, i).value ==>
                   0 <= c.pos < |s.fields|
                   && exists j :: i <= j < |shape| && CellOf(b, s, shape, values, j, c)
    decreases |shape| - i
  {
    if i < |shape| {
      RawCellsMeaning(b, s, shape, values, i + 1);
      assert shape[i..][1..] == shape[i + 1..];
      var r := RawCells(b, s, shape, values, i);
      if r.Ok? && Bound(s, shape[i]) {
        var k := FieldIndex(s, HeaderName(shape[i]));
        assert CellOf(b, s, shape, values, i, r.value[0]);
      }
    }
  }

  /** The number of struct fields binding to a schema field. */
  function BoundCount(s: Schema, shape: seq<StructField>): nat
  {
    if |shape| == 0 then 0
    else (if Bound(s, shape[0]) then 1 else 0) + BoundCount(s, shape[1..])
  }

  predicate SortedByPos(cells: seq<RawCell>)
  {
    forall p, q :: 0 <= p < q < |cells| ==> cells[p].pos <= cells[q].pos
  }

  function Texts(cells: seq<RawCell>): (r: seq<string>)
    ensures |r| == |cells| && forall i :: 0 <= i < |cells| ==> r[i] == cells[i].val
  {
    if |cells| == 0 then [] else [cells[0].val] + Texts(cells[1..])
  }

  /** `row` is the texts of the cells put in schema-position order (sort.Sort is not
      stable, so cells of equal position may come in either order). */
  ghost predicate InPositionOrder(row: seq<string>, cells: seq<RawCell>)
  {
    exists sorted :: SortedByPos(sorted) && multiset(sorted) == multiset(cells) && row == Texts(sorted)
  }

  /** sort.Sort on the collected cells, ordering by position: an insertion sort by adjacent
      swaps, as rawRow's Less and Swap allow. */
  method SortByPos(a: array<RawCell>)
    modifies a
    ensures SortedByPos(a[..])
    ensures multiset(a[..]) == multiset(old(a[..]))
  {
    var i := 0;
    while i < a.Length
      invariant 0 <= i <= a.Length
      invariant SortedByPos(a[..i])
      invariant multiset(a[..]) == multiset(old(a[..]))
    {
      InsertLast(a, i);
      i := i + 1;
    }
  }

  /** Moves a[i] left past every larger-positioned cell of the sorted prefix a[..i]. */
  method InsertLast(a: array<RawCell>, i: nat)
    requires i < a.Length && SortedByPos(a[..i])
    modifies a
    ensures SortedByPos(a[..i + 1])
    ensures multiset(a[..]) == multiset(old(a[..]))
  {
    var j := i;
    while j > 0 && a[j - 1].pos > a[j].pos
      invariant 0 <= j <= i
      invariant forall p, q :: 0 <= p < q <= i && p != j && q != j ==> a[p].pos <= a[q].pos
      invariant forall q :: j < q <= i ==> a[j].pos < a[q].pos
      invariant multiset(a[..]) == multiset(old(a[..]))
    {
      Swap(a, j);
      j := j - 1;
    }
  }

  /** rawRow.Swap(j-1, j). */
  method Swap(a: array<RawCell>, j: nat)
    requires 0 < j < a.Length
    modifies a
    ensures a[..] == old(a[..])[j - 1 := old(a[j])][j := old(a[j - 1])]
    ensures multiset(a[..]) == multiset(old(a[..]))
  {
    a[j - 1], a[j] := a[j], a[j - 1];
  }

  /** UncastRow: one encoded cell per struct field that binds to a schema field, in schema
      position order; the first encoding error aborts. */
  method UncastRow(b: Binding, s: Schema, shape: seq<StructField>, values: seq<Value>)
    returns (r: Result<seq<string>>)
    requires |values| == |shape|
    ensures RawCells(b, s, shape, values, 0).Err? ==> r == Err(RawCells(b, s, shape, values, 0).error)
    ensures RawCells(b, s, shape, values, 0).Ok? ==>
              r.Ok? && InPositionOrder(r.value, RawCells(b, s, shape, values, 0).value)
  {
    var row: seq<RawCell> := [];
    var i := 0;
    assert Prepend([], RawCells(b, s, shape, values, 0)) == RawCells(b, s, shape, values, 0) by {
      PrependEmpty(RawCells(b, s, shape, values, 0));
    }
    while i < |shape|
      invariant 0 <= i <= |shape|
      invariant RawCells(b, s, shape, values, 0) == Prepend(row, RawCells(b, s, shape, values, i))
    {
      var k := FieldIndex(s, HeaderName(shape[i]));
      if k != InvalidPosition {
        var cell := b.uncast(s.fields[k], values[i]);
        if cell.Err? {
          return Err(cell.error);
        }
        PrependCell(row, RawCell(k, cell.value), RawCells(b, s, shape, values, i + 1));
        row := row + [RawCell(k, cell.value)];
      }
      i := i + 1;
    }
    PrependEmpty(Ok(row));
    var ret := SortedTexts(row);
    return Ok(ret);
  }

  /** The texts of the cells after sorting them in an array. */
  method SortedTexts(row: seq<RawCell>) returns (ret: seq<string>)
    ensures InPositionOrder(ret, row)
  {
    var a := new RawCell[|row|](j requires 0 <= j < |row| => row[j]);
    assert a[..] == row;
    SortByPos(a);
    ret := Texts(a[..]);
  }

  lemma PrependEmpty(r: Result<seq<RawCell>>)
    ensures Prepend([], r) == r
  {
    if r.Ok? {
      assert [] + r.value == r.value;
    }
  }

  lemma PrependCell(row: seq<RawCell>, c: RawCell, rest: Result<seq<RawCell>>)
    ensures Prepend(row, Prepend([c], rest)) == Prepend(row + [c], rest)
  {
    if rest.Ok? {
      assert row + ([c] + rest.value) == (row + [c]) + rest.value;
    }
  }

  function Prepend(row: seq<RawCell>, rest: Result<seq<RawCell>>): Result<seq<RawCell>>
  {
    match rest
    case Ok(cells) => Ok(row + cells)
    case Err(e) => Err(e)
  }

  // ----- UncastTable -----

  /** UncastTable: every record uncast in turn; the first failing record's error aborts. */
  method UncastTable(b: Binding, s: Schema, shape: seq<StructField>, records: seq<seq<Value>>)
    returns (r: Result<seq<seq<string>>>)
    requires forall i :: 0 <= i < |records| ==> |records[i]| == |shape|
    ensures r.Ok? <==> forall i :: 0 <= i < |records| ==> RawCells(b, s, shape, records[i], 0).Ok?
    ensures r.Ok? ==>
              && |r.value| == |records|
              && forall i :: 0 <= i < |records| ==>
                   InPositionOrder(r.value[i], RawCells(b, s, shape, records[i], 0).value)
    ensures r.Err? ==>
              exists i :: && 0 <= i < |records|
                          && RawCells(b, s, shape, records[i], 0) == Err(r.error)
                          && forall j :: 0 <= j < i ==> RawCells(b, s, shape, records[j], 0).Ok?
  {
    var t: seq<seq<string>> := [];
    var i := 0;
    while i < |records|
      invariant 0 <= i <= |records| && |t| == i
      invariant forall j :: 0 <= j < i ==>
                  && RawCells(b, s, shape, records[j], 0).Ok?
                  && InPositionOrder(t[j], RawCells(b, s, shape, records[j], 0).value)
    {
      var row := UncastRow(b, s, shape, records[i]);
      if row.Err? {
        return Err(row.error);
      }
      t := t + [row.value];
      i := i + 1;
    }
    return Ok(t);
  }

  // ----- CastColumn -----

  /** The column's cells cast with field f and converted to the slice's element type, or
      the first failure. */
  function CastCells(b: Binding, f: Field, elemType: string, col: seq<string>): Result<seq<Value>>
  {
    if |col| == 0 then Ok([])
    else match ColumnFailure(b, f, elemType, col[0])
      case Some(e) => Err(e)
      case None =>
        (match CastCells(b, f, elemType, col[1..])
         case Err(e) => Err(e)
         case Ok(rest) =>
           Ok([b.convert(elemType, b.cast(f, col[0]).value).value] + rest))
  }

  /** A column casts exactly when every cell casts and converts; the slice then holds each
      cell's converted value in column order, and otherwise the error is that of the first
      cell that fails. */
  lemma {:induction false} CastCellsMeaning(b: Binding, f: Field, elemType: string, col: seq<string>)
    ensures CastCells(b, f, elemType, col).Ok? <==>
              forall i :: 0 <= i < |col| ==> ColumnFailure(b, f, elemType, col[i]).None?
    ensures CastCells(b, f, elemType, col).Ok? ==>
              |CastCells(b, f, elemType, col).value| == |col|
              && forall i :: 0 <= i < |col| ==>
                   CastCells(b, f, elemType, col).value[i] == b.convert(elemType, b.cast(f, col[i]).value).value
    ensures CastCells(b, f, elemType, col).Err? ==>
              exists i :: && 0 <= i < |col|
                          && ColumnFailure(b, f, elemType, col[i]) == Some(CastCells(b, f, elemType, col).error)
                          && forall j :: 0 <= j < i ==> ColumnFailure(b, f, elemType, col[j]).None?
  {
    if |col| > 0 {
      CastCellsMeaning(b, f, elemType, col[1..]);
      var r := CastCells(b, f, elemType, col);
      if r.Err? && ColumnFailure(b, f, elemType, col[0]).None? {
        var i :| 0 <= i < |col| - 1 && ColumnFailure(b, f, elemType, col[1..][i]) == Some(r.error)
                && forall j :: 0 <= j < i ==> ColumnFailure(b, f, elemType, col[1..][j]).None?;
        assert ColumnFailure(b, f, elemType, col[i + 1]) == Some(r.error);
      }
    }
  }

  /** Why one column cell cannot be stored, if it cannot. */
  function ColumnFailure(b: Binding, f: Field, elemType: string, v: string): (r: Option<Error>)
    ensures r.None? <==> b.cast(f, v).Ok? && b.convert(elemType, b.cast(f, v).value).Some?
  {
    match b.cast(f, v)
    case Err(e) => Some(ColumnCast(v, e))
    case Ok(c) => if b.convert(elemType, c).None? then Some(ColumnConvert(v, f.name)) else None
  }

  /** CastColumn: the named field's cells cast in order into a slice of elemType. */
  method CastColumn(b: Binding, s: Schema, col: seq<string>, name: string, elemType: string)
    returns (r: Result<seq<Value>>)
    ensures !HasField(s, name) ==> r == Err(InvalidFieldName(name))
    ensures HasField(s, name) ==> r == CastCells(b, s.fields[FieldIndex(s, name)], elemType, col)
  {
    var (f, k) := GetField(s, name);
    if k == InvalidPosition {
      return Err(InvalidFieldName(name));
    }
    var out: seq<Value> := [];
    var i := 0;
    assert col[0..] == col;
    PrependValuesEmpty(CastCells(b, f.value, elemType, col));
    while i < |col|
      invariant 0 <= i <= |col|
      invariant CastCells(b, f.value, elemType, col) == PrependValues(out, CastCells(b, f.value, elemType, col[i..]))
    {
      var v := col[i];
      assert col[i..][0] == v && col[i..][1..] == col[i + 1..];
      var cast := b.cast(f.value, v);
      if cast.Err? {
        return Err(ColumnCast(v, cast.error));
      }
      var elem := b.convert(elemType, cast.value);
      if elem.None? {
        return Err(ColumnConvert(v, f.value.name));
      }
      PrependValuesCons(out, elem.value, CastCells(b, f.value, elemType, col[i + 1..]));
      out := out + [elem.value];
      i := i + 1;
    }
    assert col[i..] == [];
    assert out + [] == out;
    return Ok(out);
  }

  lemma PrependValuesEmpty(r: Result<seq<Value>>)
    ensures PrependValues([], r) == r
  {
    if r.Ok? {
      assert [] + r.value == r.value;
    }
  }

  lemma PrependValuesCons(out: seq<Value>, v: Value, rest: Result<seq<Value>>)
    ensures PrependValues(out, PrependValues([v], rest)) == PrependValues(out + [v], rest)
  {
    if rest.Ok? {
      assert out + ([v] + rest.value) == (out + [v]) + rest.value;
    }
  }

  function PrependValues(out: seq<Value>, rest: Result<seq<Value>>): Result<seq<Value>>
  {
    match rest
    case Ok(vs) => Ok(out + vs)
    case Err(e) => Err(e)
  }
}

/** schema.go, the table half: which field positions must hold unique values, and
    CastTable, which casts every row a table yields into a fresh record, keeps going past
    failing rows, and reports all row failures together. */
module SchemaTable {
  import opened Wrappers
  import opened Values
  import opened Schema
  import opened SchemaRows

  // ----- extractUniqueFieldIndexes -----

  /** The positions of the primary keys (InvalidPosition for a key naming no field) and of
      the fields whose constraints ask for unique values. */
  function UniqueIndexes(s: Schema): (r: set<int>)
    ensures forall k :: k in r ==> -1 <= k < |s.fields|
  {
    (set pk | pk in s.primaryKeys :: FieldIndex(s, pk))
    + (set i | 0 <= i < |s.fields| && s.fields[i].constraints.unique)
  }

  predicate Distinct(keys: seq<int>)
  {
    forall p, q :: 0 <= p < q < |keys| ==> keys[p] != keys[q]
  }

  /** `keys` lists each unique index once, in some order (the order of a Go map walk). */
  predicate IsKeyOrder(keys: seq<int>, s: Schema)
  {
    Distinct(keys) && (forall k :: k in keys ==> k in UniqueIndexes(s)) && (forall k :: k in UniqueIndexes(s) ==> k in keys)
  }

  /** extractUniqueFieldIndexes. The Go function collects the indexes in a map and lists the
      map's keys, so it promises no order; this one lists primary keys first. */
  method ExtractUniqueFieldIndexes(s: Schema) returns (keys: seq<int>)
    ensures IsKeyOrder(keys, s)
  {
    keys := [];
    var i := 0;
    while i < |s.primaryKeys|
      invariant 0 <= i <= |s.primaryKeys| && Distinct(keys)
      invariant forall k :: k in keys <==> exists p :: 0 <= p < i && k == FieldIndex(s, s.primaryKeys[p])
    {
      var index := FieldIndex(s, s.primaryKeys[i]);
      if index !in keys {
        keys := keys + [index];
      }
      i := i + 1;
    }
    i := 0;
    while i < |s.fields|
      invariant 0 <= i <= |s.fields| && Distinct(keys)
      invariant forall k :: k in keys <==>
                  (exists p :: 0 <= p < |s.primaryKeys| && k == FieldIndex(s, s.primaryKeys[p]))
                  || (0 <= k < i && s.fields[k].constraints.unique)
    {
      if i !in keys && s.fields[i].constraints.unique {
        keys := keys + [i];
      }
      i := i + 1;
    }
  }

  // ----- CastTable -----

  /** What a table.Table yields: the error from Iter, if any; the rows Next and Row go
      through; and the error Err reports once Next returns false. */
  datatype TableSource = TableSource(iterErr: Option<Error>, rows: seq<seq<string>>, endErr: Option<Error>)

  /** CastTable's loop state: the index of the last row read, the unique values seen (the
      uniqueKey map's keys), the row errors recorded and the records kept. */
  datatype Progress = Progress(rowIndex: int, cache: set<(int, Value)>, errors: seq<RowError>, out: seq<seq<Value>>)

  /** What CastTable leaves: the new contents of the out slice (None: out is not assigned)
      and the error it returns. */
  datatype Outcome = Outcome(out: Option<seq<seq<Value>>>, err: Option<Error>)

  /** The message reflect panics with for a struct field index out of range. */
  const FieldIndexPanic: string := "reflect: Field index out of range"

  /** The unique checks of one cast record, key by key: a key that is not a struct field
      index panics; the first value already seen records a duplicate error and stops the
      checks; every value checked before it is added to the cache. */
  function CheckUnique(keys: seq<int>, shape: seq<StructField>, values: seq<Value>,
                       cache: set<(int, Value)>, rowIndex: int): (r: Result<(set<(int, Value)>, Option<RowError>)>)
    requires |values| == |shape|
    ensures r.Err? ==> r.error == Panic(FieldIndexPanic)
    ensures r.Ok? && r.value.1.Some? ==>
              r.value.1.value.lineNumber == rowIndex && r.value.1.value.err.Duplicate?
  {
    if |keys| == 0 then Ok((cache, None))
    else
      var k := keys[0];
      if !(0 <= k < |values|) then Err(Panic(FieldIndexPanic))
      else if (k, values[k]) in cache then
        Ok((cache, Some(RowError(rowIndex, Duplicate(shape[k].name, rowIndex)))))
      else CheckUnique(keys[1..], shape, values, cache + {(k, values[k])}, rowIndex)
  }

  function Recorded(dup: Option<RowError>): seq<RowError>
  {
    if dup.Some? then [dup.value] else []
  }

  /** One pass of CastTable's loop, for the row just read; Err is a panic. */
  function Advance(b: Binding, s: Schema, shape: seq<StructField>, zero: seq<Value>, keys: seq<int>,
                   row: seq<string>, st: Progress): Result<Progress>
    requires |zero| == |shape|
  {
    var index := st.rowIndex + 1;
    var (values, err) := CastRowSpec(b, s, row, shape, zero);
    if err.Some? then Ok(st.(rowIndex := index, errors := st.errors + [RowError(index, err.value)]))
    else match CheckUnique(keys, shape, values, st.cache, index)
      case Err(e) => Err(e)
      case Ok((cache, dup)) => Ok(Progress(index, cache, st.errors + Recorded(dup), st.out + [values]))
  }

  /** The rows from the current one on, starting from loop state st; Err is a panic. */
  function CastRows(b: Binding, s: Schema, shape: seq<StructField>, zero: seq<Value>, keys: seq<int>,
                    rows: seq<seq<string>>, st: Progress): Result<Progress>
    requires |zero| == |shape|
  {
    if |rows| == 0 then Ok(st)
    else match Advance(b, s, shape, zero, keys, rows[0], st)
      case Err(e) => Err(e)
      case Ok(next) => CastRows(b, s, shape, zero, keys, rows[1..], next)
  }

  const Start: Progress := Progress(-1, {}, [], [])

  /** CastTable for a given order of the unique indexes. */
  function CastTableSpec(b: Binding, s: Schema, shape: seq<StructField>, zero: seq<Value>, keys: seq<int>,
                         src: TableSource): Outcome
    requires |zero| == |shape|
  {
    if src.iterErr.Some? then Outcome(None, src.iterErr)
    else match CastRows(b, s, shape, zero, keys, src.rows, Start)
      case Err(e) => Outcome(None, Some(e))
      case Ok(st) =>
        if src.endErr.Some? then Outcome(None, src.endErr)
        else Outcome(Some(st.out), if |st.errors| == 0 then None else Some(Conversion(st.errors)))
  }

  /** CastTable: every row is cast into a fresh record of the struct's zero values. */
  method CastTable(b: Binding, s: Schema, shape: seq<StructField>, zero: seq<Value>, src: TableSource)
    returns (o: Outcome)
    requires |zero| == |shape|
    ensures exists keys :: IsKeyOrder(keys, s) && o == CastTableSpec(b, s, shape, zero, keys, src)
  {
    // Listing the unique indexes has no effect, so doing it before opening the iterator,
    // rather than just after as the Go code does, changes nothing.
    var keys := ExtractUniqueFieldIndexes(s);
    if src.iterErr.Some? {
      return Outcome(None, src.iterErr);
    }
    var cache: set<(int, Value)> := {};
    var errors: seq<RowError> := [];
    var out: seq<seq<Value>> := [];
    var rowIndex := -1;
    var succNum := 0;
    ghost var goal := CastRows(b, s, shape, zero, keys, src.rows, Start);
    var i := 0;
    while i < |src.rows|
      invariant 0 <= i <= |src.rows| && succNum == |out|
      invariant goal == CastRows(b, s, shape, zero, keys, src.rows[i..], Progress(rowIndex, cache, errors, out))
    {
      assert src.rows[i..][0] == src.rows[i] && src.rows[i..][1..] == src.rows[i + 1..];
      rowIndex := rowIndex + 1;
      var rec := new Record(shape, zero);
      var err := CastRow(b, s, src.rows[i], rec);
      if err.Some? {
        errors := errors + [RowError(rowIndex, err.value)];
        i := i + 1;
        continue;
      }
      var values := rec.values;
      var dup: Option<RowError> := None;
      ghost var rowCache := cache;
      var j := 0;
      while j < |keys|
        invariant 0 <= j <= |keys| && dup.None?
        invariant CheckUnique(keys, shape, values, rowCache, rowIndex) == CheckUnique(keys[j..], shape, values, cache, rowIndex)
      {
        assert keys[j..][0] == keys[j] && keys[j..][1..] == keys[j + 1..];
        var k := keys[j];
        if !(0 <= k < |values|) {
          return Outcome(None, Some(Panic(FieldIndexPanic)));
        }
        if (k, values[k]) in cache {
          dup := Some(RowError(rowIndex, Duplicate(shape[k].name, rowIndex)));
          break;
        }
        cache := cache + {(k, values[k])};
        j := j + 1;
      }
      assert CheckUnique(keys, shape, values, rowCache, rowIndex) == Ok((cache, dup));
      errors := errors + Recorded(dup);
      out := out + [values];
      succNum := succNum + 1;
      i := i + 1;
    }
    if src.endErr.Some? {
      return Outcome(None, src.endErr);
    }
    o := Outcome(Some(out[..succNum]), if |errors| == 0 then None else Some(Conversion(errors)));
    assert out[..succNum] == out;
  }

  // ----- what CastTable promises -----

  /** The (index, value) pairs of the keys, each a struct field index. */
  function PairsOf(keys: seq<int>, values: seq<Value>): set<(int, Value)>
    requires forall k :: k in keys ==> 0 <= k < |values|
  {
    if |keys| == 0 then {}
    else
      assert keys[0] in keys && forall k :: k in keys[1..] ==> k in keys;
      {(keys[0], values[keys[0]])} + PairsOf(keys[1..], values)
  }

  /** The unique checks of a record pass exactly when every key is a struct field index
      whose value has not been seen at that index. */
  lemma {:induction false} CheckUniquePasses(keys: seq<int>, shape: seq<StructField>, values: seq<Value>,
                                             cache: set<(int, Value)>, rowIndex: int)
    requires |values| == |shape| && Distinct(keys)
    ensures (CheckUnique(keys, shape, values, cache, rowIndex).Ok?
             && CheckUnique(keys, shape, values, cache, rowIndex).value.1.None?)
            <==> forall k :: k in keys ==> 0 <= k < |values| && (k, values[k]) !in cache
    decreases |keys|
  {
    if |keys| > 0 {
      var k := keys[0];
      assert forall x :: x in keys <==> x == k || x in keys[1..];
      if 0 <= k < |values| && (k, values[k]) !in cache {
        CheckUniquePasses(keys[1..], shape, values, cache + {(k, values[k])}, rowIndex);
        assert k !in keys[1..] by {
          forall p | 0 <= p < |keys[1..]| ensures keys[1..][p] != k {
            assert keys[1..][p] == keys[p + 1];
          }
        }
        forall x | x in keys[1..] && 0 <= x < |values|
          ensures (x, values[x]) in cache + {(k, values[k])} <==> (x, values[x]) in cache
        {
          assert x != k;
        }
      }
    }
  }

  /** When the checks pass, every key's value has been added to the cache. */
  lemma {:induction false} CheckUniqueCaches(keys: seq<int>, shape: seq<StructField>, values: seq<Value>,
                                             cache: set<(int, Value)>, rowIndex: int)
    requires |values| == |shape|
    requires CheckUnique(keys, shape, values, cache, rowIndex).Ok?
    requires CheckUnique(keys, shape, values, cache, rowIndex).value.1.None?
    ensures forall k :: k in keys ==> 0 <= k < |values|
    ensures CheckUnique(keys, shape, values, cache, rowIndex).value.0 == cache + PairsOf(keys, values)
    decreases |keys|
  {
    if |keys| > 0 {
      var k := keys[0];
      CheckUniqueCaches(keys[1..], shape, values, cache + {(k, values[k])}, rowIndex);
      assert forall x :: x in keys <==> x == k || x in keys[1..];
    }
  }

  /** A duplicate stops the checks at the first key whose value was already seen: the row
      gets one duplicate error naming that key's struct field, and only the values of the
      keys before it were added to the cache. */
  lemma {:induction false} CheckUniqueStops(keys: seq<int>, shape: seq<StructField>, values: seq<Value>,
                                            cache: set<(int, Value)>, rowIndex: int)
    requires |values| == |shape| && Distinct(keys)
    requires CheckUnique(keys, shape, values, cache, rowIndex).Ok?
    requires CheckUnique(keys, shape, values, cache, rowIndex).value.1.Some?
    ensures exists j :: 0 <= j < |keys| && FirstSeen(keys, values, cache, j)
              && CheckUnique(keys, shape, values, cache, rowIndex).value
                   == (cache + PairsOf(keys[..j], values), Some(RowError(rowIndex, Duplicate(shape[keys[j]].name, rowIndex))))
    decreases |keys|
  {
    var k := keys[0];
    if (k, values[k]) in cache {
      assert keys[..0] == [];
      assert cache + PairsOf(keys[..0], values) == cache;
      assert FirstSeen(keys, values, cache, 0);
    } else {
      var cache' := cache + {(k, values[k])};
      assert Distinct(keys[1..]) by {
        forall p, q | 0 <= p < q < |keys[1..]| ensures keys[1..][p] != keys[1..][q] {
          assert keys[1..][p] == keys[p + 1] && keys[1..][q] == keys[q + 1];
        }
      }
      CheckUniqueStops(keys[1..], shape, values, cache', rowIndex);
      var j :| 0 <= j < |keys[1..]| && FirstSeen(keys[1..], values, cache', j)
              && CheckUnique(keys[1..], shape, values, cache', rowIndex).value
                   == (cache' + PairsOf(keys[1..][..j], values),
                       Some(RowError(rowIndex, Duplicate(shape[keys[1..][j]].name, rowIndex))));
      StopsStep(keys, values, cache, j);
      assert CheckUnique(keys, shape, values, cache, rowIndex) == CheckUnique(keys[1..], shape, values, cache', rowIndex);
      assert keys[1..][j] == keys[j + 1];
      assert FirstSeen(keys, values, cache, j + 1)
             && CheckUnique(keys, shape, values, cache, rowIndex).value
                  == (cache + PairsOf(keys[..j + 1], values),
                      Some(RowError(rowIndex, Duplicate(shape[keys[j + 1]].name, rowIndex))));
    }
  }

  /** The step of CheckUniqueStops: a first key that passes moves the first seen key one
      place on, and its pair joins the cached prefix. */
  lemma StopsStep(keys: seq<int>, values: seq<Value>, cache: set<(int, Value)>, j: nat)
    requires Distinct(keys) && j + 1 < |keys|
    requires 0 <= keys[0] < |values| && (keys[0], values[keys[0]]) !in cache
    requires FirstSeen(keys[1..], values, cache + {(keys[0], values[keys[0]])}, j)
    ensures FirstSeen(keys, values, cache, j + 1)
    ensures cache + PairsOf(keys[..j + 1], values)
              == cache + {(keys[0], values[keys[0]])} + PairsOf(keys[1..][..j], values)
  {
    var k := keys[0];
    assert keys[j + 1] != k;
    assert keys[1..][j] == keys[j + 1];
    forall l | 0 <= l < j + 1
      ensures 0 <= keys[l] < |values| && (keys[l], values[keys[l]]) !in cache
    {
      if l > 0 {
        assert keys[1..][l - 1] == keys[l];
      }
    }
    assert keys[..j + 1][0] == k && keys[..j + 1][1..] == keys[1..][..j];
  }

  /** Key j is the first whose value was already seen, and every key before it is a field. */
  predicate FirstSeen(keys: seq<int>, values: seq<Value>, cache: set<(int, Value)>, j: nat)
    requires j < |keys|
  {
    && (forall l :: 0 <= l < j ==> 0 <= keys[l] < |values| && (keys[l], values[keys[l]]) !in cache)
    && 0 <= keys[j] < |values| && (keys[j], values[keys[j]]) in cache
  }

  /** The records of the rows that cast, in row order: the rows CastTable keeps. */
  function Succeeded(b: Binding, s: Schema, shape: seq<StructField>, zero: seq<Value>, rows: seq<seq<string>>)
    : seq<seq<Value>>
    requires |zero| == |shape|
  {
    if |rows| == 0 then []
    else
      var (values, err) := CastRowSpec(b, s, rows[0], shape, zero);
      (if err.None? then [values] else []) + Succeeded(b, s, shape, zero, rows[1..])
  }

  /** err is what CastTable records for a row: its CastRow failure, or a duplicate found
      after it cast. */
  predicate Explains(b: Binding, s: Schema, shape: seq<StructField>, zero: seq<Value>, row: seq<string>, err: Error)
    requires |zero| == |shape|
  {
    CastRowSpec(b, s, row, shape, zero).1 == Some(err)
    || (CastRowSpec(b, s, row, shape, zero).1.None? && err.Duplicate?)
  }

  /** Each error names one of the rows read after row `base` and is explained by it. */
  predicate AllExplained(b: Binding, s: Schema, shape: seq<StructField>, zero: seq<Value>,
                         rows: seq<seq<string>>, base: int, es: seq<RowError>)
    requires |zero| == |shape|
  {
    forall e :: e in es ==>
      base < e.lineNumber <= base + |rows| && Explains(b, s, shape, zero, rows[e.lineNumber - base - 1], e.err)
  }

  predicate LinesIncreasing(es: seq<RowError>)
  {
    forall p, q :: 0 <= p < q < |es| ==> es[p].lineNumber < es[q].lineNumber
  }

  /** One row read: the row index advances by one, the record is kept exactly when the
      row casts, and at most one error, for this row, is recorded. */
  lemma AdvanceMeaning(b: Binding, s: Schema, shape: seq<StructField>, zero: seq<Value>, keys: seq<int>,
                       row: seq<string>, st: Progress)
    requires |zero| == |shape|
    requires Advance(b, s, shape, zero, keys, row, st).Ok?
    ensures var next := Advance(b, s, shape, zero, keys, row, st).value;
      && next.rowIndex == st.rowIndex + 1
      && next.out == st.out + Succeeded(b, s, shape, zero, [row])
      && |st.errors| <= |next.errors| <= |st.errors| + 1
      && next.errors[..|st.errors|] == st.errors
      && (forall e :: e in next.errors[|st.errors|..] ==>
            e.lineNumber == st.rowIndex + 1 && Explains(b, s, shape, zero, row, e.err))
      && (CastRowSpec(b, s, row, shape, zero).1.Some? ==>
            next.errors == st.errors + [RowError(st.rowIndex + 1, CastRowSpec(b, s, row, shape, zero).1.value)])
  {
    var index := st.rowIndex + 1;
    var (values, err) := CastRowSpec(b, s, row, shape, zero);
    assert Succeeded(b, s, shape, zero, [row]) == (if err.None? then [values] else []) + Succeeded(b, s, shape, zero, []);
    if err.None? {
      var (cache, dup) := CheckUnique(keys, shape, values, st.cache, index).value;
      if dup.Some? {
      }
    }
  }

  /** Every row read advances the row index by one, and exactly the rows that cast are
      kept, in order, duplicates included. */
  lemma {:induction false} CastRowsKeeps(b: Binding, s: Schema, shape: seq<StructField>, zero: seq<Value>,
                                         keys: seq<int>, rows: seq<seq<string>>, st: Progress)
    requires |zero| == |shape|
    requires CastRows(b, s, shape, zero, keys, rows, st).Ok?
    ensures CastRows(b, s, shape, zero, keys, rows, st).value.rowIndex == st.rowIndex + |rows|
    ensures CastRows(b, s, shape, zero, keys, rows, st).value.out == st.out + Succeeded(b, s, shape, zero, rows)
    decreases |rows|
  {
    if |rows| > 0 {
      var next := Advance(b, s, shape, zero, keys, rows[0], st).value;
      AdvanceMeaning(b, s, shape, zero, keys, rows[0], st);
      CastRowsKeeps(b, s, shape, zero, keys, rows[1..], next);
      SucceededCons(b, s, shape, zero, rows);
    }
  }

  lemma SucceededCons(b: Binding, s: Schema, shape: seq<StructField>, zero: seq<Value>, rows: seq<seq<string>>)
    requires |zero| == |shape| && |rows| > 0
    ensures Succeeded(b, s, shape, zero, rows)
            == Succeeded(b, s, shape, zero, [rows[0]]) + Succeeded(b, s, shape, zero, rows[1..])
  {
    assert [rows[0]][1..] == [];
  }

  /** The errors recorded for the rows come after those already there, one row at most
      each, in row order, each naming a row read. */
  lemma {:induction false} CastRowsErrors(b: Binding, s: Schema, shape: seq<StructField>, zero: seq<Value>,
                                          keys: seq<int>, rows: seq<seq<string>>, st: Progress)
    requires |zero| == |shape|
    requires CastRows(b, s, shape, zero, keys, rows, st).Ok?
    ensures var es := CastRows(b, s, shape, zero, keys, rows, st).value.errors;
      && |st.errors| <= |es| && es[..|st.errors|] == st.errors
      && LinesIncreasing(es[|st.errors|..])
      && forall e :: e in es[|st.errors|..] ==> st.rowIndex < e.lineNumber <= st.rowIndex + |rows|
    decreases |rows|
  {
    if |rows| > 0 {
      var next := Advance(b, s, shape, zero, keys, rows[0], st).value;
      AdvanceMeaning(b, s, shape, zero, keys, rows[0], st);
      CastRowsErrors(b, s, shape, zero, keys, rows[1..], next);
      var added := next.errors[|st.errors|..];
      assert next.errors == st.errors + added;
      var es := CastRows(b, s, shape, zero, keys, rows[1..], next).value.errors;
      assert es == CastRows(b, s, shape, zero, keys, rows, st).value.errors;
      assert es[..|st.errors|] == (st.errors + added)[..|st.errors|];
      assert es[|st.errors|..] == added + es[|next.errors|..];
    }
  }

  /** Each error recorded for the rows is its row's CastRow failure, or a duplicate found
      after the row cast. */
  lemma {:induction false} CastRowsErrorsExplained(b: Binding, s: Schema, shape: seq<StructField>, zero: seq<Value>,
                                                   keys: seq<int>, rows: seq<seq<string>>, st: Progress)
    requires |zero| == |shape|
    requires CastRows(b, s, shape, zero, keys, rows, st).Ok?
    ensures |st.errors| <= |CastRows(b, s, shape, zero, keys, rows, st).value.errors|
    ensures AllExplained(b, s, shape, zero, rows, st.rowIndex,
                         CastRows(b, s, shape, zero, keys, rows, st).value.errors[|st.errors|..])
    decreases |rows|
  {
    if |rows| > 0 {
      var next := Advance(b, s, shape, zero, keys, rows[0], st).value;
      AdvanceMeaning(b, s, shape, zero, keys, rows[0], st);
      CastRowsErrorsExplained(b, s, shape, zero, keys, rows[1..], next);
      CastRowsErrors(b, s, shape, zero, keys, rows[1..], next);
      var added := next.errors[|st.errors|..];
      assert next.errors == st.errors + added;
      var es := CastRows(b, s, shape, zero, keys, rows[1..], next).value.errors;
      assert es == CastRows(b, s, shape, zero, keys, rows, st).value.errors;
      ErrorsAppend(b, s, shape, zero, rows, st.errors, added, st.rowIndex + 1, es);
    }
  }

  /** The step of CastRowsErrorsExplained: the errors of row `index` (the first of rows) followed by
      those of the later rows. */
  lemma ErrorsAppend(b: Binding, s: Schema, shape: seq<StructField>, zero: seq<Value>, rows: seq<seq<string>>,
                     before: seq<RowError>, added: seq<RowError>, index: int, es: seq<RowError>)
    requires |zero| == |shape| && |rows| > 0 && |added| <= 1
    requires forall e :: e in added ==> e.lineNumber == index && Explains(b, s, shape, zero, rows[0], e.err)
    requires |before + added| <= |es| && es[..|before + added|] == before + added
    requires AllExplained(b, s, shape, zero, rows[1..], index, es[|before + added|..])
    ensures AllExplained(b, s, shape, zero, rows, index - 1, es[|before|..])
  {
    assert es[..|before|] == (before + added)[..|before|];
    assert es[|before|..] == added + es[|before + added|..];
    forall e | e in es[|before + added|..]
      ensures rows[e.lineNumber - (index - 1) - 1] == rows[1..][e.lineNumber - index - 1]
    {
    }
  }

  /** Every row that fails CastRow is recorded with its own row index. */
  lemma {:induction false} CastRowsRecordsFailures(b: Binding, s: Schema, shape: seq<StructField>, zero: seq<Value>,
                                                   keys: seq<int>, rows: seq<seq<string>>, st: Progress)
    requires |zero| == |shape|
    requires CastRows(b, s, shape, zero, keys, rows, st).Ok?
    ensures forall i :: 0 <= i < |rows| && CastRowSpec(b, s, rows[i], shape, zero).1.Some? ==>
              RowError(st.rowIndex + 1 + i, CastRowSpec(b, s, rows[i], shape, zero).1.value)
                in CastRows(b, s, shape, zero, keys, rows, st).value.errors
    decreases |rows|
  {
    if |rows| > 0 {
      var next := Advance(b, s, shape, zero, keys, rows[0], st).value;
      AdvanceMeaning(b, s, shape, zero, keys, rows[0], st);
      CastRowsRecordsFailures(b, s, shape, zero, keys, rows[1..], next);
      ErrorsKept(b, s, shape, zero, keys, rows[1..], next);
      forall i | 0 < i < |rows| ensures rows[i] == rows[1..][i - 1] {
      }
    }
  }

  /** Errors already recorded stay recorded. */
  lemma {:induction false} ErrorsKept(b: Binding, s: Schema, shape: seq<StructField>, zero: seq<Value>,
                                      keys: seq<int>, rows: seq<seq<string>>, st: Progress)
    requires |zero| == |shape|
    requires CastRows(b, s, shape, zero, keys, rows, st).Ok?
    ensures forall e :: e in st.errors ==> e in CastRows(b, s, shape, zero, keys, rows, st).value.errors
  {
    CastRowsErrors(b, s, shape, zero, keys, rows, st);
    var es := CastRows(b, s, shape, zero, keys, rows, st).value.errors;
    forall e | e in st.errors ensures e in es {
      assert es[..|st.errors|] == st.errors;
    }
  }

  /** When no table or iteration error intervenes and nothing panics, CastTable keeps the
      records of exactly the rows that cast, in order; it returns no error exactly when no
      error was recorded, and otherwise a Conversion error listing them in row order, one
      at most per row, each explained by its row, and including every row that failed to
      cast. */
  lemma CastTableReport(b: Binding, s: Schema, shape: seq<StructField>, zero: seq<Value>, keys: seq<int>,
                        src: TableSource)
    requires |zero| == |shape| && src.iterErr.None? && src.endErr.None?
    requires CastRows(b, s, shape, zero, keys, src.rows, Start).Ok?
    ensures var o := CastTableSpec(b, s, shape, zero, keys, src);
      && o.out == Some(Succeeded(b, s, shape, zero, src.rows))
      && (o.err.None? || o.err.value.Conversion?)
      && (o.err.Some? ==>
            && |o.err.value.errors| > 0
            && LinesIncreasing(o.err.value.errors)
            && AllExplained(b, s, shape, zero, src.rows, -1, o.err.value.errors))
      && forall i :: 0 <= i < |src.rows| && CastRowSpec(b, s, src.rows[i], shape, zero).1.Some? ==>
           o.err.Some? && RowError(i, CastRowSpec(b, s, src.rows[i], shape, zero).1.value) in o.err.value.errors
  {
    var st := CastRows(b, s, shape, zero, keys, src.rows, Start).value;
    CastRowsKeeps(b, s, shape, zero, keys, src.rows, Start);
    CastRowsErrors(b, s, shape, zero, keys, src.rows, Start);
    CastRowsErrorsExplained(b, s, shape, zero, keys, src.rows, Start);
    CastRowsRecordsFailures(b, s, shape, zero, keys, src.rows, Start);
    assert Start.errors == [] && Start.out == [] && Start.rowIndex == -1;
    assert st.errors[|Start.errors|..] == st.errors;
    var o := CastTableSpec(b, s, shape, zero, keys, src);
    assert o == Outcome(Some(st.out), if |st.errors| == 0 then None else Some(Conversion(st.errors)));
    assert Start.out + Succeeded(b, s, shape, zero, src.rows) == Succeeded(b, s, shape, zero, src.rows);
  }

  /** A primary key naming no field puts InvalidPosition among the unique indexes, and the
      first row that casts then makes CastTable panic, whatever the order of the indexes. */
  lemma UnknownPrimaryKeyPanics(b: Binding, s: Schema, shape: seq<StructField>, zero: seq<Value>, keys: seq<int>,
                                src: TableSource, pk: string, i: nat)
    requires |zero| == |shape| && IsKeyOrder(keys, s) && src.iterErr.None?
    requires pk in s.primaryKeys && !HasField(s, pk)
    requires i < |src.rows| && CastRowSpec(b, s, src.rows[i], shape, zero).1.None?
    ensures CastTableSpec(b, s, shape, zero, keys, src) == Outcome(None, Some(Panic(FieldIndexPanic)))
  {
    assert FieldIndex(s, pk) == InvalidPosition;
    assert InvalidPosition in UniqueIndexes(s);
    FirstCastPanics(b, s, shape, zero, keys, src.rows, Start, i);
  }

  /** Rows are read with an empty cache until one casts; its checks then reach the key
      that is not a struct field index. */
  lemma {:induction false} FirstCastPanics(b: Binding, s: Schema, shape: seq<StructField>, zero: seq<Value>,
                                           keys: seq<int>, rows: seq<seq<string>>, st: Progress, i: nat)
    requires |zero| == |shape| && Distinct(keys) && InvalidPosition in keys && st.cache == {}
    requires i < |rows| && CastRowSpec(b, s, rows[i], shape, zero).1.None?
    ensures CastRows(b, s, shape, zero, keys, rows, st) == Err(Panic(FieldIndexPanic))
    decreases i
  {
    var index := st.rowIndex + 1;
    var (values, err) := CastRowSpec(b, s, rows[0], shape, zero);
    if err.Some? {
      var next := st.(rowIndex := index, errors := st.errors + [RowError(index, err.value)]);
      assert rows[1..][i - 1] == rows[i];
      FirstCastPanics(b, s, shape, zero, keys, rows[1..], next, i - 1);
    } else {
      CheckUniquePanics(keys, shape, values, {}, index);
    }
  }

  /** A key that is not a struct field index panics, unless a value already seen comes
      first; here no key has a value in the cache. */
  lemma {:induction false} CheckUniquePanics(keys: seq<int>, shape: seq<StructField>, values: seq<Value>,
                                             cache: set<(int, Value)>, rowIndex: int)
    requires |values| == |shape| && Distinct(keys)
    requires exists k :: k in keys && !(0 <= k < |values|)
    requires forall pair :: pair in cache ==> pair.0 !in keys
    ensures CheckUnique(keys, shape, values, cache, rowIndex) == Err(Panic(FieldIndexPanic))
    decreases |keys|
  {
    var k := keys[0];
    if 0 <= k < |values| {
      assert k !in keys[1..] by {
        forall p | 0 <= p < |keys[1..]| ensures keys[1..][p] != k {
          assert keys[1..][p] == keys[p + 1];
        }
      }
      var bad :| bad in keys && !(0 <= bad < |values|);
      assert bad in keys[1..];
      assert Distinct(keys[1..]) by {
        forall p, q | 0 <= p < q < |keys[1..]| ensures keys[1..][p] != keys[1..][q] {
          assert keys[1..][p] == keys[p + 1] && keys[1..][q] == keys[q + 1];
        }
      }
      CheckUniquePanics(keys[1..], shape, values, cache + {(k, values[k])}, rowIndex);
    }
  }

  /** Two rows in a row that both cast, under unique checks they pass the first time, keep
      both records, and the second gets one duplicate error: CastTable does not drop rows
      that repeat a unique value. */
  lemma DuplicateRowKept(b: Binding, s: Schema, shape: seq<StructField>, zero: seq<Value>, keys: seq<int>,
                         row: seq<string>)
    requires |zero| == |shape| && Distinct(keys) && |keys| > 0
    requires forall j :: 0 <= j < |keys| ==> 0 <= keys[j] < |shape|
    requires CastRowSpec(b, s, row, shape, zero).1.None?
    ensures var values := CastRowSpec(b, s, row, shape, zero).0;
      CastRows(b, s, shape, zero, keys, [row, row], Start)
        == Ok(Progress(1, PairsOf(keys, values),
                       [RowError(1, Duplicate(shape[keys[0]].name, 1))], [values, values]))
  {
    var values := CastRowSpec(b, s, row, shape, zero).0;
    var st1 := Progress(0, PairsOf(keys, values), [], [values]);
    FirstRowCached(b, s, shape, zero, keys, row);
    var st2 := Progress(1, PairsOf(keys, values), [RowError(1, Duplicate(shape[keys[0]].name, 1))], [values, values]);
    SecondRowDuplicate(b, s, shape, zero, keys, row, st1);
    assert [row, row][0] == row && [row, row][1..] == [row] && [row][1..] == [];
    assert CastRows(b, s, shape, zero, keys, [row, row], Start) == CastRows(b, s, shape, zero, keys, [row], st1);
    assert CastRows(b, s, shape, zero, keys, [row], st1) == CastRows(b, s, shape, zero, keys, [], st2);
  }

  lemma FirstRowCached(b: Binding, s: Schema, shape: seq<StructField>, zero: seq<Value>, keys: seq<int>,
                       row: seq<string>)
    requires |zero| == |shape| && Distinct(keys)
    requires forall j :: 0 <= j < |keys| ==> 0 <= keys[j] < |shape|
    requires CastRowSpec(b, s, row, shape, zero).1.None?
    ensures forall k :: k in keys ==> 0 <= k < |shape|
    ensures Advance(b, s, shape, zero, keys, row, Start)
              == Ok(Progress(0, PairsOf(keys, CastRowSpec(b, s, row, shape, zero).0), [], [CastRowSpec(b, s, row, shape, zero).0]))
  {
    var values := CastRowSpec(b, s, row, shape, zero).0;
    forall k | k in keys
      ensures 0 <= k < |values| && (k, values[k]) !in {}
    {
      var j :| 0 <= j < |keys| && keys[j] == k;
    }
    CheckUniquePasses(keys, shape, values, {}, 0);
    CheckUniqueCaches(keys, shape, values, {}, 0);
    var cache := PairsOf(keys, values);
    assert {} + cache == cache;
    assert CheckUnique(keys, shape, values, {}, 0) == Ok((cache, None));
    assert Start.rowIndex == -1 && Start.cache == {};
    assert Start.errors + Recorded(None) == [] && Start.out + [values] == [values];
  }

  lemma SecondRowDuplicate(b: Binding, s: Schema, shape: seq<StructField>, zero: seq<Value>, keys: seq<int>,
                           row: seq<string>, st1: Progress)
    requires |zero| == |shape| && |keys| > 0 && 0 <= keys[0] < |shape|
    requires forall k :: k in keys ==> 0 <= k < |shape|
    requires CastRowSpec(b, s, row, shape, zero).1.None?
    requires st1 == Progress(0, PairsOf(keys, CastRowSpec(b, s, row, shape, zero).0), [], [CastRowSpec(b, s, row, shape, zero).0])
    ensures Advance(b, s, shape, zero, keys, row, st1)
              == Ok(Progress(1, st1.cache, [RowError(1, Duplicate(shape[keys[0]].name, 1))],
                             [CastRowSpec(b, s, row, shape, zero).0, CastRowSpec(b, s, row, shape, zero).0]))
  {
    var values := CastRowSpec(b, s, row, shape, zero).0;
    assert keys[0] in keys;
    PairsOfHas(keys, values, keys[0]);
    var dup := RowError(1, Duplicate(shape[keys[0]].name, 1));
    assert CheckUnique(keys, shape, values, st1.cache, 1) == Ok((st1.cache, Some(dup)));
    assert st1.errors + Recorded(Some(dup)) == [dup];
    assert st1.out + [values] == [values, values];
  }

  lemma PairsOfHas(keys: seq<int>, values: seq<Value>, k: int)
    requires forall x :: x in keys ==> 0 <= x < |values|
    requires k in keys
    ensures (k, values[k]) in PairsOf(keys, values)
  {
    if keys[0] != k {
      assert k in keys[1..];
      assert forall x :: x in keys[1..] ==> x in keys;
      PairsOfHas(keys[1..], values, k);
    }
  }

  // ----- the unique check as intended -----

  /** The unique checks keyed, as intended, by each unique schema position and the value
      its field casts the row's cell at that position to, rather than by the struct field
      that happens to have that index. A key naming no field, or a cell its field cannot
      cast, has nothing to compare and is passed over. */
  function CorrectedCheckUnique(b: Binding, keys: seq<int>, s: Schema, row: seq<string>,
                                cache: set<(int, Value)>, rowIndex: int): (set<(int, Value)>, Option<RowError>)
  {
    if |keys| == 0 then (cache, None)
    else
      var k := keys[0];
      if !(0 <= k < |s.fields| && k < |row|) || b.cast(s.fields[k], row[k]).Err? then
        CorrectedCheckUnique(b, keys[1..], s, row, cache, rowIndex)
      else
        var v := b.cast(s.fields[k], row[k]).value;
        if (k, v) in cache then (cache, Some(RowError(rowIndex, Duplicate(s.fields[k].name, rowIndex))))
        else CorrectedCheckUnique(b, keys[1..], s, row, cache + {(k, v)}, rowIndex)
  }

  /** The value schema field k casts the row's cell k to, when there is one. */
  predicate CastsTo(b: Binding, s: Schema, row: seq<string>, k: int, v: Value)
  {
    0 <= k < |s.fields| && k < |row| && b.cast(s.fields[k], row[k]) == Ok(v)
  }

  /** The intended check reports a duplicate exactly when the row repeats, at some unique
      schema position, a value already seen at that position, and names that field. */
  lemma {:induction false} CorrectedCheckUniqueFlags(b: Binding, keys: seq<int>, s: Schema, row: seq<string>,
                                                     cache: set<(int, Value)>, rowIndex: int)
    requires Distinct(keys)
    ensures CorrectedCheckUnique(b, keys, s, row, cache, rowIndex).1.Some? <==>
              exists k, v :: k in keys && CastsTo(b, s, row, k, v) && (k, v) in cache
    ensures CorrectedCheckUnique(b, keys, s, row, cache, rowIndex).1.Some? ==>
              exists k, v :: k in keys && CastsTo(b, s, row, k, v) && (k, v) in cache
                && CorrectedCheckUnique(b, keys, s, row, cache, rowIndex).1.value
                     == RowError(rowIndex, Duplicate(s.fields[k].name, rowIndex))
    decreases |keys|
  {
    if |keys| > 0 {
      var k := keys[0];
      assert forall x :: x in keys <==> x == k || x in keys[1..];
      assert Distinct(keys[1..]) by {
        forall p, q | 0 <= p < q < |keys[1..]| ensures keys[1..][p] != keys[1..][q] {
          assert keys[1..][p] == keys[p + 1] && keys[1..][q] == keys[q + 1];
        }
      }
      if !(0 <= k < |s.fields| && k < |row|) || b.cast(s.fields[k], row[k]).Err? {
        CorrectedCheckUniqueFlags(b, keys[1..], s, row, cache, rowIndex);
      } else {
        var v := b.cast(s.fields[k], row[k]).value;
        assert CastsTo(b, s, row, k, v);
        if (k, v) !in cache {
          assert k !in keys[1..] by {
            forall p | 0 <= p < |keys[1..]| ensures keys[1..][p] != k {
              assert keys[1..][p] == keys[p + 1];
            }
          }
          CorrectedCheckUniqueFlags(b, keys[1..], s, row, cache + {(k, v)}, rowIndex);
          forall x, y | x in keys[1..] && CastsTo(b, s, row, x, y)
            ensures (x, y) in cache + {(k, v)} <==> (x, y) in cache
          {
            assert x != k;
          }
        }
      }
    }
  }

  /** One pass of CastTable's loop with the intended unique checks, which cannot panic. */
  function CorrectedAdvance(b: Binding, s: Schema, shape: seq<StructField>, zero: seq<Value>, keys: seq<int>,
                            row: seq<string>, st: Progress): Progress
    requires |zero| == |shape|
  {
    var index := st.rowIndex + 1;
    var (values, err) := CastRowSpec(b, s, row, shape, zero);
    if err.Some? then st.(rowIndex := index, errors := st.errors + [RowError(index, err.value)])
    else
      var (cache, dup) := CorrectedCheckUnique(b, keys, s, row, st.cache, index);
      Progress(index, cache, st.errors + Recorded(dup), st.out + [values])
  }

  /** CastTable's loop over the rows with the intended unique checks. */
  function CorrectedCastRows(b: Binding, s: Schema, shape: seq<StructField>, zero: seq<Value>, keys: seq<int>,
                             rows: seq<seq<string>>, st: Progress): Progress
    requires |zero| == |shape|
  {
    if |rows| == 0 then st
    else CorrectedCastRows(b, s, shape, zero, keys, rows[1..], CorrectedAdvance(b, s, shape, zero, keys, rows[0], st))
  }

  /** With the intended checks every row is still accounted for: the row index advances
      once per row, the records kept are exactly those of the rows that cast, and the
      errors already recorded stay in front. */
  lemma {:induction false} CorrectedCastRowsKeeps(b: Binding, s: Schema, shape: seq<StructField>, zero: seq<Value>,
                                                  keys: seq<int>, rows: seq<seq<string>>, st: Progress)
    requires |zero| == |shape|
    ensures CorrectedCastRows(b, s, shape, zero, keys, rows, st).rowIndex == st.rowIndex + |rows|
    ensures CorrectedCastRows(b, s, shape, zero, keys, rows, st).out == st.out + Succeeded(b, s, shape, zero, rows)
    ensures st.errors <= CorrectedCastRows(b, s, shape, zero, keys, rows, st).errors
    decreases |rows|
  {
    if |rows| > 0 {
      var next := CorrectedAdvance(b, s, shape, zero, keys, rows[0], st);
      CorrectedCastRowsKeeps(b, s, shape, zero, keys, rows[1..], next);
      var values := CastRowSpec(b, s, rows[0], shape, zero).0;
      if CastRowSpec(b, s, rows[0], shape, zero).1.None? {
        assert next.out == st.out + [values];
        assert st.out + [values] + Succeeded(b, s, shape, zero, rows[1..])
               == st.out + Succeeded(b, s, shape, zero, rows);
      } else {
        assert next.out == st.out;
      }
    }
  }
}

/** Worked cases of CastTable's unique checks: a struct whose fields are declared in an
    order other than the schema's makes the checks compare the wrong field. */
module SchemaExamples {
  import opened Wrappers
  import opened Host
  import opened Values
  import opened Schema
  import opened SchemaRows
  import opened SchemaTable

  /** A two-field schema, an id and a unique name, read into a struct that declares the
      name first; every cell casts to its own text and every value fits its struct field. */
  ghost predicate Swapped(b: Binding, s: Schema, shape: seq<StructField>, zero: seq<Value>, id: string, name: string)
  {
    && id != name
    && (forall f, c :: b.cast(f, c) == Ok(VString(c)))
    && (forall f, v :: b.assign(f, v) == Some(v))
    && s == Schema([Field(id, "string", "default", NoConstraints, {}),
                    Field(name, "string", "default", NoConstraints.(unique := true), {})],
                   JNull, [], [], [])
    && shape == [StructField(name, None), StructField(id, None)]
    && zero == [VString(""), VString("")]
  }

  /** The only unique index is the name's schema position, 1. */
  lemma NameIsTheUniqueIndex(b: Binding, s: Schema, shape: seq<StructField>, zero: seq<Value>, id: string, name: string)
    requires Swapped(b, s, shape, zero, id, name)
    ensures IsKeyOrder([1], s)
  {
    assert s.fields[1].constraints.unique && !s.fields[0].constraints.unique;
    assert UniqueIndexes(s) == {1};
  }

  /** A row [c, x] casts into the struct as [x, c]: each struct field is found by name. */
  lemma RowCastsSwapped(b: Binding, s: Schema, shape: seq<StructField>, zero: seq<Value>, id: string, name: string,
                        c: string, x: string)
    requires Swapped(b, s, shape, zero, id, name)
    ensures CastRowSpec(b, s, [c, x], shape, zero) == ([VString(x), VString(c)], None)
  {
    var row := [c, x];
    assert FieldIndex(s, name) == 1 by {
      assert s.fields[0].name != name && s.fields[1].name == name;
    }
    assert FieldIndex(s, id) == 0;
    assert !IsMissingValue(s, x) && !IsMissingValue(s, c);
    assert StepOf(b, s, row, shape[0]) == Assign(VString(x));
    assert StepOf(b, s, row, shape[1]) == Assign(VString(c));
    var once := zero[0 := VString(x)];
    assert once[1 := VString(c)] == [VString(x), VString(c)];
    assert CastFields(b, s, row, shape, zero, 0) == CastFields(b, s, row, shape, once, 1);
    assert CastFields(b, s, row, shape, once, 1) == CastFields(b, s, row, shape, once[1 := VString(c)], 2);
  }

  /** Two rows with different ids and the same name. The name is unique, yet CastTable's
      checks look at struct field 1, the id, so the duplicate name goes unreported. */
  lemma DuplicateNameMissed(b: Binding, s: Schema, shape: seq<StructField>, zero: seq<Value>, id: string, name: string,
                            i1: string, i2: string, x: string)
    requires Swapped(b, s, shape, zero, id, name) && i1 != i2
    ensures IsKeyOrder([1], s)
    ensures CastRows(b, s, shape, zero, [1], [[i1, x], [i2, x]], Start)
              == Ok(Progress(1, {(1, VString(i1)), (1, VString(i2))}, [],
                             [[VString(x), VString(i1)], [VString(x), VString(i2)]]))
    ensures CastTableSpec(b, s, shape, zero, [1], TableSource(None, [[i1, x], [i2, x]], None))
              == Outcome(Some([[VString(x), VString(i1)], [VString(x), VString(i2)]]), None)
  {
    NameIsTheUniqueIndex(b, s, shape, zero, id, name);
    RowCastsSwapped(b, s, shape, zero, id, name, i1, x);
    RowCastsSwapped(b, s, shape, zero, id, name, i2, x);
    var rows := [[i1, x], [i2, x]];
    var v1, v2 := [VString(x), VString(i1)], [VString(x), VString(i2)];
    var st1 := Progress(0, {(1, VString(i1))}, [], [v1]);
    var st2 := Progress(1, {(1, VString(i1)), (1, VString(i2))}, [], [v1, v2]);
    assert [1][0] == 1 && [1][1..] == [];
    assert {} + {(1, VString(i1))} == {(1, VString(i1))};
    assert CheckUnique([1], shape, v1, {}, 0) == Ok(({(1, VString(i1))}, None));
    assert Start.rowIndex == -1 && Start.cache == {} && Start.errors == [] && Start.out == [];
    assert Start.errors + Recorded(None) == [] && Start.out + [v1] == [v1];
    assert Advance(b, s, shape, zero, [1], rows[0], Start) == Ok(st1);
    assert (1, VString(i2)) !in st1.cache;
    assert st1.cache + {(1, VString(i2))} == st2.cache;
    assert st1.errors + Recorded(None) == [] && st1.out + [v2] == [v1, v2];
    assert CheckUnique([1], shape, v2, st1.cache, 1) == Ok((st2.cache, None));
    assert Advance(b, s, shape, zero, [1], rows[1], st1) == Ok(st2);
    assert rows[1..] == [rows[1]] && rows[1..][1..] == [];
    assert CastRows(b, s, shape, zero, [1], rows, Start) == CastRows(b, s, shape, zero, [1], [rows[1]], st1);
    assert CastRows(b, s, shape, zero, [1], [rows[1]], st1) == CastRows(b, s, shape, zero, [1], [], st2);
    assert |st2.errors| == 0;
  }

  /** The intended checks compare the name, schema position 1, and report the second row. */
  lemma DuplicateNameCaught(b: Binding, s: Schema, shape: seq<StructField>, zero: seq<Value>, id: string, name: string,
                            i1: string, i2: string, x: string)
    requires Swapped(b, s, shape, zero, id, name)
    ensures CorrectedCastRows(b, s, shape, zero, [1], [[i1, x], [i2, x]], Start).errors
              == [RowError(1, Duplicate(name, 1))]
  {
    RowCastsSwapped(b, s, shape, zero, id, name, i1, x);
    RowCastsSwapped(b, s, shape, zero, id, name, i2, x);
    var rows := [[i1, x], [i2, x]];
    var cache := {(1, VString(x))};
    assert [1][0] == 1 && [1][1..] == [] && {} + cache == cache;
    assert rows[0][1] == x && rows[1][1] == x;
    assert b.cast(s.fields[1], x) == Ok(VString(x));
    assert CorrectedCheckUnique(b, [1], s, rows[0], {}, 0) == (cache, None);
    assert Start.rowIndex == -1 && Start.cache == {} && Start.errors == [] && Start.out == [];
    var st1 := CorrectedAdvance(b, s, shape, zero, [1], rows[0], Start);
    assert st1.cache == cache && st1.errors == [];
    assert CorrectedCheckUnique(b, [1], s, rows[1], cache, 1) == (cache, Some(RowError(1, Duplicate(name, 1))));
    var st2 := CorrectedAdvance(b, s, shape, zero, [1], rows[1], st1);
    assert st2.errors == [RowError(1, Duplicate(name, 1))];
    assert rows[1..] == [rows[1]] && rows[1..][1..] == [];
    assert CorrectedCastRows(b, s, shape, zero, [1], rows, Start) == CorrectedCastRows(b, s, shape, zero, [1], [rows[1]], st1);
    assert CorrectedCastRows(b, s, shape, zero, [1], [rows[1]], st1) == CorrectedCastRows(b, s, shape, zero, [1], [], st2);
  }
}

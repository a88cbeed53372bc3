/** infer.go: a schema guessed from a table of text cells. Every cell votes for the
    narrowest type that accepts it (boolean, then integer, then number, then date); each
    column takes the type with the most votes, and stays "string" when nothing voted. */
module Infer {
  import opened Wrappers
  import opened Host
  import opened Values
  import opened Integer
  import DateTime
  import opened Schema
  import SchemaField

  // The type names, as the Table Schema standard spells them.
  const BooleanType := "boolean"
  const IntegerType := "integer"
  const NumberType := "number"
  const DateType := "date"

  /** booleanValues: the texts that vote "boolean". */
  const BooleanValues: set<string> := {"true", "True", "TRUE", "1", "false", "False", "FALSE", "0"}

  /** The types a cell may vote for, narrowest first. */
  const VoteOrder: seq<string> := [BooleanType, IntegerType, NumberType, DateType]

  /** Whether type t accepts the cell: castInt, castNumber (strconv.ParseFloat) and castDate
      with the default format (time.Parse with "2006-01-02") must report no error. */
  predicate Accepts(lib: Library, t: string, cell: string)
  {
    if t == BooleanType then cell in BooleanValues
    else if t == IntegerType then CastInt(cell).Ok?
    else if t == NumberType then lib.parseFloat(cell).Some?
    else if t == DateType then DateTime.ParseUTC(lib, DateTime.DateLayout, cell).Ok?
    else false
  }

  /** The date vote is castDate with the default format. */
  lemma DateVoteIsCastDate(lib: Library, order: seq<(string, string)>, cell: string)
    requires DateTime.IsTableOrder(order)
    ensures Accepts(lib, DateType, cell) <==> DateTime.CastDate(lib, order, SchemaField.DefaultFieldFormat, cell).Ok?
  {
    assert SchemaField.IsDefaultFormat(SchemaField.DefaultFieldFormat);
  }

  /** The position of the first of `types` that accepts the cell. */
  function FirstAccepting(lib: Library, types: seq<string>, cell: string): (j: Option<nat>)
    ensures j.Some? ==> j.value < |types| && Accepts(lib, types[j.value], cell)
                        && forall i :: 0 <= i < j.value ==> !Accepts(lib, types[i], cell)
    ensures j.None? ==> forall i :: 0 <= i < |types| ==> !Accepts(lib, types[i], cell)
  {
    if |types| == 0 then None
    else if Accepts(lib, types[0], cell) then Some(0)
    else match FirstAccepting(lib, types[1..], cell)
      case None => None
      case Some(k) => Some(k + 1)
  }

  /** The type a cell votes for, if any. */
  function Vote(lib: Library, cell: string): Option<string>
  {
    match FirstAccepting(lib, VoteOrder, cell)
    case None => None
    case Some(j) => Some(VoteOrder[j])
  }

  /** A cell votes for type VoteOrder[j] exactly when that type accepts it and no
      narrower one does; it votes for nothing exactly when no type accepts it. */
  lemma VoteIsNarrowest(lib: Library, cell: string, j: nat)
    requires j < |VoteOrder|
    ensures Vote(lib, cell) == Some(VoteOrder[j]) <==>
              Accepts(lib, VoteOrder[j], cell) && forall i :: 0 <= i < j ==> !Accepts(lib, VoteOrder[i], cell)
    ensures Vote(lib, cell).None? <==> forall i :: 0 <= i < |VoteOrder| ==> !Accepts(lib, VoteOrder[i], cell)
  {
    var f := FirstAccepting(lib, VoteOrder, cell);
    if f.Some? && f.value != j {
      assert VoteOrder[f.value] != VoteOrder[j];
    }
  }

  /** A cell votes "boolean" exactly when it is one of booleanValues. */
  lemma BooleanVote(lib: Library, cell: string)
    ensures Vote(lib, cell) == Some(BooleanType) <==> cell in BooleanValues
  {
    VoteIsNarrowest(lib, cell, 0);
  }

  /** One more vote for t. */
  function Increment(m: map<string, int>, t: string): (r: map<string, int>)
    ensures r.Keys == m.Keys + {t}
    ensures r[t] == (if t in m then m[t] else 0) + 1
    ensures forall u :: u in m && u != t ==> r[u] == m[u]
  {
    m[t := (if t in m then m[t] else 0) + 1]
  }

  function Bump(m: map<string, int>, vote: Option<string>): map<string, int>
  {
    if vote.None? then m else Increment(m, vote.value)
  }

  /** The tally of one cell: the type loop of Infer, which stops at the first type that
      accepts the cell. */
  method CountVote(lib: Library, cell: string, tally: map<string, int>) returns (r: map<string, int>)
    ensures r == Bump(tally, Vote(lib, cell))
  {
    r := tally;
    var j := 0;
    while j < |VoteOrder|
      invariant 0 <= j <= |VoteOrder|
      invariant forall i :: 0 <= i < j ==> !Accepts(lib, VoteOrder[i], cell)
      invariant r == tally
    {
      var t := VoteOrder[j];
      var found := false;
      if t == BooleanType {
        found := cell in BooleanValues;
      } else if t == IntegerType {
        found := CastInt(cell).Ok?;
      } else if t == NumberType {
        found := lib.parseFloat(cell).Some?;
      } else if t == DateType {
        found := DateTime.ParseUTC(lib, DateTime.DateLayout, cell).Ok?;
      }
      if found {
        VoteIsNarrowest(lib, cell, j);
        r := Increment(r, t);
        return;
      }
      j := j + 1;
    }
    VoteIsNarrowest(lib, cell, 0);
  }

  /** Every row has a cell at column c. */
  predicate Reaches(rows: seq<seq<string>>, c: nat)
  {
    forall i :: 0 <= i < |rows| ==> c < |rows[i]|
  }

  /** The number of rows whose cell at column c votes for t. */
  function Count(lib: Library, rows: seq<seq<string>>, c: nat, t: string): (n: nat)
    requires Reaches(rows, c)
    ensures n <= |rows|
  {
    if |rows| == 0 then 0
    else
      var last := |rows| - 1;
      Count(lib, rows[..last], c, t) + (if Vote(lib, rows[last][c]) == Some(t) then 1 else 0)
  }

  /** The votes of column c: each type that got a vote, with its count. */
  function Tally(lib: Library, rows: seq<seq<string>>, c: nat): map<string, int>
    requires Reaches(rows, c)
  {
    map t | t in VoteOrder && Count(lib, rows, c, t) > 0 :: Count(lib, rows, c, t)
  }

  /** Reading one more row adds its cell's vote to the column's tally. */
  lemma TallyStep(lib: Library, rows: seq<seq<string>>, row: seq<string>, c: nat)
    requires Reaches(rows, c) && c < |row|
    ensures Reaches(rows + [row], c)
    ensures Tally(lib, rows + [row], c) == Bump(Tally(lib, rows, c), Vote(lib, row[c]))
  {
    var more := rows + [row];
    assert more[..|more| - 1] == rows;
    assert Reaches(more, c);
    var v := Vote(lib, row[c]);
    if v.Some? {
      assert v.value in VoteOrder;
    }
    var a, b := Tally(lib, more, c), Bump(Tally(lib, rows, c), v);
    forall t | t in a
      ensures t in b && a[t] == b[t]
    {
    }
    forall t | t in b
      ensures t in a
    {
    }
  }

  /** counts holds the tally of each column over the rows. */
  predicate Tallies(lib: Library, rows: seq<seq<string>>, counts: seq<map<string, int>>)
  {
    forall c :: 0 <= c < |counts| ==> Reaches(rows, c) && counts[c] == Tally(lib, rows, c)
  }

  /** Reading one more row adds each of its cells' votes to its column's tally. */
  lemma TallyRow(lib: Library, rows: seq<seq<string>>, row: seq<string>, before: seq<map<string, int>>,
                 after: seq<map<string, int>>)
    requires |before| == |row| && |after| == |row| && Tallies(lib, rows, before)
    requires forall c :: 0 <= c < |row| ==> after[c] == Bump(before[c], Vote(lib, row[c]))
    ensures Tallies(lib, rows + [row], after)
  {
    forall c | 0 <= c < |row|
      ensures Reaches(rows + [row], c) && after[c] == Tally(lib, rows + [row], c)
    {
      TallyStep(lib, rows, row, c);
    }
  }

  /** Every type in a tally got at least one vote. */
  lemma TallyPositive(lib: Library, rows: seq<seq<string>>, c: nat)
    requires Reaches(rows, c)
    ensures forall t :: t in Tally(lib, rows, c) ==> Tally(lib, rows, c)[t] > 0
  {
  }

  /** The type a column is given: "string" when nothing voted, and otherwise a type whose
      count is not beaten by any other. */
  predicate ChosenType(tally: map<string, int>, t: string)
  {
    if tally == map[] then t == SchemaField.DefaultFieldType
    else t in tally && forall u :: u in tally ==> tally[u] <= tally[t]
  }

  /** The schema Infer returns for a table whose every row has one cell per header. */
  predicate Inferred(lib: Library, headers: seq<string>, table: seq<seq<string>>, sc: Schema)
  {
    && (forall j :: 0 <= j < |table| ==> |table[j]| == |headers|)
    && |sc.fields| == |headers|
    && sc.primaryKeyPlaceholder == JNull && sc.primaryKeys == [] && sc.foreignKeys == [] && sc.missingValues == []
    && forall i :: 0 <= i < |headers| ==>
         && sc.fields[i].name == headers[i]
         && sc.fields[i].format == SchemaField.DefaultFieldFormat
         && sc.fields[i].constraints == NoConstraints
         && sc.fields[i].missingValues == {}
         && ChosenType(Tally(lib, table, i), sc.fields[i].fieldType)
  }

  /** The cell loop of Infer: each cell of the row adds its vote to its column's tally. */
  method CountRow(lib: Library, row: seq<string>, counts: seq<map<string, int>>) returns (r: seq<map<string, int>>)
    requires |row| == |counts|
    ensures |r| == |counts|
    ensures forall c :: 0 <= c < |row| ==> r[c] == Bump(counts[c], Vote(lib, row[c]))
  {
    r := counts;
    var cellIndex := 0;
    while cellIndex < |row|
      invariant 0 <= cellIndex <= |row| && |r| == |counts|
      invariant forall c :: 0 <= c < cellIndex ==> r[c] == Bump(counts[c], Vote(lib, row[c]))
      invariant forall c :: cellIndex <= c < |row| ==> r[c] == counts[c]
    {
      var tally := CountVote(lib, row[cellIndex], r[cellIndex]);
      r := r[cellIndex := tally];
      cellIndex := cellIndex + 1;
    }
  }

  /** The type loop over one column's tally, walked in an order left open: the first
      type met with a strictly greater count than every type met before it wins. */
  method ChooseType(tally: map<string, int>) returns (t: string)
    requires forall u :: u in tally ==> tally[u] > 0
    ensures ChosenType(tally, t)
  {
    t := SchemaField.DefaultFieldType;
    var count := 0;
    var unseen := tally.Keys;
    while unseen != {}
      invariant unseen <= tally.Keys
      invariant unseen == tally.Keys ==> count == 0 && t == SchemaField.DefaultFieldType
      invariant unseen != tally.Keys ==> t in tally.Keys - unseen && count == tally[t]
      invariant forall u :: u in tally.Keys - unseen ==> tally[u] <= count
      decreases |unseen|
    {
      var u :| u in unseen;
      var c := tally[u];
      if c > count {
        t := u;
        count := c;
      }
      unseen := unseen - {u};
    }
    if tally != map[] {
      var u :| u in tally;
    }
  }

  /** The first loop of Infer: the tally of every column, or the first row whose length
      differs from the number of headers. */
  method TallyTable(lib: Library, headers: seq<string>, table: seq<seq<string>>)
    returns (counts: seq<map<string, int>>, ragged: Option<nat>)
    ensures ragged.None? ==> (forall l :: 0 <= l < |table| ==> |table[l]| == |headers|)
                             && |counts| == |headers| && Tallies(lib, table, counts)
    ensures ragged.Some? ==> ragged.value < |table| && |table[ragged.value]| != |headers|
                             && forall l :: 0 <= l < ragged.value ==> |table[l]| == |headers|
  {
    counts := seq(|headers|, _ => map[]);
    var rowID := 0;
    while rowID < |table|
      invariant 0 <= rowID <= |table|
      invariant forall l :: 0 <= l < rowID ==> |table[l]| == |headers|
      invariant |counts| == |headers| && Tallies(lib, table[..rowID], counts)
    {
      var row := table[rowID];
      if |headers| != |row| {
        return counts, Some(rowID);
      }
      var before := counts;
      counts := CountRow(lib, row, counts);
      TallyRow(lib, table[..rowID], row, before, counts);
      assert table[..rowID + 1] == table[..rowID] + [row];
      rowID := rowID + 1;
    }
    assert table[..|table|] == table;
    return counts, None;
  }

  /** Infer. The Go code walks each column's tally in map order, so which of several
      equally voted types wins is not determined; the choice is left open here. */
  method Infer(lib: Library, headers: seq<string>, table: seq<seq<string>>) returns (r: Result<Schema>)
    ensures r.Err? <==> exists j :: 0 <= j < |table| && |table[j]| != |headers|
    ensures r.Err? ==> exists j :: 0 <= j < |table| && r.error == NotTabular(j) && |table[j]| != |headers|
                                  && forall l :: 0 <= l < j ==> |table[l]| == |headers|
    ensures r.Ok? ==> Inferred(lib, headers, table, r.value)
  {
    var counts, ragged := TallyTable(lib, headers, table);
    if ragged.Some? {
      return Err(NotTabular(ragged.value));
    }
    var fields: seq<Field> := [];
    var index := 0;
    while index < |headers|
      invariant 0 <= index <= |headers| && |fields| == index
      invariant forall i :: 0 <= i < index ==>
                  && fields[i].name == headers[i]
                  && fields[i].format == SchemaField.DefaultFieldFormat
                  && fields[i].constraints == NoConstraints
                  && fields[i].missingValues == {}
                  && ChosenType(Tally(lib, table, i), fields[i].fieldType)
    {
      assert Reaches(table, index) && counts[index] == Tally(lib, table, index);
      TallyPositive(lib, table, index);
      var t := ChooseType(counts[index]);
      fields := fields + [Field(headers[index], t, SchemaField.DefaultFieldFormat, NoConstraints, {})];
      index := index + 1;
    }
    return Ok(Schema(fields, JNull, [], [], []));
  }

  /** A table with no rows gives no votes, so every column is a string column. */
  lemma EmptyTableAllStrings(lib: Library, headers: seq<string>, sc: Schema)
    requires Inferred(lib, headers, [], sc)
    ensures forall i :: 0 <= i < |headers| ==> sc.fields[i].fieldType == SchemaField.DefaultFieldType
  {
    forall i | 0 <= i < |headers|
      ensures Tally(lib, [], i) == map[]
    {
    }
  }

  /** A vote is always for one of the four types. */
  lemma VoteInOrder(lib: Library, cell: string)
    ensures Vote(lib, cell).Some? ==> Vote(lib, cell).value in VoteOrder
  {
  }

  /** When every cell of column c votes for t, t gets one vote per row and the others none. */
  lemma {:induction false} CountUnanimous(lib: Library, rows: seq<seq<string>>, c: nat, t: string, u: string)
    requires Reaches(rows, c)
    requires forall i :: 0 <= i < |rows| ==> Vote(lib, rows[i][c]) == Some(t)
    ensures Count(lib, rows, c, u) == if u == t then |rows| else 0
    decreases |rows|
  {
    if |rows| > 0 {
      var last := |rows| - 1;
      var front := rows[..last];
      assert forall i :: 0 <= i < |front| ==> front[i] == rows[i];
      CountUnanimous(lib, front, c, t, u);
    }
  }

  /** A column on which every row votes for the same type gets that type, and no other. */
  lemma UnanimousColumn(lib: Library, rows: seq<seq<string>>, c: nat, t: string)
    requires Reaches(rows, c) && |rows| > 0
    requires forall i :: 0 <= i < |rows| ==> Vote(lib, rows[i][c]) == Some(t)
    ensures forall u :: ChosenType(Tally(lib, rows, c), u) <==> u == t
  {
    VoteInOrder(lib, rows[0][c]);
    var tally := Tally(lib, rows, c);
    CountUnanimous(lib, rows, c, t, t);
    assert t in tally && tally[t] == |rows|;
    forall u | u in tally
      ensures u == t
    {
      CountUnanimous(lib, rows, c, t, u);
    }
  }
}

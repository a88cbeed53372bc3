/** A worked case of Infer: a table whose columns get mixed votes, where the tally and
    the choice of the most voted type decide each column's type. */
module InferExamples {
  import opened Wrappers
  import opened Host
  import opened Decimal
  import opened Integer
  import DateTime
  import opened Schema
  import opened Infer

  const ManyHeaders: seq<string> := ["Name", "Age", "Weight", "Bogus", "Boolean", "Boolean1"]
  const ManyRows: seq<seq<string>> := [
    ["Foo", "10", "20.2", "1", "1", "1"],
    ["Foo", "10", "30", "1", "1", "1"],
    ["Foo", "10", "30", "Daniel", "1", "2"]
  ]

  /** A text no type accepts votes for nothing. */
  lemma NoVote(lib: Library, cell: string)
    requires |cell| > 0 && !IsSign(cell[0]) && !IsDigit(cell[0]) && cell !in BooleanValues
    requires lib.parseFloat(cell).None? && DateTime.ParseUTC(lib, DateTime.DateLayout, cell).Err?
    ensures Vote(lib, cell).None?
  {
    CastIntRejectsNonDigit(cell, 0);
  }

  /** A digit string of at most two digits other than "0" and "1" votes "integer". */
  lemma IntegerVote(lib: Library, cell: string)
    requires 0 < |cell| <= 2 && AllDigits(cell) && cell !in BooleanValues
    ensures Vote(lib, cell) == Some(IntegerType)
  {
    assert Unsigned(cell) == cell;
    ValueOfBound(cell);
    assert Pow10(|cell|) <= 100;
    CastIntSucceeds(cell);
    VoteIsNarrowest(lib, cell, 1);
  }

  /** "20.2" votes "number" when strconv.ParseFloat reads it. */
  lemma NumberVote(lib: Library)
    requires lib.parseFloat("20.2").Some?
    ensures Vote(lib, "20.2") == Some(NumberType)
  {
    CastIntRejectsNonDigit("20.2", 2);
    VoteIsNarrowest(lib, "20.2", 2);
  }

  /** The count of a three-row column is the sum of its cells' votes. */
  lemma CountOfThree(lib: Library, rows: seq<seq<string>>, c: nat, t: string)
    requires |rows| == 3 && Reaches(rows, c)
    ensures Count(lib, rows, c, t)
         == (if Vote(lib, rows[0][c]) == Some(t) then 1 else 0)
          + (if Vote(lib, rows[1][c]) == Some(t) then 1 else 0)
          + (if Vote(lib, rows[2][c]) == Some(t) then 1 else 0)
  {
    var two := rows[..2];
    var one := two[..1];
    assert one[..0] == [] && one[0] == rows[0] && two[1] == rows[1];
    assert Count(lib, one[..0], c, t) == 0;
    assert Count(lib, one, c, t) == (if Vote(lib, rows[0][c]) == Some(t) then 1 else 0);
    assert Count(lib, two, c, t) == Count(lib, one, c, t) + (if Vote(lib, rows[1][c]) == Some(t) then 1 else 0);
  }

  /** A three-row column whose second cell and one other vote for w gets type w. */
  lemma MajorityOfThree(lib: Library, rows: seq<seq<string>>, c: nat, w: string, t: string)
    requires |rows| == 3 && Reaches(rows, c) && ChosenType(Tally(lib, rows, c), t)
    requires Vote(lib, rows[1][c]) == Some(w)
    requires Vote(lib, rows[0][c]) == Some(w) || Vote(lib, rows[2][c]) == Some(w)
    ensures t == w
  {
    VoteInOrder(lib, rows[1][c]);
    CountOfThree(lib, rows, c, w);
    assert w in Tally(lib, rows, c);
    if t != w {
      CountOfThree(lib, rows, c, t);
      assert false;
    }
  }

  /** A three-row column on which no cell votes is a string column. */
  lemma NoneOfThree(lib: Library, rows: seq<seq<string>>, c: nat, t: string)
    requires |rows| == 3 && Reaches(rows, c) && ChosenType(Tally(lib, rows, c), t)
    requires Vote(lib, rows[0][c]).None? && Vote(lib, rows[1][c]).None? && Vote(lib, rows[2][c]).None?
    ensures t == "string"
  {
    forall u | u in VoteOrder
      ensures Count(lib, rows, c, u) == 0
    {
      CountOfThree(lib, rows, c, u);
    }
    assert Tally(lib, rows, c) == map[];
  }

  /** Name: "Foo" votes for nothing, so the column stays a string column. */
  lemma NameColumn(lib: Library, t: string)
    requires lib.parseFloat("Foo").None? && DateTime.ParseUTC(lib, DateTime.DateLayout, "Foo").Err?
    requires Reaches(ManyRows, 0) && ChosenType(Tally(lib, ManyRows, 0), t)
    ensures t == "string"
  {
    NoVote(lib, "Foo");
    NoneOfThree(lib, ManyRows, 0, t);
  }

  /** Age: three integer votes. */
  lemma AgeColumn(lib: Library, t: string)
    requires Reaches(ManyRows, 1) && ChosenType(Tally(lib, ManyRows, 1), t)
    ensures t == IntegerType
  {
    IntegerVote(lib, "10");
    MajorityOfThree(lib, ManyRows, 1, IntegerType, t);
  }

  /** Weight: "30" twice votes integer and outweighs the one number vote of "20.2". */
  lemma WeightColumn(lib: Library, t: string)
    requires lib.parseFloat("20.2").Some?
    requires Reaches(ManyRows, 2) && ChosenType(Tally(lib, ManyRows, 2), t)
    ensures t == IntegerType
  {
    NumberVote(lib);
    IntegerVote(lib, "30");
    MajorityOfThree(lib, ManyRows, 2, IntegerType, t);
  }

  /** Bogus: two boolean votes, "Daniel" voting for nothing. */
  lemma BogusColumn(lib: Library, t: string)
    requires lib.parseFloat("Daniel").None? && DateTime.ParseUTC(lib, DateTime.DateLayout, "Daniel").Err?
    requires Reaches(ManyRows, 3) && ChosenType(Tally(lib, ManyRows, 3), t)
    ensures t == BooleanType
  {
    NoVote(lib, "Daniel");
    BooleanVote(lib, "1");
    MajorityOfThree(lib, ManyRows, 3, BooleanType, t);
  }

  /** Boolean: three boolean votes. */
  lemma BooleanColumn(lib: Library, t: string)
    requires Reaches(ManyRows, 4) && ChosenType(Tally(lib, ManyRows, 4), t)
    ensures t == BooleanType
  {
    BooleanVote(lib, "1");
    MajorityOfThree(lib, ManyRows, 4, BooleanType, t);
  }

  /** Boolean1: two boolean votes outweigh the integer vote of "2". */
  lemma Boolean1Column(lib: Library, t: string)
    requires Reaches(ManyRows, 5) && ChosenType(Tally(lib, ManyRows, 5), t)
    ensures t == BooleanType
  {
    BooleanVote(lib, "1");
    IntegerVote(lib, "2");
    MajorityOfThree(lib, ManyRows, 5, BooleanType, t);
  }

  /** The ManyCells sample: Name gets no vote and stays a string; Age is integer; Weight is
      integer on a 2:1 vote over number; Bogus is boolean on a 2:0 vote, "Daniel" voting for
      nothing; Boolean is boolean; Boolean1 is boolean on a 2:1 vote over integer. */
  lemma ManyCells(lib: Library, sc: Schema)
    requires lib.parseFloat("Foo").None? && lib.parseFloat("Daniel").None? && lib.parseFloat("20.2").Some?
    requires DateTime.ParseUTC(lib, DateTime.DateLayout, "Foo").Err?
    requires DateTime.ParseUTC(lib, DateTime.DateLayout, "Daniel").Err?
    requires Inferred(lib, ManyHeaders, ManyRows, sc)
    ensures |sc.fields| == 6
    ensures sc.fields[0].fieldType == "string"
    ensures sc.fields[1].fieldType == IntegerType && sc.fields[2].fieldType == IntegerType
    ensures sc.fields[3].fieldType == BooleanType && sc.fields[4].fieldType == BooleanType
    ensures sc.fields[5].fieldType == BooleanType
  {
    assert |ManyHeaders| == 6;
    NameColumn(lib, sc.fields[0].fieldType);
    AgeColumn(lib, sc.fields[1].fieldType);
    WeightColumn(lib, sc.fields[2].fieldType);
    BogusColumn(lib, sc.fields[3].fieldType);
    BooleanColumn(lib, sc.fields[4].fieldType);
    Boolean1Column(lib, sc.fields[5].fieldType);
  }
}

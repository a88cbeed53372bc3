/** schema.go, the descriptor half: a schema's fields and keys, field lookup, the
    validation rules, the normalisation of key lists written either as one string or as a
    list, and the spreading of the schema's missing values to its fields. */
module Schema {
  import opened Wrappers
  import opened Host
  import opened Values

  /** InvalidPosition: the index GetField reports for a name no field has. */
  const InvalidPosition: int := -1

  /** A field of a schema, as the row-binding code consults it. */
  datatype Field = Field(
    name: string,
    fieldType: string,
    format: string,
    constraints: Constraints,
    missingValues: set<string>)

  /** A foreign key's reference. A placeholder holds the decoded JSON of a key list (JNull
      when absent) until it is normalised into the string list beside it. */
  datatype Reference = Reference(resource: string, fields: seq<string>, fieldsPlaceholder: Json)

  datatype ForeignKey = ForeignKey(fields: seq<string>, fieldsPlaceholder: Json, reference: Reference)

  datatype Schema = Schema(
    fields: seq<Field>,
    primaryKeyPlaceholder: Json,
    primaryKeys: seq<string>,
    foreignKeys: seq<ForeignKey>,
    missingValues: seq<string>)

  // ----- lookup -----

  /** GetField: the first field with the name, with its index, or InvalidPosition. */
  function GetField(s: Schema, name: string): (r: (Option<Field>, int))
    ensures r.1 == InvalidPosition <==> forall j :: 0 <= j < |s.fields| ==> s.fields[j].name != name
    ensures r.1 != InvalidPosition ==>
              && 0 <= r.1 < |s.fields| && s.fields[r.1].name == name
              && r.0 == Some(s.fields[r.1])
              && forall j :: 0 <= j < r.1 ==> s.fields[j].name != name
    ensures r.1 == InvalidPosition ==> r.0 == None
  {
    FindField(s.fields, name, 0)
  }

  function FindField(fields: seq<Field>, name: string, i: nat): (r: (Option<Field>, int))
    requires i <= |fields|
    ensures r.1 == InvalidPosition <==> forall j :: i <= j < |fields| ==> fields[j].name != name
    ensures r.1 != InvalidPosition ==>
              && i <= r.1 < |fields| && fields[r.1].name == name
              && r.0 == Some(fields[r.1])
              && forall j :: i <= j < r.1 ==> fields[j].name != name
    ensures r.1 == InvalidPosition ==> r.0 == None
    decreases |fields| - i
  {
    if i == |fields| then (None, InvalidPosition)
    else if fields[i].name == name then (Some(fields[i]), i)
    else FindField(fields, name, i + 1)
  }

  /** The position GetField reports. */
  function FieldIndex(s: Schema, name: string): (k: int)
    ensures k == GetField(s, name).1
    ensures -1 <= k < |s.fields|
  {
    GetField(s, name).1
  }

  /** HasField: a schema has a field exactly when some field carries the name. */
  predicate HasField(s: Schema, name: string)
    ensures HasField(s, name) <==> exists j :: 0 <= j < |s.fields| && s.fields[j].name == name
  {
    GetField(s, name).1 != InvalidPosition
  }

  /** isMissingValue */
  function IsMissingValue(s: Schema, value: string): (r: bool)
    ensures r <==> value in s.missingValues
  {
    MissingFrom(s.missingValues, value)
  }

  function MissingFrom(mvs: seq<string>, value: string): (r: bool)
    ensures r <==> value in mvs
  {
    if |mvs| == 0 then false else mvs[0] == value || MissingFrom(mvs[1..], value)
  }

  // ----- Validate -----

  /** The first foreign-key problem, key by key: a field naming no schema field, then a
      reference whose field count differs. */
  function ForeignKeyProblem(s: Schema, fks: seq<ForeignKey>): (r: Option<Error>)
    ensures r.None? <==> forall i :: 0 <= i < |fks| ==>
              (forall f :: f in fks[i].fields ==> HasField(s, f))
              && |fks[i].reference.fields| == |fks[i].fields|
    ensures r.Some? ==> r.value == ForeignKeyArity
                        || (r.value.UnknownForeignKeyField? && !HasField(s, r.value.name))
  {
    if |fks| == 0 then None
    else match FirstUnknown(s, fks[0].fields)
      case Some(f) => Some(UnknownForeignKeyField(f))
      case None =>
        if |fks[0].reference.fields| != |fks[0].fields| then Some(ForeignKeyArity)
        else ForeignKeyProblem(s, fks[1..])
  }

  /** The first name of the list that no field carries. */
  function FirstUnknown(s: Schema, names: seq<string>): (r: Option<string>)
    ensures r.None? <==> forall f :: f in names ==> HasField(s, f)
    ensures r.Some? ==> r.value in names && !HasField(s, r.value)
  {
    if |names| == 0 then None
    else if !HasField(s, names[0]) then Some(names[0])
    else FirstUnknown(s, names[1..])
  }

  /** Validate: every field is named, every primary key names a field, and every foreign
      key names fields and has a reference of the same width. */
  function Validate(s: Schema): (r: Option<Error>)
    ensures r.None? <==>
      && (forall i :: 0 <= i < |s.fields| ==> s.fields[i].name != "")
      && (forall pk :: pk in s.primaryKeys ==> HasField(s, pk))
      && (forall i :: 0 <= i < |s.foreignKeys| ==>
            (forall f :: f in s.foreignKeys[i].fields ==> HasField(s, f))
            && |s.foreignKeys[i].reference.fields| == |s.foreignKeys[i].fields|)
    ensures (exists i :: 0 <= i < |s.fields| && s.fields[i].name == "") ==> r == Some(MissingFieldName)
    ensures r.Some? && r.value.UnknownPrimaryKey? ==> r.value.name in s.primaryKeys && !HasField(s, r.value.name)
  {
    if exists i :: 0 <= i < |s.fields| && s.fields[i].name == "" then Some(MissingFieldName)
    else match FirstUnknown(s, s.primaryKeys)
      case Some(pk) => Some(UnknownPrimaryKey(pk))
      case None => ForeignKeyProblem(s, s.foreignKeys)
  }

  // ----- processPlaceholder and UnmarshalJSON -----

  predicate AllStrings(items: seq<Json>)
  {
    forall i :: 0 <= i < |items| ==> items[i].JString?
  }

  function StringsOf(items: seq<Json>): (r: seq<string>)
    requires AllStrings(items)
    ensures |r| == |items| && forall i :: 0 <= i < |items| ==> r[i] == items[i].s
  {
    if |items| == 0 then [] else [items[0].s] + StringsOf(items[1..])
  }

  /** processPlaceholder: the list v after the placeholder's strings are appended to it. A
      list element that is not a string fails Go's type assertion, which panics. */
  method ProcessPlaceholder(ph: Json, v: seq<string>) returns (r: Result<seq<string>>)
    ensures ph.JNull? ==> r == Ok(v)
    ensures ph.JString? ==> r == Ok(v + [ph.s])
    ensures ph.JArray? && AllStrings(ph.items) ==> r == Ok(v + StringsOf(ph.items))
    ensures ph.JArray? && !AllStrings(ph.items) ==> r.Err? && r.error.Panic?
    ensures !ph.JNull? && !ph.JString? && !ph.JArray? ==> r == Err(PlaceholderShape)
    ensures r.Err? <==> KeyList(ph).Err?
    ensures r.Err? ==> r == KeyList(ph)
  {
    match ph {
      case JNull =>
        return Ok(v);
      case JString(str) =>
        return Ok(v + [str]);
      case JArray(items) =>
        var acc := v;
        var i := 0;
        while i < |items|
          invariant 0 <= i <= |items|
          invariant AllStrings(items[..i])
          invariant acc == v + StringsOf(items[..i])
        {
          if !items[i].JString? {
            assert !AllStrings(items) by {
              assert !items[i].JString?;
            }
            return Err(Panic("interface conversion: interface {} is not string"));
          }
          assert items[..i + 1] == items[..i] + [items[i]];
          StringsOfAppend(items[..i], items[i]);
          acc := acc + [items[i].s];
          i := i + 1;
        }
        assert items[..i] == items;
        return Ok(acc);
      case _ =>
        return Err(PlaceholderShape);
    }
  }

  lemma StringsOfAppend(items: seq<Json>, x: Json)
    requires AllStrings(items) && x.JString?
    ensures AllStrings(items + [x])
    ensures StringsOf(items + [x]) == StringsOf(items) + [x.s]
  {
  }

  /** What processPlaceholder yields for a placeholder, starting from an empty list. */
  function KeyList(ph: Json): (r: Result<seq<string>>)
    ensures ph.JNull? ==> r == Ok([])
    ensures ph.JString? ==> r == Ok([ph.s])
    ensures ph.JArray? && AllStrings(ph.items) ==> r == Ok(StringsOf(ph.items))
    ensures r.Err? ==> r.error == PlaceholderShape || r.error.Panic?
  {
    match ph
    case JNull => Ok([])
    case JString(str) => Ok([str])
    case JArray(items) =>
      if AllStrings(items) then Ok(StringsOf(items))
      else Err(Panic("interface conversion: interface {} is not string"))
    case _ => Err(PlaceholderShape)
  }

  /** A placeholder error becomes the message of the list it was for; a panic goes on
      unwinding as it is. */
  function Reword(e: Error, shape: Error): Error
  {
    if e.Panic? then e else shape
  }

  /** Schema.UnmarshalJSON after encoding/json has filled the alias `a`: the primary key
      and each foreign key's field lists are normalised and their placeholders cleared. */
  method UnmarshalSchema(a: Schema) returns (r: Result<Schema>)
    ensures r.Ok? ==>
              && KeyList(a.primaryKeyPlaceholder).Ok?
              && r.value.primaryKeys == a.primaryKeys + KeyList(a.primaryKeyPlaceholder).value
    ensures r.Ok? ==>
              && r.value.primaryKeyPlaceholder == JNull
              && r.value.fields == a.fields && r.value.missingValues == a.missingValues
    ensures r.Ok? ==>
              && |r.value.foreignKeys| == |a.foreignKeys|
              && forall i :: 0 <= i < |a.foreignKeys| ==>
                        && KeyList(a.foreignKeys[i].fieldsPlaceholder).Ok?
                        && KeyList(a.foreignKeys[i].reference.fieldsPlaceholder).Ok?
                        && r.value.foreignKeys[i] == NormalisedKey(a.foreignKeys[i])
    ensures KeyList(a.primaryKeyPlaceholder) == Err(PlaceholderShape) ==> r == Err(PrimaryKeyShape)
    ensures KeyList(a.primaryKeyPlaceholder).Err? ==>
              r == Err(Reword(KeyList(a.primaryKeyPlaceholder).error, PrimaryKeyShape))
    ensures KeyList(a.primaryKeyPlaceholder).Ok? && FirstKeyError(a.foreignKeys).Some? ==>
              r == Err(FirstKeyError(a.foreignKeys).value)
    ensures r.Ok? <==>
              && KeyList(a.primaryKeyPlaceholder).Ok?
              && forall i :: 0 <= i < |a.foreignKeys| ==>
                   && KeyList(a.foreignKeys[i].fieldsPlaceholder).Ok?
                   && KeyList(a.foreignKeys[i].reference.fieldsPlaceholder).Ok?
  {
    var pks := ProcessPlaceholder(a.primaryKeyPlaceholder, a.primaryKeys);
    if pks.Err? {
      return Err(Reword(pks.error, PrimaryKeyShape));
    }
    FirstKeyErrorNone(a.foreignKeys);
    var fks := NormaliseForeignKeys(a.foreignKeys);
    if fks.Err? {
      return Err(fks.error);
    }
    return Ok(a.(primaryKeys := pks.value, primaryKeyPlaceholder := JNull, foreignKeys := fks.value));
  }

  /** UnmarshalJSON's loop over the foreign keys: each key's field list and reference
      field list normalised in turn, stopping at the first that fails. */
  method NormaliseForeignKeys(keys: seq<ForeignKey>) returns (r: Result<seq<ForeignKey>>)
    ensures r.Err? <==> FirstKeyError(keys).Some?
    ensures r.Err? ==> r.error == FirstKeyError(keys).value
    ensures r.Ok? ==>
              && |r.value| == |keys|
              && forall i :: 0 <= i < |keys| ==>
                   && KeyList(keys[i].fieldsPlaceholder).Ok?
                   && KeyList(keys[i].reference.fieldsPlaceholder).Ok?
                   && r.value[i] == NormalisedKey(keys[i])
  {
    var fks := keys;
    var i := 0;
    while i < |fks|
      invariant 0 <= i <= |fks| && |fks| == |keys|
      invariant forall j :: 0 <= j < i ==>
                  && KeyList(keys[j].fieldsPlaceholder).Ok?
                  && KeyList(keys[j].reference.fieldsPlaceholder).Ok?
                  && fks[j] == NormalisedKey(keys[j])
      invariant forall j :: i <= j < |fks| ==> fks[j] == keys[j]
      invariant FirstKeyError(keys) == FirstKeyError(keys[i..])
    {
      var fk := fks[i];
      FirstKeyErrorAt(keys, i);
      var fields := ProcessPlaceholder(fk.fieldsPlaceholder, fk.fields);
      if fields.Err? {
        return Err(Reword(fields.error, ForeignKeyFieldsShape));
      }
      var refFields := ProcessPlaceholder(fk.reference.fieldsPlaceholder, fk.reference.fields);
      if refFields.Err? {
        return Err(Reword(refFields.error, ForeignKeyReferenceShape));
      }
      fks := fks[i := ForeignKey(fields.value, JNull, Reference(fk.reference.resource, refFields.value, JNull))];
      i := i + 1;
    }
    assert keys[i..] == [];
    return Ok(fks);
  }

  /** The error UnmarshalJSON reports for the first foreign key whose field list or
      reference field list is not a string or a list of strings; None when there is none. */
  function FirstKeyError(fks: seq<ForeignKey>): (r: Option<Error>)
    ensures r.Some? ==> r.value in {ForeignKeyFieldsShape, ForeignKeyReferenceShape} || r.value.Panic?
  {
    if |fks| == 0 then None
    else if KeyList(fks[0].fieldsPlaceholder).Err? then
      Some(Reword(KeyList(fks[0].fieldsPlaceholder).error, ForeignKeyFieldsShape))
    else if KeyList(fks[0].reference.fieldsPlaceholder).Err? then
      Some(Reword(KeyList(fks[0].reference.fieldsPlaceholder).error, ForeignKeyReferenceShape))
    else FirstKeyError(fks[1..])
  }

  /** Scanning from position i: the first failing key is i itself, or lies past it. */
  lemma FirstKeyErrorAt(fks: seq<ForeignKey>, i: nat)
    requires i < |fks|
    ensures KeyList(fks[i].fieldsPlaceholder).Err? ==>
              FirstKeyError(fks[i..]) == Some(Reword(KeyList(fks[i].fieldsPlaceholder).error, ForeignKeyFieldsShape))
    ensures KeyList(fks[i].fieldsPlaceholder).Ok? && KeyList(fks[i].reference.fieldsPlaceholder).Err? ==>
              FirstKeyError(fks[i..])
                == Some(Reword(KeyList(fks[i].reference.fieldsPlaceholder).error, ForeignKeyReferenceShape))
    ensures KeyList(fks[i].fieldsPlaceholder).Ok? && KeyList(fks[i].reference.fieldsPlaceholder).Ok? ==>
              FirstKeyError(fks[i..]) == FirstKeyError(fks[i + 1..])
  {
    assert fks[i..][1..] == fks[i + 1..];
  }

  /** There is no failing foreign key exactly when every key's two field lists are well
      shaped. */
  lemma {:induction false} FirstKeyErrorNone(fks: seq<ForeignKey>)
    ensures FirstKeyError(fks).None? <==>
              forall i :: 0 <= i < |fks| ==>
                && KeyList(fks[i].fieldsPlaceholder).Ok?
                && KeyList(fks[i].reference.fieldsPlaceholder).Ok?
  {
    if |fks| > 0 {
      FirstKeyErrorNone(fks[1..]);
      assert forall i :: 1 <= i < |fks| ==> fks[1..][i - 1] == fks[i];
    }
  }

  /** A foreign key with both field lists normalised. */
  function NormalisedKey(fk: ForeignKey): ForeignKey
    requires KeyList(fk.fieldsPlaceholder).Ok? && KeyList(fk.reference.fieldsPlaceholder).Ok?
  {
    ForeignKey(fk.fields + KeyList(fk.fieldsPlaceholder).value, JNull,
               Reference(fk.reference.resource,
                         fk.reference.fields + KeyList(fk.reference.fieldsPlaceholder).value, JNull))
  }

  // ----- Read -----

  /** Read, from the point where the descriptor has been decoded (by encoding/json and
      UnmarshalSchema): a non-empty list of missing values becomes the missing-value set
      of every field; an empty one leaves the fields as they are. */
  method Read(decoded: Result<Schema>) returns (r: Result<Schema>)
    ensures decoded.Err? ==> r == decoded
    ensures decoded.Ok? && |decoded.value.missingValues| == 0 ==> r == decoded
    ensures decoded.Ok? && |decoded.value.missingValues| > 0 ==>
      && r.Ok?
      && r.value == decoded.value.(fields := r.value.fields)
      && |r.value.fields| == |decoded.value.fields|
      && forall i :: 0 <= i < |r.value.fields| ==>
           r.value.fields[i] == decoded.value.fields[i].(missingValues := set mv | mv in decoded.value.missingValues)
  {
    if decoded.Err? {
      return decoded;
    }
    var s := decoded.value;
    if |s.missingValues| == 0 {
      return decoded;
    }
    var valueSet := set mv | mv in s.missingValues;
    var fields := s.fields;
    var i := 0;
    while i < |fields|
      invariant 0 <= i <= |fields| && |fields| == |s.fields|
      invariant forall j :: 0 <= j < i ==> fields[j] == s.fields[j].(missingValues := valueSet)
      invariant forall j :: i <= j < |fields| ==> fields[j] == s.fields[j]
    {
      fields := fields[i := fields[i].(missingValues := valueSet)];
      i := i + 1;
    }
    return Ok(s.(fields := fields));
  }
}

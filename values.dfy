/** The dynamic values that flow through `interface{}` in the Go code: what Field.Cast
    produces, what Field.Uncast and the uncast* functions accept, and what a record's
    fields hold. */
module Values {
  import opened Wrappers
  import opened Host

  /** A field's constraints (the Constraints struct of a field descriptor): the parts the
      codecs and Schema.CastTable consult. A length of 0 means "no bound"; an empty
      maximum or minimum means "no bound". */
  datatype Constraints = Constraints(
    required: bool,
    unique: bool,
    maximum: string,
    minimum: string,
    minLength: int,
    maxLength: int,
    pattern: Option<Regexp>)

  /** Constraints{}: nothing constrained. */
  const NoConstraints: Constraints := Constraints(false, false, "", "", 0, 0, None)

  /** A "geopoint" cell (geopoint.go's GeoPoint struct). */
  datatype GeoPoint = GeoPoint(lon: real, lat: real)

  datatype Value =
    | VBool(b: bool)
    | VInt(i: int)
    | VFloat(f: real)
    | VString(s: string)
    | VTime(t: Time)
    | VDuration(nanos: int)
    | VGeoPoint(p: GeoPoint)
    | VJson(j: Json)
    /** any other Go value, known only by its type name */
    | VOther(typeName: string)
}

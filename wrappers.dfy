/** Failure-carrying results shared by every module, and the error values the Go code
    returns. Go reports errors as `error` values built with fmt.Errorf; the model keeps
    one constructor per distinct failure so that contracts can say WHICH failure occurs. */
module Wrappers {

  datatype Option<+T> = None | Some(value: T)

  datatype Result<+T> = Ok(value: T) | Err(error: Error)

  /** A row-indexed failure collected by Schema.CastTable (RowConversionError). */
  datatype RowError = RowError(lineNumber: int, err: Error)

  datatype Error =
    // strconv
    | ParseIntError(input: string)
    | InvalidSyntax
    // boolean.go
    | InvalidBoolean(value: string)
    // string.go
    | BelowMinLength(value: string, length: nat, minLength: int)
    | AboveMaxLength(value: string, length: nat, maxLength: int)
    | PatternMismatch(value: string)
    | InvalidURI(value: string)
    | InvalidEmail(value: string)
    | InvalidUUIDVersion(got: nat)
    | InvalidUUID(value: string)
    // duration.go
    | InvalidDuration(value: string)
    | NotADuration
    // geopoint.go
    | InvalidGeoPoint(value: string)
    | InvalidGeoPointFormat(format: string)
    | GeoPointTypeMismatch(format: string)
    | InvalidJSON(value: string)
    | JSONTypeMismatch
    // datetime.go, date.go, time.go
    | TimeParseError(layout: string, value: string)
    | AnyDateFormatUnsupported
    | NotATime
    | AboveMaximum
    | BelowMinimum
    // schema.go
    | MissingFieldName
    | UnknownPrimaryKey(name: string)
    | UnknownForeignKeyField(name: string)
    | ForeignKeyArity
    | PrimaryKeyShape
    | ForeignKeyFieldsShape
    | ForeignKeyReferenceShape
    | PlaceholderShape
    | Panic(reason: string)
    | RowLengthMismatch(rowLength: nat, fieldCount: nat)
    | CannotConvert(fieldName: string)
    | Duplicate(fieldName: string, row: int)
    | Conversion(errors: seq<RowError>)
    | InvalidFieldName(name: string)
    | ColumnCast(value: string, cause: Error)
    | ColumnConvert(value: string, fieldName: string)
    | NotAStruct
    // infer.go
    | NotTabular(rowId: nat)
    // table and csv packages
    | NoSchema
    | OptionFailed
    | IOError(code: int)
}

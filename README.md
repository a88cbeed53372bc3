# tableschema-go, modelled in Dafny

This project models the core of tableschema-go, a Go implementation of the Table Schema
standard for tabular data. The model covers:

- the field codecs of the `schema` package: boolean, integer, string, duration, geopoint,
  datetime, date and time. Each turns a CSV cell into a typed value, and some back again.
- field defaults.
- the `Schema` operations in `schema.go`: reading a descriptor, validating it, casting a row
  into a record, casting a whole table (including its unique-value checks), casting a
  column, and uncasting records back into text.
- type inference in `infer.go`: each cell votes for its narrowest type, and each column gets
  the type with the most votes.
- the row sources:
  - the in-memory table of `table/table.go`;
  - the `table/csv.go` table, whose options read a header line;
  - the `csv` package's iterator, `Reader` and `Table`, with their creation options
    `LoadHeaders`, `SetHeaders`, `WithSchema` and `InferSchema`.

Each module follows one Go source file. Pure code is written as datatypes, functions and
lemmas. Code that updates objects in place is written as classes and methods with loops:

- the record that `CastRow` fills in;
- `Field.setDefaultValues`;
- the slice iterator;
- the CSV iterator, `Reader` and `Table`;
- the `table/csv.go` `Table`;
- the loops of `Infer`, `CastTable`, `UncastRow` (with its array sort) and `CastColumn`.

Each method is proved against a specification function. The lemmas then prove what the
source promises about that function.

The Go standard library is not part of this model. That covers `time.Parse` and
`Time.Format`, regular-expression matching, URL, mail and UUID parsing, JSON decoding,
`strconv.ParseFloat`, `strconv.Unquote`, float formatting, `time.Duration.String` and
non-ASCII upper-casing. These are uninterpreted functions carried in a `Host.Library` value
that every operation takes as a parameter, so every property holds for any behaviour of them.

Go's `int64` is modelled explicitly:

- `Decimal.Wrap64` gives the wrap-around of the sum that `castDuration` forms;
- `strconv.ParseInt` has its exact range;
- `strconv.Atoi` clamps on overflow.

Go's map iteration order is not fixed by the language, so the model leaves it open. It is
either a parameter that ranges over every order (the strftime table) or a nondeterministic
choice (Infer's tie-breaking).

Some helpers the Go code calls are not in this source set:

- `checkConstraints`, called by date.go and time.go, is reconstructed from `date_test.go` and
  `time_test.go` as `Bounds.CheckTimeBounds`. A zero time means "no bound", and the checks
  are strict `After`/`Before`.
- `Field.Cast`/`Field.Uncast` and the reflection setter are not in this source set. They are
  the function-typed fields of `SchemaRows.Binding`.

Two behaviours of the Go code are kept as written:

- `CastTable` keeps duplicate rows and reports them. It also reads unique values by struct
  field index (finding 4).
- `table/csv.go`'s `CSV` returns an error on failure, in place of an empty `Table` beside the
  error.

## Model

| member | source | states |
|---|---|---|
| Boolean.Found | schema/boolean.go:5-17 | the early-return scan of a list reports true exactly when the value is in it |
| Boolean.CastBoolean | schema/boolean.go:5-17 | true when the value is among the true values (searched first), else false when among the false values, else an error naming the value |
| Boolean.CastBooleanMembershipOnly | schema/boolean.go:5-17 | only membership matters: reordered or duplicated lists give the same outcome |
| Boolean.CastBooleanExamples | schema/boolean_test.go:5-33 | the test cases, including a value in both lists reading as true |
| Integer.CastInt | schema/integer.go:7-9 | strconv.ParseInt base 10, 64 bits: succeeds exactly on an optional sign then one or more digits whose value is in the int64 range |
| Integer.CastIntSucceeds | schema/integer.go:7-9 | an optional sign then one or more digits whose signed value is an int64 parses to exactly that value (with Integer.CastInt's own contract, both directions of the success condition) |
| Integer.CastIntValue | schema/integer.go:7-9 | a successful parse is the signed value of the digits |
| Integer.CastIntRejectsNonDigit | schema/integer.go:7-9 | any non-digit after the sign makes the parse fail |
| Integer.CastIntShowInt | schema/integer.go:7-9 | every int64's decimal text parses back to it, with or without '+' |
| Integer.CastIntOutOfRange | schema/integer.go:7-9 | digit strings beyond MaxInt64, and their negations below MinInt64, are rejected |
| Integer.CastIntExamples | schema/integer_test.go:7-52 | the test cases and the int64 edge cases |
| Decimal.Wrap64 | schema/duration.go:21-33 | the two's-complement int64 left by an overflowing + or *: in range, and equal to the input when that is in range |
| Decimal.Wrap64Congruent | schema/duration.go:21-33 | wrapping only drops multiples of 2^64 |
| Decimal.ValueOfShow | schema/duration.go:53-65 | the %d rendering of a natural number reads back to that number |
| Decimal.ShowInt | schema/duration.go:53-65 | %d of an int64: a minus sign before the digits exactly when the value is negative |
| Decimal.AtoiDigits | schema/duration.go:35-42 | strconv.Atoi of a digit string: its value when in range, MaxInt64 when not |
| StringCodec.ByteLenAscii | schema/string.go:20-34 | Go's len (UTF-8 bytes) equals the character count exactly on ASCII text |
| StringCodec.CheckStringConstraints | schema/string.go:20-34 | non-zero minLength and maxLength bound the byte length and a pattern must match; the checks run in that order and the first failure is the error |
| StringCodec.ZeroLengthBoundsAccept | schema/string.go:20-34 | a length bound of 0 is no bound |
| StringCodec.DecodeString | schema/string.go:36-58 | the value itself on every path; the error is the first constraint failure, then the format's own check (uri, email, uuid) |
| StringCodec.UUIDVersionMustBeFour | schema/string.go:36-58 | a UUID of a version other than 4 is rejected even when it parses |
| StringCodec.BinaryFormatAddsNothing | schema/string.go:12-18 | the binary format, like unknown formats, adds no check |
| Duration.DigitPrefix | schema/duration.go:12-13 | the longest digit run at the front of the text |
| Duration.UnitGroup | schema/duration.go:12-13 | an optional `(\d+U)?` group takes exactly the digits and unit at the front, or nothing, and never loses text |
| Duration.SecondsGroup | schema/duration.go:12-13 | an optional `(\d+\.?\d*S)?` group takes a seconds designator or nothing, and never loses text |
| Duration.IndexOfP | schema/duration.go:21-33 | the position of the first 'P', or none exactly when the text has no 'P' |
| Duration.FindStringSubmatch | schema/duration.go:21-33 | the regexp matches exactly when the text has a 'P', and its groups are well formed |
| Duration.FracNanos | schema/duration.go:44-51 | the nanoseconds of a fraction are below one second |
| Duration.CastDuration | schema/duration.go:21-33 | an error naming the text exactly when it has no 'P'; otherwise the int64 sum of the present components |
| Duration.CastDesignatorText | schema/duration.go:21-51 | a full designator text casts to years·360d + months·30d + days·24h + hours + minutes + seconds, fraction included |
| Duration.CastPartialText | schema/duration.go:12-51 | a designator text with any of its designators left out (and the 'T' optional where no month follows) casts to the sum of the designators present, an absent one adding nothing |
| Duration.SubmatchOfPartialText | schema/duration.go:12-13 | the regexp's submatches of such a text are exactly its present designators, the absent groups empty |
| Duration.UnitStep | schema/duration.go:12-13 | an optional unit group takes exactly its designator and leaves the rest, and takes nothing when the rest does not begin with digits and that unit |
| Duration.SecondsStep | schema/duration.go:12-13 | the optional seconds group takes the whole seconds designator |
| Duration.SumOfPartialCaptures | schema/duration.go:21-51 | the captures of the present designators are well formed and their int64 sum is the plain sum when it fits |
| Duration.SubmatchOfDesignatorText | schema/duration.go:21-33 | with every designator present, each group captures its own number |
| Duration.ParseSecondsOf | schema/duration.go:44-51 | a seconds designator parses to its whole seconds plus the nanoseconds of its fraction |
| Duration.ParseUnitOf | schema/duration.go:35-42 | a number with a unit parses to the number times the unit |
| Duration.UnitGroupMismatch | schema/duration.go:12-13 | an optional group that does not apply leaves the text alone |
| Duration.SubmatchAfterLeadingP | schema/duration.go:21-33 | a value starting with 'P' is matched from its second character |
| Duration.CastSecondsOnly | schema/duration.go:21-51 | "P{s}[.{frac}]S" casts to the seconds alone |
| Duration.CastMonthsOnly | schema/duration.go:21-42 | "P{n}M" is n months |
| Duration.CastMinutesOnly | schema/duration.go:21-42 | "PT{n}M" is n minutes |
| Duration.RemT | schema/duration.go:53-65 | Go's `%`: the remainder takes the dividend's sign and is smaller than the divisor |
| Duration.DecomposeExact | schema/duration.go:53-65 | the year/month/day/remainder split adds back up to the duration, with each part in range (or at most 0 for negatives) |
| Duration.DecomposeOf | schema/duration.go:53-65 | parts in their natural ranges are exactly what the split recovers |
| Duration.ToUpper | schema/duration.go:53-65 | strings.ToUpper maps each character and keeps the length |
| Duration.ToUpperFixes | schema/duration.go:53-65 | text without lower-case ASCII or non-ASCII is unchanged |
| Duration.UncastDuration | schema/duration.go:53-65 | succeeds exactly on a duration value, with "P{y}Y{m}M{d}DT" then the upper-cased Duration.String of the remainder below a day |
| Duration.CorrectedUncastDuration | schema/duration.go:53-65 | the corrected encoder: succeeds exactly on durations, writing every designator |
| Duration.CorrectedRoundTrip | schema/duration.go:21-65 | casting the corrected encoding of a non-negative duration gives it back |
| Duration.FractionValue | schema/duration.go:44-51 | a nine-digit fraction denotes exactly the nanoseconds it was made from |
| DurationExamples.CastDurationEmptyComponents | schema/duration_test.go:10-51 | "P", "PH" and "PfooHdddS" are 0; text without 'P' fails |
| DurationExamples.CastDurationFull | schema/duration_test.go:10-35 | "P3Y6M4DT12H30M5S" is its components' sum |
| DurationExamples.CastDurationOnlyTime | schema/duration_test.go:21 | "PT12H30M5S" is 12 hours, 30 minutes and 5 seconds |
| DurationExamples.CastDurationOnlyPeriod | schema/duration_test.go:20 | "P3Y6M4D" is 3 years, 6 months and 4 days |
| DurationExamples.CastDurationOnlyHour | schema/duration_test.go:17 | "P2H" is 2 hours |
| DurationExamples.CastDurationTwoYears | schema/duration_test.go:23 | "P2Y" is 2·360·24 hours |
| DurationExamples.CastDurationFractional | schema/duration_test.go:10-35 | "P22.519S" is 22.519 seconds |
| DurationExamples.CastDurationMonthsOrMinutes | schema/duration_test.go:10-35 | 1M before T is a month, after T a minute |
| DurationExamples.UncastDurationExample | schema/duration_test.go:52-85 | 1y1mo1d1h1m0.5s encodes as "P1Y1M1DT1H1M0.5S", which casts back to it |
| DurationExamples.UncastSubSecondMisread | schema/duration.go:53-65 | 500ms encodes as "P0Y0M0DT500MS", which casts back as 500 minutes |
| SchemaField.Defaulted | schema/field.go:16-23 | the name is kept, and type and format are never empty; given ones are kept |
| SchemaField.DefaultedEmpty | schema/field.go:4-7 | an empty type becomes "string" and an empty format "default" |
| SchemaField.DefaultedIdempotent | schema/field.go:16-23 | setting defaults twice is setting them once |
| SchemaField.Field.constructor | schema/field.go:10-14 | a field holds the name, type and format it is given |
| SchemaField.Field.SetDefaultValues | schema/field.go:16-23 | the field afterwards is its old descriptor with defaults applied |
| GeoPointCodec.IndexOfComma | schema/geopoint.go:47-71 | the first comma, or none when there is no comma |
| GeoPointCodec.Submatch | schema/geopoint.go:42-45 | a match's two groups are coordinates of the pattern |
| GeoPointCodec.SubmatchSound | schema/geopoint.go:42-45 | a match is the two groups with the separator between them, anchored as the pattern says |
| GeoPointCodec.SplitPairOf | schema/geopoint.go:42-45 | joining two coordinates with a separator splits back into them |
| GeoPointCodec.SubmatchComplete | schema/geopoint.go:42-45 | every text of the pattern's shape matches, with its two coordinates as the groups |
| GeoPointCodec.ApplyGeoPointRegexp | schema/geopoint.go:63-71 | a failure is always the invalid-geopoint error naming the value |
| GeoPointCodec.ApplyAccepts | schema/geopoint.go:63-71 | a text of the shape with non-empty coordinates gives the two numbers ParseFloat reads, 0 where it reports a syntax error (a range error's ±Inf is not representable; see Left out) |
| GeoPointCodec.ApplySound | schema/geopoint.go:63-71 | everything accepted has the shape, with non-empty coordinates |
| GeoPointCodec.ArrayFailsOnlyOnMismatch | schema/geopoint.go:63-71 | the array form fails exactly when the pattern does not match |
| GeoPointCodec.FinalNumberLast | schema/geopoint.go:25-40 | a key's value is that of the last member naming it, matched case-insensitively as encoding/json does |
| GeoPointCodec.DecodeGeoPoint | schema/geopoint.go:25-40 | success needs an object of well-typed members whose last "lon" and "lat" are the point; the error is a type mismatch or the invalid-geopoint error |
| GeoPointCodec.DecodeGeoPointComplete | schema/geopoint.go:25-40 | an object with well-typed "lon" and "lat" decodes to them |
| GeoPointCodec.UnmarshalGeoPoint | schema/geopoint.go:25-40 | text that is not JSON is refused; otherwise the decoded document is decoded as a point |
| GeoPointCodec.ObjectNeedsLon | schema/geopoint.go:25-40 | an object without "lon" is refused |
| GeoPointCodec.CastGeoPoint | schema/geopoint.go:47-61 | the default, array and object forms go to their readers; any other format is an error naming it |
| GeoPointCodec.UncastGeoPoint | schema/geopoint.go:73-103 | unknown formats and wrongly typed values are errors, per form |
| GeoPointCodec.UncastEchoesCast | schema/geopoint.go:73-103 | in the textual forms, uncasting a string gives it back exactly when casting it succeeds |
| GeoPointCodec.UncastObject | schema/geopoint.go:73-103 | the object form renders a point as %+v does |
| GeoPointCodec.CorrectedApplyDefault | schema/geopoint.go:63-71 | the corrected default form accepts only matching text |
| GeoPointCodec.CorrectedCastGeoPoint | schema/geopoint.go:47-61 | castGeoPoint with the corrected default form, otherwise unchanged |
| GeoPointCodec.CorrectedReadsNumerals | schema/geopoint.go:63-71 | under the correction every accepted coordinate is a decimal numeral |
| GeoPointCodec.CorrectedAgreesOnNumerals | schema/geopoint.go:63-71 | the correction changes nothing for coordinates holding digits |
| GeoPointExamples.DefaultAcceptsSpaced | schema/geopoint_test.go:5-58 | "90, 40" is a default-form point |
| GeoPointExamples.DefaultAcceptsSigned | schema/geopoint_test.go:5-58 | "-90.10,-40" is a default-form point |
| GeoPointExamples.ArrayAccepts | schema/geopoint_test.go:5-58 | "[90.5, 40.44]" is an array-form point |
| GeoPointExamples.Refused | schema/geopoint_test.go:5-58 | "/10,10/" and an unbracketed array are refused |
| GeoPointExamples.UnknownFormat | schema/geopoint_test.go:59-106 | unknown formats are refused both ways |
| GeoPointExamples.ObjectForm | schema/geopoint_test.go:5-58 | the object form reads lon and lat, refuses "longi" and refuses non-JSON |
| GeoPointExamples.SignsReadAsOrigin | schema/geopoint.go:63-71 | "+,-" is accepted as (0, 0); the corrected form refuses it |
| Host.Time.InUTC | schema/datetime.go:55-75 | t.In(time.UTC) keeps the instant and sets the location to UTC |
| DateTime.TableShapes | schema/datetime.go:13-33 | every strftime token is two or three characters, and the three-character ones have '-', '_' or ':' second |
| DateTime.TokenIndexInverts | schema/datetime.go:13-33 | no token appears twice in the table |
| DateTime.TablePrefixFree | schema/datetime.go:13-33 | no token begins another |
| DateTime.Translate | schema/datetime.go:55-75 | the layout built by replacing each token in visiting order; a format without '%' is its own layout, whatever order the map is visited in |
| DateTime.ParseUTC | schema/datetime.go:55-75 | a parse, moved to UTC with its instant kept |
| DateTime.CastDefaultOrCustomTime | schema/datetime.go:55-75 | the default format uses the default layout; "any" is unsupported; other formats are rewritten token by token in map order |
| DateTime.CustomTimeLiteralFormat | schema/datetime.go:55-75 | a custom format without '%' is the layout itself |
| DateTime.CustomTimeIsUTC | schema/datetime.go:55-75 | every success is in UTC, at an instant time.Parse read |
| DateTime.CastDate | schema/datetime.go:35-37 | castDefaultOrCustomTime with layout "2006-01-02" |
| DateTime.CastTime | schema/datetime.go:39-41 | castDefaultOrCustomTime with layout "03:04:05" |
| DateTime.CastDateTime | schema/datetime.go:51-53 | castDefaultOrCustomTime with RFC 3339 |
| DateTime.CastYearMonth | schema/datetime.go:43-45 | the format plays no part; the parse of "2006-01" is returned without a move to UTC |
| DateTime.CastYear | schema/datetime.go:47-49 | the same, with layout "2006" |
| DateTime.EncodeTime | schema/datetime.go:77-84 | a time is written as RFC 3339 in UTC; any other value is an error |
| DateTime.EncodeTimeIgnoresLocation | schema/datetime.go:77-84 | the encoding depends only on the instant |
| DateTime.FirstMatch | schema/datetime.go:13-33 | the first token from position j on that begins the text, or none |
| DateTime.MatchesToken | schema/datetime.go:13-33 | a token at the front of the text is the one read |
| DateTime.ScanFormatPieces | schema/datetime.go:55-75 | the one-pass rewriting gives each format the layout its pieces stand for, independent of any order |
| DateTime.CorrectedCustomTime | schema/datetime.go:55-75 | castDefaultOrCustomTime with the one-pass rewriting |
| DateTimeExamples.DeclarationOrderLayout | schema/datetime.go:55-75 | visiting the declaration order, "%%z" becomes "MST0700" |
| DateTimeExamples.SwappedOrderLayout | schema/datetime.go:55-75 | visiting "%Z" before "%z", "%%z" becomes "%Z0700" |
| DateTimeExamples.TranslationDependsOnOrder | schema/datetime.go:55-75 | the layout used for "%%z" depends on map order |
| DateTimeExamples.CorrectedLayout | schema/datetime.go:55-75 | the one-pass rewriting reads "%%z" as '%' then "%z" |
| Bounds.CheckTimeBounds | schema/date.go:5-24 | a zero bound is no bound; otherwise the value may not be after the maximum or before the minimum |
| Bounds.ParseBound | schema/date.go:5-24 | an empty bound is the zero time; otherwise it is parsed in the value's format |
| Bounds.CastBounded | schema/date.go:5-24 | the value is parsed first, then the maximum, then the minimum, each failure being the error; then the bounds are checked |
| Bounds.NoBoundsNoChecks | schema/time.go:9-28 | with no bounds, the cast is the unbounded cast |
| Bounds.UnparseableBound | schema/date.go:5-24 | a bound that does not parse fails the cast once the value has parsed, the maximum first |
| Bounds.CastBoundedSound | schema/date.go:5-24 | a success is the parsed value and lies within every given bound |
| Bounds.CastBoundedComplete | schema/date.go:5-24 | a value within bounds that parse is accepted |
| DateCodec.CastDateWithoutChecks | schema/date.go:26-28 | castDate of datetime.go |
| DateCodec.CastDate | schema/date.go:5-24 | the bounded cast with the date layout |
| DateCodec.DateAgainstMaximum | schema/date_test.go:5-36 | a date after its maximum is refused, and one on or before it is accepted |
| DateCodec.DateBelowMinimum | schema/date_test.go:5-36 | a date before its minimum is refused |
| TimeCodec.CastTimeWithoutCheckConstraints | schema/time.go:30-32 | castTime of datetime.go |
| TimeCodec.CastTime | schema/time.go:9-28 | the bounded cast with the time layout |
| TimeCodec.TimeAgainstMaximum | schema/time_test.go:10-42 | 11:45:00 passes a maximum of 11:45:01 and fails one of 11:44:59 |
| TimeCodec.UncastTime | schema/time.go:34-41 | a time is written as RFC 3339 in UTC; any other value is an error |
| TimeCodec.UncastUnixSecond | schema/time_test.go:43-76 | time.Unix(1, 0) in any location is written as that instant in UTC |
| Infer.DateVoteIsCastDate | schema/infer.go:39-67 | the date vote is castDate with the default format |
| Infer.FirstAccepting | schema/infer.go:39-67 | the first type that accepts the cell, with no earlier one accepting; or none |
| Infer.VoteIsNarrowest | schema/infer.go:39-67 | a cell votes for a type exactly when it accepts the cell and no narrower type does |
| Infer.BooleanVote | schema/infer.go:10-22 | a cell votes boolean exactly when it is one of booleanValues |
| Infer.Increment | schema/infer.go:39-67 | one more vote for the type, and every other count unchanged |
| Infer.CountVote | schema/infer.go:39-67 | the type loop adds the cell's narrowest vote to the tally |
| Infer.TallyStep | schema/infer.go:31-67 | one more row adds its cell's vote to the column's tally |
| Infer.TallyRow | schema/infer.go:31-67 | one more row adds each cell's vote to its column |
| Infer.TallyPositive | schema/infer.go:39-67 | every type in a tally has at least one vote |
| Infer.CountRow | schema/infer.go:35-67 | the cell loop: each cell's vote goes to its column's tally |
| Infer.ChooseType | schema/infer.go:70-81 | the type with the most votes, in whatever order the map is walked |
| Infer.TallyTable | schema/infer.go:31-67 | the tallies of every column, or the first row whose length differs from the headers |
| Infer.Infer | schema/infer.go:25-83 | fails exactly when some row's length differs from the headers, naming the first; otherwise each column gets the most voted type |
| Infer.EmptyTableAllStrings | schema/infer.go:70-81 | with no rows every column is a string column |
| Infer.VoteInOrder | schema/infer.go:39-67 | a vote is always for one of the four types |
| Infer.CountUnanimous | schema/infer.go:39-67 | when every cell votes the same type it gets one vote per row and the others none |
| Infer.UnanimousColumn | schema/infer.go:70-81 | a unanimous column gets that type and no other |
| InferExamples.NoVote | schema/infer.go:39-67 | a text no type accepts, such as "Foo", votes for nothing |
| InferExamples.IntegerVote | schema/infer.go:48-52 | "10", "30" and "2" vote integer |
| InferExamples.NumberVote | schema/infer.go:53-57 | "20.2" is no integer and votes number |
| InferExamples.CountOfThree | schema/infer.go:39-67 | a three-row column's count is the sum of its cells' votes |
| InferExamples.MajorityOfThree | schema/infer.go:70-81 | a type with two of three votes is the column's type |
| InferExamples.NoneOfThree | schema/infer.go:70-81 | a column with no votes stays a string column |
| InferExamples.NameColumn | schema/infer_test.go:250-265 | the Name column of the ManyCells case is a string column |
| InferExamples.AgeColumn | schema/infer_test.go:250-265 | Age is integer |
| InferExamples.WeightColumn | schema/infer_test.go:250-265 | Weight is integer, two votes to one over number |
| InferExamples.BogusColumn | schema/infer_test.go:250-265 | Bogus is boolean, "Daniel" voting for nothing |
| InferExamples.BooleanColumn | schema/infer_test.go:250-265 | Boolean is boolean |
| InferExamples.Boolean1Column | schema/infer_test.go:250-265 | Boolean1 is boolean, two votes to one over integer |
| InferExamples.ManyCells | schema/infer_test.go:250-265 | the ManyCells case infers string, integer, integer, boolean, boolean, boolean |
| Schema.GetField | schema/schema.go:125-132 | the first field with the name and its index, or InvalidPosition |
| Schema.FieldIndex | schema/schema.go:125-132 | the position GetField reports: InvalidPosition or an index of the fields |
| Schema.HasField | schema/schema.go:135-138 | a schema has a field exactly when some field carries the name |
| Schema.IsMissingValue | schema/schema.go:347-354 | a value is missing exactly when it is in the missing-values list |
| Schema.ForeignKeyProblem | schema/schema.go:143-169 | the first foreign-key problem: an unknown field, then a reference of another width |
| Schema.FirstUnknown | schema/schema.go:143-169 | the first name no field carries |
| Schema.Validate | schema/schema.go:143-169 | fields are named, primary keys name fields, and foreign keys name fields with a reference of the same width; otherwise the first failure |
| Schema.ProcessPlaceholder | schema/schema.go:394-411 | the list extended by the placeholder's strings; a non-string element panics; other types are errors; it fails exactly when Schema.KeyList does, with the same error |
| Schema.KeyList | schema/schema.go:394-411 | what processPlaceholder yields from an empty list |
| Schema.UnmarshalSchema | schema/schema.go:358-381 | succeeds exactly when the primary-key placeholder and every foreign key's two placeholders are well shaped; then the lists are normalised and the placeholders cleared, other fields unchanged; a bad primary key gives "primaryKey must be …" (a panic passes through), otherwise the first bad foreign key's error |
| Schema.NormaliseForeignKeys | schema/schema.go:369-378 | the loop fails exactly at the first foreign key whose fields ("foreignKeys.fields must be …") or reference fields ("foreignKeys.reference.fields must be …") placeholder is ill shaped, a non-string element's panic passing through; otherwise every key normalised |
| Schema.FirstKeyErrorNone | schema/schema.go:369-378 | no foreign key fails exactly when every key's two placeholders are well shaped |
| Schema.Read | schema/schema.go:39-61 | a decode error passes through; an empty missing-values list leaves the schema unchanged; a non-empty one becomes the missing-value set of every field, nothing else changing |
| SchemaRows.HeaderName | schema/schema.go:253-301 | a struct field binds to its tag, else its name |
| SchemaRows.CastFields | schema/schema.go:197-229 | the field values after each step, and the error that stopped them |
| SchemaRows.CastRowSpec | schema/schema.go:197-229 | CastRow's effect: the record's values and the error |
| SchemaRows.CastRow | schema/schema.go:197-251 | the record afterwards is what CastRowSpec gives, field by field |
| SchemaRows.CastFieldsMeaning | schema/schema.go:197-229 | the first failing field stops the walk; the fields before it are stepped and the rest kept |
| SchemaRows.CastRowSucceeds | schema/schema.go:197-251 | success exactly when the row has one cell per field and every bound non-missing cell casts and stores; each is then stored |
| SchemaRows.CastRowKeepsMissing | schema/schema.go:197-229 | a field whose cell is a missing value keeps its prior value |
| SchemaRows.CastRowFirstError | schema/schema.go:197-229 | the error is the first failing field's; earlier fields are assigned and later ones untouched |
| SchemaRows.RawCellsMeaning | schema/schema.go:317-345 | collection fails exactly when some bound field fails to encode; otherwise one cell per bound field, at its schema position |
| SchemaRows.SortByPos | schema/schema.go:303-315 | sort.Sort on the cells leaves them ordered by position, a permutation of the input |
| SchemaRows.InsertLast | schema/schema.go:303-315 | one insertion step extends the sorted prefix |
| SchemaRows.Swap | schema/schema.go:311 | rawRow.Swap exchanges the two cells |
| SchemaRows.UncastRow | schema/schema.go:317-345 | one encoded cell per bound field, in schema position order; the first encoding error aborts |
| SchemaRows.UncastTable | schema/schema.go:549-563 | every record uncast in turn; the first failure aborts |
| SchemaRows.CastCellsMeaning | schema/schema.go:517-546 | a column casts exactly when every cell casts and converts; the first failure is the error |
| SchemaRows.ColumnFailure | schema/schema.go:517-546 | why one cell cannot be stored |
| SchemaRows.CastColumn | schema/schema.go:517-546 | the named field's cells cast in order into the slice, or the first error |
| SchemaTable.UniqueIndexes | schema/schema.go:495-511 | the primary-key positions and the unique-constrained positions |
| SchemaTable.ExtractUniqueFieldIndexes | schema/schema.go:495-511 | each unique index exactly once |
| SchemaTable.CastTable | schema/schema.go:441-493 | the rows are cast into fresh records with unique checks, as CastTableSpec says |
| SchemaTable.CheckUniquePasses | schema/schema.go:470-480 | the checks pass exactly when every key is a struct field index whose value is unseen there |
| SchemaTable.CheckUnique | schema/schema.go:470-480 | its only failure is the index-out-of-range panic; a reported duplicate is a Duplicate error on the current row |
| SchemaTable.StopsStep | schema/schema.go:470-480 | a first key that passes moves the first already-seen key one place on and adds its own pair to the cache |
| SchemaTable.CheckUniqueCaches | schema/schema.go:470-480 | after passing checks, every key's value is cached |
| SchemaTable.CheckUniqueStops | schema/schema.go:470-480 | a duplicate stops at the first seen key, with one error naming its field |
| SchemaTable.AdvanceMeaning | schema/schema.go:461-484 | one row: the index advances by one, the record is kept exactly when the row casts, at most one error |
| SchemaTable.CastRowsKeeps | schema/schema.go:461-484 | exactly the rows that cast are kept, in order, duplicates included |
| SchemaTable.CastRowsErrors | schema/schema.go:461-484 | errors are appended one row at most each, in row order |
| SchemaTable.CastRowsErrorsExplained | schema/schema.go:461-484 | each error is its row's CastRow failure or a duplicate |
| SchemaTable.CastRowsRecordsFailures | schema/schema.go:461-484 | every row failing CastRow is recorded with its own index |
| SchemaTable.ErrorsKept | schema/schema.go:461-484 | recorded errors stay recorded |
| SchemaTable.CastTableReport | schema/schema.go:441-493 | without table or iteration errors and panics, the records of exactly the rows that cast; no error exactly when no row was recorded |
| SchemaTable.UnknownPrimaryKeyPanics | schema/schema.go:470-480 | a primary key naming no field makes the first cast row panic |
| SchemaTable.DuplicateRowKept | schema/schema.go:461-484 | a repeated row is kept and gets one duplicate error |
| SchemaTable.CorrectedCheckUniqueFlags | schema/schema.go:470-480 | the intended check flags a row exactly when it repeats a value already seen at a unique position |
| SchemaTable.CorrectedCastRowsKeeps | schema/schema.go:461-484 | the intended checks still keep exactly the rows that cast |
| SchemaExamples.NameIsTheUniqueIndex | schema/schema.go:495-511 | the only unique index is the name's position |
| SchemaExamples.RowCastsSwapped | schema/schema.go:197-229 | struct fields are found by name, not by position |
| SchemaExamples.DuplicateNameMissed | schema/schema.go:470-480 | a duplicated unique name goes unreported |
| SchemaExamples.DuplicateNameCaught | schema/schema.go:470-480 | the intended checks report the second row |
| Table.SliceTable.ReadAll | table/table.go:92-94 | ReadAll never fails and returns the rows given |
| Table.SliceTable.Headers | table/table.go:86-89 | the headers the table was built with |
| Table.SliceIterator.constructor | table/table.go:99-101 | a new iterator is before the first row |
| Table.SliceIterator.Next | table/table.go:108-111 | moves on one row; true on the first \|content\| calls and false after |
| Table.SliceIterator.Row | table/table.go:112 | the row the last true Next reached; with none, Go's index panic |
| Table.SliceIterator.LastError | table/table.go:113 | Err never reports an error |
| Table.SliceIterator.Close | table/table.go:114 | Close never reports an error |
| Table.Iter | table/table.go:99-101 | always a fresh iterator over the rows, before the first |
| TableCsv.FirstIndexOf | table/csv.go:42 | the first position of the separator, or none |
| TableCsv.Split | table/csv.go:42 | strings.Split: separator-free pieces, one more than the separators |
| TableCsv.SplitJoin | table/csv.go:42 | joining the pieces gives the text back |
| TableCsv.JoinSplit | table/csv.go:42 | splitting a join of separator-free pieces gives them back |
| TableCsv.ReadLine | table/csv.go:29-41 | ReadString('\n'): the text through the first newline, or all the rest and the reader's final error |
| TableCsv.SkipComments | table/csv.go:29-41 | the reader after the comment loop, and the header line or error found |
| TableCsv.CommentSkipped | table/csv.go:29-41 | a comment line before the header is dropped |
| TableCsv.HeaderFound | table/csv.go:29-41 | a non-comment line is the header, with the rest left unread |
| TableCsv.NoNewlineNoHeader | table/csv.go:29-41 | without a newline all the text is read and the final error, EOF or not, is found |
| TableCsv.UnquoteFrom | table/csv.go:43-48 | each piece is unquoted; the first failing piece becomes "" and stops the loop with an error |
| TableCsv.UnquoteAll | table/csv.go:43-48 | when every piece unquotes, each is replaced and there is no error |
| TableCsv.UnquoteStops | table/csv.go:43-48 | at the first failing piece: earlier pieces unquoted, it becomes "", later ones kept |
| TableCsv.HeadersFromLine | table/csv.go:23-51 | a header line of quoted pieces gives the unquoted pieces, with the reader just after the line |
| TableCsv.FailureAborts | table/csv.go:12-20 | options after a failing one are never applied |
| TableCsv.CSVHeadersReadsNothing | table/csv.go:63-68 | CSVHeaders consumes no input |
| TableCsv.Table.constructor | table/csv.go:12-20 | a table over the source with no headers |
| TableCsv.Table.LoadCSVHeaders | table/csv.go:23-51 | skips comments, then splits and unquotes the header line in place, as LoadCSVHeadersSpec says |
| TableCsv.Table.CSVHeaders | table/csv.go:63-68 | only the headers change |
| TableCsv.Table.Apply | table/csv.go:12-20 | one option applied as OptSpec says |
| TableCsv.CSV | table/csv.go:12-20 | the options applied in order, or the first error |
| CsvIterator.NextSpec | csv/iterator.go:28-42 | the rest never grows, a true result consumes input, and a skip leaves no skip behind |
| CsvIterator.CsvIter.constructor | csv/iterator.go:11-17 | a new iterator over the source, with the schema and skip flag given |
| CsvIterator.CsvIter.Next | csv/iterator.go:28-42 | the new state and result are NextSpec's |
| CsvIterator.CsvIter.CastRow | csv/iterator.go:44-49 | "no schema" without a schema; otherwise the schema's CastRow on the current row |
| CsvIterator.CsvIter.Row | csv/iterator.go:51-53 | the record of the most recent read, as the iterator state holds it |
| CsvIterator.CsvIter.LastError | csv/iterator.go:55-57 | the stored error of the iterator state |
| CsvIterator.NextReadsOne | csv/iterator.go:28-42 | with no skip and no stored error, one Next reads one result: a record (true, no error), a malformed line (false, its cells and its error), or the end (false, no record, io.EOF not stored) |
| CsvIterator.Collect | csv/reader.go:54-64 | every row a true Next reaches, in order |
| CsvIterator.Take | csv/reader.go:141-161 | the first n rows, or all of them when fewer |
| CsvIterator.Sample | csv/reader.go:141-161 | the first 100 rows Next reaches, or all when fewer |
| CsvIterator.DrainRecords | csv/iterator.go:28-42 | without skipping, every record, in order |
| CsvIterator.DrainStopsAtMalformed | csv/iterator.go:28-42 | at the first malformed line: earlier records, its error stored, nothing after read |
| CsvIterator.StickyError | csv/iterator.go:28-42 | with an error stored, Next reads nothing and reports false |
| CsvIterator.SkipHeaderRecords | csv/iterator.go:28-42 | with skipping, a source of no records or two or more gives every record after the first |
| CsvIterator.HeaderOnlyYieldsEmptyRow | csv/iterator.go:37-41 | with skipping, a header-only source gives one empty row |
| CsvIterator.CorrectedNextSpec | csv/iterator.go:28-42 | the corrected Next returns the result of the read after the header |
| CsvIterator.CorrectedDrainRecords | csv/iterator.go:28-42 | without skipping, the corrected Next yields every record |
| CsvIterator.CorrectedSkipsHeader | csv/iterator.go:28-42 | with skipping, the corrected Next yields exactly the records after the header |
| CsvSource.Outcome | csv/reader.go:98-106 | an option's result fails exactly when it reported an error |
| CsvSource.FailureStops | csv/reader.go:98-106 | options after a failing one make no difference; errorOpts first is the whole result |
| CsvSource.OpeningFails | csv/reader.go:110-161 | options that open a source that cannot be opened report its error |
| CsvSource.LoadHeadersThenAll | csv/reader.go:110-122 | the first record becomes the headers and, unless it is the only one, All yields the rest |
| CsvSource.SetHeadersThenAll | csv/reader.go:125-130 | SetHeaders consumes nothing; All yields every record |
| CsvSource.HeaderOnlyInferFails | csv/reader.go:141-161 | a header-only source with LoadHeaders makes InferSchema fail at row 0 |
| CsvReader.Reader.constructor | csv/reader.go:98-106 | New starts with no headers, no schema and no skipping |
| CsvReader.Reader.Iter | csv/reader.go:32-38 | the source's error, or a fresh iterator with the schema and skip flag |
| CsvReader.Reader.All | csv/reader.go:54-64 | the rows of one full iteration, as AllSpec says |
| CsvReader.Reader.LoadHeaders | csv/reader.go:110-122 | the first row becomes the headers and skipping is set; an opening error leaves the reader unchanged |
| CsvReader.Reader.SetHeaders | csv/reader.go:125-130 | only the headers change |
| CsvReader.Reader.WithSchema | csv/reader.go:133-138 | only the schema changes |
| CsvReader.Reader.InferSchema | csv/reader.go:141-161 | Infer on the first 100 rows; on success only the schema changes |
| CsvReader.Reader.Apply | csv/reader.go:98-106 | one option applied as Step says |
| CsvReader.New | csv/reader.go:98-106 | the options run in order from a fresh reader, or the first error |
| CsvTable.Table.constructor | csv/table.go:115-123 | New starts with no headers, no schema and no skipping |
| CsvTable.Table.Iter | csv/table.go:28-34 | the source's error, or a fresh iterator with the schema and skip flag |
| CsvTable.Table.All | csv/table.go:72-82 | the rows of one full iteration, as AllSpec says |
| CsvTable.Table.LoadHeaders | csv/table.go:127-139 | the first row becomes the headers and skipping is set |
| CsvTable.Table.SetHeaders | csv/table.go:142-147 | only the headers change |
| CsvTable.Table.WithSchema | csv/table.go:150-155 | only the schema changes |
| CsvTable.Table.Infer | csv/table.go:37-56 | Infer on the first 100 rows; on success only the schema changes |
| CsvTable.Table.Apply | csv/table.go:115-123 | one option applied as StepOf says; a failing option changes nothing |
| CsvTable.ReaderOpt | csv/table.go:84-85 | every option of csv/table.go is a csv/reader.go option other than InferSchema |
| CsvTable.StepAgrees | csv/table.go:127-161 | each option's one result is a result csv/reader.go's Step allows for it |
| CsvTable.RunAgrees | csv/table.go:115-123 | running options in order gives a result csv/reader.go's New allows for the same options |
| CsvTable.New | csv/table.go:115-123 | the options run in order from a fresh table (RunOf), or the first error, with the options after it not run |

## Left out

- schema/number.go, array.go and object.go: floating point and JSON values. Their casts appear only as uninterpreted `Host.Library` functions where other codecs call them.
- The Go standard library (`time`, `regexp`, `net/url`, `net/mail`, uuid, `encoding/json`, `strconv.ParseFloat`, `strconv.Unquote`, `fmt` float formatting, `time.Duration.String`, `unicode.ToUpper`): each is a `Host.Library` parameter, unconstrained.
- `checkConstraints` and `Field.Cast`/`Field.Uncast`/`castValue` are not part of this model. The first is reconstructed from the tests as `Bounds.CheckTimeBounds`. The others are the function-typed fields of `SchemaRows.Binding`.
- Reflection: `getStructFields`' recursion into embedded structs, pointer targets and `ConvertibleTo` checks, and `UncastRow`'s walk over every top-level struct field, unexported and unflattened ones included (schema/schema.go:322-338). Records are flat sequences of struct fields, and storing a value is a `Binding` function.
- JSON decoding of the schema descriptor into Go structs: `Schema.Read` and `Schema.UnmarshalSchema` start from the decoded descriptor.
- `LoadFromFile`, `LoadRemote`, `Write`, `SaveToFile`, `String`, `MarshalJSON`, and the `csv` and `table` packages' `FromFile`/`CSVFile`/`Remote` and file helpers: file, network and encoding I/O.
- `table/iterator.go`, the `Iterator` interface, and the `CastAll`/`Cast` convenience methods of `Reader`/`Table`: interface plumbing over the modelled operations.
- The CSV tokeniser (`encoding/csv`): a source is the sequence of reads it would yield, `CsvIterator.Read`. Opening a source afresh is the `Source` value itself.
- Go's nil versus empty slices: both are the empty sequence.
- Panics other than the index and type-assertion panics in the modelled code are not modelled. Those two appear as `Panic` errors.
- Concurrency and the reuse of the out slice `CastTable` appends to: not modelled, since each call builds a fresh sequence.
- `SchemaTable.ExtractUniqueFieldIndexes`: Go lists map keys in an unspecified order; the model lists primary keys first and states only that every index appears once.
- `Infer.Infer` and `Infer.ChooseType`: which of several equally voted types wins depends on map order; the model leaves the choice open, and the CSV `InferStep` relation accepts any.
- schema/infer_test.go calls an `infer(headers, table, orderedTypes)` that schema/infer.go does not define; its single-cell cases for object, array, time, year and the like expect types the modelled `Infer` never votes for. Only the ManyCells case, whose cells vote for the four modelled types, is worked as an example (`InferExamples.ManyCells`).
- `TableCsv.CSV`: on failure the Go code returns an empty `Table` beside the error; the model returns only the error.
- GeoPointCodec.ApplyAccepts: coordinates are reals, and a failed ParseFloat reads as 0. Go's ParseFloat returns ±Inf, not 0, on a range error (schema/geopoint.go:68-69), and the model cannot express that point.
- Duration.ParseSeconds, Duration.ParseSecondsOf, Duration.CastSecondsOnly, Duration.CastDesignatorText: Go computes the seconds as `time.Duration(d * 10e8)` from a float64 ParseFloat (schema/duration.go:49-50), so it rounds in binary floating point. The model uses the exact decimal in nanoseconds, truncated after nine fractional digits. Go leaves an out-of-range float-to-int64 conversion implementation-defined; the model wraps it.
- `Duration.CorrectedUncastDuration`: a negative duration has no designator form, so the corrected encoder keeps the as-written text for it and its round trip is proved only for non-negative durations. It also writes the seconds fraction with all nine digits ("0.500000000S" where schema/duration_test.go:59 expects "0.5S").
- `CsvSource.LoadHeadersThenAll`, `CsvIterator.SkipHeaderRecords`: a source holding only the header is excluded here and shown separately as finding 5.

## Findings

| source | as written | input that shows it | evidently intended | confidence | as-written member | corrected member |
|---|---|---|---|---|---|---|
| schema/duration.go:53-65 | the remainder below a day is rendered by `Duration.String` and upper-cased, so sub-second values use "MS", "US" or "NS" units that castDuration does not know | 500ms encodes as "P0Y0M0DT500MS", which casts back as 500 minutes | every component written as a designator, seconds with a nine-digit fraction, so that the encoding casts back to the same duration | not executed | DurationExamples.UncastSubSecondMisread | Duration.CorrectedRoundTrip |
| schema/geopoint.go:42-71 | the default pattern accepts a coordinate made only of a sign or a point, and a failed ParseFloat is ignored | "+,-" casts to the point (0, 0) | a coordinate without a digit is refused | not executed | GeoPointExamples.SignsReadAsOrigin | GeoPointCodec.CorrectedReadsNumerals |
| schema/datetime.go:55-75 | strftime tokens are replaced one by one in map order, so a replacement can create a token that a later replacement rewrites | "%%z" becomes "MST0700" or "%Z0700" depending on the order | each token of the format translated once, in one left-to-right pass | not executed | DateTimeExamples.TranslationDependsOnOrder | DateTime.ScanFormatPieces |
| schema/schema.go:470-480 | the unique check reads struct field k, where k is a schema position | a struct declaring name before id, read against a schema (id, name) whose name is unique: two rows with different ids and the same name are not reported | the value of the field at schema position k is compared | not executed | SchemaExamples.DuplicateNameMissed | SchemaTable.CorrectedCheckUniqueFlags |
| csv/iterator.go:37-41 | with skipHeaders, Next calls itself but returns the status of its own read of the header | a source holding only a non-empty header, with LoadHeaders: All yields one empty row and InferSchema fails with NotTabular(0) | the result of the read after the header, so that a header-only source yields no rows | not executed | CsvIterator.HeaderOnlyYieldsEmptyRow | CsvIterator.CorrectedSkipsHeader |

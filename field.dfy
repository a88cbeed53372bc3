/** field.go: the defaults a field descriptor gets when its type or format is left
    empty. */
module SchemaField {

  const DefaultFieldType := "string"
  const DefaultFieldFormat := "default"

  /** The formats the codecs read as "use the type's default form". */
  predicate IsDefaultFormat(format: string)
  {
    format == "" || format == DefaultFieldFormat
  }

  /** A field descriptor's name, type and format, as values. */
  datatype Descriptor = Descriptor(name: string, fieldType: string, format: string)

  /** The descriptor setDefaultValues leaves behind. */
  function Defaulted(d: Descriptor): (r: Descriptor)
    ensures r.name == d.name
    ensures r.fieldType != "" && r.format != ""
    ensures d.fieldType != "" ==> r.fieldType == d.fieldType
    ensures d.format != "" ==> r.format == d.format
  {
    Descriptor(d.name,
               if d.fieldType == "" then DefaultFieldType else d.fieldType,
               if d.format == "" then DefaultFieldFormat else d.format)
  }

  /** An empty type becomes "string" and an empty format "default". */
  lemma DefaultedEmpty(name: string)
    ensures Defaulted(Descriptor(name, "", "")) == Descriptor(name, "string", "default")
  {
  }

  /** Applying the defaults twice is applying them once. */
  lemma DefaultedIdempotent(d: Descriptor)
    ensures Defaulted(Defaulted(d)) == Defaulted(d)
  {
  }

  /** field.go's Field, whose Type and Format setDefaultValues writes in place. */
  class Field {
    var name: string
    var fieldType: string
    var format: string

    constructor(name: string, fieldType: string, format: string)
      ensures Snapshot() == Descriptor(name, fieldType, format)
    {
      this.name := name;
      this.fieldType := fieldType;
      this.format := format;
    }

    function Snapshot(): Descriptor
      reads this
    {
      Descriptor(name, fieldType, format)
    }

    /** setDefaultValues */
    method SetDefaultValues()
      modifies this
      ensures Snapshot() == Defaulted(old(Snapshot()))
    {
      if fieldType == "" {
        fieldType := DefaultFieldType;
      }
      if format == "" {
        format := DefaultFieldFormat;
      }
    }
  }
}

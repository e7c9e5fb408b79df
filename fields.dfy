/** A field of a record: the column it belongs to and its text value. */
module Fields {
  import opened CsvErrors
  import opened Columns

  datatype CsvField = CsvField(column: CsvColumn, value: string)

  /** `new CsvField(column, value)`: a null column or a null value is
      refused with a NullPointerException. */
  function NewField(column: Option<CsvColumn>, value: Option<string>): (r: Result<CsvField>)
    ensures r.Ok? <==> column.Some? && value.Some?
    ensures r.Ok? ==> r.value.column == column.value && r.value.value == value.value
    ensures r.Err? ==> r.error == NullPointer
  {
    if column.None? || value.None? then Err(NullPointer)
    else Ok(CsvField(column.value, value.value))
  }

  /** `setValue`: the field with its value replaced and its column kept. */
  function SetValue(f: CsvField, value: string): (r: CsvField)
    ensures r.column == f.column && r.value == value
    ensures r == f <==> f.value == value
  {
    f.(value := value)
  }

  /** `equals(obj)`, where `None` stands for null or for an object that is
      not a field: true exactly for a field with an equal column and value. */
  function Equals(f: CsvField, obj: Option<CsvField>): (r: bool)
    ensures r <==> obj == Some(f)
  {
    match obj
    case None => false
    case Some(g) => f.column == g.column && f.value == g.value
  }

  /** `clone()`: a copy equal to the original. */
  function Clone(f: CsvField): (r: CsvField)
    ensures Equals(f, Some(r)) && Equals(r, Some(f))
  {
    CsvField(Keyed(f.column.name, f.column.isPrimaryKey), f.value)
  }

  /** `toString()`: the column name and the value, each in double quotes,
      separated by `: `. */
  function ToString(f: CsvField): (r: string)
    ensures |r| == |f.column.name| + |f.value| + 6
    ensures r[0] == '"' && r[1..1 + |f.column.name|] == f.column.name
    ensures r[1 + |f.column.name|..5 + |f.column.name|] == "\": \""
    ensures r[5 + |f.column.name|..|r| - 1] == f.value && r[|r| - 1] == '"'
  {
    "\"" + f.column.name + "\": \"" + f.value + "\""
  }

  /** Equality is reflexive, distinguishes the key flag and the value, and
      is false for null. */
  lemma EqualsExamples()
    ensures var f1 := CsvField(Keyed("Id", true), "2");
            Equals(f1, Some(f1)) && Equals(f1, Some(CsvField(Keyed("Id", true), "2")))
            && !Equals(f1, Some(CsvField(Keyed("Id", false), "2"))) && !Equals(f1, None)
    ensures !Equals(CsvField(Keyed("Id", false), "2"), Some(CsvField(Keyed("Id", false), "4")))
  {
  }
}

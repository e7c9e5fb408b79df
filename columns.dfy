/** A column of a CSV table: a name and whether it is the primary key. */
module Columns {

  /** Columns are values: two columns are equal exactly when their names
      and primary-key flags are. */
  datatype CsvColumn = CsvColumn(name: string, isPrimaryKey: bool)

  /** `new CsvColumn(name)`. */
  function Plain(name: string): (c: CsvColumn)
    ensures c.name == name && !c.isPrimaryKey
  {
    CsvColumn(name, false)
  }

  /** `new CsvColumn(name, foreignTable)`: the referenced table is stored by
      the source but never read, so only its name is taken here, and dropped. */
  function ForeignKey(name: string, foreignTable: string): (c: CsvColumn)
    ensures c.name == name && !c.isPrimaryKey
  {
    CsvColumn(name, false)
  }

  /** `new CsvColumn(name, isPrimaryKey)`. */
  function Keyed(name: string, isPrimaryKey: bool): (c: CsvColumn)
    ensures c.name == name && c.isPrimaryKey == isPrimaryKey
  {
    CsvColumn(name, isPrimaryKey)
  }

  /** The column rendered as text: its name, marked `(PK)` when it is the
      primary key. */
  function Render(c: CsvColumn): (r: string)
    ensures |r| == |c.name| + (if c.isPrimaryKey then 4 else 0)
    ensures r[..|c.name|] == c.name
    ensures c.isPrimaryKey ==> r[|c.name|..] == "(PK)"
  {
    if c.isPrimaryKey then c.name + "(PK)" else c.name
  }

  /** Equality compares both components, and names are case-sensitive. */
  lemma ColumnEquality(a: CsvColumn, b: CsvColumn)
    ensures a == b <==> a.name == b.name && a.isPrimaryKey == b.isPrimaryKey
    ensures Keyed("Id", true) != Keyed("ID", true)
    ensures Keyed("Id", true) != Keyed("Id", false)
  {
    assert "Id"[1] != "ID"[1];
  }

  /** The renderings a reader of the table sees. */
  lemma RenderExamples()
    ensures Render(Keyed("Id", true)) == "Id(PK)"
    ensures Render(Keyed("val", false)) == "val"
  {
  }
}

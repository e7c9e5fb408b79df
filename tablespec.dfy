/** A CSV table as a value, and what each table operation does to it:
    header parsing, positional row loading, key indexing, serialisation,
    column reordering and policy-driven unification. */
module TableSpec {
  import opened CsvErrors
  import opened Strings
  import opened Columns
  import opened Fields
  import opened Records
  import opened FileParser

  /** What `unify` does with a candidate record whose key the table lacks. */
  datatype UnificationOptions = THROW | LOG | DEFAULT

  /** The state of a `CsvTable`, with its records as values. */
  datatype TableValue = TableValue(
    name: string,
    columns: map<string, CsvColumn>,   // by name; a later column of the same name wins
    columnsInOrder: seq<CsvColumn>,
    primaryKey: Option<CsvColumn>,
    keys: seq<string>,                 // in the order records were added, repeats kept
    records: map<string, RecordValue>,
    recordNo: int,                     // the number the next added record gets
    option: UnificationOptions)

  /** A table with no columns and no records. */
  function EmptyTable(name: string, option: UnificationOptions): TableValue {
    TableValue(name, map[], [], None, [], map[], 0, option)
  }

  /** Each name of `columns` indexes a column of that name that is in the
      list, and every listed column's name is indexed. */
  ghost predicate ColumnsIndexed(columns: map<string, CsvColumn>, cols: seq<CsvColumn>) {
    && (forall n :: n in columns ==> columns[n].name == n && columns[n] in cols)
    && (forall i :: 0 <= i < |cols| ==> cols[i].name in columns)
  }

  /** What every table state satisfies: the keys list and the record map
      have the same keys, the column index agrees with the column list, and
      a primary key is only set once there is a column. */
  ghost predicate WellFormed(t: TableValue) {
    && KeysIndexed(t.keys, t.records)
    && ColumnsIndexed(t.columns, t.columnsInOrder)
    && (t.primaryKey.Some? ==> |t.columnsInOrder| > 0)
  }

  /** The keys list and the record map have the same keys. */
  ghost predicate KeysIndexed(keys: seq<string>, records: map<string, RecordValue>) {
    forall k :: k in keys <==> k in records
  }

  lemma EmptyWellFormed(name: string, option: UnificationOptions)
    ensures WellFormed(EmptyTable(name, option))
  {
  }

  // ---------------------------------------------------------------------
  // addColumn, add, defaulted

  /** `addColumn(column)`: appended to the list and indexed by name. */
  function AddColumnSpec(t: TableValue, c: CsvColumn): TableValue {
    t.(columnsInOrder := t.columnsInOrder + [c], columns := t.columns[c.name := c])
  }

  /** Adding a column keeps a table well formed, lengthens the list by one
      and leaves records, keys and the primary key alone. */
  lemma AddColumnWellFormed(t: TableValue, c: CsvColumn)
    requires KeysIndexed(t.keys, t.records) && ColumnsIndexed(t.columns, t.columnsInOrder)
    ensures var r := AddColumnSpec(t, c);
            && WellFormed(r) && t.columnsInOrder <= r.columnsInOrder
            && |r.columnsInOrder| == |t.columnsInOrder| + 1 && r.columns[c.name] == c
            && r.keys == t.keys && r.records == t.records && r.primaryKey == t.primaryKey
  {
    var r := AddColumnSpec(t, c);
    forall n | n in r.columns
      ensures r.columns[n].name == n && r.columns[n] in r.columnsInOrder
    {
      if n != c.name {
        assert r.columns[n] == t.columns[n];
      } else {
        assert r.columnsInOrder[|t.columnsInOrder|] == c;
      }
    }
  }

  /** The key a record is filed under: the value of its last key field. */
  function KeyOf(r: RecordValue): Option<string> {
    KeyValueOf(r.fields)
  }

  /** `add(record)`: a record without a key field is refused; otherwise it
      takes the next record number, its key is appended to `keys` and the
      record is filed under it, replacing any record with the same key. */
  function AddSpec(t: TableValue, r: RecordValue): (res: Result<TableValue>)
    ensures res.Ok? <==> KeyOf(r).Some?
  {
    match KeyOf(r)
    case None => Err(MissingPrimaryKey)
    case Some(k) =>
      Ok(t.(recordNo := t.recordNo + 1, keys := t.keys + [k], records := t.records[k := r.(recordNo := t.recordNo)]))
  }

  /** Adding keeps a table well formed; the new key ends `keys` and indexes
      the record with the table's record number; every other key, the
      columns and the policy are kept. There is no duplicate check. */
  lemma AddWellFormed(t: TableValue, r: RecordValue)
    requires WellFormed(t) && KeyOf(r).Some?
    ensures var res := AddSpec(t, r).value;
            var k := KeyOf(r).value;
            && WellFormed(res)
            && res.keys == t.keys + [k] && res.records.Keys == t.records.Keys + {k}
            && res.records[k] == r.(recordNo := t.recordNo) && res.recordNo == t.recordNo + 1
            && (forall k2 :: k2 in t.records && k2 != k ==> res.records[k2] == t.records[k2])
            && res.columnsInOrder == t.columnsInOrder && res.columns == t.columns
            && res.primaryKey == t.primaryKey && res.option == t.option
  {
  }

  /** Adding two records with the same key lists the key twice and keeps
      only the second record. */
  lemma AddSameKeyTwice(t: TableValue, r1: RecordValue, r2: RecordValue)
    requires WellFormed(t) && KeyOf(r1).Some? && KeyOf(r1) == KeyOf(r2)
    ensures var k := KeyOf(r1).value;
            var t2 := AddSpec(AddSpec(t, r1).value, r2);
            && t2.Ok? && t2.value.keys == t.keys + [k, k]
            && t2.value.records[k] == r2.(recordNo := t.recordNo + 1)
  {
    AddWellFormed(t, r1);
    var t1 := AddSpec(t, r1).value;
    AddWellFormed(t1, r2);
    assert t.keys + [KeyOf(r1).value] + [KeyOf(r1).value] == t.keys + [KeyOf(r1).value, KeyOf(r1).value];
  }

  /** An empty field for every listed column not named `keyName`, in order. */
  function DefaultFields(cols: seq<CsvColumn>, keyName: string): seq<CsvField>
    decreases |cols|
  {
    if |cols| == 0 then []
    else DefaultFields(cols[..|cols| - 1], keyName) + DefaultFor(cols[|cols| - 1], keyName)
  }

  /** The empty field `defaulted` adds for one column: none for the key's. */
  function DefaultFor(column: CsvColumn, keyName: string): seq<CsvField> {
    if column.name != keyName then [CsvField(column, "")] else []
  }

  /** The default fields are empty, belong to listed columns other than
      `keyName`, and cover every such column. */
  lemma {:induction false} DefaultFieldsShape(cols: seq<CsvColumn>, keyName: string)
    ensures var fs := DefaultFields(cols, keyName);
            && |fs| <= |cols|
            && (forall i :: 0 <= i < |fs| ==> fs[i].value == "" && fs[i].column in cols && fs[i].column.name != keyName)
            && (forall i :: 0 <= i < |cols| && cols[i].name != keyName ==> CsvField(cols[i], "") in fs)
    decreases |cols|
  {
    if |cols| > 0 {
      var init := cols[..|cols| - 1];
      DefaultFieldsShape(init, keyName);
      assert forall i :: 0 <= i < |cols| - 1 ==> init[i] == cols[i];
    }
  }

  /** `defaulted(from)`: a record holding `from`'s key field and then an
      empty field for every other column of the table, with `from`'s line
      number; a record without a key field is refused. */
  function DefaultedSpec(t: TableValue, from: RecordValue): (r: Result<RecordValue>)
    ensures r.Ok? <==> LastKeyField(from.fields).Some?
    ensures r.Ok? ==> KeyOf(r.value).Some?
  {
    match LastKeyField(from.fields)
    case None => Err(MissingPrimaryKey)
    case Some(kf) =>
      var fs := [kf] + DefaultFields(t.columnsInOrder, kf.column.name);
      assert fs[0] == kf;
      Ok(RecordValue(fs, from.lineNo, 0))
  }

  /** The defaulted record starts with the key field, then holds exactly the
      empty fields of the table's other columns, with the source's line
      number and no record number yet. */
  lemma DefaultedShape(t: TableValue, from: RecordValue)
    requires LastKeyField(from.fields).Some?
    ensures var r := DefaultedSpec(t, from).value;
            var kf := LastKeyField(from.fields).value;
            && |r.fields| >= 1 && r.fields[0] == kf
            && r.lineNo == from.lineNo && r.recordNo == 0
            && (forall i :: 1 <= i < |r.fields| ==>
                  r.fields[i].value == "" && r.fields[i].column in t.columnsInOrder
                  && r.fields[i].column.name != kf.column.name)
            && (forall i :: 0 <= i < |t.columnsInOrder| && t.columnsInOrder[i].name != kf.column.name ==>
                  CsvField(t.columnsInOrder[i], "") in r.fields[1..])
  {
    var kf := LastKeyField(from.fields).value;
    var fs := DefaultFields(t.columnsInOrder, kf.column.name);
    DefaultFieldsShape(t.columnsInOrder, kf.column.name);
    var r := DefaultedSpec(t, from).value;
    assert r.fields == [kf] + fs;
    assert r.fields[1..] == fs;
    forall i | 1 <= i < |r.fields|
      ensures r.fields[i] == fs[i - 1]
    {
    }
  }

  /** A defaulted record is filed under its source record's key, unless the
      table has another key column, whose empty field then comes later. */
  lemma DefaultedKey(t: TableValue, from: RecordValue)
    requires LastKeyField(from.fields).Some?
    requires forall i :: 0 <= i < |t.columnsInOrder| && t.columnsInOrder[i].isPrimaryKey ==>
               t.columnsInOrder[i].name == LastKeyField(from.fields).value.column.name
    ensures KeyOf(DefaultedSpec(t, from).value) == KeyOf(from)
  {
    var d := DefaultedSpec(t, from).value;
    var kf := LastKeyField(from.fields).value;
    DefaultedShape(t, from);
    forall i | 1 <= i < |d.fields|
      ensures !d.fields[i].column.isPrimaryKey
    {
      var c := d.fields[i].column;
      var j :| 0 <= j < |t.columnsInOrder| && t.columnsInOrder[j] == c;
    }
    LastKeyOfFirst(d.fields);
  }

  /** When only the first field is a key field, it is the last key field. */
  lemma LastKeyOfFirst(fs: seq<CsvField>)
    requires |fs| >= 1 && fs[0].column.isPrimaryKey
    requires forall i :: 1 <= i < |fs| ==> !fs[i].column.isPrimaryKey
    ensures LastKeyField(fs) == Some(fs[0])
    decreases |fs|
  {
    if |fs| > 1 {
      var init := fs[..|fs| - 1];
      assert init[0] == fs[0];
      assert forall i :: 1 <= i < |init| ==> init[i] == fs[i];
      LastKeyOfFirst(init);
    }
  }

  // ---------------------------------------------------------------------
  // defineColumns

  /** The loop of `defineColumns` from parser state `s`: every non-empty
      token becomes a column, the primary key when it is the first. */
  function HeaderLoop(t: TableValue, s: ParserState): (r: (Result<TableValue>, ParserState))
    requires Inv(s)
    ensures Inv(r.1) && r.1.input == s.input && r.1.cursor >= s.cursor
    decreases |s.input| - s.cursor, |s.line| + 2 - s.position, if s.emptyLastField then 1 else 0
  {
    if s.atEnd then (Err(NullPointer), s)
    else if !HasMore(s) then (Ok(t), s)
    else
      var (tok, s1) := Token(s, false);
      if tok.Err? then (Err(tok.error), s1)
      else if tok.value == "" then HeaderLoop(t, s1)
      else
        var column := Keyed(tok.value, |t.columnsInOrder| == 0);
        if column.isPrimaryKey && t.primaryKey.Some? then (Err(PrimaryKeyColumnAlreadySet(t.name)), s1)
        else
          var t1 := if column.isPrimaryKey then t.(primaryKey := Some(column)) else t;
          HeaderLoop(AddColumnSpec(t1, column), s1)
  }

  /** `defineColumns(parser)`: read the header line, then its tokens. */
  function DefineColumnsSpec(t: TableValue, s: ParserState): (r: (Result<TableValue>, ParserState))
    requires Inv(s)
    ensures Inv(r.1) && r.1.input == s.input && r.1.cursor >= s.cursor
  {
    HeaderLoop(t.(recordNo := 0), Advance(s).1)
  }

  /** The header loop only adds columns: it never finds a key column
      already set, since only the first column is a key; records and keys
      are kept and the result is well formed. */
  lemma {:induction false} HeaderLoopWellFormed(t: TableValue, s: ParserState)
    requires Inv(s) && WellFormed(t)
    ensures var r := HeaderLoop(t, s).0;
            && !(r.Err? && r.error.PrimaryKeyColumnAlreadySet?)
            && (r.Ok? ==> && WellFormed(r.value) && t.columnsInOrder <= r.value.columnsInOrder
                          && r.value.keys == t.keys && r.value.records == t.records
                          && r.value.recordNo == t.recordNo && r.value.name == t.name && r.value.option == t.option)
    decreases |s.input| - s.cursor, |s.line| + 2 - s.position, if s.emptyLastField then 1 else 0
  {
    if !s.atEnd && HasMore(s) {
      var (tok, s1) := Token(s, false);
      if tok.Ok? {
        if tok.value == "" {
          HeaderLoopWellFormed(t, s1);
        } else {
          var column := Keyed(tok.value, |t.columnsInOrder| == 0);
          var t1 := if column.isPrimaryKey then t.(primaryKey := Some(column)) else t;
          AddColumnWellFormed(t1, column);
          HeaderLoopWellFormed(AddColumnSpec(t1, column), s1);
        }
      }
    }
  }

  /** The non-empty strings of `ts`, in order. */
  function NonEmpty(ts: seq<string>): (r: seq<string>)
    ensures |r| <= |ts|
    ensures forall i :: 0 <= i < |r| ==> r[i] != "" && r[i] in ts
    decreases |ts|
  {
    if |ts| == 0 then []
    else (if ts[0] != "" then [ts[0]] else []) + NonEmpty(ts[1..])
  }

  /** The columns a header with these names defines: the first is the key. */
  function HeaderColumns(names: seq<string>): (cols: seq<CsvColumn>)
    ensures |cols| == |names|
    ensures forall i :: 0 <= i < |names| ==> cols[i] == Keyed(names[i], i == 0)
  {
    seq(|names|, i requires 0 <= i < |names| => Keyed(names[i], i == 0))
  }

  /** The index `addColumn` builds from a column list. */
  function ColumnIndex(cols: seq<CsvColumn>): map<string, CsvColumn>
    decreases |cols|
  {
    if |cols| == 0 then map[]
    else ColumnIndex(cols[..|cols| - 1])[cols[|cols| - 1].name := cols[|cols| - 1]]
  }

  /** The table after a header with these names has been read. */
  function WithHeader(t: TableValue, names: seq<string>): TableValue {
    var cols := HeaderColumns(names);
    t.(columnsInOrder := cols, columns := ColumnIndex(cols),
       primaryKey := if |names| == 0 then None else Some(cols[0]))
  }

  /** The column a non-empty header token adds, after the key is set. */
  function HeaderAdd(t: TableValue, name: string): TableValue {
    var column := Keyed(name, |t.columnsInOrder| == 0);
    AddColumnSpec(if column.isPrimaryKey then t.(primaryKey := Some(column)) else t, column)
  }

  /** One turn of the header loop on an empty token. */
  lemma HeaderLoopEmpty(t: TableValue, s: ParserState, s1: ParserState)
    requires Inv(s) && !s.atEnd && HasMore(s) && Token(s, false) == (Ok(""), s1)
    ensures HeaderLoop(t, s) == HeaderLoop(t, s1)
  {
  }

  /** One turn of the header loop on a non-empty token. */
  lemma HeaderLoopNonEmpty(t: TableValue, s: ParserState, v: string, s1: ParserState)
    requires Inv(s) && !s.atEnd && HasMore(s) && Token(s, false) == (Ok(v), s1) && v != ""
    requires |t.columnsInOrder| == 0 ==> t.primaryKey.None?
    ensures HeaderLoop(t, s) == HeaderLoop(HeaderAdd(t, v), s1)
  {
  }

  /** `t`'s columns are those of a header with these names. */
  ghost predicate HasHeader(t: TableValue, names: seq<string>) {
    && t.columnsInOrder == HeaderColumns(names)
    && t.columns == ColumnIndex(t.columnsInOrder)
    && t.primaryKey == if |names| == 0 then None else Some(t.columnsInOrder[0])
  }

  /** Reading one more non-empty header name extends the header by its
      column, the key exactly when it is the first. */
  lemma HeaderStep(t: TableValue, done: seq<string>, name: string)
    requires HasHeader(t, done)
    ensures var t2 := HeaderAdd(t, name);
            && HasHeader(t2, done + [name])
            && WithHeader(t2, done + [name]) == t2
            && t2.name == t.name && t2.keys == t.keys && t2.records == t.records
            && t2.recordNo == t.recordNo && t2.option == t.option
  {
    var done' := done + [name];
    var column := Keyed(name, |done| == 0);
    assert HeaderColumns(done') == HeaderColumns(done) + [column];
    assert HeaderColumns(done')[..|done'| - 1] == HeaderColumns(done);
  }

  /** `WithHeader` depends on the columns of neither table. */
  lemma WithHeaderSame(t: TableValue, t2: TableValue, names: seq<string>)
    requires t2.name == t.name && t2.keys == t.keys && t2.records == t.records
    requires t2.recordNo == t.recordNo && t2.option == t.option
    ensures WithHeader(t2, names) == WithHeader(t, names)
  {
  }

  /** The tail of a list without quoted fields has none either. */
  lemma NoQuotedTail(p: seq<string>)
    requires |p| >= 1 && NoQuotedField(p)
    ensures NoQuotedField(p[1..])
  {
    assert forall i :: 0 <= i < |p| - 1 ==> p[1..][i] == p[i + 1];
  }

  /** `defineColumns` makes one column per non-empty field of the header
      record, in order, the first of them the key, whether the fields are
      quoted or not and on however many lines they run; it stops where the
      record ends, and fails with the first field that fails to read. */
  lemma {:induction false} HeaderFields(t: TableValue, done: seq<string>, s: ParserState)
    requires Inv(s) && !s.atEnd && HasHeader(t, done)
    ensures var r := HeaderLoop(t, s);
            var f := RecordFields(s);
            && r.1 == f.1
            && (f.0.Ok? ==> r.0 == Ok(WithHeader(t, done + NonEmpty(f.0.value))))
            && (f.0.Err? ==> r.0 == Err(f.0.error))
    decreases |s.input| - s.cursor, |s.line| + 2 - s.position, if s.emptyLastField then 1 else 0
  {
    if !HasMore(s) {
      assert done + [] == done;
    } else {
      var (tok, s1) := Token(s, false);
      if tok.Ok? {
        var v := tok.value;
        var rest := RecordFields(s1).0;
        if v == "" {
          HeaderLoopEmpty(t, s, s1);
          HeaderFields(t, done, s1);
          if rest.Ok? {
            assert NonEmpty([v] + rest.value) == NonEmpty(rest.value) by {
              assert ([v] + rest.value)[1..] == rest.value;
            }
          }
        } else {
          var t2 := HeaderAdd(t, v);
          HeaderLoopNonEmpty(t, s, v, s1);
          HeaderStep(t, done, v);
          HeaderFields(t2, done + [v], s1);
          if rest.Ok? {
            var ne := NonEmpty(rest.value);
            assert NonEmpty([v] + rest.value) == [v] + ne by {
              assert ([v] + rest.value)[1..] == rest.value;
            }
            AppendAssoc(done, [v], ne);
            WithHeaderSame(t, t2, done + ([v] + ne));
          }
        }
      }
    }
  }

  /** On a header none of whose tokens is quoted, `defineColumns` makes one
      column per non-empty token, in order, the first of them the key; so a
      trailing comma adds no column, and the header ends on its own line. */
  lemma {:induction false} HeaderUnquoted(t: TableValue, done: seq<string>, s: ParserState)
    requires Inv(s) && !s.atEnd && NoQuotedField(Pending(s))
    requires HasHeader(t, done)
    ensures var r := HeaderLoop(t, s);
            && r.0 == Ok(WithHeader(t, done + NonEmpty(Pending(s))))
            && r.1.line == s.line && r.1.cursor == s.cursor && !r.1.atEnd && !HasMore(r.1)
  {
    HeaderFields(t, done, s);
    UnquotedRecord(s);
  }

  // ---------------------------------------------------------------------
  // loadRecord, load

  /** The fields `loadRecord` reads for the columns from index `i` on: one
      token per column, in order; the first failing token becomes a parse
      error naming the field number and the line reached. */
  function TakeFields(cols: seq<CsvColumn>, s: ParserState, i: nat): (r: (Result<seq<CsvField>>, ParserState))
    requires Inv(s) && !s.atEnd && i <= |cols|
    ensures Inv(r.1) && r.1.input == s.input && r.1.cursor >= s.cursor
    ensures r.0.Ok? ==> !r.1.atEnd && |r.0.value| == |cols| - i
    ensures r.0.Err? ==> r.0.error.ParseError? && i < r.0.error.fieldNo <= |cols| && r.0.error.lineNo == r.1.lineNo
    decreases |cols| - i
  {
    if i == |cols| then (Ok([]), s)
    else
      var (tok, s1) := Token(s, false);
      if tok.Err? then (Err(ParseError(i + 1, s1.lineNo, tok.error)), s1)
      else
        var (rest, s2) := TakeFields(cols, s1, i + 1);
        (if rest.Ok? then Ok([CsvField(cols[i], tok.value)] + rest.value) else rest, s2)
  }

  /** `loadRecord(parser)`: none when the input is exhausted; otherwise a
      record with one field per column, stamped with the parser's line. */
  function LoadRecordSpec(cols: seq<CsvColumn>, s: ParserState): (r: (Result<Option<RecordValue>>, ParserState))
    requires Inv(s)
    ensures Inv(r.1) && r.1.input == s.input && r.1.cursor >= s.cursor
    ensures r.0 == Ok(None) <==> s.cursor == |s.input|
    ensures r.0.Ok? && r.0.value.Some? ==> r.1.cursor > s.cursor && |r.0.value.value.fields| == |cols|
  {
    var (more, s1) := Advance(s);
    if !more then (Ok(None), s1)
    else
      var (fs, s2) := TakeFields(cols, s1, 0);
      if fs.Err? then (Err(fs.error), s2)
      else (Ok(Some(RecordValue(fs.value, s2.lineNo, 0))), s2)
  }

  /** The loop of `load`: records are read and added until the input ends. */
  function LoadRows(t: TableValue, s: ParserState): (r: (Result<TableValue>, ParserState))
    requires Inv(s)
    ensures Inv(r.1) && r.1.input == s.input
    decreases |s.input| - s.cursor
  {
    var (rec, s1) := LoadRecordSpec(t.columnsInOrder, s);
    if rec.Err? then (Err(rec.error), s1)
    else if rec.value.None? then (Ok(t), s1)
    else match AddSpec(t, rec.value.value)
      case Err(e) => (Err(e), s1)
      case Ok(t2) => LoadRows(t2, s1)
  }

  /** `load(parser)`: the header, then the rows. */
  function LoadFrom(t: TableValue, s: ParserState): (r: Result<TableValue>)
    requires Inv(s)
  {
    var (h, s1) := DefineColumnsSpec(t, s);
    if h.Err? then Err(h.error) else LoadRows(h.value, s1).0
  }

  /** `File.getName()`: the part after the last `/`. */
  function BaseName(path: string): (r: string)
    ensures |r| <= |path| && path[|path| - |r|..] == r && '/' !in r
    ensures |r| < |path| ==> path[|path| - |r| - 1] == '/'
    ensures '/' !in path ==> r == path
  {
    var i := LastIndexOfChar(path, '/');
    path[i + 1..]
  }

  /** `removeExtension(name)`: everything before the last `.`, or the whole
      name when it has none. */
  function RemoveExtension(name: string): (r: string)
    ensures r <= name
    ensures '.' !in name ==> r == name
    ensures '.' in name ==> |r| < |name| && name[|r|] == '.' && '.' !in name[|r| + 1..]
  {
    var i := LastIndexOfChar(name, '.');
    if i > -1 then name[..i] else name
  }

  lemma RemoveExtensionExample()
    ensures RemoveExtension("sheet1.csv") == "sheet1"
    ensures RemoveExtension("sheet1") == "sheet1"
  {
    assert LastIndexOfChar("sheet1.csv", '.') == 6;
    assert '.' !in "sheet1";
  }

  /** The table read from the test resource is named `sheet1`. */
  lemma TableNameExample()
    ensures RemoveExtension(BaseName("src/test/resources/sheet1.csv")) == "sheet1"
  {
    assert LastIndexOfChar("src/test/resources/sheet1.csv", '/') == 18;
    assert "src/test/resources/sheet1.csv"[19..] == "sheet1.csv";
    RemoveExtensionExample();
  }

  /** A table read from a file: named after the file without its directory
      and extension, then loaded. */
  function LoadSpec(fileName: string, input: seq<string>, option: UnificationOptions): Result<TableValue> {
    LoadFrom(EmptyTable(RemoveExtension(BaseName(fileName)), option), Start(input))
  }

  /** `new CsvTable(file)` on a file with no lines fails, where the source
      dereferences the missing header line. */
  lemma LoadEmptyFails(fileName: string, option: UnificationOptions)
    ensures LoadSpec(fileName, [], option) == Err(NullPointer)
  {
  }

  // ---------------------------------------------------------------------
  // toString

  function Names(cols: seq<CsvColumn>): (ns: seq<string>)
    ensures |ns| == |cols| && forall i :: 0 <= i < |cols| ==> ns[i] == cols[i].name
  {
    seq(|cols|, i requires 0 <= i < |cols| => cols[i].name)
  }

  function Values(fs: seq<CsvField>): (vs: seq<string>)
    ensures |vs| == |fs| && forall i :: 0 <= i < |fs| ==> vs[i] == fs[i].value
  {
    seq(|fs|, i requires 0 <= i < |fs| => fs[i].value)
  }

  /** One line per entry of `keys`: that record's values, each followed by
      a comma, in the order they were added. */
  function Rows(keys: seq<string>, records: map<string, RecordValue>): string
    requires KeysIn(keys, records)
    decreases |keys|
  {
    if |keys| == 0 then ""
    else Terminated(Values(records[keys[0]].fields)) + "\n" + Rows(keys[1..], records)
  }

  /** `toString()`: the column names, each followed by a comma, then one
      line per key. */
  function Text(t: TableValue): string
    requires KeysIn(t.keys, t.records)
  {
    Terminated(Names(t.columnsInOrder)) + "\n" + Rows(t.keys, t.records)
  }

  /** One more row written by `toString`. */
  lemma {:induction false} RowsSnoc(keys: seq<string>, records: map<string, RecordValue>, k: string)
    requires KeysIn(keys, records) && k in records
    ensures KeysIn(keys + [k], records)
    ensures Rows(keys + [k], records) == Rows(keys, records) + Terminated(Values(records[k].fields)) + "\n"
    decreases |keys|
  {
    assert forall i :: 0 <= i < |keys| ==> (keys + [k])[i] == keys[i];
    if |keys| == 0 {
      assert [] + [k] == [k];
    } else {
      assert (keys + [k])[1..] == keys[1..] + [k];
      assert forall i :: 0 <= i < |keys[1..]| ==> keys[1..][i] == keys[i + 1];
      RowsSnoc(keys[1..], records, k);
      var first := Terminated(Values(records[keys[0]].fields)) + "\n";
      var rest := Rows(keys[1..], records);
      var line := Terminated(Values(records[k].fields));
      AppendAssoc(first, rest, line);
      AppendAssoc(first, rest + line, "\n");
    }
  }

  // ---------------------------------------------------------------------
  // makeFirst

  /** The index of the first occurrence of `c`. */
  function FirstIndex(cols: seq<CsvColumn>, c: CsvColumn): (i: nat)
    requires c in cols
    ensures i < |cols| && cols[i] == c && c !in cols[..i]
    decreases |cols|
  {
    if cols[0] == c then 0 else 1 + FirstIndex(cols[1..], c)
  }

  /** `ArrayList.remove(c)`: the list without its first occurrence of `c`. */
  function RemoveFirst(cols: seq<CsvColumn>, c: CsvColumn): seq<CsvColumn>
    decreases |cols|
  {
    if |cols| == 0 then []
    else if cols[0] == c then cols[1..]
    else [cols[0]] + RemoveFirst(cols[1..], c)
  }

  /** Removing cuts out exactly the first occurrence, and nothing when
      there is none. */
  lemma {:induction false} RemoveFirstCuts(cols: seq<CsvColumn>, c: CsvColumn)
    ensures c !in cols ==> RemoveFirst(cols, c) == cols
    ensures c in cols ==> RemoveFirst(cols, c) == cols[..FirstIndex(cols, c)] + cols[FirstIndex(cols, c) + 1..]
    decreases |cols|
  {
    if |cols| > 0 && cols[0] != c {
      RemoveFirstCuts(cols[1..], c);
      if c in cols {
        assert c in cols[1..];
        var i := FirstIndex(cols[1..], c);
        assert cols[1..][..i] == cols[1..i + 1] && cols[1..][i + 1..] == cols[i + 2..];
        assert [cols[0]] + cols[1..i + 1] == cols[..i + 1];
      } else {
        assert cols == [cols[0]] + cols[1..];
      }
    }
  }

  /** `makeFirst(name)`: the named column moved to the front. */
  function MakeFirstSpec(t: TableValue, name: string): TableValue
    requires name in t.columns
  {
    var c := t.columns[name];
    t.(columnsInOrder := [c] + RemoveFirst(t.columnsInOrder, c))
  }

  /** `makeFirst` puts the named column first and keeps the others in
      their previous relative order, so the list is a permutation of the
      old one; flags, records, keys and the index are untouched and the
      table stays well formed. */
  lemma MakeFirstPermutes(t: TableValue, name: string)
    requires WellFormed(t) && name in t.columns
    ensures var r := MakeFirstSpec(t, name);
            var cols := t.columnsInOrder;
            var c := t.columns[name];
            var i := FirstIndex(cols, c);
            && r.columnsInOrder[0] == c && r.columnsInOrder[0].name == name
            && r.columnsInOrder[1..] == cols[..i] + cols[i + 1..]
            && multiset(r.columnsInOrder) == multiset(cols)
            && r.columns == t.columns && r.keys == t.keys && r.records == t.records
            && r.primaryKey == t.primaryKey
            && WellFormed(r)
  {
    var cols := t.columnsInOrder;
    var c := t.columns[name];
    var i := FirstIndex(cols, c);
    var r := MakeFirstSpec(t, name);
    RemoveFirstCuts(cols, c);
    assert r.columnsInOrder[1..] == cols[..i] + cols[i + 1..];
    assert cols == cols[..i] + [c] + cols[i + 1..];
    assert multiset(r.columnsInOrder) == multiset(cols);
    forall x | x in cols
      ensures x in r.columnsInOrder
    {
      assert multiset(cols)[x] > 0;
    }
    forall j | 0 <= j < |r.columnsInOrder|
      ensures r.columnsInOrder[j].name in r.columns
    {
      assert multiset(r.columnsInOrder)[r.columnsInOrder[j]] > 0;
      assert r.columnsInOrder[j] in cols;
    }
  }

  // ---------------------------------------------------------------------
  // unify

  /** The candidate columns whose names are not yet known, each name once,
      in the candidate's order. */
  function Missing(known: set<string>, cs: seq<CsvColumn>): (r: seq<CsvColumn>)
    ensures forall i :: 0 <= i < |r| ==> r[i] in cs && r[i].name !in known
    ensures forall i, j :: 0 <= i < j < |r| ==> r[i].name != r[j].name
    decreases |cs|
  {
    if |cs| == 0 then []
    else if cs[0].name in known then Missing(known, cs[1..])
    else [cs[0]] + Missing(known + {cs[0].name}, cs[1..])
  }

  /** The column loop of `unify`: a candidate column whose name the table
      lacks is added. */
  function AddMissing(t: TableValue, cs: seq<CsvColumn>): TableValue
    decreases |cs|
  {
    if |cs| == 0 then t
    else AddMissing(if cs[0].name in t.columns then t else AddColumnSpec(t, cs[0]), cs[1..])
  }

  /** The column loop leaves everything but the columns alone. */
  lemma {:induction false} AddMissingKeeps(t: TableValue, cs: seq<CsvColumn>)
    ensures var r := AddMissing(t, cs);
            && r.keys == t.keys && r.records == t.records && r.primaryKey == t.primaryKey
            && r.recordNo == t.recordNo && r.option == t.option && r.name == t.name
    decreases |cs|
  {
    if |cs| > 0 {
      AddMissingKeeps(if cs[0].name in t.columns then t else AddColumnSpec(t, cs[0]), cs[1..]);
    }
  }

  /** The column loop keeps the columns already indexed, and afterwards
      every candidate column name is indexed. */
  lemma {:induction false} AddMissingIndex(t: TableValue, cs: seq<CsvColumn>)
    ensures var r := AddMissing(t, cs);
            && t.columns.Keys <= r.columns.Keys
            && (forall n :: n in t.columns ==> r.columns[n] == t.columns[n])
            && (forall i :: 0 <= i < |cs| ==> cs[i].name in r.columns)
    decreases |cs|
  {
    if |cs| > 0 {
      var t1 := if cs[0].name in t.columns then t else AddColumnSpec(t, cs[0]);
      AddMissingIndex(t1, cs[1..]);
      var r := AddMissing(t1, cs[1..]);
      forall i | 0 <= i < |cs|
        ensures cs[i].name in r.columns
      {
        if i > 0 {
          assert cs[i] == cs[1..][i - 1];
        }
      }
    }
  }

  /** The column loop appends exactly the missing columns, in the
      candidate's order and each name once. */
  lemma {:induction false} AddMissingAppends(t: TableValue, cs: seq<CsvColumn>)
    ensures AddMissing(t, cs).columnsInOrder == t.columnsInOrder + Missing(t.columns.Keys, cs)
    decreases |cs|
  {
    if |cs| > 0 {
      var c := cs[0];
      if c.name in t.columns {
        assert Missing(t.columns.Keys, cs) == Missing(t.columns.Keys, cs[1..]);
        AddMissingAppends(t, cs[1..]);
      } else {
        var t1 := AddColumnSpec(t, c);
        assert t1.columns.Keys == t.columns.Keys + {c.name};
        assert Missing(t.columns.Keys, cs) == [c] + Missing(t1.columns.Keys, cs[1..]);
        AddMissingAppends(t1, cs[1..]);
        AppendAssoc(t.columnsInOrder, [c], Missing(t1.columns.Keys, cs[1..]));
      }
    }
  }

  /** The column loop keeps a table well formed. */
  lemma {:induction false} AddMissingWellFormed(t: TableValue, cs: seq<CsvColumn>)
    requires WellFormed(t)
    ensures WellFormed(AddMissing(t, cs))
    decreases |cs|
  {
    if |cs| > 0 {
      if cs[0].name !in t.columns {
        AddColumnWellFormed(t, cs[0]);
      }
      AddMissingWellFormed(if cs[0].name in t.columns then t else AddColumnSpec(t, cs[0]), cs[1..]);
    }
  }

  /** The keys of a list, each once, in the order of first occurrence. */
  function Dedup(ks: seq<string>): (r: seq<string>)
    ensures forall k :: k in r <==> k in ks
    ensures forall i, j :: 0 <= i < j < |r| ==> r[i] != r[j]
    decreases |ks|
  {
    if |ks| == 0 then []
    else
      var d := Dedup(ks[..|ks| - 1]);
      assert forall k :: k in ks <==> k in ks[..|ks| - 1] || k == ks[|ks| - 1];
      if ks[|ks| - 1] in d then d else d + [ks[|ks| - 1]]
  }

  /** The record `k` of `t` with its field list replaced. */
  function WithFields(t: TableValue, k: string, fs: seq<CsvField>): TableValue
    requires k in t.records
  {
    t.(records := t.records[k := t.records[k].(fields := fs)])
  }

  /** One pass of the record loop of `unify`, for the candidate record
      `cr`. A candidate record without a key field fails where the source
      dereferences it. A key the table has unifies the two records without
      `withEmpty`. A key it lacks fails under THROW, is skipped under LOG,
      and under DEFAULT is added as a defaulted record that is then
      unified with `withEmpty`. */
  function UnifyOne(t: TableValue, cr: RecordValue): Result<TableValue> {
    match KeyOf(cr)
    case None => Err(NullPointer)
    case Some(k) =>
      if k in t.records then
        var (o, fs) := UnifyFields(t.records[k].fields, cr.fields, false);
        if o.Fail? then Err(o.error) else Ok(WithFields(t, k, fs))
      else match t.option
        case THROW => Err(RecordNotFound(k))
        case LOG => Ok(t)
        case DEFAULT =>
          match DefaultedSpec(t, cr)
          case Err(e) => Err(e)
          case Ok(d) =>
            match AddSpec(t, d)
            case Err(e) => Err(e)
            case Ok(t2) =>
              var k2 := KeyOf(d).value;
              var (o, fs) := UnifyFields(t2.records[k2].fields, cr.fields, true);
              if o.Fail? then Err(o.error) else Ok(WithFields(t2, k2, fs))
  }

  /** Every key of `order` has a record in `records`. */
  predicate KeysIn(order: seq<string>, records: map<string, RecordValue>)
  {
    forall i :: 0 <= i < |order| ==> order[i] in records
  }

  /** The record loop of `unify`, over the candidate's keys in `order`;
      the first failing pass ends it. */
  function UnifyRecords(t: TableValue, cand: TableValue, order: seq<string>): (r: Result<TableValue>)
    requires KeysIn(order, cand.records)
    decreases |order|
  {
    if |order| == 0 then Ok(t)
    else match UnifyOne(t, cand.records[order[0]])
      case Err(e) => Err(e)
      case Ok(t1) => UnifyRecords(t1, cand, order[1..])
  }

  /** `unify(candidate)`: on a copy of the table, the missing columns are
      added and then the candidate's records are unified, each once. */
  function UnifySpec(t: TableValue, cand: TableValue): Result<TableValue>
    requires WellFormed(cand)
  {
    UnifyRecords(AddMissing(t, cand.columnsInOrder), cand, Dedup(cand.keys))
  }

  /** One pass keeps the columns, the primary key, the name and the
      policy, keeps the keys list and the record map in step and only adds
      keys; under THROW and LOG it adds none, and under THROW it succeeds
      only for a key the table already has. */
  lemma UnifyOneKeeps(t: TableValue, cr: RecordValue)
    requires KeysIndexed(t.keys, t.records)
    ensures var r := UnifyOne(t, cr);
            r.Ok? ==>
              && r.value.columnsInOrder == t.columnsInOrder && r.value.columns == t.columns
              && r.value.primaryKey == t.primaryKey && r.value.name == t.name && r.value.option == t.option
              && KeysIndexed(r.value.keys, r.value.records)
              && t.keys <= r.value.keys && t.records.Keys <= r.value.records.Keys
              && (t.option != DEFAULT ==> r.value.keys == t.keys && r.value.records.Keys == t.records.Keys)
              && (t.option == THROW ==> KeyOf(cr).Some? && KeyOf(cr).value in t.records)
  {
    match KeyOf(cr)
    case None =>
    case Some(k) =>
      if k in t.records {
        var (o, fs) := UnifyFields(t.records[k].fields, cr.fields, false);
        assert WithFields(t, k, fs).records.Keys == t.records.Keys;
      } else if t.option == DEFAULT {
        var d := DefaultedSpec(t, cr).value;
        var t2 := AddSpec(t, d).value;
        var k2 := KeyOf(d).value;
        assert t2.keys == t.keys + [k2] && t2.records.Keys == t.records.Keys + {k2};
        var (o, fs) := UnifyFields(t2.records[k2].fields, cr.fields, true);
        var t3 := WithFields(t2, k2, fs);
        assert t3.records.Keys == t2.records.Keys && t3.keys == t2.keys;
      }
  }

  /** One pass keeps a table well formed. */
  lemma UnifyOneWellFormed(t: TableValue, cr: RecordValue)
    requires WellFormed(t)
    ensures UnifyOne(t, cr).Ok? ==> WellFormed(UnifyOne(t, cr).value)
  {
    UnifyOneKeeps(t, cr);
  }

  /** The record loop keeps the columns, the primary key, the name and the
      policy. */
  lemma {:induction false} UnifyRecordsColumns(t: TableValue, cand: TableValue, order: seq<string>)
    requires KeysIndexed(t.keys, t.records) && KeysIn(order, cand.records)
    ensures var r := UnifyRecords(t, cand, order);
            r.Ok? ==>
              && r.value.columnsInOrder == t.columnsInOrder && r.value.columns == t.columns
              && r.value.primaryKey == t.primaryKey && r.value.name == t.name && r.value.option == t.option
    decreases |order|
  {
    if |order| > 0 {
      var cr := cand.records[order[0]];
      assert forall i :: 0 <= i < |order[1..]| ==> order[1..][i] == order[i + 1];
      UnifyOneKeeps(t, cr);
      if UnifyOne(t, cr).Ok? {
        UnifyRecordsColumns(UnifyOne(t, cr).value, cand, order[1..]);
      }
    }
  }

  /** The record loop keeps the keys list and the record map in step and
      only adds keys; under THROW and LOG it adds none, and under THROW
      every candidate key was already there. */
  lemma {:induction false} UnifyRecordsKeys(t: TableValue, cand: TableValue, order: seq<string>)
    requires KeysIndexed(t.keys, t.records) && KeysIn(order, cand.records)
    ensures var r := UnifyRecords(t, cand, order);
            r.Ok? ==>
              && KeysIndexed(r.value.keys, r.value.records)
              && t.keys <= r.value.keys && t.records.Keys <= r.value.records.Keys
              && (t.option != DEFAULT ==> r.value.keys == t.keys && r.value.records.Keys == t.records.Keys)
              && (t.option == THROW ==> forall i :: 0 <= i < |order| ==>
                    KeyOf(cand.records[order[i]]).Some? && KeyOf(cand.records[order[i]]).value in t.records)
    decreases |order|
  {
    if |order| > 0 {
      var cr := cand.records[order[0]];
      assert forall i :: 0 <= i < |order[1..]| ==> order[1..][i] == order[i + 1];
      UnifyOneKeeps(t, cr);
      if UnifyOne(t, cr).Ok? {
        UnifyRecordsKeys(UnifyOne(t, cr).value, cand, order[1..]);
      }
    }
  }

  /** `unify` appends the candidate's missing columns to the table's and
      keeps its primary key, name and policy; it only adds keys, and under
      THROW or LOG none at all. */
  lemma UnifyShape(t: TableValue, cand: TableValue)
    requires WellFormed(t) && WellFormed(cand)
    ensures var r := UnifySpec(t, cand);
            r.Ok? ==>
              && WellFormed(r.value)
              && r.value.columnsInOrder == t.columnsInOrder + Missing(t.columns.Keys, cand.columnsInOrder)
              && r.value.primaryKey == t.primaryKey && r.value.name == t.name && r.value.option == t.option
              && t.keys <= r.value.keys
              && (t.option != DEFAULT ==> r.value.keys == t.keys)
  {
    AddMissingAppends(t, cand.columnsInOrder);
    AddMissingWellFormed(t, cand.columnsInOrder);
    AddMissingKeeps(t, cand.columnsInOrder);
    UnifyRecordsColumns(AddMissing(t, cand.columnsInOrder), cand, Dedup(cand.keys));
    UnifyRecordsKeys(AddMissing(t, cand.columnsInOrder), cand, Dedup(cand.keys));
  }

  /** Under THROW, a candidate record whose key the table lacks makes
      `unify` fail. */
  lemma UnifyThrowFails(t: TableValue, cand: TableValue, k: string)
    requires WellFormed(t) && WellFormed(cand) && t.option == THROW
    requires k in cand.records && KeyOf(cand.records[k]).Some? && KeyOf(cand.records[k]).value !in t.records
    ensures UnifySpec(t, cand).Err?
  {
    AddMissingAppends(t, cand.columnsInOrder);
    AddMissingWellFormed(t, cand.columnsInOrder);
    AddMissingKeeps(t, cand.columnsInOrder);
    var order := Dedup(cand.keys);
    assert k in order;
    UnifyRecordsKeys(AddMissing(t, cand.columnsInOrder), cand, order);
  }

  // ---------------------------------------------------------------------
  // unify under DEFAULT

  /** Every key column of `cols` is named `n`. */
  ghost predicate KeyedBy(cols: seq<CsvColumn>, n: string) {
    forall i :: 0 <= i < |cols| && cols[i].isPrimaryKey ==> cols[i].name == n
  }

  /** `cr` has a key field, and its column is named `n`. */
  ghost predicate KeyNamed(cr: RecordValue, n: string) {
    LastKeyField(cr.fields).Some? && LastKeyField(cr.fields).value.column.name == n
  }

  /** Each record is filed under its own key, as `add` files it. */
  ghost predicate OwnKeys(t: TableValue) {
    forall k :: k in t.records ==> KeyOf(t.records[k]) == Some(k)
  }

  /** The index of `fs` holds the value of every field of `cand`. */
  ghost predicate HoldsValues(fs: seq<CsvField>, cand: seq<CsvField>) {
    forall i :: 0 <= i < |cand| ==>
      cand[i].column.name in ValuesOf(fs) && ValuesOf(fs)[cand[i].column.name] == cand[i].value
  }

  /** What a candidate record needs for its defaulted copy to take all its
      values: a key field named like every key column of `t`, distinct
      field names, and only names `t` has columns for. */
  ghost predicate Fillable(t: TableValue, cr: RecordValue) {
    && LastKeyField(cr.fields).Some?
    && KeyedBy(t.columnsInOrder, LastKeyField(cr.fields).value.column.name)
    && DistinctNames(cr.fields)
    && (forall i :: 0 <= i < |cr.fields| ==> cr.fields[i].column.name in t.columns)
  }

  /** `add` files each record under its own key. */
  lemma AddOwnKeys(t: TableValue, r: RecordValue)
    requires OwnKeys(t) && KeyOf(r).Some?
    ensures OwnKeys(AddSpec(t, r).value)
  {
  }

  /** The defaulted copy of a record indexes its key column's name with
      the key value. */
  lemma DefaultedKeyRoom(t: TableValue, cr: RecordValue)
    requires LastKeyField(cr.fields).Some?
    ensures var kf := LastKeyField(cr.fields).value;
            var m := ValuesOf(DefaultedSpec(t, cr).value.fields);
            kf.column.name in m && m[kf.column.name] == kf.value
  {
    var d := DefaultedSpec(t, cr).value;
    DefaultedShape(t, cr);
    ValuesOfHas(d.fields);
    ValuesOfUniform(d.fields, LastKeyField(cr.fields).value.column.name, LastKeyField(cr.fields).value.value);
  }

  /** The defaulted copy of a record indexes every other column of the
      table with the empty string. */
  lemma DefaultedOtherRoom(t: TableValue, cr: RecordValue, c: CsvColumn)
    requires LastKeyField(cr.fields).Some?
    requires c in t.columnsInOrder && c.name != LastKeyField(cr.fields).value.column.name
    ensures var m := ValuesOf(DefaultedSpec(t, cr).value.fields);
            c.name in m && m[c.name] == ""
  {
    var d := DefaultedSpec(t, cr).value;
    DefaultedShape(t, cr);
    var ci :| 0 <= ci < |t.columnsInOrder| && t.columnsInOrder[ci] == c;
    var fi :| 1 <= fi < |d.fields| && d.fields[fi] == CsvField(c, "");
    ValuesOfHas(d.fields);
    ValuesOfUniform(d.fields, c.name, "");
  }

  /** The defaulted copy of a fillable record indexes every name the
      record carries, with the empty string or that field's own value. */
  lemma DefaultedRoom(t: TableValue, cr: RecordValue)
    requires WellFormed(t) && Fillable(t, cr)
    ensures var m := ValuesOf(DefaultedSpec(t, cr).value.fields);
            forall i :: 0 <= i < |cr.fields| ==>
              cr.fields[i].column.name in m && m[cr.fields[i].column.name] in {"", cr.fields[i].value}
  {
    var kf := LastKeyField(cr.fields).value;
    var j :| 0 <= j < |cr.fields| && cr.fields[j] == kf;
    DefaultedKeyRoom(t, cr);
    forall i | 0 <= i < |cr.fields| && cr.fields[i].column.name != kf.column.name
      ensures var m := ValuesOf(DefaultedSpec(t, cr).value.fields);
              cr.fields[i].column.name in m && m[cr.fields[i].column.name] == ""
    {
      DefaultedOtherRoom(t, cr, t.columns[cr.fields[i].column.name]);
    }
  }

  /** Under DEFAULT, a candidate record whose key the table lacks is filed
      under that key, and the record filed there then holds every value of
      the candidate. */
  lemma UnifyDefaultFills(t: TableValue, cr: RecordValue, k: string)
    requires WellFormed(t) && t.option == DEFAULT
    requires KeyOf(cr) == Some(k) && k !in t.records && Fillable(t, cr)
    ensures var r := UnifyOne(t, cr);
            && r.Ok? && k in r.value.keys && k in r.value.records
            && HoldsValues(r.value.records[k].fields, cr.fields)
  {
    var d := DefaultedSpec(t, cr).value;
    DefaultedKey(t, cr);
    AddWellFormed(t, d);
    DefaultedRoom(t, cr);
    UnifyWithEmptyFills(d.fields, cr.fields);
  }

  /** One pass touches only the record filed under the candidate's key,
      when every key column is named like the candidate's key field. */
  lemma UnifyOneOthers(t: TableValue, cr: RecordValue, n: string)
    requires KeyNamed(cr, n) && KeyedBy(t.columnsInOrder, n)
    ensures var r := UnifyOne(t, cr);
            r.Ok? ==>
              && (forall k :: k in t.records && Some(k) != KeyOf(cr) ==> k in r.value.records && r.value.records[k] == t.records[k])
              && (forall k :: k in r.value.records ==> k in t.records || Some(k) == KeyOf(cr))
  {
    var k := KeyOf(cr).value;
    if k !in t.records && t.option == DEFAULT {
      DefaultedKey(t, cr);
    }
  }

  /** The record loop leaves alone a record whose key no candidate in
      `order` carries. */
  lemma {:induction false} UnifyRecordsOthers(t: TableValue, cand: TableValue, order: seq<string>, k: string, n: string)
    requires KeysIndexed(t.keys, t.records) && KeysIn(order, cand.records) && KeyedBy(t.columnsInOrder, n)
    requires forall i :: 0 <= i < |order| ==> KeyNamed(cand.records[order[i]], n) && KeyOf(cand.records[order[i]]) != Some(k)
    requires k in t.records
    ensures var r := UnifyRecords(t, cand, order);
            r.Ok? ==> k in r.value.records && r.value.records[k] == t.records[k]
    decreases |order|
  {
    if |order| > 0 {
      var cr := cand.records[order[0]];
      assert forall i :: 0 <= i < |order[1..]| ==> order[1..][i] == order[i + 1];
      UnifyOneKeeps(t, cr);
      UnifyOneOthers(t, cr, n);
      if UnifyOne(t, cr).Ok? {
        UnifyRecordsOthers(UnifyOne(t, cr).value, cand, order[1..], k, n);
      }
    }
  }

  /** The record loop when the missing key comes first: its pass files
      the candidate and the later passes leave it alone. */
  lemma UnifyRecordsDefaultHead(t: TableValue, cand: TableValue, order: seq<string>, k: string, n: string)
    requires WellFormed(t) && t.option == DEFAULT && KeysIn(order, cand.records) && KeyedBy(t.columnsInOrder, n)
    requires forall i, j :: 0 <= i < j < |order| ==> order[i] != order[j]
    requires forall i :: 0 <= i < |order| ==> KeyNamed(cand.records[order[i]], n) && KeyOf(cand.records[order[i]]) == Some(order[i])
    requires |order| > 0 && order[0] == k && k !in t.records && Fillable(t, cand.records[k])
    ensures var r := UnifyRecords(t, cand, order);
            r.Ok? ==> k in r.value.records && HoldsValues(r.value.records[k].fields, cand.records[k].fields)
  {
    var cr := cand.records[k];
    UnifyDefaultFills(t, cr, k);
    var t1 := UnifyOne(t, cr).value;
    UnifyOneKeeps(t, cr);
    var rest := order[1..];
    forall i | 0 <= i < |rest|
      ensures KeyNamed(cand.records[rest[i]], n) && KeyOf(cand.records[rest[i]]) != Some(k)
    {
      assert rest[i] == order[i + 1];
    }
    UnifyRecordsOthers(t1, cand, rest, k, n);
  }

  /** Under DEFAULT, the record loop over distinct candidate keys files a
      candidate the table lacked under its key, holding all its values. */
  lemma {:induction false} UnifyRecordsDefault(t: TableValue, cand: TableValue, order: seq<string>, k: string, n: string)
    requires WellFormed(t) && t.option == DEFAULT && KeysIn(order, cand.records) && KeyedBy(t.columnsInOrder, n)
    requires forall i, j :: 0 <= i < j < |order| ==> order[i] != order[j]
    requires forall i :: 0 <= i < |order| ==> KeyNamed(cand.records[order[i]], n) && KeyOf(cand.records[order[i]]) == Some(order[i])
    requires k in order && k !in t.records && Fillable(t, cand.records[k])
    ensures var r := UnifyRecords(t, cand, order);
            r.Ok? ==> k in r.value.records && HoldsValues(r.value.records[k].fields, cand.records[k].fields)
    decreases |order|
  {
    var cr := cand.records[order[0]];
    if order[0] == k {
      UnifyRecordsDefaultHead(t, cand, order, k, n);
    } else {
      assert forall i :: 0 <= i < |order[1..]| ==> order[1..][i] == order[i + 1];
      UnifyOneKeeps(t, cr);
      UnifyOneOthers(t, cr, n);
      UnifyOneWellFormed(t, cr);
      if UnifyOne(t, cr).Ok? {
        var t1 := UnifyOne(t, cr).value;
        assert k in order[1..];
        UnifyRecordsDefault(t1, cand, order[1..], k, n);
      }
    }
  }

  /** Adding the missing columns keeps every key column named `n` when
      both tables' key columns are. */
  lemma AddMissingKeyedBy(t: TableValue, cs: seq<CsvColumn>, n: string)
    requires KeyedBy(t.columnsInOrder, n) && KeyedBy(cs, n)
    ensures KeyedBy(AddMissing(t, cs).columnsInOrder, n)
  {
    AddMissingAppends(t, cs);
    var t1 := AddMissing(t, cs);
    var missing := Missing(t.columns.Keys, cs);
    forall i | 0 <= i < |t1.columnsInOrder| && t1.columnsInOrder[i].isPrimaryKey
      ensures t1.columnsInOrder[i].name == n
    {
      if i >= |t.columnsInOrder| {
        assert t1.columnsInOrder[i] == missing[i - |t.columnsInOrder|];
      }
    }
  }

  /** After the missing columns are added, a candidate record of a well
      formed candidate is fillable if its names are distinct and known to
      one of the two tables. */
  lemma AddMissingFillable(t: TableValue, cand: TableValue, cr: RecordValue, n: string)
    requires WellFormed(cand) && KeyedBy(t.columnsInOrder, n) && KeyedBy(cand.columnsInOrder, n)
    requires KeyNamed(cr, n) && DistinctNames(cr.fields)
    requires forall i :: 0 <= i < |cr.fields| ==> cr.fields[i].column.name in t.columns || cr.fields[i].column.name in cand.columns
    ensures Fillable(AddMissing(t, cand.columnsInOrder), cr)
  {
    var cs := cand.columnsInOrder;
    AddMissingKeyedBy(t, cs, n);
    AddMissingIndex(t, cs);
    var t1 := AddMissing(t, cs);
    forall i | 0 <= i < |cr.fields|
      ensures cr.fields[i].column.name in t1.columns
    {
      var m := cr.fields[i].column.name;
      if m !in t.columns {
        var c := cand.columns[m];
        var ci :| 0 <= ci < |cs| && cs[ci] == c;
      }
    }
  }

  /** `unify` under DEFAULT: when both tables key on columns named `n`
      and the candidate's records are filed under their own keys, a
      candidate record whose key the table lacks, with distinct field
      names that either table has columns for, ends up in the result under
      its key, holding every one of its values. */
  lemma UnifyDefaultAdds(t: TableValue, cand: TableValue, k: string, n: string)
    requires WellFormed(t) && WellFormed(cand) && t.option == DEFAULT && OwnKeys(cand)
    requires KeyedBy(t.columnsInOrder, n) && KeyedBy(cand.columnsInOrder, n)
    requires forall k2 :: k2 in cand.records ==> KeyNamed(cand.records[k2], n)
    requires k in cand.records && k !in t.records
    requires DistinctNames(cand.records[k].fields)
    requires forall i :: 0 <= i < |cand.records[k].fields| ==>
               cand.records[k].fields[i].column.name in t.columns || cand.records[k].fields[i].column.name in cand.columns
    ensures var r := UnifySpec(t, cand);
            r.Ok? ==> k in r.value.keys && k in r.value.records
                      && HoldsValues(r.value.records[k].fields, cand.records[k].fields)
  {
    var cs := cand.columnsInOrder;
    var t1 := AddMissing(t, cs);
    AddMissingWellFormed(t, cs);
    AddMissingKeeps(t, cs);
    AddMissingKeyedBy(t, cs, n);
    AddMissingFillable(t, cand, cand.records[k], n);
    var order := Dedup(cand.keys);
    assert k in order;
    UnifyRecordsDefault(t1, cand, order, k, n);
    UnifyRecordsKeys(t1, cand, order);
  }
}

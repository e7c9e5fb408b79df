/** `CsvTable`: a keyed table whose columns, keys and records the methods
    update in place. The records are filed as values. `Abs()` is the table
    as a value, and every method does to it what the corresponding function
    of `TableSpec` describes. */
module Tables {
  import opened CsvErrors
  import opened Strings
  import opened Columns
  import opened Fields
  import opened Records
  import opened FileParser
  import opened TableSpec

  /** `loadRecord` starts from no fields. */
  lemma PrependEmpty(r: (Result<seq<CsvField>>, ParserState))
    ensures Prepend([], r) == r
  {
    if r.0.Ok? {
      assert [] + r.0.value == r.0.value;
    }
  }

  /** A field list read so far in front of what is still to be read. */
  ghost function Prepend(fs: seq<CsvField>, r: (Result<seq<CsvField>>, ParserState)): (Result<seq<CsvField>>, ParserState) {
    (if r.0.Ok? then Ok(fs + r.0.value) else r.0, r.1)
  }

  /** One more field read by `loadRecord`. */
  lemma TakeFieldsStep(cols: seq<CsvColumn>, s: ParserState, i: nat, fs: seq<CsvField>, v: string, s1: ParserState)
    requires Inv(s) && !s.atEnd && i < |cols| && Token(s, false) == (Ok(v), s1)
    ensures Prepend(fs, TakeFields(cols, s, i)) == Prepend(fs + [CsvField(cols[i], v)], TakeFields(cols, s1, i + 1))
  {
    var rest := TakeFields(cols, s1, i + 1);
    if rest.0.Ok? {
      assert fs + ([CsvField(cols[i], v)] + rest.0.value) == fs + [CsvField(cols[i], v)] + rest.0.value;
    }
  }

  /** One more column seen by `defaulted`. */
  lemma DefaultFieldsSnoc(cols: seq<CsvColumn>, i: nat, keyName: string)
    requires i < |cols|
    ensures DefaultFields(cols[..i + 1], keyName) == DefaultFields(cols[..i], keyName) + DefaultFor(cols[i], keyName)
  {
    assert cols[..i + 1][..i] == cols[..i];
  }

  /** `makeFirst` keeps a table well formed. */
  lemma MakeFirstWF(t: TableValue, name: string)
    requires WellFormed(t) && name in t.columns
    ensures WellFormed(MakeFirstSpec(t, name))
  {
    MakeFirstPermutes(t, name);
  }

  /** The `j`-th row written by `toString`. */
  lemma RowsAt(keys: seq<string>, records: map<string, RecordValue>, j: nat)
    requires KeysIn(keys, records) && j < |keys|
    ensures KeysIn(keys[..j], records) && KeysIn(keys[..j + 1], records)
    ensures Rows(keys[..j + 1], records) == Rows(keys[..j], records) + Terminated(Values(records[keys[j]].fields)) + "\n"
  {
    assert forall i :: 0 <= i < j ==> keys[..j][i] == keys[i];
    assert keys[..j + 1] == keys[..j] + [keys[j]];
    RowsSnoc(keys[..j], records, keys[j]);
  }

  /** The pass of the record loop of `unify` for `order[j]`, and what is
      left after it. */
  lemma UnifyRecordsAt(t: TableValue, cand: TableValue, order: seq<string>, j: nat)
    requires j < |order| && KeysIn(order, cand.records)
    ensures KeysIn(order[j..], cand.records) && KeysIn(order[j + 1..], cand.records)
    ensures var o := UnifyOne(t, cand.records[order[j]]);
            && (o.Err? ==> UnifyRecords(t, cand, order[j..]) == Err(o.error))
            && (o.Ok? ==> UnifyRecords(t, cand, order[j..]) == UnifyRecords(o.value, cand, order[j + 1..]))
  {
    assert order[j..][0] == order[j] && order[j..][1..] == order[j + 1..];
    forall i | 0 <= i < |order[j..]|
      ensures order[j..][i] in cand.records
    {
      assert order[j..][i] == order[j + i];
    }
  }

  /** The column loop of `defaulted`: an empty field for every column
      not named `keyName`, added to `record` in order. */
  method AddDefaultFields(record: CsvRecord, cols: seq<CsvColumn>, keyName: string)
    requires record.Valid()
    modifies record
    ensures record.Valid() && record.fields == old(record.fields) + DefaultFields(cols, keyName)
    ensures record.lineNo == old(record.lineNo) && record.recordNo == old(record.recordNo)
  {
    ghost var start := record.fields;
    var i := 0;
    while i < |cols|
      invariant 0 <= i <= |cols|
      invariant record.Valid() && record.lineNo == old(record.lineNo) && record.recordNo == old(record.recordNo)
      invariant record.fields == start + DefaultFields(cols[..i], keyName)
    {
      var column := cols[i];
      AddDefaultField(record, column, keyName);
      DefaultFieldsSnoc(cols, i, keyName);
      AppendAssoc(start, DefaultFields(cols[..i], keyName), DefaultFor(column, keyName));
      i := i + 1;
    }
    assert cols[..i] == cols;
  }

  /** One turn of the column loop of `defaulted`. */
  method AddDefaultField(record: CsvRecord, column: CsvColumn, keyName: string)
    requires record.Valid()
    modifies record
    ensures record.Valid() && record.fields == old(record.fields) + DefaultFor(column, keyName)
    ensures record.lineNo == old(record.lineNo) && record.recordNo == old(record.recordNo)
  {
    if column.name != keyName {
      record.AddField(CsvField(column, ""));
    } else {
      assert record.fields + [] == record.fields;
    }
  }

  /** The header line of `toString`, without its newline: each column
      name followed by a comma. */
  method HeaderLine(cols: seq<CsvColumn>) returns (line: string)
    ensures line == Terminated(Names(cols))
  {
    line := "";
    var i := 0;
    while i < |cols|
      invariant 0 <= i <= |cols|
      invariant line == Terminated(Names(cols[..i]))
    {
      assert Names(cols[..i + 1]) == Names(cols[..i]) + [cols[i].name];
      TerminatedSnoc(Names(cols[..i]), cols[i].name);
      line := line + cols[i].name + ",";
      i := i + 1;
    }
    assert cols[..i] == cols;
  }

  /** A row of `toString`, without its newline: each field value followed
      by a comma, in the order the fields were added. */
  method FieldsLine(fs: seq<CsvField>) returns (line: string)
    ensures line == Terminated(Values(fs))
  {
    line := "";
    var m := 0;
    while m < |fs|
      invariant 0 <= m <= |fs|
      invariant line == Terminated(Values(fs[..m]))
    {
      assert Values(fs[..m + 1]) == Values(fs[..m]) + [fs[m].value];
      TerminatedSnoc(Values(fs[..m]), fs[m].value);
      line := line + fs[m].value + ",";
      m := m + 1;
    }
    assert fs[..m] == fs;
  }

  class CsvTable {
    const name: string
    const unificationOption: UnificationOptions
    var columns: map<string, CsvColumn>
    var columnsInOrder: seq<CsvColumn>
    var primaryKey: Option<CsvColumn>
    var keyToRecord: map<string, RecordValue>
    var keys: seq<string>
    var recordNo: int

    /** The table as a value. */
    ghost function Abs(): TableValue
      reads this
    {
      TableValue(name, columns, columnsInOrder, primaryKey, keys, keyToRecord, recordNo, unificationOption)
    }

    ghost predicate Valid()
      reads this
    {
      WellFormed(Abs())
    }

    /** The table a constructor starts from, before the file is loaded. */
    constructor(name: string, option: UnificationOptions)
      ensures Valid() && Abs() == EmptyTable(name, option)
    {
      this.name := name;
      unificationOption := option;
      columns := map[];
      columnsInOrder := [];
      primaryKey := None;
      keyToRecord := map[];
      keys := [];
      recordNo := 0;
    }

    /** A table with the given state; `copy` uses it. */
    constructor WithState(name: string, option: UnificationOptions, columns: map<string, CsvColumn>,
                          columnsInOrder: seq<CsvColumn>, primaryKey: Option<CsvColumn>, keys: seq<string>,
                          records: map<string, RecordValue>, recordNo: int)
      ensures Abs() == TableValue(name, columns, columnsInOrder, primaryKey, keys, records, recordNo, option)
    {
      this.name := name;
      unificationOption := option;
      this.columns := columns;
      this.columnsInOrder := columnsInOrder;
      this.primaryKey := primaryKey;
      keyToRecord := records;
      this.keys := keys;
      this.recordNo := recordNo;
    }

    /** `new CsvTable(file, option)`, with the file given as its name and
        its lines: the table is named after the file and loaded from it. */
    static method Open(fileName: string, lines: seq<string>, option: UnificationOptions) returns (r: Result<CsvTable>)
      ensures r.Ok? <==> LoadSpec(fileName, lines, option).Ok?
      ensures r.Err? ==> r.error == LoadSpec(fileName, lines, option).error
      ensures r.Ok? ==> fresh(r.value) && r.value.Valid() && r.value.Abs() == LoadSpec(fileName, lines, option).value
    {
      var t := new CsvTable(RemoveExtension(BaseName(fileName)), option);
      var parser := new CsvFileParser(lines);
      var o := t.Load(parser);
      if o.Fail? {
        return Err(o.error);
      }
      return Ok(t);
    }

    /** `load(parser)`: the header, then records until the input ends. */
    method Load(parser: CsvFileParser) returns (r: Outcome)
      requires Valid() && parser.Valid()
      modifies this, parser
      ensures Valid()
      ensures r.Pass? <==> LoadFrom(old(Abs()), old(parser.State())).Ok?
      ensures r.Fail? ==> r.error == LoadFrom(old(Abs()), old(parser.State())).error
      ensures r.Pass? ==> Abs() == LoadFrom(old(Abs()), old(parser.State())).value
    {
      ghost var spec := LoadFrom(Abs(), parser.State());
      ghost var input := parser.input;
      var h := DefineColumns(parser);
      if h.Fail? {
        return h;
      }
      while true
        invariant Valid() && parser.Valid() && parser.input == input
        invariant spec == LoadRows(Abs(), parser.State()).0
        decreases |parser.input| - parser.cursor
      {
        ghost var t := Abs();
        ghost var s := parser.State();
        var record := LoadRecord(parser);
        if record.Err? {
          return Fail(record.error);
        }
        if record.value.None? {
          return Pass;
        }
        var o := Add(record.value.value);
        if o.Fail? {
          return o;
        }
        assert LoadRows(t, s).0 == LoadRows(Abs(), parser.State()).0;
      }
    }

    /** `defineColumns(parser)`: read the header line; each non-empty token
        becomes a column, the first of them the primary key. */
    method DefineColumns(parser: CsvFileParser) returns (r: Outcome)
      requires Valid() && parser.Valid()
      modifies this, parser
      ensures Valid()
      ensures var (h, s) := DefineColumnsSpec(old(Abs()), old(parser.State()));
              && parser.State() == s
              && (r.Pass? <==> h.Ok?)
              && (r.Fail? ==> r.error == h.error)
              && (r.Pass? ==> Abs() == h.value)
    {
      ghost var spec := DefineColumnsSpec(Abs(), parser.State());
      var _ := parser.HasNextRecord();
      recordNo := 0;
      while true
        invariant Valid() && parser.Valid()
        invariant spec == HeaderLoop(Abs(), parser.State())
        decreases |parser.input| - parser.cursor, |parser.line| + 2 - parser.position, if parser.emptyLastField then 1 else 0
      {
        ghost var t := Abs();
        ghost var s := parser.State();
        var more := parser.RecordHasMoreFields();
        if more.Err? {
          return Fail(more.error);
        }
        if !more.value {
          return Pass;
        }
        var colName := parser.NextField();
        if colName.Err? {
          return Fail(colName.error);
        }
        if colName.value == "" {
          HeaderLoopEmpty(t, s, parser.State());
        } else {
          HeaderLoopNonEmpty(t, s, colName.value, parser.State());
          var column := Keyed(colName.value, |columnsInOrder| == 0);
          if column.isPrimaryKey {
            // a well-formed table without columns has no primary key, so
            // the "primary key column already set" error cannot arise
            assert primaryKey.None?;
            primaryKey := Some(column);
          }
          AddColumn(column);
          assert Abs() == HeaderAdd(t, colName.value);
        }
      }
    }

    /** `addColumn(column)`. A primary key may already be set for the
        column about to be added. */
    method AddColumn(column: CsvColumn)
      requires KeysIndexed(keys, keyToRecord) && ColumnsIndexed(columns, columnsInOrder)
      modifies this
      ensures Valid()
      ensures Abs() == AddColumnSpec(old(Abs()), column)
    {
      AddColumnWellFormed(Abs(), column);
      columnsInOrder := columnsInOrder + [column];
      columns := columns[column.name := column];
    }

    /** `add(record)`: refused when the record has no key field; otherwise
        numbered and filed under its key. */
    method Add(record: CsvRecord) returns (r: Outcome)
      requires Valid() && record.Valid()
      modifies this, record
      ensures r.Pass? <==> KeyOf(old(record.Value())).Some?
      ensures r.Fail? ==> r.error == MissingPrimaryKey && unchanged(this, record)
      ensures r.Pass? ==> && Valid() && record.Valid()
                          && record.Value() == old(record.Value()).(recordNo := old(recordNo))
                          && Abs() == AddSpec(old(Abs()), old(record.Value())).value
    {
      var keyField := record.PrimaryKeyField();
      if keyField.None? {
        return Fail(MissingPrimaryKey);
      }
      var k := keyField.value.value;
      AddWellFormed(Abs(), record.Value());
      record.SetRecordNo(recordNo);
      recordNo := recordNo + 1;
      keys := keys + [k];
      keyToRecord := keyToRecord[k := record.Value()];
      return Pass;
    }

    /** `loadRecord(parser)`: none once the input is exhausted; otherwise a
        new record with one field per column, read in order, stamped with
        the parser's line number. */
    method LoadRecord(parser: CsvFileParser) returns (r: Result<Option<CsvRecord>>)
      requires parser.Valid()
      modifies parser
      ensures parser.Valid()
      ensures var (spec, s) := LoadRecordSpec(columnsInOrder, old(parser.State()));
              && parser.State() == s
              && (r.Err? ==> spec == Err(r.error))
              && (r == Ok(None) <==> spec == Ok(None))
              && (r.Ok? && r.value.Some? ==>
                    && fresh(r.value.value) && r.value.value.Valid()
                    && spec == Ok(Some(r.value.value.Value())))
    {
      var more := parser.HasNextRecord();
      if !more {
        return Ok(None);
      }
      var record := new CsvRecord();
      var o := ReadFields(parser, record);
      if o.Fail? {
        return Err(o.error);
      }
      var n := parser.GetLineNo();
      record.SetLineNo(n);
      return Ok(Some(record));
    }

    /** The field loop of `loadRecord`: one field per column, read in order
        and appended to `record`; a field that cannot be read is reported
        with its number, counted from 1, and the parser's line number. */
    method ReadFields(parser: CsvFileParser, record: CsvRecord) returns (r: Outcome)
      requires parser.Valid() && !parser.atEnd && record.Valid() && record.fields == []
      modifies parser, record
      ensures parser.Valid() && record.Valid()
      ensures record.lineNo == old(record.lineNo) && record.recordNo == old(record.recordNo)
      ensures var (spec, s) := TakeFields(columnsInOrder, old(parser.State()), 0);
              && parser.State() == s
              && (r.Pass? <==> spec.Ok?)
              && (r.Fail? ==> r.error == spec.error)
              && (r.Pass? ==> record.fields == spec.value)
    {
      ghost var s1 := parser.State();
      PrependEmpty(TakeFields(columnsInOrder, s1, 0));
      var i := 0;
      while i < |columnsInOrder|
        invariant 0 <= i <= |columnsInOrder|
        invariant parser.Valid() && !parser.atEnd && parser.input == s1.input
        invariant record.Valid() && record.lineNo == old(record.lineNo) && record.recordNo == old(record.recordNo)
        invariant TakeFields(columnsInOrder, s1, 0) == Prepend(record.fields, TakeFields(columnsInOrder, parser.State(), i))
        decreases |columnsInOrder| - i
      {
        ghost var s := parser.State();
        ghost var fs := record.fields;
        var value := parser.NextField();
        if value.Err? {
          var n := parser.GetLineNo();
          return Fail(ParseError(i + 1, n, value.error));
        }
        ghost var s2 := parser.State();
        TakeFieldsStep(columnsInOrder, s, i, fs, value.value, s2);
        record.AddField(CsvField(columnsInOrder[i], value.value));
        assert parser.State() == s2;
        i := i + 1;
      }
      assert record.fields + [] == record.fields;
      return Pass;
    }

    /** `defaulted(from)`: a new record with `from`'s key field and an
        empty field for every other column, and `from`'s line number. */
    method Defaulted(from: RecordValue) returns (r: Result<CsvRecord>)
      ensures r.Ok? <==> DefaultedSpec(Abs(), from).Ok?
      ensures r.Err? ==> r.error == DefaultedSpec(Abs(), from).error
      ensures r.Ok? ==> fresh(r.value) && r.value.Valid() && r.value.Value() == DefaultedSpec(Abs(), from).value
    {
      var keyField := LastKeyField(from.fields);
      if keyField.None? {
        return Err(MissingPrimaryKey);
      }
      var kf := keyField.value;
      var record := new CsvRecord();
      record.AddField(kf);
      AddDefaultFields(record, columnsInOrder, kf.column.name);
      record.SetLineNo(from.lineNo);
      return Ok(record);
    }

    /** `copy()`: a new table in the same state. */
    method Copy() returns (c: CsvTable)
      requires Valid()
      ensures fresh(c) && c.Valid() && c.Abs() == Abs()
    {
      c := new CsvTable.WithState(name, unificationOption, columns, columnsInOrder, primaryKey, keys, keyToRecord, recordNo);
    }

    /** `unify(candidate)`: a copy of this table, given the candidate's
        missing columns, with each candidate record unified into the record
        of the same key, or handled by the policy when there is none. This
        table and the candidate are left alone. */
    method Unify(candidate: CsvTable) returns (r: Result<CsvTable>)
      requires Valid() && candidate.Valid()
      ensures r.Ok? <==> UnifySpec(Abs(), candidate.Abs()).Ok?
      ensures r.Err? ==> r.error == UnifySpec(Abs(), candidate.Abs()).error
      ensures r.Ok? ==> fresh(r.value) && r.value.Valid() && r.value.Abs() == UnifySpec(Abs(), candidate.Abs()).value
    {
      ghost var cand := candidate.Abs();
      var unified := Copy();
      unified.AddMissingColumns(candidate.columnsInOrder);
      var order := Dedup(candidate.keys);
      assert KeysIn(order, cand.records);
      var o := unified.UnifyAll(candidate, order);
      if o.Fail? {
        return Err(o.error);
      }
      return Ok(unified);
    }

    /** The record loop of `unify` on this table, the copy: each
        candidate record listed in `order` in turn, until one fails. */
    method UnifyAll(candidate: CsvTable, order: seq<string>) returns (o: Outcome)
      requires Valid() && candidate.Valid() && candidate != this
      requires KeysIn(order, candidate.keyToRecord)
      modifies this
      ensures Valid()
      ensures var spec := UnifyRecords(old(Abs()), candidate.Abs(), order);
              && (o.Pass? <==> spec.Ok?)
              && (o.Fail? ==> o.error == spec.error)
              && (o.Pass? ==> Abs() == spec.value)
    {
      ghost var cand := candidate.Abs();
      ghost var spec := UnifyRecords(Abs(), cand, order);
      var j := 0;
      while j < |order|
        invariant 0 <= j <= |order|
        invariant Valid()
        invariant spec == UnifyRecords(Abs(), cand, order[j..])
      {
        UnifyRecordsAt(Abs(), cand, order, j);
        o := UnifyCandidate(candidate.keyToRecord[order[j]]);
        if o.Fail? {
          return;
        }
        j := j + 1;
      }
      assert order[j..] == [];
      return Pass;
    }

    /** The column loop of `unify` on this table, the copy: each column
        whose name is not yet known is added. */
    method AddMissingColumns(cols: seq<CsvColumn>)
      requires Valid()
      modifies this
      ensures Valid() && Abs() == AddMissing(old(Abs()), cols)
    {
      var i := 0;
      while i < |cols|
        invariant 0 <= i <= |cols|
        invariant Valid() && AddMissing(old(Abs()), cols) == AddMissing(Abs(), cols[i..])
      {
        assert cols[i..][1..] == cols[i + 1..];
        var has := HasColumn(cols[i].name);
        if !has {
          AddColumn(cols[i]);
        }
        i := i + 1;
      }
    }

    /** The body of the record loop of `unify` on this table, the copy. */
    method UnifyCandidate(candidateRecord: RecordValue) returns (r: Outcome)
      requires Valid()
      modifies this
      ensures Valid()
      ensures r.Pass? <==> UnifyOne(old(Abs()), candidateRecord).Ok?
      ensures r.Fail? ==> r.error == UnifyOne(old(Abs()), candidateRecord).error
      ensures r.Pass? ==> Abs() == UnifyOne(old(Abs()), candidateRecord).value
    {
      UnifyOneWellFormed(Abs(), candidateRecord);
      var keyField := LastKeyField(candidateRecord.fields);
      if keyField.None? {
        return Fail(NullPointer);
      }
      var k := keyField.value.value;
      if k in keyToRecord {
        r := UnifyRecord(k, candidateRecord, false);
      } else if unificationOption == THROW {
        r := Fail(RecordNotFound(k));
      } else if unificationOption == LOG {
        // the record the copy lacks is skipped
        r := Pass;
      } else {
        var d := Defaulted(candidateRecord);
        var current := d.value;
        var _ := Add(current);
        var k2 := current.primaryKeyValue.value;
        r := UnifyRecord(k2, candidateRecord, true);
      }
    }

    /** `currentRecord.unify(candidate, withEmpty)` on the record filed
        under `k`. */
    method UnifyRecord(k: string, candidate: RecordValue, withEmpty: bool) returns (r: Outcome)
      requires Valid() && k in keyToRecord
      modifies this
      ensures Valid()
      ensures var (o, fs) := UnifyFields(old(keyToRecord[k].fields), candidate.fields, withEmpty);
              && r == o
              && Abs() == WithFields(old(Abs()), k, fs)
    {
      var (o, fs) := UnifyFields(keyToRecord[k].fields, candidate.fields, withEmpty);
      keyToRecord := keyToRecord[k := keyToRecord[k].(fields := fs)];
      return o;
    }

    /** `makeFirst(columnName)`: the named column moved to the front. */
    method MakeFirst(columnName: string)
      requires Valid() && columnName in columns
      modifies this
      ensures Valid()
      ensures Abs() == MakeFirstSpec(old(Abs()), columnName)
    {
      ghost var r := MakeFirstSpec(Abs(), columnName);
      MakeFirstWF(Abs(), columnName);
      var column := columns[columnName];
      var rest := RemoveFirst(columnsInOrder, column);
      var newColumnsInOrder := [column];
      var i := 0;
      while i < |rest|
        invariant 0 <= i <= |rest|
        invariant newColumnsInOrder == [column] + rest[..i]
      {
        assert rest[..i + 1] == rest[..i] + [rest[i]];
        newColumnsInOrder := newColumnsInOrder + [rest[i]];
        i := i + 1;
      }
      assert rest[..i] == rest;
      columnsInOrder := newColumnsInOrder;
      assert Abs() == r;
    }

    /** `toString()`: the column names, each followed by a comma, a
        newline, then one line per entry of `keys`. */
    method ToString() returns (s: string)
      requires Valid()
      ensures s == Text(Abs())
    {
      ghost var t := Abs();
      var out := HeaderLine(columnsInOrder);
      out := out + "\n";
      ghost var head := out;
      var j := 0;
      while j < |keys|
        invariant 0 <= j <= |keys|
        invariant KeysIn(keys[..j], t.records)
        invariant out == head + Rows(keys[..j], t.records)
      {
        var line := FieldsLine(keyToRecord[keys[j]].fields);
        RowsAt(keys, t.records, j);
        AppendAssoc(head, Rows(keys[..j], t.records), line);
        AppendAssoc(head, Rows(keys[..j], t.records) + line, "\n");
        out := out + line + "\n";
        j := j + 1;
      }
      assert keys[..j] == keys;
      return out;
    }

    /** `get(key)`: the record filed under the key, present exactly for
        the keys added. */
    function Get(key: string): (r: Option<RecordValue>)
      reads this
      requires Valid()
      ensures r.Some? <==> exists i :: 0 <= i < |keys| && keys[i] == key
      ensures r.Some? ==> r.value == Abs().records[key]
    {
      if key in keyToRecord then Some(keyToRecord[key]) else None
    }

    /** `containsKey(key)`: whether a record was added under the key. */
    function ContainsKey(key: string): (b: bool)
      reads this
      requires Valid()
      ensures b <==> exists i :: 0 <= i < |keys| && keys[i] == key
    {
      key in keyToRecord
    }

    /** `hasColumn(columnName)`: whether a column of that name was added. */
    function HasColumn(columnName: string): (b: bool)
      reads this
      requires Valid()
      ensures b <==> exists i :: 0 <= i < |columnsInOrder| && columnsInOrder[i].name == columnName
    {
      columnName in columns
    }
  }
}

/** Loading and printing: a table read from canonical text (the form
    `toString` writes) prints that text back. Canonical text is a header
    line of non-empty column names and then one line per record, every
    name and value followed by a comma, with no value containing a comma
    or starting with a quote, and no key repeated. */
module RoundTrip {
  import opened CsvErrors
  import opened Strings
  import opened Columns
  import opened Fields
  import opened Records
  import opened FileParser
  import opened TableSpec

  /** The lines a table with these rows of values prints after its header. */
  function RowLines(rows: seq<seq<string>>): (ls: seq<string>)
    ensures |ls| == |rows| && forall i :: 0 <= i < |rows| ==> ls[i] == Terminated(rows[i])
  {
    seq(|rows|, i requires 0 <= i < |rows| => Terminated(rows[i]))
  }

  /** Values a row or a header can hold and print back unchanged. */
  ghost predicate PlainCells(cells: seq<string>) {
    NoComma(cells) && NoQuotedField(cells)
  }

  /** Every row has one plain value per column, and no two rows share a
      key, the value of the first column. */
  ghost predicate CanonicalRows(width: nat, rows: seq<seq<string>>) {
    && (forall i :: 0 <= i < |rows| ==> |rows[i]| == width && PlainCells(rows[i]))
    && (forall i, j :: 0 <= i < j < |rows| && width > 0 ==> rows[i][0] != rows[j][0])
  }

  /** A comma-terminated row splits into its values and a final empty
      piece. */
  lemma SplitTerminated(fs: seq<string>)
    requires NoComma(fs)
    ensures Split(Terminated(fs)) == fs + [""]
  {
    if |fs| == 0 {
      assert fs + [""] == [""];
    } else {
      TerminatedIsJoin(fs);
      JoinSnocEmpty(fs);
      assert NoComma(fs + [""]) by {
        forall i | 0 <= i < |fs| + 1
          ensures ',' !in (fs + [""])[i]
        {
          if i < |fs| {
            assert (fs + [""])[i] == fs[i];
          }
        }
      }
      SplitJoin(fs + [""]);
    }
  }

  /** Plain values followed by the empty piece are still plain. */
  lemma PlainSnocEmpty(fs: seq<string>)
    requires PlainCells(fs)
    ensures NoQuotedField(fs + [""])
  {
    forall i | 0 <= i < |fs| + 1
      ensures (fs + [""])[i] == "" || (fs + [""])[i][0] != '"'
    {
      if i < |fs| {
        assert (fs + [""])[i] == fs[i];
      }
    }
  }

  /** A freshly read comma-terminated line has its values and one empty
      field pending. */
  lemma PendingOfLine(s: ParserState, cells: seq<string>)
    requires Inv(s) && !s.atEnd && s.position == 0 && !s.emptyLastField
    requires s.line == Terminated(cells) && |cells| >= 1 && PlainCells(cells)
    ensures Pending(s) == cells + [""] && NoQuotedField(Pending(s))
  {
    TerminatedIsJoin(cells);
    assert s.line[0..] == s.line;
    SplitTerminated(cells);
    PlainSnocEmpty(cells);
  }

  /** The non-empty names of a header whose names are all non-empty, with
      its trailing empty token, are those names. */
  lemma {:induction false} NonEmptyTrailing(names: seq<string>)
    requires forall i :: 0 <= i < |names| ==> names[i] != ""
    ensures NonEmpty(names + [""]) == names
    decreases |names|
  {
    if |names| == 0 {
      assert [] + [""] == [""];
      assert NonEmpty([""]) == [] + NonEmpty([""][1..]);
    } else {
      assert (names + [""])[1..] == names[1..] + [""];
      NonEmptyTrailing(names[1..]);
      assert [names[0]] + names[1..] == names;
    }
  }

  /** The next token of unquoted pending text is its first pending value,
      and the rest stays pending on the same line. */
  lemma UnquotedNext(s: ParserState)
    requires Inv(s) && !s.atEnd && NoQuotedField(Pending(s)) && |Pending(s)| >= 1
    ensures var (tok, s1) := Token(s, false);
            && tok == Ok(Pending(s)[0]) && Inv(s1) && !s1.atEnd
            && Pending(s1) == Pending(s)[1..] && NoQuotedField(Pending(s1))
            && s1.cursor == s.cursor && s1.input == s.input && s1.lineNo == s.lineNo
  {
    if !s.emptyLastField {
      FirstPendingUnquoted(s);
    }
    UnquotedToken(s);
    NoQuotedTail(Pending(s));
  }

  /** The fields for the columns from index `i` on, holding `values` in
      order. */
  function FieldsFor(cols: seq<CsvColumn>, i: nat, values: seq<string>): seq<CsvField>
    requires i <= |cols| && |values| >= |cols| - i
    decreases |cols| - i
  {
    if i == |cols| then [] else [CsvField(cols[i], values[0])] + FieldsFor(cols, i + 1, values[1..])
  }

  /** The values of `FieldsFor` are the values it was given, in order. */
  lemma {:induction false} FieldsForValues(cols: seq<CsvColumn>, i: nat, values: seq<string>)
    requires i <= |cols| && |values| >= |cols| - i
    ensures Values(FieldsFor(cols, i, values)) == values[..|cols| - i]
    decreases |cols| - i
  {
    if i < |cols| {
      FieldsForValues(cols, i + 1, values[1..]);
      var rest := FieldsFor(cols, i + 1, values[1..]);
      assert Values([CsvField(cols[i], values[0])] + rest) == [values[0]] + Values(rest);
      assert values[..|cols| - i] == [values[0]] + values[1..][..|cols| - i - 1];
    }
  }

  /** `FieldsFor` over columns none of which is the key holds no key
      field. */
  lemma {:induction false} FieldsForNoKey(cols: seq<CsvColumn>, i: nat, values: seq<string>)
    requires i <= |cols| && |values| >= |cols| - i
    requires forall k :: i <= k < |cols| ==> !cols[k].isPrimaryKey
    ensures LastKeyField(FieldsFor(cols, i, values)) == None
    decreases |cols| - i
  {
    if i < |cols| {
      FieldsForNoKey(cols, i + 1, values[1..]);
      var rest := FieldsFor(cols, i + 1, values[1..]);
      var fs := [CsvField(cols[i], values[0])] + rest;
      assert forall k :: 1 <= k < |fs| ==> fs[k] == rest[k - 1];
    }
  }

  /** `FieldsFor` over a key column followed by plain ones has the first
      value as its key value. */
  lemma FieldsForKey(cols: seq<CsvColumn>, values: seq<string>)
    requires |cols| >= 1 && cols[0].isPrimaryKey && forall k :: 1 <= k < |cols| ==> !cols[k].isPrimaryKey
    requires |values| >= |cols|
    ensures KeyValueOf(FieldsFor(cols, 0, values)) == Some(values[0])
  {
    FieldsForNoKey(cols, 1, values[1..]);
    var rest := FieldsFor(cols, 1, values[1..]);
    var fs := [CsvField(cols[0], values[0])] + rest;
    assert forall k :: 1 <= k < |fs| ==> fs[k] == rest[k - 1];
    LastKeyOfFirst(fs);
  }

  /** `loadRecord` on unquoted pending text: one field per remaining
      column, holding the pending values in order, on the same line. */
  lemma {:induction false} TakeUnquoted(cols: seq<CsvColumn>, s: ParserState, i: nat)
    requires Inv(s) && !s.atEnd && i <= |cols|
    requires NoQuotedField(Pending(s)) && |Pending(s)| >= |cols| - i
    ensures var (r, s2) := TakeFields(cols, s, i);
            && r == Ok(FieldsFor(cols, i, Pending(s)))
            && s2.cursor == s.cursor && s2.input == s.input && s2.lineNo == s.lineNo
    decreases |cols| - i
  {
    if i < |cols| {
      var p := Pending(s);
      UnquotedNext(s);
      var s1 := Token(s, false).1;
      TakeUnquoted(cols, s1, i + 1);
      TakeFieldsCons(cols, s, i, p[0], s1);
    }
  }

  /** `loadRecord` reads one more field when the next token is a value. */
  lemma TakeFieldsCons(cols: seq<CsvColumn>, s: ParserState, i: nat, v: string, s1: ParserState)
    requires Inv(s) && !s.atEnd && i < |cols| && Token(s, false) == (Ok(v), s1)
    ensures var rest := TakeFields(cols, s1, i + 1);
            rest.0.Ok? ==> TakeFields(cols, s, i) == (Ok([CsvField(cols[i], v)] + rest.0.value), rest.1)
  {
  }

  /** `toString` prints the same rows from two record maps that agree on
      the listed keys. */
  lemma {:induction false} RowsFrame(keys: seq<string>, m1: map<string, RecordValue>, m2: map<string, RecordValue>)
    requires KeysIn(keys, m1)
    requires forall i :: 0 <= i < |keys| ==> keys[i] in m2 && m2[keys[i]] == m1[keys[i]]
    ensures KeysIn(keys, m2) && Rows(keys, m1) == Rows(keys, m2)
    decreases |keys|
  {
    if |keys| > 0 {
      assert forall i :: 0 <= i < |keys| - 1 ==> keys[1..][i] == keys[i + 1];
      RowsFrame(keys[1..], m1, m2);
    }
  }

  /** The fields `loadRecord` reads from a freshly read canonical line:
      the line's values in column order, the first of them the key. */
  lemma {:induction false} CanonicalFields(cols: seq<CsvColumn>, s: ParserState, cells: seq<string>)
    requires Inv(s) && !s.atEnd && s.position == 0 && !s.emptyLastField && s.line == Terminated(cells)
    requires |cols| >= 1 && cols[0].isPrimaryKey && forall i :: 1 <= i < |cols| ==> !cols[i].isPrimaryKey
    requires |cells| == |cols| && PlainCells(cells)
    ensures var (fr, s2) := TakeFields(cols, s, 0);
            && fr.Ok? && Values(fr.value) == cells && KeyValueOf(fr.value) == Some(cells[0])
            && s2.cursor == s.cursor && s2.input == s.input && s2.lineNo == s.lineNo
  {
    PendingOfLine(s, cells);
    TakeUnquoted(cols, s, 0);
    var p := Pending(s);
    FieldsForValues(cols, 0, p);
    assert p[..|cols|] == cells;
    FieldsForKey(cols, p);
  }

  /** `loadRecord` on a canonical line: a record whose values are the
      line's, filed under the first of them; the line is consumed. */
  lemma ReadCanonicalLine(cols: seq<CsvColumn>, s: ParserState, cells: seq<string>)
    requires Inv(s) && s.cursor < |s.input| && s.input[s.cursor] == Terminated(cells)
    requires |cols| >= 1 && cols[0].isPrimaryKey && forall i :: 1 <= i < |cols| ==> !cols[i].isPrimaryKey
    requires |cells| == |cols| && PlainCells(cells)
    ensures var (r, s2) := LoadRecordSpec(cols, s);
            && r.Ok? && r.value.Some?
            && Values(r.value.value.fields) == cells && KeyOf(r.value.value) == Some(cells[0])
            && Inv(s2) && s2.cursor == s.cursor + 1 && s2.input == s.input
  {
    var s1 := Advance(s).1;
    CanonicalFields(cols, s1, cells);
  }

  /** The rows after the first of canonical rows are canonical, and print
      as the lines after the first. */
  lemma CanonicalTail(width: nat, rows: seq<seq<string>>)
    requires CanonicalRows(width, rows) && |rows| >= 1
    ensures CanonicalRows(width, rows[1..])
    ensures RowLines(rows)[1..] == RowLines(rows[1..])
    ensures Lines(RowLines(rows)) == Terminated(rows[0]) + "\n" + Lines(RowLines(rows[1..]))
  {
    var rest := rows[1..];
    forall i | 0 <= i < |rest|
      ensures |rest[i]| == width && PlainCells(rest[i])
    {
      assert rest[i] == rows[i + 1];
    }
    forall i, j | 0 <= i < j < |rest| && width > 0
      ensures rest[i][0] != rest[j][0]
    {
      assert rest[i] == rows[i + 1] && rest[j] == rows[j + 1];
    }
    assert RowLines(rows)[1..] == RowLines(rest);
  }

  /** The records `load` reads from canonical lines: each line becomes a
      record filed under its first value, and the rows printed grow by
      exactly those lines. */
  lemma {:induction false} LoadRowsCanonical(t: TableValue, s: ParserState, rows: seq<seq<string>>)
    requires Inv(s) && s.input[s.cursor..] == RowLines(rows)
    requires |t.columnsInOrder| >= 1 && t.columnsInOrder[0].isPrimaryKey
    requires forall i :: 1 <= i < |t.columnsInOrder| ==> !t.columnsInOrder[i].isPrimaryKey
    requires CanonicalRows(|t.columnsInOrder|, rows)
    requires forall i :: 0 <= i < |rows| ==> rows[i][0] !in t.records
    requires KeysIn(t.keys, t.records)
    ensures var r := LoadRows(t, s).0;
            && r.Ok? && r.value.columnsInOrder == t.columnsInOrder && KeysIn(r.value.keys, r.value.records)
            && Rows(r.value.keys, r.value.records) == Rows(t.keys, t.records) + Lines(RowLines(rows))
    decreases |rows|
  {
    var cols := t.columnsInOrder;
    if |rows| == 0 {
      assert |s.input[s.cursor..]| == 0;
      assert Rows(t.keys, t.records) + Lines([]) == Rows(t.keys, t.records);
    } else {
      var cells := rows[0];
      var rest := rows[1..];
      assert s.input[s.cursor] == s.input[s.cursor..][0];
      ReadCanonicalLine(cols, s, cells);
      var (rec, s2) := LoadRecordSpec(cols, s);
      var rv := rec.value.value;
      var k := cells[0];
      var t2 := AddSpec(t, rv).value;
      assert LoadRows(t, s).0 == LoadRows(t2, s2).0;
      assert t2.keys == t.keys + [k] && t2.records == t.records[k := rv.(recordNo := t.recordNo)];

      CanonicalTail(|cols|, rows);
      assert s2.input[s2.cursor..] == RowLines(rest) by {
        assert s2.input[s2.cursor..] == s.input[s.cursor..][1..];
      }
      forall i | 0 <= i < |rest|
        ensures rest[i][0] !in t2.records
      {
        assert rest[i] == rows[i + 1];
      }
      RowsFrame(t.keys, t.records, t2.records);
      RowsSnoc(t.keys, t2.records, k);
      LoadRowsCanonical(t2, s2, rest);

      // the old rows, this line, then the rest
      var a := Rows(t.keys, t.records);
      var b := Lines(RowLines(rest));
      AppendAssoc(a, Terminated(cells), "\n");
      AppendAssoc(a, Terminated(cells) + "\n", b);
    }
  }

  /** `defineColumns` on a canonical header line: one column per name, in
      order, the first of them the key; the header line is consumed. */
  lemma ReadCanonicalHeader(t: TableValue, input: seq<string>, names: seq<string>)
    requires |input| >= 1 && input[0] == Terminated(names)
    requires |names| >= 1 && PlainCells(names) && forall i :: 0 <= i < |names| ==> names[i] != ""
    requires t.columnsInOrder == [] && t.columns == map[] && t.primaryKey.None?
    ensures var (h, s2) := DefineColumnsSpec(t, Start(input));
            && h == Ok(WithHeader(t.(recordNo := 0), names))
            && Inv(s2) && s2.cursor == 1 && s2.input == input
  {
    var s1 := Advance(Start(input)).1;
    assert s1 == ParserState(input, 1, input[0], false, 0, false, 1);
    PendingOfLine(s1, names);
    var th := t.(recordNo := 0);
    assert DefineColumnsSpec(t, Start(input)) == HeaderLoop(th, s1);
    assert HasHeader(th, []);
    HeaderUnquoted(th, [], s1);
    NonEmptyTrailing(names);
    assert [] + NonEmpty(Pending(s1)) == names;
  }

  /** Load then print: a table read from canonical text prints exactly
      that text, whatever the file is called and whatever the policy. */
  lemma LoadPrintRoundTrip(fileName: string, names: seq<string>, rows: seq<seq<string>>, option: UnificationOptions)
    requires |names| >= 1 && PlainCells(names)
    requires forall i :: 0 <= i < |names| ==> names[i] != ""
    requires CanonicalRows(|names|, rows)
    ensures var input := [Terminated(names)] + RowLines(rows);
            var r := LoadSpec(fileName, input, option);
            && r.Ok? && KeysIn(r.value.keys, r.value.records)
            && Text(r.value) == Lines(input)
  {
    var input := [Terminated(names)] + RowLines(rows);
    var t0 := EmptyTable(RemoveExtension(BaseName(fileName)), option);
    ReadCanonicalHeader(t0, input, names);
    var (h, s2) := DefineColumnsSpec(t0, Start(input));
    var t1 := h.value;
    assert LoadSpec(fileName, input, option) == LoadRows(t1, s2).0;
    assert s2.input[s2.cursor..] == RowLines(rows);
    LoadRowsCanonical(t1, s2, rows);
    var t2 := LoadRows(t1, s2).0.value;
    assert Rows(t1.keys, t1.records) == "";
    assert Names(t2.columnsInOrder) == names;
    assert "" + Lines(RowLines(rows)) == Lines(RowLines(rows));
    assert input[1..] == RowLines(rows);
  }

  /** The table of the source's test: `Id,field1,` then the rows `1,f1,`
      and `2,2f1,` print back as they were read. */
  lemma Sheet1RoundTrip(input: seq<string>)
    requires input == ["Id,field1,", "1,f1,", "2,2f1,"]
    ensures var r := LoadSpec("sheet1.csv", input, THROW);
            && r.Ok? && KeysIn(r.value.keys, r.value.records)
            && Text(r.value) == "Id,field1,\n1,f1,\n2,2f1,\n"
  {
    var names := ["Id", "field1"];
    var rows := [["1", "f1"], ["2", "2f1"]];
    assert Terminated(names) == "Id,field1,";
    assert Terminated(rows[0]) == "1,f1,";
    assert Terminated(rows[1]) == "2,2f1,";
    assert [Terminated(names)] + RowLines(rows) == input;
    assert PlainCells(rows[0]) && PlainCells(rows[1]);
    LoadPrintRoundTrip("sheet1.csv", names, rows, THROW);
    Sheet1Text();
  }

  /** The three lines of the test table, each ended by a newline. */
  lemma Sheet1Text()
    ensures Lines(["Id,field1,", "1,f1,", "2,2f1,"]) == "Id,field1,\n1,f1,\n2,2f1,\n"
  {
  }
}

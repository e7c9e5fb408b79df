# CSV tables and their unification

This project models the part of the `net.pizey.csv` library that does the work. The library reads comma-separated text into tables keyed by a primary key and then unifies such tables into one. The model covers these pieces:

- **The tokenizer, `CsvFileParser`** (module `FileParser`, file `parser.dfy`). It is a state machine over the current line of a reader. Its state is the line, a position, a flag for an empty trailing field that is still owed, and the line number.
  - The reader is a sequence of lines with a cursor.
  - The class `CsvFileParser` updates that state in place.
  - The function `Token` describes `nextToken` as a value-to-value step, and `Quoted` describes its quoted branch.
  - Each method is proved to do exactly what these functions describe. The lemmas state what the tokenizer promises:
    - how unquoted fields split;
    - how quoted fields close or continue on later lines;
    - which errors can arise;
    - the split/join round trip.
- **Columns and fields** (`columns.dfy`, `fields.dfy`). Both are values: datatypes with structural equality.
- **Records, `CsvRecord`** (`records.dfy`). A record has an append-only field list. Its name-to-value index and its key value are kept equal to what that list determines. The record-level `unify` is proved against the function `UnifyFields`. The lemmas characterise that function:
  - what it appends;
  - when it passes;
  - that the index never changes;
  - when the key can change;
  - what the empty-filling variant does.
- **Tables, `CsvTable`** (`tablespec.dfy`, `tables.dfy`). `TableSpec` holds the table as a value and one function per operation:
  - header parsing, row loading, `add`, `defaulted`;
  - `toString`, `makeFirst`, `removeExtension`;
  - the policy-driven `unify` (THROW, LOG or DEFAULT).

  The class `CsvTable` in `Tables` runs these operations in place. Each method's `ensures` ties the new state, or the result, to the function.
- **Load and print** (`roundtrip.dfy`). Any table loaded from canonical text prints that text back. Canonical text means:
  - the header has non-empty names;
  - every name and value is followed by a comma;
  - no value holds a comma or starts with a quote;
  - no key is repeated.

  The library's own example `Id,field1,\n1,f1,\n2,2f1,\n` is one instance.

Shared modules: `CsvErrors` (`wrappers.dfy`) holds the option, result and error types. `Strings` (`strings.dfy`) holds the few `java.lang.String` operations used, and splitting and joining on commas.

The cited source files come from different revisions of the library. Each method is modelled as written in its own file, with these choices:
- The record's key field (`getPrimaryKeyField()`) is the last field added whose column is the primary key.
- The two-argument record `unify(candidate, flag)`:
  - with `false` it is the one-argument `unify` of `CsvRecord.java`;
  - with `true` it also accepts, and appends, a candidate field whose current value is the empty string. This branch is reconstructed from the table tests and is kept minimal.
- The revision cited here differs from the library's later revisions and their documentation in several ways. The model follows the code:
  - a repeated key is accepted, listed twice in `keys`, and the later record replaces the earlier one;
  - `addField` never rejects a second key value;
  - adding a column does not back-fill existing records;
  - the empty-filling `unify` never adds a column the record lacks.
- Column equality is structural, as the column tests expect. The cited `CsvColumn` declares no `equals`.

## Model

| member | source | states |
|---|---|---|
| Columns.Plain | src/main/java/net/pizey/csv/CsvColumn.java:78-80 | the one-argument constructor gives a column with that name that is not the primary key |
| Columns.ForeignKey | src/main/java/net/pizey/csv/CsvColumn.java:90-93 | the foreign-table constructor gives a column with that name that is not the primary key |
| Columns.Keyed | src/main/java/net/pizey/csv/CsvColumn.java:103-106 | the flag constructor stores the name and the primary-key flag exactly as given |
| Columns.Render | src/test/java/net/pizey/csv/CsvColumnTest.java:81-86 | the rendering is the name, followed by `(PK)` exactly when the column is the key |
| Columns.RenderExamples | src/test/java/net/pizey/csv/CsvColumnTest.java:81-86 | `Id` as key renders as `Id(PK)`, and `val` renders as `val` |
| Columns.ColumnEquality | src/test/java/net/pizey/csv/CsvColumnTest.java:41-47 | columns are equal iff names and flags are; names are case-sensitive (`Id` differs from `ID`), and the flag distinguishes |
| Fields.NewField | src/main/java/net/pizey/csv/CsvField.java:18-26 | construction succeeds iff neither the column nor the value is null; the result holds both; otherwise a NullPointer error |
| Fields.SetValue | src/main/java/net/pizey/csv/CsvField.java:41-43 | the value is replaced and the column kept; the field is unchanged iff the value was already that |
| Fields.Equals | src/main/java/net/pizey/csv/CsvField.java:55-73 | `equals` is true exactly for a present field with an equal column and value; null is unequal |
| Fields.EqualsExamples | src/test/java/net/pizey/csv/CsvFieldTest.java:81-86 | equality is reflexive, tells key and non-key columns apart, and tells values apart |
| Fields.Clone | src/main/java/net/pizey/csv/CsvField.java:75-78 | the clone equals the original in both directions |
| Fields.ToString | src/main/java/net/pizey/csv/CsvField.java:28-31 | the text is the quoted column name, `": "`, then the quoted value, character by character |
| Records.LastKeyField | src/main/java/net/pizey/csv/CsvRecord.java:94-95 | the key field is a key-column field of the record; there is none iff no field's column is the key |
| Records.LastKeyFieldIsLast | src/main/java/net/pizey/csv/CsvRecord.java:94-95 | the key field is the last key-column field added: no field after it is a key field |
| Records.AddFieldValues | src/main/java/net/pizey/csv/CsvRecord.java:93-98 | appending a field indexes its value under its name and keeps every other name; the key value changes iff the column is the key |
| Records.KnownFields | src/main/java/net/pizey/csv/CsvRecord.java:136-143 | the fields a passing `unify` appends are candidate fields whose names the record knows |
| Records.FirstConflict | src/main/java/net/pizey/csv/CsvRecord.java:137-140 | the index of the first candidate field whose known name holds a different value: every earlier known field agrees, and the one at the index disagrees |
| Records.UnifyAppendOnly | src/main/java/net/pizey/csv/CsvRecord.java:135-145 | `unify` only appends, at most one field per candidate field, and only candidate fields |
| Records.UnifyExact | src/main/java/net/pizey/csv/CsvRecord.java:135-145 | without empty-filling: the known fields before the first conflict are appended; the index is unchanged; the result is Pass iff there is no conflict, else the conflict error for that field (earlier appends stay) |
| Records.UnifyPassIff | src/main/java/net/pizey/csv/CsvRecord.java:136-142 | `unify` passes iff every known candidate name carries the record's value, and it never changes the name-to-value index |
| Records.UnifyKeepsKey | src/main/java/net/pizey/csv/CsvRecord.java:137-142 | when candidate key fields are named like the record's key column, `unify` keeps the key value and its consistency with the index |
| Records.UnifyCanMoveKey | src/main/java/net/pizey/csv/CsvRecord.java:94-95 | without that naming condition, a candidate key field named like an ordinary column moves the key value |
| Records.UnifyWithEmptyFills | src/main/java/net/pizey/csv/CsvTable.java:223-226 | with empty-filling and distinct candidate names: `unify` passes when every known name holds the candidate's value or ""; afterwards those names hold the candidate's values and the other names keep theirs |
| Records.CsvRecord.constructor | src/main/java/net/pizey/csv/CsvRecord.java:84-88 | a new record has no fields, an empty index and no key value |
| Records.CsvRecord.AddField | src/main/java/net/pizey/csv/CsvRecord.java:93-98 | appends exactly one field; indexes its value under its name; sets the key value exactly when the column is the key; the numbers are kept |
| Records.CsvRecord.SetRecordNo | src/main/java/net/pizey/csv/CsvRecord.java:104-106 | sets the record number and changes nothing else |
| Records.CsvRecord.GetRecordNo | src/main/java/net/pizey/csv/CsvRecord.java:111-113 | returns the record number |
| Records.CsvRecord.SetLineNo | src/main/java/net/pizey/csv/CsvRecord.java:119-121 | sets the line number and changes nothing else |
| Records.CsvRecord.GetLineNo | src/main/java/net/pizey/csv/CsvRecord.java:126-128 | returns the line number |
| Records.CsvRecord.Iterator | src/main/java/net/pizey/csv/CsvRecord.java:131-133 | yields the fields in insertion order |
| Records.CsvRecord.PrimaryKeyField | src/main/java/net/pizey/csv/CsvRecord.java:94-95 | the key field's value is the key value; there is none iff no key value is set, iff no field is a key field |
| Records.CsvRecord.Unify | src/main/java/net/pizey/csv/CsvRecord.java:135-145 | the loop's outcome and new field list are those of `UnifyFields`: it stops at the first conflict and keeps what it appended before it |
| Strings.JoinSplit | src/main/java/net/pizey/csv/CsvFileParser.java:138-149 | the comma-separated pieces of a string, joined with commas, give the string back |
| Strings.SplitJoin | src/main/java/net/pizey/csv/CsvFileParser.java:138-149 | comma-free pieces joined with commas split back into the same pieces |
| FileParser.Advance | src/main/java/net/pizey/csv/CsvFileParser.java:51-65 | reports another line iff input remains: then line number +1, the new line, position 0 and the flag cleared; otherwise at end, with the position reset and the flag cleared |
| FileParser.Token | src/main/java/net/pizey/csv/CsvFileParser.java:95-151 | `nextToken` keeps the invariant (position at most line length + 1), always makes progress when it succeeds, and fails only with NoSuchElement or Unclosed quotes, so "No comma after quotes" cannot arise |
| FileParser.Quoted | src/main/java/net/pizey/csv/CsvFileParser.java:106-136 | the same guarantees for the quoted branch |
| FileParser.RecordFields | src/main/java/net/pizey/csv/CsvFileParser.java:81-90 | reading fields while more remain ends with none left, on a line of the same input |
| FileParser.PendingSplit | src/main/java/net/pizey/csv/CsvFileParser.java:138-149 | the fields still to come are the text up to the next comma, then the comma-separated rest |
| FileParser.UnquotedToken | src/main/java/net/pizey/csv/CsvFileParser.java:97-149 | on unquoted text the next field is the first pending one, and the pending fields shift by one; the pending empty field is "" and clears the flag |
| FileParser.UnquotedRecord | src/main/java/net/pizey/csv/CsvFileParser.java:81-149 | on a line with no quoted field, the record's fields are exactly the pending ones, and the record ends on that line |
| FileParser.LineRoundTrip | src/main/java/net/pizey/csv/CsvFileParser.java:12-13 | on a fresh line with no quoted field: the fields read, joined with commas, equal the line; an empty line gives no fields, a trailing comma a final "", and leading spaces are kept |
| FileParser.QuotedClosedByQuoteComma | src/main/java/net/pizey/csv/CsvFileParser.java:106-136 | a quoted field runs to the first `",` and the next field starts after the comma; a comma that ends the line leaves an empty field pending |
| FileParser.QuotedClosedAtEndOfLine | src/main/java/net/pizey/csv/CsvFileParser.java:109-136 | with no `",` and the only later quote ending the line, the field runs to that quote and the position is line length + 1 |
| FileParser.QuotedContinued | src/main/java/net/pizey/csv/CsvFileParser.java:114-121 | an unclosed quoted field fails with Unclosed quotes at end of input; otherwise it is the rest of the line, "\n", then the continuation from position 0 of the next line, which fails with NoSuchElement when that line is empty |
| FileParser.CsvFileParser.constructor | src/main/java/net/pizey/csv/CsvFileParser.java:44-46 | a new parser has read nothing, at line 0 |
| FileParser.CsvFileParser.HasNextRecord | src/main/java/net/pizey/csv/CsvFileParser.java:51-65 | does what `Advance` describes |
| FileParser.CsvFileParser.GetLineNo | src/main/java/net/pizey/csv/CsvFileParser.java:72-74 | returns the number of lines read so far |
| FileParser.CsvFileParser.RecordHasMoreFields | src/main/java/net/pizey/csv/CsvFileParser.java:81-83 | true iff the flag is set or the position is inside the line; when false the next field fails with NoSuchElement; null dereference after the input ends |
| FileParser.CsvFileParser.NextField | src/main/java/net/pizey/csv/CsvFileParser.java:88-90 | does what `Token` describes, without quotes, on the old state |
| FileParser.CsvFileParser.NextToken | src/main/java/net/pizey/csv/CsvFileParser.java:95-151 | result and new state are `Token` of the old state |
| FileParser.CsvFileParser.QuotedToken | src/main/java/net/pizey/csv/CsvFileParser.java:106-136 | result and new state are `Quoted` of the old state; reads further lines while the quote is open |
| TableSpec.EmptyWellFormed | src/main/java/net/pizey/csv/CsvTable.java:24-28 | a table with nothing in it is well formed |
| TableSpec.AddColumnWellFormed | src/main/java/net/pizey/csv/CsvTable.java:111-114 | `addColumn` appends one column, indexes it by name, keeps records, keys and the key column, and keeps the table well formed |
| TableSpec.AddSpec | src/main/java/net/pizey/csv/CsvTable.java:120-126 | `add` succeeds iff the record has a key field |
| TableSpec.AddWellFormed | src/main/java/net/pizey/csv/CsvTable.java:120-126 | `add` appends the key to `keys`, files the record under it with the next record number, keeps every other key and all columns, and keeps the table well formed |
| TableSpec.AddSameKeyTwice | src/main/java/net/pizey/csv/CsvTable.java:124-125 | there is no duplicate check: a repeated key is listed twice and only the later record is kept |
| TableSpec.DefaultFieldsShape | src/main/java/net/pizey/csv/CsvTable.java:173-176 | the default fields are empty, belong to listed columns other than the key's, and cover every such column |
| TableSpec.DefaultedSpec | src/main/java/net/pizey/csv/CsvTable.java:167-179 | `defaulted` succeeds iff the record has a key field, and the result then has a key |
| TableSpec.DefaultedShape | src/main/java/net/pizey/csv/CsvTable.java:167-179 | the defaulted record is the key field, then exactly the empty fields of the other columns, with the source's line number |
| TableSpec.DefaultedKey | src/main/java/net/pizey/csv/CsvTable.java:170-176 | a defaulted record is filed under its source record's key when no other column is a key |
| TableSpec.HeaderLoop | src/main/java/net/pizey/csv/CsvTable.java:96-108 | the header loop keeps the parser invariant on the same input |
| TableSpec.HeaderLoopWellFormed | src/main/java/net/pizey/csv/CsvTable.java:99-107 | the header loop never raises "primary key column already set", only appends columns, keeps records and keys, and keeps the table well formed |
| TableSpec.HeaderStep | src/main/java/net/pizey/csv/CsvTable.java:99-106 | each non-empty name extends the header by its column, which is the key exactly when it is the first |
| TableSpec.HeaderFields | src/main/java/net/pizey/csv/CsvTable.java:92-109 | on any header, quoted or spread over several lines: one column per non-empty field of the header record, in order, the first the key; it stops where the record ends, and fails with the error of the first field that fails to read |
| TableSpec.HeaderUnquoted | src/main/java/net/pizey/csv/CsvTable.java:92-109 | on an unquoted header: one column per non-empty token, in order, the first one the key (so a trailing comma adds none); the header ends on its line |
| TableSpec.DefineColumnsSpec | src/main/java/net/pizey/csv/CsvTable.java:92-109 | `defineColumns` keeps the parser invariant and never reads backwards |
| TableSpec.TakeFields | src/main/java/net/pizey/csv/CsvTable.java:142-162 | reads exactly one field per remaining column; a failure is a parse error that names a field number in range and the line reached |
| TableSpec.LoadRecordSpec | src/main/java/net/pizey/csv/CsvTable.java:135-165 | no record iff the input is exhausted; otherwise a record with exactly one field per column, having read a line |
| TableSpec.LoadRows | src/main/java/net/pizey/csv/CsvTable.java:80-82 | the row loop keeps the parser invariant on the same input |
| TableSpec.LoadEmptyFails | src/main/java/net/pizey/csv/CsvTable.java:92-96 | loading a file with no lines fails on the missing header line |
| TableSpec.BaseName | src/main/java/net/pizey/csv/CsvTable.java:53 | the file name is the suffix of the path after its last `/`: it holds no `/` and, unless it is the whole path, a `/` comes right before it |
| TableSpec.RemoveExtension | src/main/java/net/pizey/csv/CsvTable.java:247-250 | the result is the prefix before the last `.`; a name without `.` is returned unchanged |
| TableSpec.RemoveExtensionExample | src/test/java/net/pizey/csv/CsvTableTest.java:17-19 | `sheet1.csv` becomes `sheet1`, and `sheet1` stays |
| TableSpec.TableNameExample | src/test/java/net/pizey/csv/CsvTableTest.java:22-28 | the table read from `src/test/resources/sheet1.csv` is named `sheet1` |
| TableSpec.RowsSnoc | src/main/java/net/pizey/csv/CsvTable.java:189-196 | each further key adds that record's values, comma-terminated, and a newline to the text |
| TableSpec.RemoveFirstCuts | src/main/java/net/pizey/csv/CsvTable.java:240 | `ArrayList.remove` cuts out exactly the first occurrence, and nothing when there is none |
| TableSpec.MakeFirstPermutes | src/main/java/net/pizey/csv/CsvTable.java:236-245 | the named column comes first and the others keep their relative order (a permutation of the list); index, flags, records and keys are untouched; the table stays well formed |
| TableSpec.Missing | src/main/java/net/pizey/csv/CsvTable.java:206-209 | the columns the copy gains are candidate columns with unknown names, each name once |
| TableSpec.AddMissingAppends | src/main/java/net/pizey/csv/CsvTable.java:206-209 | the column loop appends exactly the missing candidate columns, in the candidate's order |
| TableSpec.AddMissingIndex | src/main/java/net/pizey/csv/CsvTable.java:206-209 | the column loop keeps the indexed columns, and afterwards every candidate column name is indexed |
| TableSpec.AddMissingKeeps | src/main/java/net/pizey/csv/CsvTable.java:206-209 | the column loop changes nothing but the columns |
| TableSpec.AddMissingWellFormed | src/main/java/net/pizey/csv/CsvTable.java:206-209 | the column loop keeps the table well formed |
| TableSpec.Dedup | src/main/java/net/pizey/csv/CsvTable.java:210 | the candidate records are visited one per key: exactly the keys of the list, each once |
| TableSpec.UnifyOneKeeps | src/main/java/net/pizey/csv/CsvTable.java:210-232 | one candidate record keeps the columns, the key column, the name, the policy and the keys/records correspondence, and only adds keys: none under THROW and LOG, and under THROW only known keys pass |
| TableSpec.UnifyOneWellFormed | src/main/java/net/pizey/csv/CsvTable.java:210-232 | one candidate record keeps the table well formed |
| TableSpec.UnifyRecordsColumns | src/main/java/net/pizey/csv/CsvTable.java:210-232 | the record loop keeps the columns, the key column, the name and the policy |
| TableSpec.UnifyRecordsKeys | src/main/java/net/pizey/csv/CsvTable.java:210-232 | the record loop only adds keys, none under THROW or LOG; under THROW every candidate key was already present |
| TableSpec.UnifyShape | src/main/java/net/pizey/csv/CsvTable.java:204-234 | `unify` yields a well-formed table: its columns followed by the candidate's missing ones; key column, name and policy kept; keys only added, none unless DEFAULT |
| TableSpec.UnifyThrowFails | src/main/java/net/pizey/csv/CsvTable.java:213-217 | under THROW, a candidate key the table lacks makes `unify` fail |
| TableSpec.AddOwnKeys | src/main/java/net/pizey/csv/CsvTable.java:120-126 | `add` files each record under the value of its own key field |
| TableSpec.DefaultedKeyRoom | src/main/java/net/pizey/csv/CsvTable.java:167-179 | the defaulted record indexes the key column's name with the key value |
| TableSpec.DefaultedOtherRoom | src/main/java/net/pizey/csv/CsvTable.java:167-179 | the defaulted record indexes every other column of the table with the empty string |
| TableSpec.UnifyDefaultFills | src/main/java/net/pizey/csv/CsvTable.java:223-226 | under DEFAULT, a candidate record whose key the table lacks is filed under that key by one pass, which succeeds, and the filed record then holds every value of the candidate |
| TableSpec.UnifyOneOthers | src/main/java/net/pizey/csv/CsvTable.java:210-231 | one pass changes or adds only the record under the candidate's key; every other record stays as it was |
| TableSpec.UnifyRecordsOthers | src/main/java/net/pizey/csv/CsvTable.java:210-232 | the record loop leaves alone a record whose key no candidate carries |
| TableSpec.UnifyRecordsDefault | src/main/java/net/pizey/csv/CsvTable.java:210-232 | under DEFAULT, over distinct candidate keys, a candidate the table lacked ends up filed under its key, holding all its values |
| TableSpec.UnifyDefaultAdds | src/main/java/net/pizey/csv/CsvTable.java:204-234 | under DEFAULT, when `unify` succeeds, a candidate record whose key the table lacked is in the result's keys and records and holds every value of the candidate |
| Tables.AddDefaultFields | src/main/java/net/pizey/csv/CsvTable.java:173-176 | the column loop of `defaulted` appends exactly `DefaultFields` to the record |
| Tables.AddDefaultField | src/main/java/net/pizey/csv/CsvTable.java:174-175 | one column: an empty field unless it is the key's column |
| Tables.HeaderLine | src/main/java/net/pizey/csv/CsvTable.java:183-186 | the header is each column name followed by a comma |
| Tables.FieldsLine | src/main/java/net/pizey/csv/CsvTable.java:191-194 | a row is each field value followed by a comma, in insertion order |
| Tables.CsvTable.constructor | src/main/java/net/pizey/csv/CsvTable.java:50-53 | a table starts named, with its policy, and empty |
| Tables.CsvTable.Open | src/main/java/net/pizey/csv/CsvTable.java:50-66 | opening a file gives a fresh table equal to `LoadSpec`, or its error |
| Tables.CsvTable.Load | src/main/java/net/pizey/csv/CsvTable.java:76-84 | the new state, or the error, is that of `LoadFrom` on the old state |
| Tables.CsvTable.DefineColumns | src/main/java/net/pizey/csv/CsvTable.java:92-109 | the new table and parser state, or the error, are those of `DefineColumnsSpec` |
| Tables.CsvTable.AddColumn | src/main/java/net/pizey/csv/CsvTable.java:111-114 | the new state is `AddColumnSpec` of the old one |
| Tables.CsvTable.Add | src/main/java/net/pizey/csv/CsvTable.java:120-126 | fails with MissingPrimaryKey and changes nothing iff the record has no key field; otherwise stamps its record number and does what `AddSpec` describes |
| Tables.CsvTable.LoadRecord | src/main/java/net/pizey/csv/CsvTable.java:135-165 | outcome, record and parser state are those of `LoadRecordSpec` |
| Tables.CsvTable.ReadFields | src/main/java/net/pizey/csv/CsvTable.java:142-162 | the fields read, or the parse error, are those of `TakeFields` |
| Tables.CsvTable.Defaulted | src/main/java/net/pizey/csv/CsvTable.java:167-179 | a fresh record equal to `DefaultedSpec`, or its error |
| Tables.CsvTable.Copy | src/main/java/net/pizey/csv/CsvTable.java:200-202 | a fresh table in the same state |
| Tables.CsvTable.Unify | src/main/java/net/pizey/csv/CsvTable.java:204-234 | a fresh table equal to `UnifySpec` of the two tables, or its error; both inputs are left alone |
| Tables.CsvTable.UnifyAll | src/main/java/net/pizey/csv/CsvTable.java:210-232 | the record loop does what `UnifyRecords` describes |
| Tables.CsvTable.AddMissingColumns | src/main/java/net/pizey/csv/CsvTable.java:206-209 | the column loop does what `AddMissing` describes |
| Tables.CsvTable.UnifyCandidate | src/main/java/net/pizey/csv/CsvTable.java:211-231 | one candidate record, handled by the policy when its key is missing, does what `UnifyOne` describes |
| Tables.CsvTable.UnifyRecord | src/main/java/net/pizey/csv/CsvTable.java:224-231 | the filed record gets the fields `UnifyFields` computes, and nothing else changes |
| Tables.CsvTable.MakeFirst | src/main/java/net/pizey/csv/CsvTable.java:236-245 | the new state is `MakeFirstSpec` of the old one |
| Tables.CsvTable.ToString | src/main/java/net/pizey/csv/CsvTable.java:181-198 | the text is `Text` of the table |
| Tables.CsvTable.Get | src/main/java/net/pizey/csv/CsvTable.java:280-282 | a record is found exactly for the keys that were added, and it is the record the table files under that key |
| Tables.CsvTable.ContainsKey | src/main/java/net/pizey/csv/CsvTable.java:331-333 | true exactly for the keys that were added |
| Tables.CsvTable.HasColumn | src/main/java/net/pizey/csv/CsvTable.java:270-272 | true exactly for the names of listed columns |
| RoundTrip.SplitTerminated | src/main/java/net/pizey/csv/CsvFileParser.java:138-149 | a comma-terminated row of comma-free values splits into those values and a final "" |
| RoundTrip.TakeUnquoted | src/main/java/net/pizey/csv/CsvTable.java:142-162 | on unquoted pending fields, the field loop takes them one per column and stays on the line |
| RoundTrip.CanonicalFields | src/main/java/net/pizey/csv/CsvTable.java:142-162 | on a canonical row, the fields read carry exactly the row's values and its first value as key |
| RoundTrip.ReadCanonicalLine | src/main/java/net/pizey/csv/CsvTable.java:135-165 | a canonical row loads as one record with exactly its values, keyed by its first value, consuming one line |
| RoundTrip.LoadRowsCanonical | src/main/java/net/pizey/csv/CsvTable.java:76-84 | canonical rows with new keys load, and the table then prints them back after what it printed before |
| RoundTrip.ReadCanonicalHeader | src/main/java/net/pizey/csv/CsvTable.java:92-109 | a canonical header defines exactly its names as columns, the first one the key, consuming one line |
| RoundTrip.LoadPrintRoundTrip | src/main/java/net/pizey/csv/CsvTable.java:181-198 | every table loaded from canonical text prints exactly that text back |
| RoundTrip.Sheet1RoundTrip | src/test/java/net/pizey/csv/CsvTableTest.java:21-27 | loading `Id,field1,` / `1,f1,` / `2,2f1,` and printing gives `Id,field1,\n1,f1,\n2,2f1,\n` |

## Left out

- File I/O. The table constructors read a file and `outputToFile` writes one. A file is modelled as its name and its sequence of lines, and `outputToFile` is left out; the text it writes is `toString`.
- `copy()` re-opens and re-reads the data file in the source (`CsvTable.java:200-202`). It is modelled as a copy of the table's current state. The two agree while the file is unchanged and the table has not been modified since it was loaded. They differ for a table that is itself the result of `unify`: it keeps the first table's file name, so in the source `sheet1.unify(sheet2).unify(sheet3)` (`Unifier.java:14`, `UnifierTest.java:43`) re-reads `sheet1.csv` in the second call and loses what the first call merged from `sheet2`. The model keeps that merge, which is the output `UnifierTest` expects.
- Tables file their records as values, not as shared `CsvRecord` objects. So the aliasing between a record held by the caller and the one in the table is not modelled, and `get` returns a value. `add` files the record's state at the time it is added.
- The iteration order of `HashMap.values()` in `unify`. The candidate's records are visited once per key in the order the keys were first added. The Java order is unspecified.
- The `System.err` message in the LOG branch of `unify`. Under LOG the record is simply skipped.
- The exception classes. They only carry messages, and are modelled as one error datatype. `NoSuchElementException`, `IllegalArgumentException` and the record-level `RuntimeException` become distinct variants, and `CsvParseException` carries the field number, the line and the cause.
- IOException from the reader, which cannot arise on a sequence of lines.
- The command-line programs `App`, `Unifier` and `DefaultingUnifier`, which only wire the pieces together and print.
- `hashCode` of columns and fields. It depends on Java integer overflow and `String.hashCode`.
- `synchronized` on `addField`, which concerns concurrency only.
- The `Map` pass-through methods of `CsvTable` other than `get` and `containsKey`. `remove`, `clear`, `put` and `putAll` change the record map without `keys` and would break the correspondence `toString` relies on.
- `getColumn`, `getColumnsInOrder` and `getName`, which are read-only accessors of the fields.
- The `foreignTable` of a column, which is stored but never read.
- Tables.CsvTable.MakeFirst: requires the named column to exist. The source would otherwise insert a null column and fail later.
- Null column names, and null values outside `CsvField`'s own check.
- Java `int` overflow of the line and record counters.
- Records.CsvRecord.Unify: the empty-filling variant (`withEmpty` true) is reconstructed from the table tests. It only appends to fields whose name the record already has.
- RoundTrip.LoadPrintRoundTrip: covers canonical text only. Quoted fields, values with commas, empty header cells and repeated keys do not print back as read.
- Tests that need a later revision of the library: `makeFirstAndPrimary`, reordered values after `makeFirst`, and the unification tests that read resource files not part of this model.

/** A record of a CSV table: its fields in the order they were added, the
    name-to-value index over them, and the primary-key value. */
module Records {
  import opened CsvErrors
  import opened Columns
  import opened Fields
  import opened Strings

  /** The name-to-value index of a field list: a later field with the same
      column name overwrites an earlier one, as a `HashMap.put` does. */
  function ValuesOf(fs: seq<CsvField>): (m: map<string, string>)
    decreases |fs|
  {
    if |fs| == 0 then map[]
    else ValuesOf(fs[..|fs| - 1])[fs[|fs| - 1].column.name := fs[|fs| - 1].value]
  }

  /** The last field added whose column is the primary key, if any. */
  function LastKeyField(fs: seq<CsvField>): (r: Option<CsvField>)
    ensures r.Some? ==> r.value in fs && r.value.column.isPrimaryKey
    ensures r.None? <==> forall i :: 0 <= i < |fs| ==> !fs[i].column.isPrimaryKey
    decreases |fs|
  {
    if |fs| == 0 then None
    else if fs[|fs| - 1].column.isPrimaryKey then Some(fs[|fs| - 1])
    else LastKeyField(fs[..|fs| - 1])
  }

  /** The key field is the last key field: no later field is a key field. */
  lemma {:induction false} LastKeyFieldIsLast(fs: seq<CsvField>)
    ensures LastKeyField(fs).Some? ==>
              exists i :: 0 <= i < |fs| && fs[i] == LastKeyField(fs).value
                          && forall j :: i < j < |fs| ==> !fs[j].column.isPrimaryKey
    decreases |fs|
  {
    if |fs| > 0 {
      var n := |fs| - 1;
      if fs[n].column.isPrimaryKey {
        assert LastKeyField(fs) == Some(fs[n]);
      } else {
        var init := fs[..n];
        assert LastKeyField(fs) == LastKeyField(init);
        LastKeyFieldIsLast(init);
        if LastKeyField(init).Some? {
          var i :| 0 <= i < |init| && init[i] == LastKeyField(init).value
                   && forall j :: i < j < |init| ==> !init[j].column.isPrimaryKey;
          forall j | i < j < |fs|
            ensures !fs[j].column.isPrimaryKey
          {
            if j < n {
              assert fs[j] == init[j];
            }
          }
          assert fs[i] == init[i];
        }
      }
    }
  }

  /** `primaryKeyValue`: the value of the last primary-key field added. */
  function KeyValueOf(fs: seq<CsvField>): Option<string> {
    match LastKeyField(fs)
    case None => None
    case Some(f) => Some(f.value)
  }

  /** Appending a field puts its value under its name and keeps every other
      name; it sets the key value exactly when its column is the key. */
  lemma AddFieldValues(fs: seq<CsvField>, f: CsvField)
    ensures ValuesOf(fs + [f]) == ValuesOf(fs)[f.column.name := f.value]
    ensures forall n :: n in ValuesOf(fs) && n != f.column.name ==> ValuesOf(fs + [f])[n] == ValuesOf(fs)[n]
    ensures KeyValueOf(fs + [f]) == if f.column.isPrimaryKey then Some(f.value) else KeyValueOf(fs)
  {
    assert (fs + [f])[..|fs|] == fs;
  }

  /** Every field's name is indexed. */
  lemma {:induction false} ValuesOfHas(fs: seq<CsvField>)
    ensures forall i :: 0 <= i < |fs| ==> fs[i].column.name in ValuesOf(fs)
    decreases |fs|
  {
    if |fs| > 0 {
      var init := fs[..|fs| - 1];
      ValuesOfHas(init);
      assert forall i :: 0 <= i < |init| ==> init[i] == fs[i];
    }
  }

  /** When every field named `n` holds `v`, the index holds `v` under `n`. */
  lemma {:induction false} ValuesOfUniform(fs: seq<CsvField>, n: string, v: string)
    requires forall i :: 0 <= i < |fs| && fs[i].column.name == n ==> fs[i].value == v
    ensures n in ValuesOf(fs) ==> ValuesOf(fs)[n] == v
    decreases |fs|
  {
    if |fs| > 0 {
      var init := fs[..|fs| - 1];
      assert forall i :: 0 <= i < |init| ==> init[i] == fs[i];
      ValuesOfUniform(init, n, v);
    }
  }

  /** A record, as the table sees it. */
  datatype RecordValue = RecordValue(fields: seq<CsvField>, lineNo: int, recordNo: int)

  /** One step of `unify`: what happens to the field list `fs` when the
      candidate field `f` is met. A name `fs` lacks is ignored; an equal
      value, or with `withEmpty` an empty current value, is added again;
      any other value is a conflict. */
  function UnifyStep(fs: seq<CsvField>, f: CsvField, withEmpty: bool): Result<seq<CsvField>> {
    var m := ValuesOf(fs);
    var n := f.column.name;
    if n !in m then Ok(fs)
    else if m[n] == f.value || (withEmpty && m[n] == "") then Ok(fs + [f])
    else Err(UnificationConflict(n, m[n], f.value))
  }

  /** `unify`: the candidate's fields met in order; the first conflict
      stops the walk and keeps what was appended before it. */
  function UnifyFields(fs: seq<CsvField>, cand: seq<CsvField>, withEmpty: bool): (r: (Outcome, seq<CsvField>))
    decreases |cand|
  {
    if |cand| == 0 then (Pass, fs)
    else match UnifyStep(fs, cand[0], withEmpty)
      case Err(e) => (Fail(e), fs)
      case Ok(fs1) => UnifyFields(fs1, cand[1..], withEmpty)
  }

  /** The candidate fields whose names `m` knows, in order: what a passing
      `unify` appends. */
  function Known(m: map<string, string>, cand: seq<CsvField>): seq<CsvField>
    decreases |cand|
  {
    if |cand| == 0 then []
    else (if cand[0].column.name in m then [cand[0]] else []) + Known(m, cand[1..])
  }

  /** `Known` keeps candidate fields only, each with a name `m` knows. */
  lemma {:induction false} KnownFields(m: map<string, string>, cand: seq<CsvField>)
    ensures var r := Known(m, cand);
            |r| <= |cand| && forall i :: 0 <= i < |r| ==> r[i] in cand && r[i].column.name in m
    decreases |cand|
  {
    if |cand| > 0 {
      KnownFields(m, cand[1..]);
      var r := Known(m, cand);
      var rest := Known(m, cand[1..]);
      forall i | 0 <= i < |r|
        ensures r[i] in cand && r[i].column.name in m
      {
        if cand[0].column.name in m {
          if i > 0 {
            assert r[i] == rest[i - 1];
          }
        } else {
          assert r[i] == rest[i];
        }
      }
    }
  }

  /** The index of the first candidate field that disagrees with `m`, or
      `|cand|` when none does. */
  function FirstConflict(m: map<string, string>, cand: seq<CsvField>): (j: nat)
    ensures j <= |cand|
    ensures forall i :: 0 <= i < j ==> cand[i].column.name in m ==> m[cand[i].column.name] == cand[i].value
    ensures j < |cand| ==> cand[j].column.name in m && m[cand[j].column.name] != cand[j].value
    decreases |cand|
  {
    if |cand| == 0 then 0
    else if cand[0].column.name in m && m[cand[0].column.name] != cand[0].value then 0
    else 1 + FirstConflict(m, cand[1..])
  }

  /** `unify` only ever appends, and only candidate fields. */
  lemma {:induction false} UnifyAppendOnly(fs: seq<CsvField>, cand: seq<CsvField>, withEmpty: bool)
    ensures var r := UnifyFields(fs, cand, withEmpty);
            && fs <= r.1 && |r.1| <= |fs| + |cand|
            && forall i :: |fs| <= i < |r.1| ==> r.1[i] in cand
    decreases |cand|
  {
    if |cand| > 0 {
      match UnifyStep(fs, cand[0], withEmpty)
      case Err(e) =>
      case Ok(fs1) =>
        UnifyAppendOnly(fs1, cand[1..], withEmpty);
        var r := UnifyFields(fs1, cand[1..], withEmpty);
        forall i | |fs| <= i < |r.1|
          ensures r.1[i] in cand
        {
          if i >= |fs1| {
            assert r.1[i] in cand[1..];
          } else {
            assert fs1 == fs + [cand[0]];
            assert r.1[i] == cand[0];
          }
        }
    }
  }

  /** Without `withEmpty`, the walk is fixed by the index before it starts:
      everything up to the first conflict whose name is known is appended,
      and the walk passes exactly when there is no conflict; the index
      itself never changes. */
  lemma {:induction false} UnifyExact(fs: seq<CsvField>, m: map<string, string>, cand: seq<CsvField>)
    requires ValuesOf(fs) == m
    ensures var j := FirstConflict(m, cand);
            var r := UnifyFields(fs, cand, false);
            && r.1 == fs + Known(m, cand[..j])
            && ValuesOf(r.1) == m
            && r.0 == if j == |cand| then Pass
                      else Fail(UnificationConflict(cand[j].column.name, m[cand[j].column.name], cand[j].value))
    decreases |cand|
  {
    if |cand| == 0 {
      assert cand[..0] == [];
    } else {
      var f := cand[0];
      var n := f.column.name;
      if n in m && m[n] != f.value {
        assert cand[..0] == [];
        assert UnifyFields(fs, cand, false) == (Fail(UnificationConflict(n, m[n], f.value)), fs);
      } else {
        var fs1 := if n in m then fs + [f] else fs;
        assert UnifyStep(fs, f, false) == Ok(fs1);
        assert UnifyFields(fs, cand, false) == UnifyFields(fs1, cand[1..], false);
        if n in m {
          AddFieldValues(fs, f);
          assert ValuesOf(fs1) == m;
        }
        UnifyExact(fs1, m, cand[1..]);
        var j := FirstConflict(m, cand);
        var j1 := FirstConflict(m, cand[1..]);
        assert j == 1 + j1;
        if j1 < |cand| - 1 {
          assert cand[1..][j1] == cand[j];
        }
        KnownFirst(m, cand, j);
        var rest := Known(m, cand[1..][..j - 1]);
        if n in m {
          AppendAssoc(fs, [f], rest);
        } else {
          assert [] + rest == rest;
        }
      }
    }
  }

  /** Splitting off the first candidate field of a prefix. */
  lemma KnownFirst(m: map<string, string>, cand: seq<CsvField>, j: nat)
    requires 1 <= j <= |cand|
    ensures Known(m, cand[..j]) == (if cand[0].column.name in m then [cand[0]] else []) + Known(m, cand[1..][..j - 1])
  {
    assert cand[..j][0] == cand[0];
    assert cand[..j][1..] == cand[1..][..j - 1];
  }

  /** Without `withEmpty`, `unify` passes exactly when every candidate
      field whose name the record knows carries the record's value, and it
      never changes the name-to-value index. */
  lemma UnifyPassIff(fs: seq<CsvField>, cand: seq<CsvField>)
    ensures var m := ValuesOf(fs);
            UnifyFields(fs, cand, false).0 == Pass
            <==> forall i :: 0 <= i < |cand| && cand[i].column.name in m ==> m[cand[i].column.name] == cand[i].value
    ensures ValuesOf(UnifyFields(fs, cand, false).1) == ValuesOf(fs)
  {
    UnifyExact(fs, ValuesOf(fs), cand);
  }

  /** The key field's value is also what the index holds under its name:
      true of any record whose key column name has a single field. */
  ghost predicate KeyConsistent(fs: seq<CsvField>) {
    LastKeyField(fs).Some? ==>
      var k := LastKeyField(fs).value;
      k.column.name in ValuesOf(fs) && ValuesOf(fs)[k.column.name] == k.value
  }

  /** Without `withEmpty`, `unify` keeps the primary-key value when the
      record's key field is consistent with its index and every key field
      of the candidate is named like the record's key column. */
  lemma {:induction false} UnifyKeepsKey(fs: seq<CsvField>, cand: seq<CsvField>)
    requires LastKeyField(fs).Some? && KeyConsistent(fs)
    requires forall i :: 0 <= i < |cand| && cand[i].column.isPrimaryKey ==>
               cand[i].column.name == LastKeyField(fs).value.column.name
    ensures var r := UnifyFields(fs, cand, false).1;
            KeyValueOf(r) == KeyValueOf(fs) && LastKeyField(r).Some? && KeyConsistent(r)
            && LastKeyField(r).value.column.name == LastKeyField(fs).value.column.name
    decreases |cand|
  {
    if |cand| > 0 {
      var f := cand[0];
      var m := ValuesOf(fs);
      match UnifyStep(fs, f, false)
      case Err(e) =>
      case Ok(fs1) =>
        if fs1 != fs {
          assert fs1 == fs + [f] && f.column.name in m && m[f.column.name] == f.value;
          AddFieldValues(fs, f);
          if f.column.isPrimaryKey {
            assert LastKeyField(fs1) == Some(f);
          } else {
            assert (fs + [f])[..|fs|] == fs;
            assert LastKeyField(fs1) == LastKeyField(fs);
          }
        }
        UnifyKeepsKey(fs1, cand[1..]);
    }
  }

  /** Without the naming condition the key value can move: a candidate key
      field named like an ordinary column of the record, with that column's
      value, is appended and becomes the key field. */
  lemma UnifyCanMoveKey()
    ensures var fs := [CsvField(Keyed("Id", true), "1"), CsvField(Plain("Name"), "x")];
            var cand := [CsvField(Keyed("Name", true), "x")];
            KeyValueOf(fs) == Some("1") && KeyValueOf(UnifyFields(fs, cand, false).1) == Some("x")
  {
    var fs := [CsvField(Keyed("Id", true), "1"), CsvField(Plain("Name"), "x")];
    var f := CsvField(Keyed("Name", true), "x");
    assert fs[..1] == [fs[0]] && [fs[0]][..0] == [];
    assert ValuesOf(fs)["Name"] == "x";
    assert UnifyStep(fs, f, false) == Ok(fs + [f]);
    assert [f][1..] == [];
  }

  /** Field lists whose column names are pairwise distinct. */
  ghost predicate DistinctNames(fs: seq<CsvField>) {
    forall i, j :: 0 <= i < j < |fs| ==> fs[i].column.name != fs[j].column.name
  }

  /** With `withEmpty` and candidate names that are distinct, `unify`
      passes when every known name holds either the candidate's value or
      the empty string, and afterwards every known name the candidate
      carries holds the candidate's value; other names keep theirs. */
  lemma {:induction false} UnifyWithEmptyFills(fs: seq<CsvField>, cand: seq<CsvField>)
    requires DistinctNames(cand)
    requires forall i :: 0 <= i < |cand| && cand[i].column.name in ValuesOf(fs) ==>
               ValuesOf(fs)[cand[i].column.name] in {"", cand[i].value}
    ensures var r := UnifyFields(fs, cand, true);
            var m := ValuesOf(fs);
            && r.0 == Pass
            && ValuesOf(r.1).Keys == m.Keys
            && (forall i :: 0 <= i < |cand| && cand[i].column.name in m ==> ValuesOf(r.1)[cand[i].column.name] == cand[i].value)
            && (forall n :: n in m && (forall i :: 0 <= i < |cand| ==> cand[i].column.name != n) ==> ValuesOf(r.1)[n] == m[n])
    decreases |cand|
  {
    if |cand| > 0 {
      var f := cand[0];
      var m := ValuesOf(fs);
      var n := f.column.name;
      var fs1 := if n in m then fs + [f] else fs;
      assert UnifyStep(fs, f, true) == Ok(fs1);
      var m1 := ValuesOf(fs1);
      if n in m {
        AddFieldValues(fs, f);
      }
      assert m1.Keys == m.Keys;
      assert forall k :: k in m && k != n ==> m1[k] == m[k];
      assert DistinctNames(cand[1..]);
      forall i | 0 <= i < |cand[1..]| && cand[1..][i].column.name in m1
        ensures m1[cand[1..][i].column.name] in {"", cand[1..][i].value}
      {
        assert cand[1..][i] == cand[i + 1] && cand[i + 1].column.name != n;
      }
      UnifyWithEmptyFills(fs1, cand[1..]);
      var r := UnifyFields(fs1, cand[1..], true);
      forall i | 0 <= i < |cand| && cand[i].column.name in m
        ensures ValuesOf(r.1)[cand[i].column.name] == cand[i].value
      {
        if i > 0 {
          assert cand[1..][i - 1] == cand[i];
        } else {
          assert forall k :: 0 <= k < |cand[1..]| ==> cand[1..][k].column.name != n by {
            forall k | 0 <= k < |cand[1..]|
              ensures cand[1..][k].column.name != n
            {
              assert cand[1..][k] == cand[k + 1];
            }
          }
        }
      }
      forall k | k in m && (forall i :: 0 <= i < |cand| ==> cand[i].column.name != k)
        ensures ValuesOf(r.1)[k] == m[k]
      {
        assert cand[0].column.name != k;
        forall i | 0 <= i < |cand[1..]|
          ensures cand[1..][i].column.name != k
        {
          assert cand[1..][i] == cand[i + 1];
        }
      }
    }
  }

  /** `CsvRecord`: the fields are appended in place; `namesToValues` and
      `primaryKeyValue` are kept equal to what the field list determines. */
  class CsvRecord {
    var fields: seq<CsvField>
    var primaryKeyValue: Option<string>
    var lineNo: int
    var recordNo: int
    var namesToValues: map<string, string>

    ghost predicate Valid()
      reads this
    {
      namesToValues == ValuesOf(fields) && primaryKeyValue == KeyValueOf(fields)
    }

    function Value(): RecordValue
      reads this
    {
      RecordValue(fields, lineNo, recordNo)
    }

    /** `new CsvRecord()`: no fields, no key value. */
    constructor()
      ensures Valid() && fields == [] && primaryKeyValue == None && namesToValues == map[]
      ensures lineNo == 0 && recordNo == 0
    {
      fields := [];
      primaryKeyValue := None;
      lineNo := 0;
      recordNo := 0;
      namesToValues := map[];
    }

    /** `addField(field)`: appends the field, indexes its value under its
        column name, and makes it the key value when its column is the key. */
    method AddField(field: CsvField)
      requires Valid()
      modifies this
      ensures Valid()
      ensures fields == old(fields) + [field]
      ensures namesToValues == old(namesToValues)[field.column.name := field.value]
      ensures primaryKeyValue == if field.column.isPrimaryKey then Some(field.value) else old(primaryKeyValue)
      ensures lineNo == old(lineNo) && recordNo == old(recordNo)
    {
      AddFieldValues(fields, field);
      if field.column.isPrimaryKey {
        primaryKeyValue := Some(field.value);
      }
      fields := fields + [field];
      namesToValues := namesToValues[field.column.name := field.value];
    }

    /** `setRecordNo(recordNo)`. */
    method SetRecordNo(n: int)
      modifies this
      ensures recordNo == n
      ensures fields == old(fields) && lineNo == old(lineNo)
      ensures namesToValues == old(namesToValues) && primaryKeyValue == old(primaryKeyValue)
    {
      recordNo := n;
    }

    /** `getRecordNo()`. */
    method GetRecordNo() returns (n: int)
      ensures n == Value().recordNo
    {
      return recordNo;
    }

    /** `setLineNo(lineNo)`. */
    method SetLineNo(n: int)
      modifies this
      ensures lineNo == n
      ensures fields == old(fields) && recordNo == old(recordNo)
      ensures namesToValues == old(namesToValues) && primaryKeyValue == old(primaryKeyValue)
    {
      lineNo := n;
    }

    /** `getLineNo()`. */
    method GetLineNo() returns (n: int)
      ensures n == Value().lineNo
    {
      return lineNo;
    }

    /** `iterator()`: the fields in the order they were added. */
    method Iterator() returns (fs: seq<CsvField>)
      ensures fs == Value().fields
    {
      return fields;
    }

    /** `getPrimaryKeyField()`: the last field added under the key column;
        its value is the key value. */
    function PrimaryKeyField(): (r: Option<CsvField>)
      reads this
      requires Valid()
      ensures r.Some? ==> r.value in fields && r.value.column.isPrimaryKey && primaryKeyValue == Some(r.value.value)
      ensures r.None? <==> primaryKeyValue.None?
      ensures r.None? <==> forall i :: 0 <= i < |fields| ==> !fields[i].column.isPrimaryKey
    {
      LastKeyField(fields)
    }

    /** `unify(candidate)` when `withEmpty` is false; with `withEmpty` an
        empty current value also takes the candidate's field. The walk stops
        at the first conflict and keeps what it appended before it. */
    method Unify(candidate: CsvRecord, withEmpty: bool) returns (r: Outcome)
      requires Valid() && candidate != this
      modifies this
      ensures Valid()
      ensures (r, fields) == UnifyFields(old(fields), candidate.fields, withEmpty)
      ensures lineNo == old(lineNo) && recordNo == old(recordNo)
    {
      var cand := candidate.fields;
      var i := 0;
      while i < |cand|
        invariant 0 <= i <= |cand| && Valid()
        invariant UnifyFields(old(fields), cand, withEmpty) == UnifyFields(fields, cand[i..], withEmpty)
        invariant lineNo == old(lineNo) && recordNo == old(recordNo)
      {
        var field := cand[i];
        var n := field.column.name;
        assert cand[i..][1..] == cand[i + 1..];
        if n in namesToValues {
          if namesToValues[n] != field.value && !(withEmpty && namesToValues[n] == "") {
            return Fail(UnificationConflict(n, namesToValues[n], field.value));
          }
          AddField(field);
        }
        i := i + 1;
      }
      return Pass;
    }
  }
}

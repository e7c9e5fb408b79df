/** The tokenizer of `CsvFileParser`: a state machine over the current line
    of a line-oriented reader, here a sequence of lines and a cursor. */
module FileParser {
  import opened CsvErrors
  import opened Strings

  /** Everything the tokenizer depends on. `atEnd` records that the last
      read found no line, where the source's `line` becomes null. */
  datatype ParserState = ParserState(
    input: seq<string>,   // the lines the reader supplies
    cursor: nat,          // how many of them it has handed out
    line: string,         // the current line
    atEnd: bool,          // the last read found no line
    position: nat,        // where the next field starts in `line`
    emptyLastField: bool, // a trailing comma left an empty field pending
    lineNo: int)          // the number of the current line, from 1

  /** A parser that has read nothing yet. */
  function Start(input: seq<string>): ParserState {
    ParserState(input, 0, "", false, 0, false, 0)
  }

  /** What holds of every state the tokenizer can reach. */
  ghost predicate Inv(s: ParserState) {
    && s.cursor <= |s.input|
    && s.lineNo == s.cursor
    && s.position <= |s.line| + 1
    && (s.emptyLastField ==> s.position == |s.line|)
    && (s.atEnd ==> s.line == "" && s.position == 0 && !s.emptyLastField)
  }

  /** `hasNextRecord()`: read the next line and reset the per-line state. */
  function Advance(s: ParserState): (r: (bool, ParserState))
    ensures r.0 <==> s.cursor < |s.input|
    ensures r.1.input == s.input && r.1.position == 0 && !r.1.emptyLastField
    ensures r.0 ==> && r.1.line == s.input[s.cursor] && !r.1.atEnd
                    && r.1.cursor == s.cursor + 1 && r.1.lineNo == s.lineNo + 1
    ensures !r.0 ==> r.1.atEnd && r.1.cursor == s.cursor && r.1.lineNo == s.lineNo
    ensures Inv(s) ==> Inv(r.1)
  {
    if s.cursor < |s.input| then
      (true, s.(line := s.input[s.cursor], cursor := s.cursor + 1, lineNo := s.lineNo + 1,
                position := 0, emptyLastField := false, atEnd := false))
    else
      (false, s.(line := "", atEnd := true, position := 0, emptyLastField := false))
  }

  /** `recordHasMoreFields()`. */
  predicate HasMore(s: ParserState) {
    s.emptyLastField || s.position < |s.line|
  }

  /** `t` is strictly further on than `s` in the same input: a later line,
      or the same line with the position advanced or the pending empty field
      consumed. */
  ghost predicate Progressed(s: ParserState, t: ParserState) {
    && s.input == t.input
    && (|| s.cursor < t.cursor
        || (&& s.cursor == t.cursor && s.line == t.line
            && (s.position < t.position || (s.position == t.position && s.emptyLastField && !t.emptyLastField))))
  }

  /** `nextToken(inUnclosedQuotes)`: the next field and the state after it.
      A quoted field that does not close on its line continues on the next
      one, joined by a newline. */
  function Token(s: ParserState, inQuotes: bool): (r: (Result<string>, ParserState))
    requires Inv(s) && !s.atEnd
    ensures Inv(r.1) && r.1.input == s.input && r.1.cursor >= s.cursor
    ensures r.0.Ok? ==> !r.1.atEnd && Progressed(s, r.1)
    ensures r.0.Err? ==> r.0.error.NoSuchElement? || r.0.error.UnclosedQuotes?
    decreases |s.input| - s.cursor, 1
  {
    if s.emptyLastField then
      (Ok(""), s.(emptyLastField := false))
    else if s.position >= |s.line| then
      (Err(NoSuchElement(s.lineNo, s.position, |s.line|)), s)
    else if inQuotes || s.line[s.position] == '"' then
      Quoted(s, inQuotes)
    else
      var q := IndexOfChar(s.line, ',', s.position);
      if q == -1 then
        (Ok(s.line[s.position..]), s.(position := |s.line|))
      else
        (Ok(s.line[s.position..q]), s.(position := q + 1, emptyLastField := q == |s.line| - 1))
  }

  /** The quoted branch of `nextToken`: the field runs from after the
      opening quote (or from the line start, inside an unclosed quote) to
      the next `",`, or to a quote that is the only one left and ends the
      line; with neither on this line, it continues on the next. */
  function Quoted(s: ParserState, inQuotes: bool): (r: (Result<string>, ParserState))
    requires Inv(s) && !s.atEnd && !s.emptyLastField && s.position < |s.line|
    requires inQuotes || s.line[s.position] == '"'
    ensures Inv(r.1) && r.1.input == s.input && r.1.cursor >= s.cursor
    ensures r.0.Ok? ==> !r.1.atEnd && Progressed(s, r.1)
    ensures r.0.Err? ==> r.0.error.NoSuchElement? || r.0.error.UnclosedQuotes?
    decreases |s.input| - s.cursor, 0
  {
    var start := if inQuotes then s.position else s.position + 1;
    var q0 := IndexOfQuoteComma(s.line, start);
    var q := if q0 == -1 && IndexOfChar(s.line, '"', start) == |s.line| - 1 then |s.line| - 1 else q0;
    if q == -1 then
      var sofar := s.line[start..];
      var (more, s1) := Advance(s.(position := start));
      if !more then
        (Err(UnclosedQuotes(s1.lineNo)), s1)
      else
        var (rest, s2) := Token(s1, true);
        (if rest.Ok? then Ok(sofar + "\n" + rest.value) else rest, s2)
    else
      var it := s.line[start..q];
      var afterQuote := q + 1;
      if afterQuote < |s.line| && s.line[afterQuote] != ',' then
        // The closing quote found above is always followed by a comma or
        // ends the line, so `NoCommaAfterQuotes` is never raised here.
        assert false; (Err(NoCommaAfterQuotes(s.lineNo)), s)
      else
        (Ok(it), s.(position := afterQuote + 1, emptyLastField := afterQuote == |s.line| - 1))
  }

  /** The fields read by calling `nextField()` while `recordHasMoreFields()`
      holds, and the state after the last of them; the first error ends the
      record. */
  ghost function RecordFields(s: ParserState): (r: (Result<seq<string>>, ParserState))
    requires Inv(s) && !s.atEnd
    ensures Inv(r.1) && r.1.input == s.input && r.1.cursor >= s.cursor
    ensures r.0.Ok? ==> !r.1.atEnd && !HasMore(r.1)
    decreases |s.input| - s.cursor, |s.line| + 2 - s.position, if s.emptyLastField then 1 else 0
  {
    if !HasMore(s) then (Ok([]), s)
    else
      var (t, s1) := Token(s, false);
      if t.Err? then (Err(t.error), s1)
      else
        var (rest, s2) := RecordFields(s1);
        (if rest.Ok? then Ok([t.value] + rest.value) else rest, s2)
  }

  /** The fields still to come on the current line, when none of them is
      quoted. */
  ghost function Pending(s: ParserState): seq<string> {
    if s.emptyLastField then [""]
    else if s.position >= |s.line| then []
    else Split(s.line[s.position..])
  }

  /** No field starts with a double quote. */
  ghost predicate NoQuotedField(fs: seq<string>) {
    forall i :: 0 <= i < |fs| ==> fs[i] == "" || fs[i][0] != '"'
  }

  /** The unquoted branch of `Token`, unfolded for the solver; it states
      nothing of its own and serves `UnquotedToken`. */
  lemma UnquotedStep(s: ParserState)
    requires Inv(s) && !s.atEnd && !s.emptyLastField && s.position < |s.line| && s.line[s.position] != '"'
    ensures var q := IndexOfChar(s.line, ',', s.position);
            Token(s, false) ==
              if q == -1 then (Ok(s.line[s.position..]), s.(position := |s.line|))
              else (Ok(s.line[s.position..q]), s.(position := q + 1, emptyLastField := q == |s.line| - 1))
  {
  }

  /** The pending fields of a line position: the text up to the next comma,
      then the fields after it. */
  lemma PendingSplit(s: ParserState)
    requires Inv(s) && !s.emptyLastField && s.position < |s.line|
    ensures var q := IndexOfChar(s.line, ',', s.position);
            if q == -1 then Pending(s) == [s.line[s.position..]]
            else Pending(s) == [s.line[s.position..q]] + Split(s.line[q + 1..])
  {
    var x := s.line[s.position..];
    IndexOfCharSuffix(s.line, ',', s.position);
    var k := IndexOfChar(x, ',', 0);
    if k != -1 {
      assert x[..k] == s.line[s.position..k + s.position];
      assert x[k + 1..] == s.line[k + s.position + 1..];
    }
  }

  /** A line position with no quoted field pending does not start with a
      quote. */
  lemma FirstPendingUnquoted(s: ParserState)
    requires Inv(s) && !s.emptyLastField && s.position < |s.line| && NoQuotedField(Pending(s))
    ensures s.line[s.position] != '"'
  {
    PendingSplit(s);
    var q := IndexOfChar(s.line, ',', s.position);
    if q == s.position {
      assert s.line[s.position] == ',';
    } else {
      assert Pending(s)[0][0] == s.line[s.position];
    }
  }

  /** On unquoted text, the next field is the first pending one: the text up
      to the next comma or the end of the line, and the pending fields
      shift by one; a comma that ends the line leaves an empty field. */
  lemma UnquotedToken(s: ParserState)
    requires Inv(s) && !s.atEnd && HasMore(s)
    requires !s.emptyLastField ==> s.line[s.position] != '"'
    ensures |Pending(s)| >= 1
    ensures Token(s, false).0 == Ok(Pending(s)[0])
    ensures Pending(Token(s, false).1) == Pending(s)[1..]
    ensures Token(s, false).1.line == s.line && Token(s, false).1.cursor == s.cursor
  {
    if !s.emptyLastField {
      UnquotedStep(s);
      PendingSplit(s);
      var q := IndexOfChar(s.line, ',', s.position);
      if q != -1 {
        var s1 := Token(s, false).1;
        assert s1 == s.(position := q + 1, emptyLastField := q == |s.line| - 1);
        if q == |s.line| - 1 {
          assert s.line[q + 1..] == "";
          assert Split("") == [""];
          assert Pending(s1) == [""];
        } else {
          assert s1.line[s1.position..] == s.line[q + 1..];
          assert Pending(s1) == Split(s.line[q + 1..]);
        }
      }
    }
  }

  /** On a line without quoted fields, the fields are exactly the pending
      ones, and the record ends on the same line. */
  lemma {:induction false} UnquotedRecord(s: ParserState)
    requires Inv(s) && !s.atEnd && NoQuotedField(Pending(s))
    ensures RecordFields(s).0 == Ok(Pending(s))
    ensures RecordFields(s).1.line == s.line && RecordFields(s).1.cursor == s.cursor
    decreases |s.input| - s.cursor, |s.line| + 2 - s.position, if s.emptyLastField then 1 else 0
  {
    if HasMore(s) {
      if !s.emptyLastField {
        FirstPendingUnquoted(s);
      }
      UnquotedToken(s);
      var s1 := Token(s, false).1;
      assert NoQuotedField(Pending(s1)) by {
        forall i | 0 <= i < |Pending(s1)|
          ensures Pending(s1)[i] == "" || Pending(s1)[i][0] != '"'
        {
          assert Pending(s1)[i] == Pending(s)[i + 1];
        }
      }
      UnquotedRecord(s1);
      assert Token(s, false).0.Ok?;
      assert RecordFields(s).0 == Ok([Pending(s)[0]] + Pending(s1));
      assert [Pending(s)[0]] + Pending(s)[1..] == Pending(s);
    }
  }

  /** Split/join round trip: on a freshly read line none of whose fields is
      quoted, the fields read joined with commas give the line back; an empty
      line has no fields, a trailing comma gives a final empty field and
      leading spaces are kept. */
  lemma LineRoundTrip(s: ParserState)
    requires Inv(s) && !s.atEnd && s.position == 0 && !s.emptyLastField
    requires NoQuotedField(Split(s.line))
    ensures RecordFields(s).0.Ok?
    ensures Join(RecordFields(s).0.value) == s.line
    ensures RecordFields(s).0.value == if s.line == "" then [] else Split(s.line)
  {
    assert s.line[0..] == s.line;
    UnquotedRecord(s);
    if s.line != "" {
      JoinSplit(s.line);
    }
  }

  /** A quoted field closed by `",`: its content runs up to the first `",`
      after the opening quote, so it contains no `",`, and the next field
      starts after the comma; a comma that ends the line leaves an empty
      field pending. */
  lemma QuotedClosedByQuoteComma(s: ParserState, inQuotes: bool, start: nat, q: nat)
    requires Inv(s) && !s.atEnd && !s.emptyLastField && s.position < |s.line|
    requires inQuotes || s.line[s.position] == '"'
    requires start == if inQuotes then s.position else s.position + 1
    requires start <= q && QuoteCommaAt(s.line, q)
    requires forall i :: start <= i < q ==> !QuoteCommaAt(s.line, i)
    ensures Token(s, inQuotes).0 == Ok(s.line[start..q])
    ensures Token(s, inQuotes).1 == s.(position := q + 2, emptyLastField := q + 2 == |s.line|)
  {
    assert IndexOfQuoteComma(s.line, start) == q;
  }

  /** A quoted field closed by a quote that ends the line, with no `",`
      after the opening quote and no other quote before the last character:
      the content is everything up to that quote and the position moves one
      beyond the end of the line. */
  lemma QuotedClosedAtEndOfLine(s: ParserState, inQuotes: bool, start: nat)
    requires Inv(s) && !s.atEnd && !s.emptyLastField && s.position < |s.line|
    requires inQuotes || s.line[s.position] == '"'
    requires start == if inQuotes then s.position else s.position + 1
    requires start < |s.line| && s.line[|s.line| - 1] == '"'
    requires forall i :: start <= i < |s.line| - 1 ==> s.line[i] != '"'
    ensures Token(s, inQuotes).0 == Ok(s.line[start..|s.line| - 1])
    ensures Token(s, inQuotes).1 == s.(position := |s.line| + 1)
  {
    assert IndexOfQuoteComma(s.line, start) == -1 by {
      forall i | start <= i
        ensures !QuoteCommaAt(s.line, i)
      {
      }
    }
    assert IndexOfChar(s.line, '"', start) == |s.line| - 1;
  }

  /** A quoted field that does not close on its line: with no line left it
      fails with "Unclosed quotes"; otherwise its value is the rest of the
      line, a newline, and the continuation read from the start of the next
      line, which fails with NoSuchElement when that line is empty. */
  lemma QuotedContinued(s: ParserState, inQuotes: bool, start: nat)
    requires Inv(s) && !s.atEnd && !s.emptyLastField && s.position < |s.line|
    requires inQuotes || s.line[s.position] == '"'
    requires start == if inQuotes then s.position else s.position + 1
    requires forall i :: start <= i ==> !QuoteCommaAt(s.line, i)
    requires !(start < |s.line| && s.line[|s.line| - 1] == '"' && forall i :: start <= i < |s.line| - 1 ==> s.line[i] != '"')
    ensures s.cursor == |s.input| ==> Token(s, inQuotes).0 == Err(UnclosedQuotes(s.lineNo))
    ensures s.cursor < |s.input| ==>
              var next := ParserState(s.input, s.cursor + 1, s.input[s.cursor], false, 0, false, s.lineNo + 1);
              var (rest, after) := Token(next, true);
              && Token(s, inQuotes).0 == (if rest.Ok? then Ok(s.line[start..] + "\n" + rest.value) else rest)
              && Token(s, inQuotes).1 == after
              && (s.input[s.cursor] == "" ==> rest == Err(NoSuchElement(s.lineNo + 1, 0, 0)))
  {
    assert IndexOfQuoteComma(s.line, start) == -1;
  }

  /** `CsvFileParser`: the tokenizer over a reader, whose state the methods
      update in place; `State()` is that state as a value, and every method
      does to it what the functions above describe. */
  class CsvFileParser {
    const input: seq<string>
    var cursor: nat
    var line: string
    var atEnd: bool
    var position: nat
    var emptyLastField: bool
    var lineNo: int

    function State(): ParserState
      reads this
    {
      ParserState(input, cursor, line, atEnd, position, emptyLastField, lineNo)
    }

    ghost predicate Valid()
      reads this
    {
      Inv(State())
    }

    /** `new CsvFileParser(reader)`: nothing read yet, at line 0. */
    constructor(input: seq<string>)
      ensures State() == Start(input) && Valid()
    {
      this.input := input;
      cursor := 0;
      line := "";
      atEnd := false;
      position := 0;
      emptyLastField := false;
      lineNo := 0;
    }

    /** `hasNextRecord()`: reads the next line, if there is one. */
    method HasNextRecord() returns (more: bool)
      requires Valid()
      modifies this
      ensures Valid() && (more, State()) == Advance(old(State()))
    {
      emptyLastField := false;
      position := 0;
      if cursor == |input| {
        line := "";
        atEnd := true;
        return false;
      }
      line := input[cursor];
      cursor := cursor + 1;
      atEnd := false;
      lineNo := lineNo + 1;
      return true;
    }

    /** `getLineNo()`: the number of lines read so far. */
    method GetLineNo() returns (n: int)
      requires Valid()
      ensures n == cursor && n <= |input|
    {
      return lineNo;
    }

    /** `recordHasMoreFields()`, which dereferences the current line and so
        fails once the reader is exhausted. When no field is left, asking
        for one fails with NoSuchElement. */
    method RecordHasMoreFields() returns (r: Result<bool>)
      requires Valid()
      ensures r == if atEnd then Err(NullPointer) else Ok(HasMore(State()))
      ensures r == Ok(false) ==> Token(State(), false).0 == Err(NoSuchElement(lineNo, position, |line|))
    {
      if atEnd {
        return Err(NullPointer);
      }
      return Ok(emptyLastField || position < |line|);
    }

    /** `nextField()`: the next field of the record. */
    method NextField() returns (r: Result<string>)
      requires Valid()
      modifies this
      ensures Valid()
      ensures old(atEnd) ==> r == Err(NullPointer) && State() == old(State())
      ensures !old(atEnd) ==> (r, State()) == Token(old(State()), false)
    {
      if atEnd {
        return Err(NullPointer);
      }
      r := NextToken(false);
    }

    /** `nextToken(inUnclosedQuotes)`, reading further lines while a quoted
        field stays open. */
    method NextToken(inQuotes: bool) returns (r: Result<string>)
      requires Valid() && !atEnd
      modifies this
      ensures Valid() && (r, State()) == Token(old(State()), inQuotes)
      decreases |input| - cursor, 1
    {
      if emptyLastField {
        emptyLastField := false;
        return Ok("");
      }
      if position >= |line| {
        return Err(NoSuchElement(lineNo, position, |line|));
      }
      if inQuotes || line[position] == '"' {
        r := QuotedToken(inQuotes);
      } else {
        var q := IndexOfChar(line, ',', position);
        if q == -1 {
          var it := line[position..];
          position := |line|;
          return Ok(it);
        } else {
          var it := line[position..q];
          if q == |line| - 1 {
            emptyLastField := true;
          }
          position := q + 1;
          return Ok(it);
        }
      }
    }

    /** The quoted branch of `nextToken`: the field runs to the next `",`
        or to a closing quote that ends the line; when neither is on this
        line, the field continues on the next one. */
    method QuotedToken(inQuotes: bool) returns (r: Result<string>)
      requires Valid() && !atEnd && !emptyLastField && position < |line|
      requires inQuotes || line[position] == '"'
      modifies this
      ensures Valid() && (r, State()) == Quoted(old(State()), inQuotes)
      decreases |input| - cursor, 0
    {
      if !inQuotes {
        position := position + 1;
      }
      var q := IndexOfQuoteComma(line, position);
      if q == -1 && IndexOfChar(line, '"', position) == |line| - 1 {
        q := |line| - 1;
      }
      if q == -1 {
        var sofar := line[position..];
        var more := HasNextRecord();
        if !more {
          return Err(UnclosedQuotes(lineNo));
        }
        var rest := NextToken(true);
        r := if rest.Ok? then Ok(sofar + "\n" + rest.value) else rest;
        return;
      }
      var it := line[position..q];
      q := q + 1;
      position := q + 1;
      if q < |line| {
        // the closing quote found above is followed by a comma or ends
        // the line, so the "no comma after quotes" error cannot arise
        assert line[q] == ',';
        if q == |line| - 1 {
          emptyLastField := true;
        }
      }
      return Ok(it);
    }
  }
}

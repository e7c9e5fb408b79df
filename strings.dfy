/** The few java.lang.String operations the tokenizer and the table rely on,
    and the comma-separated splitting and joining they amount to. */
module Strings {

  /** Concatenation regroups; stated once so that proofs need not rebuild
      the equality element by element. */
  lemma AppendAssoc<T>(a: seq<T>, b: seq<T>, c: seq<T>)
    ensures a + (b + c) == a + b + c
  {
  }

  /** `"` directly followed by `,` starts at index `i` of `s`. */
  predicate QuoteCommaAt(s: string, i: int) {
    0 <= i && i + 1 < |s| && s[i] == '"' && s[i + 1] == ','
  }

  /** `s.indexOf("\",", from)`: the first index at or after `from` where
      `",` starts, or -1 when there is none. */
  function IndexOfQuoteComma(s: string, from: nat): (r: int)
    ensures r == -1 || (from <= r && QuoteCommaAt(s, r))
    ensures r == -1 ==> forall i :: from <= i ==> !QuoteCommaAt(s, i)
    ensures r != -1 ==> forall i :: from <= i < r ==> !QuoteCommaAt(s, i)
    decreases |s| - from
  {
    if from + 1 >= |s| then -1
    else if s[from] == '"' && s[from + 1] == ',' then from
    else IndexOfQuoteComma(s, from + 1)
  }

  /** `s.indexOf(c, from)`: the first index at or after `from` holding `c`,
      or -1 when there is none. */
  function IndexOfChar(s: string, c: char, from: nat): (r: int)
    ensures r == -1 || (from <= r < |s| && s[r] == c)
    ensures r == -1 ==> forall i :: from <= i < |s| ==> s[i] != c
    ensures r != -1 ==> forall i :: from <= i < r ==> s[i] != c
    decreases |s| - from
  {
    if from >= |s| then -1
    else if s[from] == c then from
    else IndexOfChar(s, c, from + 1)
  }

  /** `s.lastIndexOf(c)`: the last index holding `c`, or -1. */
  function LastIndexOfChar(s: string, c: char): (r: int)
    ensures r == -1 || (0 <= r < |s| && s[r] == c)
    ensures r == -1 ==> c !in s
    ensures r != -1 ==> c !in s[r + 1..]
    decreases |s|
  {
    if |s| == 0 then -1
    else if s[|s| - 1] == c then |s| - 1
    else LastIndexOfChar(s[..|s| - 1], c)
  }

  /** Searching a suffix finds the same comma, shifted. */
  lemma IndexOfCharSuffix(s: string, c: char, p: nat)
    requires p <= |s|
    ensures IndexOfChar(s[p..], c, 0) == if IndexOfChar(s, c, p) == -1 then -1 else IndexOfChar(s, c, p) - p
  {
    var a, b := IndexOfChar(s[p..], c, 0), IndexOfChar(s, c, p);
    if a != -1 {
      assert s[p + a] == c;
    }
    if b != -1 {
      assert s[p..][b - p] == c;
    }
  }

  /** The comma-separated pieces of `s`: a string without a comma is one
      piece, so the empty string is the single empty piece. */
  function Split(s: string): (r: seq<string>)
    ensures |r| >= 1
    ensures forall i :: 0 <= i < |r| ==> ',' !in r[i]
    decreases |s|
  {
    var q := IndexOfChar(s, ',', 0);
    if q == -1 then [s] else [s[..q]] + Split(s[q + 1..])
  }

  /** The pieces separated by commas. */
  function Join(fs: seq<string>): string
    decreases |fs|
  {
    if |fs| == 0 then ""
    else if |fs| == 1 then fs[0]
    else fs[0] + "," + Join(fs[1..])
  }

  /** Each piece followed by a comma: how the table writes a row. */
  function Terminated(fs: seq<string>): string
    decreases |fs|
  {
    if |fs| == 0 then "" else fs[0] + "," + Terminated(fs[1..])
  }

  /** Each line followed by a newline. */
  function Lines(ls: seq<string>): string
    decreases |ls|
  {
    if |ls| == 0 then "" else ls[0] + "\n" + Lines(ls[1..])
  }

  predicate NoComma(fs: seq<string>) {
    forall i :: 0 <= i < |fs| ==> ',' !in fs[i]
  }

  /** Joining the pieces of a string gives the string back. */
  lemma {:induction false} JoinSplit(s: string)
    ensures Join(Split(s)) == s
    decreases |s|
  {
    var q := IndexOfChar(s, ',', 0);
    if q != -1 {
      var rest := s[q + 1..];
      var pieces := Split(s);
      assert pieces == [s[..q]] + Split(rest);
      assert |pieces| >= 2 && pieces[0] == s[..q] && pieces[1..] == Split(rest);
      assert Join(pieces) == s[..q] + "," + Join(Split(rest));
      JoinSplit(rest);
      assert s == s[..q] + "," + rest;
    }
  }

  /** Splitting joined comma-free pieces gives the pieces back. */
  lemma {:induction false} SplitJoin(fs: seq<string>)
    requires |fs| >= 1 && NoComma(fs)
    ensures Split(Join(fs)) == fs
    decreases |fs|
  {
    if |fs| == 1 {
      assert fs == [fs[0]];
      assert IndexOfChar(fs[0], ',', 0) == -1;
    } else {
      var s := Join(fs);
      assert s == fs[0] + "," + Join(fs[1..]);
      assert s[|fs[0]|] == ',';
      assert forall i :: 0 <= i < |fs[0]| ==> s[i] == fs[0][i];
      assert IndexOfChar(s, ',', 0) == |fs[0]|;
      assert s[..|fs[0]|] == fs[0];
      assert s[|fs[0]| + 1..] == Join(fs[1..]);
      SplitJoin(fs[1..]);
    }
  }

  /** A comma-terminated row is its pieces joined, plus a final comma. */
  lemma {:induction false} TerminatedIsJoin(fs: seq<string>)
    requires |fs| >= 1
    ensures Terminated(fs) == Join(fs) + ","
    decreases |fs|
  {
    if |fs| > 1 {
      TerminatedIsJoin(fs[1..]);
    }
  }

  /** Appending one piece appends it and its comma. */
  lemma {:induction false} TerminatedSnoc(fs: seq<string>, x: string)
    ensures Terminated(fs + [x]) == Terminated(fs) + x + ","
    decreases |fs|
  {
    if |fs| == 0 {
      assert [] + [x] == [x];
    } else {
      assert (fs + [x])[1..] == fs[1..] + [x];
      TerminatedSnoc(fs[1..], x);
    }
  }

  /** A final empty piece is a final comma. */
  lemma {:induction false} JoinSnocEmpty(fs: seq<string>)
    requires |fs| >= 1
    ensures Join(fs + [""]) == Join(fs) + ","
    decreases |fs|
  {
    if |fs| == 1 {
      assert fs + [""] == [fs[0], ""];
    } else {
      assert (fs + [""])[1..] == fs[1..] + [""];
      JoinSnocEmpty(fs[1..]);
    }
  }
}

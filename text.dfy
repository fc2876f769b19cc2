/** String helpers standing for the Rust standard-library calls the core
    makes: `split_whitespace().collect()`, `split('\n')`, `join`,
    `to_uppercase` and the row-plus-newline layout of the text format. */
module Text {

  /** Rust's `char::is_whitespace`: the Unicode White_Space property. */
  predicate IsWhitespace(c: char)
  {
    || ('\t' <= c <= '\r')
    || c == ' '
    || c == '\U{85}'
    || c == '\U{A0}'
    || c == '\U{1680}'
    || ('\U{2000}' <= c <= '\U{200A}')
    || c == '\U{2028}'
    || c == '\U{2029}'
    || c == '\U{202F}'
    || c == '\U{205F}'
    || c == '\U{3000}'
  }

  predicate NoWhitespace(s: string)
  {
    forall i :: 0 <= i < |s| ==> !IsWhitespace(s[i])
  }

  /** `line.split_whitespace().collect::<String>()`: the line with every
      whitespace character removed. */
  function Strip(s: string): string
  {
    if s == [] then []
    else if IsWhitespace(s[0]) then Strip(s[1..])
    else [s[0]] + Strip(s[1..])
  }

  /** Stripping leaves no whitespace and removes nothing else. */
  lemma {:induction false} StripFacts(s: string)
    ensures NoWhitespace(Strip(s))
    ensures |Strip(s)| <= |s|
    ensures NoWhitespace(s) ==> Strip(s) == s
  {
    if s != [] {
      StripFacts(s[1..]);
      if NoWhitespace(s) {
        assert NoWhitespace(s[1..]);
      }
    }
  }

  /** `s.split(sep)`: the pieces between separators, so that an empty
      string gives one empty piece and a trailing separator gives an empty
      last piece. */
  function Split(s: string, sep: char): (r: seq<string>)
    ensures |r| >= 1
    ensures forall i :: 0 <= i < |r| ==> sep !in r[i]
    ensures Join(r, sep) == s
  {
    if s == [] then [""]
    else
      var rest := Split(s[1..], sep);
      if s[0] == sep then [""] + rest
      else [[s[0]] + rest[0]] + rest[1..]
  }

  /** `pieces.join(sep)`. */
  function Join(pieces: seq<string>, sep: char): string
  {
    if pieces == [] then ""
    else if |pieces| == 1 then pieces[0]
    else pieces[0] + [sep] + Join(pieces[1..], sep)
  }

  /** Every row followed by `'\n'`. */
  function Lines(rows: seq<string>): string
  {
    if rows == [] then "" else Lines(rows[..|rows| - 1]) + rows[|rows| - 1] + "\n"
  }

  /** `to_uppercase` on ASCII letters; other characters are kept. */
  function UpperChar(c: char): char
  {
    if 'a' <= c <= 'z' then (c as int - 32) as char else c
  }

  function ToUpper(s: string): (r: string)
  {
    seq(|s|, i requires 0 <= i < |s| => UpperChar(s[i]))
  }

  lemma ToUpperFacts(s: string)
    ensures |ToUpper(s)| == |s|
    ensures forall i :: 0 <= i < |s| ==> !('a' <= ToUpper(s)[i] <= 'z')
    ensures forall i :: 0 <= i < |s| ==> (ToUpper(s)[i] == '#' <==> s[i] == '#')
    ensures forall i :: 0 <= i < |s| ==> (IsWhitespace(ToUpper(s)[i]) <==> IsWhitespace(s[i]))
    ensures ToUpper(ToUpper(s)) == ToUpper(s)
  {
  }

  /** Splitting undoes joining when no piece holds the separator. */
  lemma {:induction false} SplitJoin(pieces: seq<string>, sep: char)
    requires |pieces| >= 1
    requires forall i :: 0 <= i < |pieces| ==> sep !in pieces[i]
    ensures Split(Join(pieces, sep), sep) == pieces
  {
    if |pieces| == 1 {
      SplitNoSeparator(pieces[0], sep);
    } else {
      SplitJoin(pieces[1..], sep);
      SplitAfterPiece(pieces[0], Join(pieces[1..], sep), sep);
    }
  }

  lemma {:induction false} SplitNoSeparator(s: string, sep: char)
    requires sep !in s
    ensures Split(s, sep) == [s]
  {
    if s != [] {
      SplitNoSeparator(s[1..], sep);
    }
  }

  lemma {:induction false} SplitAfterPiece(a: string, b: string, sep: char)
    requires sep !in a
    ensures Split(a + [sep] + b, sep) == [a] + Split(b, sep)
  {
    if a == [] {
      assert a + [sep] + b == [sep] + b;
      assert ([sep] + b)[1..] == b;
    } else {
      assert (a + [sep] + b)[1..] == a[1..] + [sep] + b;
      SplitAfterPiece(a[1..], b, sep);
      assert [a[0]] + a[1..] == a;
    }
  }

  /** The row-per-line layout is a join of the rows and one empty piece. */
  lemma {:induction false} LinesIsJoin(rows: seq<string>)
    ensures Lines(rows) == Join(rows + [""], '\n')
  {
    if rows != [] {
      var init := rows[..|rows| - 1];
      LinesIsJoin(init);
      JoinAppendEmpty(init, rows[|rows| - 1]);
      assert init + [rows[|rows| - 1]] == rows;
    }
  }

  /** Joining `init + [last, ""]` puts a newline after `last`. */
  lemma {:induction false} JoinAppendEmpty(init: seq<string>, last: string)
    ensures Join(init + [last] + [""], '\n') == Join(init + [""], '\n') + last + "\n"
  {
    if init == [] {
      assert [last] + [""] == [last, ""];
    } else {
      assert (init + [last] + [""])[1..] == init[1..] + [last] + [""];
      assert (init + [""])[1..] == init[1..] + [""];
      JoinAppendEmpty(init[1..], last);
    }
  }

  lemma {:induction false} LinesAppend(a: seq<string>, b: seq<string>)
    ensures Lines(a + b) == Lines(a) + Lines(b)
  {
    if b != [] {
      assert (a + b)[..|a + b| - 1] == a + b[..|b| - 1];
      LinesAppend(a, b[..|b| - 1]);
    } else {
      assert a + b == a;
    }
  }
}

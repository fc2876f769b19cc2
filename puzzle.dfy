/** The puzzle text format and the grid geometry shared by the builder and
    the solver: the eight directions, locations, the bounds-checked cell
    read, the line-based parser and the printer. */
module Puzzle {
  import opened Wrappers
  import opened Text
  import opened Collections

  /** The eight compass directions, in the order the solver tries them. */
  const Directions: seq<(int, int)> :=
    [(1, 0), (1, -1), (0, -1), (-1, -1), (-1, 0), (-1, 1), (0, 1), (1, 1)]

  predicate IsUnit(d: int)
  {
    -1 <= d <= 1
  }

  /** The table holds each non-zero unit step exactly once. */
  lemma DirectionsAreTheEightNeighbours()
    ensures |Directions| == 8 && Distinct(Directions)
    ensures forall i :: 0 <= i < 8 ==>
      IsUnit(Directions[i].0) && IsUnit(Directions[i].1) && Directions[i] != (0, 0)
    ensures forall dx, dy :: IsUnit(dx) && IsUnit(dy) && (dx, dy) != (0, 0) ==> (dx, dy) in Directions
  {
  }

  /** A start cell and a direction; a word of length `n` covers steps 0..n-1. */
  datatype Location = Location(x: nat, y: nat, dx: int, dy: int)

  /** The cell `k` steps from the start, before any bounds check. */
  function Step(loc: Location, k: int): (int, int)
  {
    (loc.x + k * loc.dx, loc.y + k * loc.dy)
  }

  /** Distinct steps along a non-zero direction are distinct cells. */
  lemma StepsDistinct(loc: Location, i: int, j: int)
    requires (loc.dx, loc.dy) != (0, 0) && i != j
    ensures Step(loc, i) != Step(loc, j)
  {
    assert (i - j) * loc.dx == i * loc.dx - j * loc.dx;
    assert (i - j) * loc.dy == i * loc.dy - j * loc.dy;
    if loc.dx != 0 {
      assert (i - j) * loc.dx != 0;
    } else {
      assert (i - j) * loc.dy != 0;
    }
  }

  /** A parsed puzzle: rows of characters, the word set, and the dimensions
      taken from the rows (`width` is the length of row 0). */
  datatype Puzzle = Puzzle(grid: seq<string>, words: set<string>, width: nat, height: nat)

  /** What reading any in-bounds cell needs: `height` rows, each at least
      `width` long. */
  predicate WellFormed(p: Puzzle)
  {
    p.height == |p.grid| && forall y :: 0 <= y < |p.grid| ==> p.width <= |p.grid[y]|
  }

  /** `Puzzle::get`: the character at column `x` of row `y`, or `None`
      outside `width` x `height`. */
  function Get(p: Puzzle, x: nat, y: nat): (r: Option<char>)
    requires x < p.width && y < p.height ==> y < |p.grid| && x < |p.grid[y]|
    ensures r.Some? <==> x < p.width && y < p.height
    ensures r.Some? ==> r.value == p.grid[y][x]
  {
    if x >= p.width || y >= p.height then None else Some(p.grid[y][x])
  }

  // ---------------------------------------------------------------------
  // Parsing

  /** A stripped line that is neither empty (the separator) nor a comment. */
  predicate Kept(line: string)
  {
    var s := Strip(line);
    s != [] && s[0] != '#'
  }

  /** The index of the first line that is empty once stripped, or the
      number of lines when there is none. */
  function FirstEmpty(lines: seq<string>): (r: nat)
    ensures r <= |lines|
    ensures forall j :: 0 <= j < r ==> Strip(lines[j]) != []
    ensures r < |lines| ==> Strip(lines[r]) == []
  {
    if lines == [] then 0
    else if Strip(lines[0]) == [] then 0
    else 1 + FirstEmpty(lines[1..])
  }

  /** The stripped kept lines, in order. */
  function KeptLines(lines: seq<string>): seq<string>
  {
    if lines == [] then []
    else
      var init := KeptLines(lines[..|lines| - 1]);
      var last := lines[|lines| - 1];
      if Kept(last) then init + [Strip(last)] else init
  }

  /** The stripped kept lines with index in [lo, hi). */
  function WordsBetween(lines: seq<string>, lo: nat, hi: nat): set<string>
    requires hi <= |lines|
  {
    set j | lo <= j < hi && Kept(lines[j]) :: Strip(lines[j])
  }

  /** The meaning of the text format: the kept lines before the first empty
      line are the grid rows, the kept lines after it are the words; with
      no grid row there is no puzzle (the source panics reading row 0). */
  function FromLines(lines: seq<string>): Option<Puzzle>
  {
    var e := FirstEmpty(lines);
    var rows := KeptLines(lines[..e]);
    if rows == [] then None
    else Some(Puzzle(rows, WordsBetween(lines, e + 1, |lines|), |rows[0]|, |rows|))
  }

  /** `Puzzle::from_string`: one pass over the lines with a flag that flips
      at the first empty line. */
  method FromString(input: string) returns (r: Option<Puzzle>)
    ensures r == FromLines(Split(input, '\n'))
  {
    var lines := Split(input, '\n');
    ghost var e := FirstEmpty(lines);
    var doneReadingGrid := false;
    var words: set<string> := {};
    var grid: seq<string> := [];
    var i := 0;
    while i < |lines|
      invariant 0 <= i <= |lines|
      invariant doneReadingGrid <==> e < i
      invariant grid == KeptLines(lines[..if i < e then i else e])
      invariant words == WordsBetween(lines, e + 1, i)
    {
      var currentLine := Strip(lines[i]);
      ReadStep(lines, i);
      WordsBetweenSnoc(lines, e + 1, i);
      if |currentLine| == 0 {
        doneReadingGrid := true;
      } else if currentLine[0] == '#' {
      } else if doneReadingGrid {
        words := words + {currentLine};
      } else {
        grid := grid + [currentLine];
      }
      i := i + 1;
    }
    if |grid| == 0 {
      return None;
    }
    r := Some(Puzzle(grid, words, |grid[0]|, |grid|));
  }

  /** What reading line `i` does to the rows read so far. */
  lemma ReadStep(lines: seq<string>, i: nat)
    requires i < |lines|
    ensures var e := FirstEmpty(lines);
      && (i == e <==> Strip(lines[i]) == [] && i <= e)
      && (Strip(lines[i]) == [] ==> e <= i)
      && KeptLines(lines[..if i + 1 < e then i + 1 else e])
         == KeptLines(lines[..if i < e then i else e]) + (if i < e && Kept(lines[i]) then [Strip(lines[i])] else [])
  {
    var e := FirstEmpty(lines);
    var lo := if i < e then i else e;
    var hi := if i + 1 < e then i + 1 else e;
    if i < e {
      assert lo == i && hi == i + 1;
      KeptLinesSnoc(lines, i);
    } else {
      assert lo == hi;
    }
  }

  lemma KeptLinesSnoc(lines: seq<string>, i: nat)
    requires i < |lines|
    ensures KeptLines(lines[..i + 1])
         == KeptLines(lines[..i]) + (if Kept(lines[i]) then [Strip(lines[i])] else [])
  {
    assert lines[..i + 1][..i] == lines[..i];
  }

  lemma WordsBetweenSnoc(lines: seq<string>, lo: nat, i: nat)
    requires i < |lines|
    ensures WordsBetween(lines, lo, i + 1)
         == WordsBetween(lines, lo, i) + (if lo <= i && Kept(lines[i]) then {Strip(lines[i])} else {})
  {
  }

  /** A row or word the format carries unchanged: non-empty, without
      whitespace, not starting with `'#'`. */
  predicate Clean(line: string)
  {
    line != [] && NoWhitespace(line) && line[0] != '#'
  }

  /** What the parser produces: `height` clean rows, `width` from row 0,
      clean words. */
  lemma {:induction false} ParsedShape(lines: seq<string>)
    requires FromLines(lines).Some?
    ensures var p := FromLines(lines).value;
      && p.height == |p.grid| > 0 && p.width == |p.grid[0]|
      && (forall y :: 0 <= y < |p.grid| ==> Clean(p.grid[y]))
      && (forall w :: w in p.words ==> Clean(w))
  {
    KeptLinesClean(lines[..FirstEmpty(lines)]);
    forall j | 0 <= j < |lines| {
      StripFacts(lines[j]);
    }
  }

  lemma {:induction false} KeptLinesClean(lines: seq<string>)
    ensures forall y :: 0 <= y < |KeptLines(lines)| ==> Clean(KeptLines(lines)[y])
  {
    if lines != [] {
      KeptLinesClean(lines[..|lines| - 1]);
      StripFacts(lines[|lines| - 1]);
    }
  }

  lemma CleanKept(line: string)
    requires Clean(line)
    ensures Kept(line) && Strip(line) == line
  {
    StripFacts(line);
  }

  lemma {:induction false} KeptLinesOfClean(lines: seq<string>)
    requires forall y :: 0 <= y < |lines| ==> Clean(lines[y])
    ensures KeptLines(lines) == lines
  {
    if lines != [] {
      var n := |lines| - 1;
      KeptLinesOfClean(lines[..n]);
      CleanKept(lines[n]);
      assert lines[..n] + [lines[n]] == lines;
    }
  }

  /** Clean rows, an empty line, then clean words or empty lines parse back
      to those rows and the set of those words. */
  lemma ParseLayout(rows: seq<string>, tail: seq<string>)
    requires |rows| > 0 && forall y :: 0 <= y < |rows| ==> Clean(rows[y])
    requires forall k :: 0 <= k < |tail| ==> tail[k] == "" || Clean(tail[k])
    ensures FromLines(rows + [""] + tail)
         == Some(Puzzle(rows, set t | t in tail && t != "", |rows[0]|, |rows|))
  {
    LayoutRows(rows, tail);
    LayoutWords(rows, tail);
  }

  /** The grid part of the layout: the empty line after the rows is the
      first one, and the rows before it are kept unchanged. */
  lemma LayoutRows(rows: seq<string>, tail: seq<string>)
    requires forall y :: 0 <= y < |rows| ==> Clean(rows[y])
    ensures FirstEmpty(rows + [""] + tail) == |rows|
    ensures KeptLines((rows + [""] + tail)[..|rows|]) == rows
  {
    var lines := rows + [""] + tail;
    forall y | 0 <= y < |rows| ensures Strip(lines[y]) != [] {
      assert lines[y] == rows[y];
      CleanKept(rows[y]);
    }
    assert lines[|rows|] == "";
    assert lines[..|rows|] == rows;
    KeptLinesOfClean(rows);
  }

  /** The word part of the layout: the kept lines after the empty line are
      the non-empty pieces of `tail`. */
  lemma LayoutWords(rows: seq<string>, tail: seq<string>)
    requires forall k :: 0 <= k < |tail| ==> tail[k] == "" || Clean(tail[k])
    ensures WordsBetween(rows + [""] + tail, |rows| + 1, |rows| + 1 + |tail|) == set t | t in tail && t != ""
  {
    var lines := rows + [""] + tail;
    var e := |rows|;
    forall k | 0 <= k < |tail| && tail[k] != "" ensures Kept(tail[k]) && Strip(tail[k]) == tail[k] {
      CleanKept(tail[k]);
    }
    forall t | t in tail && t != "" ensures t in WordsBetween(lines, e + 1, |lines|) {
      var k :| 0 <= k < |tail| && tail[k] == t;
      assert lines[e + 1 + k] == t;
    }
    forall t | t in WordsBetween(lines, e + 1, |lines|) ensures t in tail && t != "" {
      var j :| e + 1 <= j < |lines| && Kept(lines[j]) && Strip(lines[j]) == t;
      assert lines[j] == tail[j - e - 1];
    }
  }

  // ---------------------------------------------------------------------
  // Printing

  /** `Display for Puzzle`: each row and a newline, an empty line, then each
      word and a newline, the words in the set's iteration order. */
  method Display(p: Puzzle) returns (s: string, ghost order: seq<string>)
    ensures Enumerates(order, p.words)
    ensures s == Lines(p.grid) + "\n" + Lines(order)
  {
    s := "";
    var y := 0;
    while y < |p.grid|
      invariant 0 <= y <= |p.grid|
      invariant s == Lines(p.grid[..y])
    {
      assert p.grid[..y + 1][..y] == p.grid[..y];
      s := s + p.grid[y] + "\n";
      y := y + 1;
    }
    assert p.grid[..|p.grid|] == p.grid;
    s := s + "\n";
    var ws := SetToSeq(p.words);
    var prefix := s;
    var k := 0;
    while k < |ws|
      invariant 0 <= k <= |ws|
      invariant s == prefix + Lines(ws[..k])
    {
      assert ws[..k + 1][..k] == ws[..k];
      s := s + ws[k] + "\n";
      k := k + 1;
    }
    assert ws[..|ws|] == ws;
    order := ws;
  }

  /** Separator-joined pieces concatenate around one separator. */
  lemma {:induction false} JoinConcat(a: seq<string>, b: seq<string>, sep: char)
    requires |a| >= 1 && |b| >= 1
    ensures Join(a + b, sep) == Join(a, sep) + [sep] + Join(b, sep)
  {
    if |a| == 1 {
      assert (a + b)[1..] == b;
    } else {
      assert (a + b)[1..] == a[1..] + b;
      JoinConcat(a[1..], b, sep);
    }
  }

  /** The printed form is the rows, an empty piece and the words, each
      piece ended by a newline. */
  lemma DisplayText(rows: seq<string>, order: seq<string>)
    ensures Lines(rows) + "\n" + Lines(order) == Join(rows + [""] + order + [""], '\n')
  {
    LinesAppend(rows, [""]);
    LinesAppend(rows + [""], order);
    assert Lines([""]) == "\n";
    LinesIsJoin(rows + [""] + order);
  }

  /** The builder's form: rows ended by newlines, an empty line, then the
      words joined by newlines. */
  lemma JoinedText(rows: seq<string>, order: seq<string>)
    ensures Lines(rows) + "\n" + Join(order, '\n')
         == Join(rows + [""] + (if order == [] then [""] else order), '\n')
  {
    LinesIsJoin(rows);
    var tail := if order == [] then [""] else order;
    assert Join(tail, '\n') == Join(order, '\n');
    JoinConcat(rows + [""], tail, '\n');
  }

  /** Parsing the printed form of a puzzle gives the puzzle back when its
      rows and words are clean and its dimensions are those of its rows. */
  lemma DisplayRoundTrip(p: Puzzle, order: seq<string>)
    requires |p.grid| > 0 && p.height == |p.grid| && p.width == |p.grid[0]|
    requires forall y :: 0 <= y < |p.grid| ==> Clean(p.grid[y])
    requires forall w :: w in p.words ==> Clean(w)
    requires Enumerates(order, p.words)
    ensures FromLines(Split(Lines(p.grid) + "\n" + Lines(order), '\n')) == Some(p)
  {
    var tail := order + [""];
    var pieces := p.grid + [""] + tail;
    var text := Lines(p.grid) + "\n" + Lines(order);
    DisplayText(p.grid, order);
    assert p.grid + [""] + order + [""] == pieces;
    assert forall k :: 0 <= k < |tail| ==> tail[k] == "" || Clean(tail[k]);
    CleanPieces(p.grid, tail);
    SplitJoin(pieces, '\n');
    assert Split(text, '\n') == pieces;
    ParseLayout(p.grid, tail);
    EnumeratedWords(order, p.words);
  }

  /** The non-empty pieces of an enumeration of non-empty words followed by
      an empty piece are those words. */
  lemma EnumeratedWords(order: seq<string>, words: set<string>)
    requires Enumerates(order, words) && forall w :: w in words ==> Clean(w)
    ensures (set t | t in order + [""] && t != "") == words
  {
  }

  /** The same for the builder's rendering, which joins the words with
      newlines instead of ending each with one. */
  lemma JoinedRoundTrip(rows: seq<string>, order: seq<string>)
    requires |rows| > 0 && forall y :: 0 <= y < |rows| ==> Clean(rows[y])
    requires forall k :: 0 <= k < |order| ==> Clean(order[k])
    ensures FromLines(Split(Lines(rows) + "\n" + Join(order, '\n'), '\n'))
         == Some(Puzzle(rows, set w | w in order, |rows[0]|, |rows|))
  {
    var tail := if order == [] then [""] else order;
    JoinedSplit(rows, order, tail);
    JoinedParse(rows, order, tail);
  }

  lemma JoinedParse(rows: seq<string>, order: seq<string>, tail: seq<string>)
    requires |rows| > 0 && forall y :: 0 <= y < |rows| ==> Clean(rows[y])
    requires forall k :: 0 <= k < |order| ==> Clean(order[k])
    requires tail == if order == [] then [""] else order
    ensures FromLines(rows + [""] + tail) == Some(Puzzle(rows, set w | w in order, |rows[0]|, |rows|))
  {
    assert forall k :: 0 <= k < |tail| ==> tail[k] == "" || Clean(tail[k]);
    ParseLayout(rows, tail);
    NonEmptyPieces(order, tail);
  }

  lemma JoinedSplit(rows: seq<string>, order: seq<string>, tail: seq<string>)
    requires forall y :: 0 <= y < |rows| ==> Clean(rows[y])
    requires forall k :: 0 <= k < |order| ==> Clean(order[k])
    requires tail == if order == [] then [""] else order
    ensures Split(Lines(rows) + "\n" + Join(order, '\n'), '\n') == rows + [""] + tail
  {
    JoinedText(rows, order);
    assert forall k :: 0 <= k < |tail| ==> tail[k] == "" || Clean(tail[k]);
    CleanPieces(rows, tail);
    SplitJoin(rows + [""] + tail, '\n');
  }

  lemma NonEmptyPieces(order: seq<string>, tail: seq<string>)
    requires forall k :: 0 <= k < |order| ==> Clean(order[k])
    requires tail == if order == [] then [""] else order
    ensures (set t | t in tail && t != "") == set w | w in order
  {
  }

  /** Clean rows and words hold no newline, so splitting finds them again. */
  lemma CleanPieces(rows: seq<string>, tail: seq<string>)
    requires forall y :: 0 <= y < |rows| ==> Clean(rows[y])
    requires forall k :: 0 <= k < |tail| ==> tail[k] == "" || Clean(tail[k])
    ensures forall k :: 0 <= k < |rows + [""] + tail| ==> '\n' !in (rows + [""] + tail)[k]
  {
    assert IsWhitespace('\n');
    var pieces := rows + [""] + tail;
    forall k | 0 <= k < |pieces| ensures '\n' !in pieces[k] {
      if k < |rows| {
        assert pieces[k] == rows[k];
      } else if k > |rows| {
        assert pieces[k] == tail[k - |rows| - 1];
      }
    }
  }
}

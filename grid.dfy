/** Pure facts about the builder's character grid: blank counting, cell
    writes, and the legality and effect of a word placement. The builder
    class in `partial_puzzle.dfy` is specified in these terms. */
module Grid {
  import opened Puzzle

  /** The marker of a cell no word has filled yet. */
  const Blank: char := ' '

  function RowBlanks(row: string): nat
  {
    if row == [] then 0
    else RowBlanks(row[..|row| - 1]) + (if row[|row| - 1] == Blank then 1 else 0)
  }

  /** The number of blank cells, counted row by row. */
  function BlankCount(g: seq<string>): nat
  {
    if g == [] then 0 else BlankCount(g[..|g| - 1]) + RowBlanks(g[|g| - 1])
  }

  predicate Rectangular(g: seq<string>, width: nat, height: nat)
  {
    |g| == height && forall y :: 0 <= y < |g| ==> |g[y]| == width
  }

  predicate InGrid(g: seq<string>, c: (int, int))
  {
    0 <= c.1 < |g| && 0 <= c.0 < |g[c.1]|
  }

  function At(g: seq<string>, c: (int, int)): char
    requires InGrid(g, c)
  {
    g[c.1][c.0]
  }

  function WriteCell(g: seq<string>, c: (int, int), ch: char): seq<string>
    requires InGrid(g, c)
  {
    g[c.1 := g[c.1][c.0 := ch]]
  }

  // ---------------------------------------------------------------------
  // Counting

  /** A grid of `height` rows of `width` blanks has `width * height` blanks. */
  lemma {:induction false} AllBlankCount(g: seq<string>, width: nat, height: nat)
    requires Rectangular(g, width, height)
    requires forall y, x :: 0 <= y < height && 0 <= x < width ==> g[y][x] == Blank
    ensures BlankCount(g) == width * height
  {
    if height > 0 {
      var init := g[..height - 1];
      AllBlankCount(init, width, height - 1);
      AllBlankRow(g[height - 1]);
      assert (height - 1) * width + width == height * width;
    }
  }

  lemma {:induction false} AllBlankRow(row: string)
    requires forall x :: 0 <= x < |row| ==> row[x] == Blank
    ensures RowBlanks(row) == |row|
  {
    if row != [] {
      AllBlankRow(row[..|row| - 1]);
    }
  }

  /** A positive blank count means some cell is blank. */
  lemma {:induction false} BlankExists(g: seq<string>)
    requires BlankCount(g) > 0
    ensures exists y, x :: 0 <= y < |g| && 0 <= x < |g[y]| && g[y][x] == Blank
  {
    var last := g[|g| - 1];
    if RowBlanks(last) > 0 {
      var x := BlankInRow(last);
      assert g[|g| - 1][x] == Blank;
    } else {
      BlankExists(g[..|g| - 1]);
      var y, x :| 0 <= y < |g| - 1 && 0 <= x < |g[..|g| - 1][y]| && g[..|g| - 1][y][x] == Blank;
      assert g[y][x] == Blank;
    }
  }

  lemma {:induction false} BlankInRow(row: string) returns (x: nat)
    requires RowBlanks(row) > 0
    ensures x < |row| && row[x] == Blank
  {
    if row[|row| - 1] == Blank {
      x := |row| - 1;
    } else {
      x := BlankInRow(row[..|row| - 1]);
    }
  }

  lemma {:induction false} RowBlanksPrefix(row: string, n: nat)
    requires n <= |row|
    ensures RowBlanks(row[..n]) <= RowBlanks(row)
  {
    if n < |row| {
      assert row[..|row| - 1][..n] == row[..n];
      RowBlanksPrefix(row[..|row| - 1], n);
    } else {
      assert row[..n] == row;
    }
  }

  lemma {:induction false} BlankCountPrefix(g: seq<string>, n: nat)
    requires n <= |g|
    ensures BlankCount(g[..n]) <= BlankCount(g)
  {
    if n < |g| {
      assert g[..|g| - 1][..n] == g[..n];
      BlankCountPrefix(g[..|g| - 1], n);
    } else {
      assert g[..n] == g;
    }
  }

  lemma {:induction false} RowWriteCount(row: string, x: nat, ch: char)
    requires x < |row|
    ensures RowBlanks(row[x := ch]) + (if row[x] == Blank then 1 else 0)
         == RowBlanks(row) + (if ch == Blank then 1 else 0)
  {
    var n := |row|;
    if x < n - 1 {
      assert row[x := ch][..n - 1] == row[..n - 1][x := ch];
      RowWriteCount(row[..n - 1], x, ch);
    } else {
      assert row[x := ch][..n - 1] == row[..n - 1];
    }
  }

  /** Writing one cell changes the blank count by what it turns blank or
      fills. */
  lemma {:induction false} WriteCellCount(g: seq<string>, c: (int, int), ch: char)
    requires InGrid(g, c)
    ensures BlankCount(WriteCell(g, c, ch)) + (if At(g, c) == Blank then 1 else 0)
         == BlankCount(g) + (if ch == Blank then 1 else 0)
  {
    var n := |g|;
    var w := WriteCell(g, c, ch);
    if c.1 < n - 1 {
      assert w[..n - 1] == WriteCell(g[..n - 1], c, ch);
      WriteCellCount(g[..n - 1], c, ch);
    } else {
      assert w[..n - 1] == g[..n - 1];
      RowWriteCount(g[n - 1], c.0, ch);
    }
  }

  // ---------------------------------------------------------------------
  // Placements

  /** The first `n` steps of `loc` are cells of the grid. */
  predicate PathInBounds(g: seq<string>, loc: Location, n: nat)
  {
    forall i :: 0 <= i < n ==> InGrid(g, Step(loc, i))
  }

  /** Every filled cell among the first `n` steps already holds the word's
      letter for that step. */
  predicate Agrees(g: seq<string>, loc: Location, word: string, n: nat)
    requires n <= |word| && PathInBounds(g, loc, n)
  {
    forall i :: 0 <= i < n ==> At(g, Step(loc, i)) != Blank ==> At(g, Step(loc, i)) == word[i]
  }

  /** How many of the first `n` steps are blank (the source's `new_letters`). */
  function NewLetters(g: seq<string>, loc: Location, n: nat): nat
    requires PathInBounds(g, loc, n)
  {
    if n == 0 then 0
    else NewLetters(g, loc, n - 1) + (if At(g, Step(loc, n - 1)) == Blank then 1 else 0)
  }

  /** The legality rule of a placement: in bounds, no conflicting letter,
      and enough blanks left for a message of `messageLength` characters. */
  predicate CanInsert(g: seq<string>, messageLength: nat, loc: Location, word: string)
  {
    && PathInBounds(g, loc, |word|)
    && Agrees(g, loc, word, |word|)
    && NewLetters(g, loc, |word|) + messageLength <= BlankCount(g)
  }

  /** The grid after writing `word[i]` at step `i` for every `i < n`, in
      that order. */
  function Written(g: seq<string>, loc: Location, word: string, n: nat): (r: seq<string>)
    requires n <= |word| && PathInBounds(g, loc, n)
    ensures |r| == |g| && forall y :: 0 <= y < |g| ==> |r[y]| == |g[y]|
  {
    if n == 0 then g
    else WriteCell(Written(g, loc, word, n - 1), Step(loc, n - 1), word[n - 1])
  }

  /** The blank steps that receive a non-blank letter. */
  function Filled(g: seq<string>, loc: Location, word: string, n: nat): nat
    requires n <= |word| && PathInBounds(g, loc, n)
  {
    if n == 0 then 0
    else
      var fills := At(g, Step(loc, n - 1)) == Blank && word[n - 1] != Blank;
      Filled(g, loc, word, n - 1) + (if fills then 1 else 0)
  }

  /** A write puts the word's letters on its path and leaves every other
      cell as it was. */
  lemma {:induction false} WrittenCells(g: seq<string>, loc: Location, word: string, n: nat)
    requires n <= |word| && PathInBounds(g, loc, n)
    ensures forall c :: InGrid(g, c) && (forall i :: 0 <= i < n ==> Step(loc, i) != c) ==>
      At(Written(g, loc, word, n), c) == At(g, c)
    ensures (loc.dx, loc.dy) != (0, 0) ==>
      forall i :: 0 <= i < n ==> At(Written(g, loc, word, n), Step(loc, i)) == word[i]
  {
    if n > 0 {
      WrittenCells(g, loc, word, n - 1);
      if (loc.dx, loc.dy) != (0, 0) {
        forall i | 0 <= i < n - 1 ensures Step(loc, i) != Step(loc, n - 1) {
          StepsDistinct(loc, i, n - 1);
        }
      }
    }
  }

  /** A cell off the first `n` steps is left as it was. */
  lemma {:induction false} WrittenOffPath(g: seq<string>, loc: Location, word: string, n: nat, c: (int, int))
    requires n <= |word| && PathInBounds(g, loc, n) && InGrid(g, c)
    requires forall i :: 0 <= i < n ==> Step(loc, i) != c
    ensures InGrid(Written(g, loc, word, n), c) && At(Written(g, loc, word, n), c) == At(g, c)
  {
    if n > 0 {
      WrittenOffPath(g, loc, word, n - 1, c);
      assert Step(loc, n - 1) != c;
    }
  }

  /** Along a non-zero direction, a write that agrees with the grid lowers
      the blank count by exactly the number of blanks it fills. */
  lemma {:induction false} WrittenCount(g: seq<string>, loc: Location, word: string, n: nat)
    requires n <= |word| && PathInBounds(g, loc, n) && Agrees(g, loc, word, n)
    requires (loc.dx, loc.dy) != (0, 0)
    ensures BlankCount(Written(g, loc, word, n)) + Filled(g, loc, word, n) == BlankCount(g)
  {
    if n > 0 {
      var s := Step(loc, n - 1);
      var ch := word[n - 1];
      var before := Written(g, loc, word, n - 1);
      WrittenCount(g, loc, word, n - 1);
      forall i | 0 <= i < n - 1 ensures Step(loc, i) != s {
        StepsDistinct(loc, i, n - 1);
      }
      WrittenOffPath(g, loc, word, n - 1, s);
      var a := At(g, s);
      assert a != Blank ==> a == ch;
      WriteCellCount(before, s, ch);
      assert Written(g, loc, word, n) == WriteCell(before, s, ch);
      assert Filled(g, loc, word, n) == Filled(g, loc, word, n - 1) + (if a == Blank && ch != Blank then 1 else 0);
    }
  }

  /** Filling counts only blank steps, so it never exceeds `new_letters`,
      and equals it when the word holds no blank. */
  lemma {:induction false} FilledAtMostNewLetters(g: seq<string>, loc: Location, word: string, n: nat)
    requires n <= |word| && PathInBounds(g, loc, n)
    ensures Filled(g, loc, word, n) <= NewLetters(g, loc, n)
    ensures Blank !in word ==> Filled(g, loc, word, n) == NewLetters(g, loc, n)
  {
    if n > 0 {
      FilledAtMostNewLetters(g, loc, word, n - 1);
      if Blank !in word {
        assert word[n - 1] != Blank;
      }
    }
  }

  /** A blank step receiving a non-blank letter makes the fill positive. */
  lemma {:induction false} FilledPositive(g: seq<string>, loc: Location, word: string, n: nat, k: nat)
    requires n <= |word| && PathInBounds(g, loc, n)
    requires k < n && At(g, Step(loc, k)) == Blank && word[k] != Blank
    ensures Filled(g, loc, word, n) > 0
  {
    if k < n - 1 {
      FilledPositive(g, loc, word, n - 1, k);
    }
  }

  // ---------------------------------------------------------------------
  // Filling the blanks with the message

  /** A row with each blank replaced by the next unused message letter. */
  function FillRow(row: string, m: string): string
    requires RowBlanks(row) <= |m|
  {
    if row == [] then []
    else
      var n := |row| - 1;
      FillRow(row[..n], m) + [if row[n] == Blank then m[RowBlanks(row[..n])] else row[n]]
  }

  /** Filling one more cell of a row appends that cell, filled. */
  lemma FillRowSnoc(row: string, m: string, x: nat)
    requires x < |row| && RowBlanks(row[..x + 1]) <= |m|
    ensures RowBlanks(row[..x]) + (if row[x] == Blank then 1 else 0) == RowBlanks(row[..x + 1])
    ensures FillRow(row[..x + 1], m)
         == FillRow(row[..x], m) + [if row[x] == Blank then m[RowBlanks(row[..x])] else row[x]]
  {
    assert row[..x + 1][..x] == row[..x];
  }

  /** `line` is the first `x` cells of `row` filled from `m`, which used
      the first `used` letters of `m`. */
  ghost predicate RowFilled(row: string, m: string, x: nat, line: string, used: nat)
  {
    && x <= |row| && RowBlanks(row) <= |m|
    && used == RowBlanks(row[..x]) && used <= RowBlanks(row)
    && line == FillRow(row[..x], m)
  }

  /** Filling cell `x` appends the next unused letter when it is blank and
      the cell itself otherwise. */
  lemma RowFilledStep(row: string, m: string, x: nat, line: string, used: nat)
    requires RowFilled(row, m, x, line, used) && x < |row|
    ensures row[x] == Blank ==> used < |m|
    ensures RowFilled(row, m, x + 1, line + [if row[x] == Blank then m[used] else row[x]],
                      used + (if row[x] == Blank then 1 else 0))
  {
    RowBlanksPrefix(row, x + 1);
    FillRowSnoc(row, m, x);
  }

  /** A row filled to its end is the filled row. */
  lemma RowFilledDone(row: string, m: string, line: string, used: nat)
    requires RowFilled(row, m, |row|, line, used)
    ensures line == FillRow(row, m) && used == RowBlanks(row)
  {
    assert row[..|row|] == row;
  }

  /** The grid with its blanks replaced by the letters of `m`, row by row. */
  function Fill(g: seq<string>, m: string): seq<string>
    requires BlankCount(g) <= |m|
  {
    if g == [] then []
    else
      var n := |g| - 1;
      Fill(g[..n], m) + [FillRow(g[n], m[BlankCount(g[..n])..])]
  }

  /** The characters of `f` at the cells where `row` is blank, in order. */
  function RowReading(row: string, f: string): string
    requires |f| == |row|
  {
    if row == [] then []
    else
      var n := |row| - 1;
      RowReading(row[..n], f[..n]) + (if row[n] == Blank then [f[n]] else [])
  }

  predicate SameShape(g: seq<string>, f: seq<string>)
  {
    |f| == |g| && forall y :: 0 <= y < |g| ==> |f[y]| == |g[y]|
  }

  /** The characters of `f` at the blank cells of `g`, in row-major order. */
  function Reading(g: seq<string>, f: seq<string>): string
    requires SameShape(g, f)
  {
    if g == [] then []
    else
      var n := |g| - 1;
      Reading(g[..n], f[..n]) + RowReading(g[n], f[n])
  }

  /** Filling a row keeps its letters and puts the first `RowBlanks(row)`
      letters of `m` into its blanks, in order. */
  lemma {:induction false} FillRowFacts(row: string, m: string)
    requires RowBlanks(row) <= |m|
    ensures |FillRow(row, m)| == |row|
    ensures forall x :: 0 <= x < |row| && row[x] != Blank ==> FillRow(row, m)[x] == row[x]
    ensures RowReading(row, FillRow(row, m)) == m[..RowBlanks(row)]
  {
    if row != [] {
      var n := |row| - 1;
      FillRowFacts(row[..n], m);
      var f := FillRow(row, m);
      assert f[..n] == FillRow(row[..n], m);
    }
  }

  /** Filling the grid keeps its shape and every letter already placed. */
  lemma {:induction false} FillShape(g: seq<string>, m: string)
    requires BlankCount(g) <= |m|
    ensures SameShape(g, Fill(g, m))
    ensures forall y, x :: 0 <= y < |g| && 0 <= x < |g[y]| && g[y][x] != Blank ==> Fill(g, m)[y][x] == g[y][x]
  {
    if g != [] {
      var n := |g| - 1;
      var init := Fill(g[..n], m);
      var last := FillRow(g[n], m[BlankCount(g[..n])..]);
      FillShape(g[..n], m);
      FillRowFacts(g[n], m[BlankCount(g[..n])..]);
      assert Fill(g, m) == init + [last];
      forall y, x | 0 <= y < |g| && 0 <= x < |g[y]| && g[y][x] != Blank
        ensures Fill(g, m)[y][x] == g[y][x]
      {
        if y < n {
          assert g[..n][y] == g[y];
        }
      }
    }
  }

  /** The blanks of the filled grid, read in row-major order, are the first
      `BlankCount(g)` letters of `m`. */
  lemma {:induction false} FillReading(g: seq<string>, m: string)
    requires BlankCount(g) <= |m|
    ensures SameShape(g, Fill(g, m)) && Reading(g, Fill(g, m)) == m[..BlankCount(g)]
  {
    FillShape(g, m);
    if g != [] {
      var n := |g| - 1;
      var rest := m[BlankCount(g[..n])..];
      FillReading(g[..n], m);
      FillRowFacts(g[n], rest);
      var f := Fill(g, m);
      assert f[..n] == Fill(g[..n], m);
      assert f[n] == FillRow(g[n], rest);
      assert Reading(g, f) == Reading(g[..n], f[..n]) + RowReading(g[n], f[n]);
      assert m[..BlankCount(g)] == m[..BlankCount(g[..n])] + rest[..RowBlanks(g[n])];
    }
  }

  /** A filled grid of a complete puzzle spells exactly the message in its
      former blanks. */
  lemma CompleteFillSpellsMessage(g: seq<string>, m: string)
    requires BlankCount(g) == |m|
    ensures SameShape(g, Fill(g, m)) && Reading(g, Fill(g, m)) == m
  {
    FillReading(g, m);
    assert m[..|m|] == m;
  }
}

/** How the builder and the solver fit together: the message the builder
    hides in the blanks of a complete grid is what the solver collects from
    the cells its words do not cover. */
module Recovery {
  import opened Puzzle
  import opened Grid
  import opened Solver

  /** The unmarked letters of a filled row are the letters at the row's
      former blanks, when the marked cells are the row's lettered cells. */
  lemma {:induction false} RowUnmarkedIsReading(row: string, f: string, y: nat, n: nat, marked: set<Cell>)
    requires |row| == |f| && n <= |f|
    requires forall x: nat :: x < n ==> ((x, y) in marked <==> row[x] != Blank)
    ensures RowUnmarked(f, y, n, marked) == RowReading(row[..n], f[..n])
  {
    if n > 0 {
      RowUnmarkedIsReading(row, f, y, n - 1, marked);
      assert row[..n][..n - 1] == row[..n - 1];
      assert f[..n][..n - 1] == f[..n - 1];
    }
  }

  /** The same for the first `h` rows, when the grid's rows have the
      puzzle's width. */
  lemma {:induction false} UnmarkedRowsIsReading(g: seq<string>, p: Puzzle, h: nat, marked: set<Cell>)
    requires Rectangular(g, p.width, p.height) && SameShape(g, p.grid) && h <= p.height
    requires forall c: Cell :: c in marked <==> c.0 < p.width && c.1 < p.height && g[c.1][c.0] != Blank
    ensures WellFormed(p) && UnmarkedRows(p, marked, h) == Reading(g[..h], p.grid[..h])
  {
    if h > 0 {
      UnmarkedRowsIsReading(g, p, h - 1, marked);
      var y := h - 1;
      RowUnmarkedIsReading(g[y], p.grid[y], y, p.width, marked);
      assert g[y][..p.width] == g[y] && p.grid[y][..p.width] == p.grid[y];
      assert g[..h][..y] == g[..y] && p.grid[..h][..y] == p.grid[..y];
    }
  }

  /** Parsing a complete builder grid filled from message `m` and marking
      exactly the cells the words wrote, the solver's collected letters are
      `m`. */
  lemma SolverRecoversMessage(g: seq<string>, width: nat, height: nat, m: string, words: set<string>,
                              marked: set<Cell>)
    requires Rectangular(g, width, height) && BlankCount(g) == |m|
    requires forall c: Cell :: c in marked <==> c.0 < width && c.1 < height && g[c.1][c.0] != Blank
    ensures var p := Puzzle(Fill(g, m), words, width, height);
      WellFormed(p) && Unmarked(p, marked) == m
  {
    var p := Puzzle(Fill(g, m), words, width, height);
    CompleteFillSpellsMessage(g, m);
    UnmarkedRowsIsReading(g, p, height, marked);
    assert g[..height] == g && p.grid[..height] == p.grid;
  }
}

/** The puzzle under construction: a mutable grid of letters and blanks,
    the words placed so far and the hidden message that will fill the
    blanks. The source's random draws (the anchor cell and the direction
    offset) are parameters of the methods that use them. */
module PartialPuzzle {
  import opened Wrappers
  import opened Collections
  import opened Text
  import opened Puzzle
  import opened Grid

  /** Yields the eight directions once each, starting at `offset`. */
  class RandomDirectionIterator {
    const offset: nat
    var index: nat

    constructor (offset: nat)
      requires offset < |Directions|
      ensures this.offset == offset && index == 0
    {
      this.offset := offset;
      index := 0;
    }

    method Next() returns (d: Option<(int, int)>)
      modifies this
      ensures old(index) >= |Directions| ==> d == None && index == old(index)
      ensures old(index) < |Directions| ==>
        d == Some(Directions[(old(index) + offset) % |Directions|]) && index == old(index) + 1
    {
      if index >= |Directions| {
        return None;
      }
      var actual := (index + offset) % |Directions|;
      index := index + 1;
      return Some(Directions[actual]);
    }
  }

  /** The `k`-th direction yielded by an iterator started at `offset`. */
  function DirectionAt(offset: nat, k: nat): (int, int)
    requires offset < |Directions| && k < |Directions|
  {
    Rotated(Directions, offset)[k]
  }

  /** An iterator yields every direction exactly once, none of them (0, 0). */
  lemma DirectionOrder(offset: nat)
    requires offset < |Directions|
    ensures forall d :: d in Directions <==> exists k :: 0 <= k < 8 && DirectionAt(offset, k) == d
    ensures forall k, j :: 0 <= k < j < 8 ==> DirectionAt(offset, k) != DirectionAt(offset, j)
    ensures forall k :: 0 <= k < 8 ==> DirectionAt(offset, k) != (0, 0)
  {
    assert Distinct(Directions) && forall i :: 0 <= i < 8 ==> Directions[i] != (0, 0) by {
      DirectionsAreTheEightNeighbours();
    }
    RotatedEnumerates(Directions, offset);
    var r := Rotated(Directions, offset);
    forall k | 0 <= k < 8 ensures DirectionAt(offset, k) != (0, 0) {
      assert DirectionAt(offset, k) in Directions;
    }
    forall d ensures d in Directions <==> exists k :: 0 <= k < 8 && DirectionAt(offset, k) == d {
      if d in Directions {
        var k :| 0 <= k < 8 && r[k] == d;
        assert DirectionAt(offset, k) == d;
      }
      if exists k :: 0 <= k < 8 && DirectionAt(offset, k) == d {
        var k :| 0 <= k < 8 && DirectionAt(offset, k) == d;
        assert r[k] == d;
      }
    }
  }

  /** Row-major order on cells: (x1, y1) comes strictly before (x2, y2). */
  predicate Before(x1: int, y1: int, x2: int, y2: int)
  {
    y1 < y2 || (y1 == y2 && x1 < x2)
  }

  /** The cell (cx, cy) is visited strictly before (rx, ry) by a row-major
      scan that starts at (sx, sy) and wraps around from the last cell to the
      first. */
  predicate ScannedBefore(sx: int, sy: int, cx: int, cy: int, rx: int, ry: int)
  {
    if !Before(rx, ry, sx, sy) then !Before(cx, cy, sx, sy) && Before(cx, cy, rx, ry)
    else !Before(cx, cy, sx, sy) || Before(cx, cy, rx, ry)
  }

  /** The source's scan step: along the row, then to the start of the next
      row, from the last row back to the first. */
  function NextCell(x: nat, y: nat, width: nat, height: nat): (c: (nat, nat))
    requires x < width && y < height
    ensures x + 1 < width ==> c == (x + 1, y)
    ensures x + 1 == width && y + 1 < height ==> c == (0, y + 1)
    ensures x + 1 == width && y + 1 == height ==> c == (0, 0)
  {
    if x + 1 < width then (x + 1, y) else (0, (y + 1) % height)
  }

  /** No cell the scan from (sx, sy) visited before (x, y) is blank. */
  ghost predicate NoBlankScanned(g: seq<string>, width: nat, height: nat, sx: nat, sy: nat, x: nat, y: nat)
    requires Rectangular(g, width, height)
  {
    forall cy, cx :: 0 <= cy < height && 0 <= cx < width && ScannedBefore(sx, sy, cx, cy, x, y) ==>
      g[cy][cx] != Blank
  }

  /** Within the grid, the cells before the successor of (x, y) are those
      before (x, y) and (x, y) itself. */
  lemma SuccessorBefore(x: nat, y: nat, width: nat, nx: nat, ny: nat)
    requires x < width
    requires (nx, ny) == if x + 1 < width then (x + 1, y) else (0, y + 1)
    ensures forall cx, cy :: 0 <= cx < width ==>
      (Before(cx, cy, nx, ny) <==> Before(cx, cy, x, y) || (cx, cy) == (x, y))
    ensures forall sx, sy :: 0 <= sx < width ==>
      (Before(nx, ny, sx, sy) <==> Before(x, y, sx, sy) && (sx, sy) != (nx, ny))
  {
  }

  /** One step of the scan for a blank keeps its invariant: the visited
      cells are not blank, and the scan has wrapped around exactly when it
      is before its start. A blank cell (blankX, blankY) exists, so the scan never
      wraps twice. */
  lemma ScanStep(g: seq<string>, width: nat, height: nat, sx: nat, sy: nat, x: nat, y: nat,
                 wrapped: bool, blankX: nat, blankY: nat)
    requires Rectangular(g, width, height) && x < width && y < height && sx < width && sy < height
    requires blankY < height && blankX < width && g[blankY][blankX] == Blank && g[y][x] != Blank
    requires NoBlankScanned(g, width, height, sx, sy, x, y)
    requires wrapped <==> Before(x, y, sx, sy)
    ensures x + 1 == width && y + 1 == height ==> !wrapped
    ensures var n := NextCell(x, y, width, height);
      && NoBlankScanned(g, width, height, sx, sy, n.0, n.1)
      && (wrapped || (x + 1 == width && y + 1 == height) <==> Before(n.0, n.1, sx, sy))
  {
    var n := NextCell(x, y, width, height);
    if x + 1 == width && y + 1 == height {
      if (sx, sy) == (0, 0) {
        assert ScannedBefore(sx, sy, blankX, blankY, x, y);
        assert false;
      }
      assert n == (0, 0);
      forall cy, cx | 0 <= cy < height && 0 <= cx < width && ScannedBefore(sx, sy, cx, cy, 0, 0)
        ensures g[cy][cx] != Blank
      {
        if (cx, cy) != (x, y) {
          assert ScannedBefore(sx, sy, cx, cy, x, y);
        }
      }
    } else {
      var nx, ny := if x + 1 < width then x + 1 else 0, if x + 1 < width then y else y + 1;
      assert n == (nx, ny);
      SuccessorBefore(x, y, width, nx, ny);
      if wrapped {
        assert !ScannedBefore(sx, sy, blankX, blankY, x, y);
        assert Before(nx, ny, sx, sy);
      }
      forall cy, cx | 0 <= cy < height && 0 <= cx < width && ScannedBefore(sx, sy, cx, cy, nx, ny)
        ensures g[cy][cx] != Blank
      {
        if (cx, cy) != (x, y) {
          assert ScannedBefore(sx, sy, cx, cy, x, y);
        }
      }
    }
  }

  class PartialPuzzle {
    const width: nat
    const height: nat
    const message: string
    var grid: seq<string>
    var words: set<string>

    ghost predicate Valid()
      reads this
    {
      Rectangular(grid, width, height)
    }

    /** An all-blank grid of `height` rows of `width` cells, with no words. */
    constructor Create(width: nat, height: nat, message: string)
      ensures this.width == width && this.height == height && this.message == message
      ensures Valid() && words == {}
      ensures forall y, x :: 0 <= y < height && 0 <= x < width ==> grid[y][x] == Blank
      ensures BlankCount(grid) == width * height
    {
      var g: seq<string> := [];
      for y := 0 to height
        invariant |g| == y
        invariant forall j :: 0 <= j < y ==> |g[j]| == width
        invariant forall j, x :: 0 <= j < y && 0 <= x < width ==> g[j][x] == Blank
      {
        var row: string := [];
        for x := 0 to width
          invariant |row| == x && forall i :: 0 <= i < x ==> row[i] == Blank
        {
          row := row + [Blank];
        }
        g := g + [row];
      }
      this.width := width;
      this.height := height;
      this.message := message;
      grid := g;
      words := {};
      AllBlankCount(g, width, height);
    }

    /** Step `offset` of `loc`, when it lies on the grid. */
    function PositionWithOffset(loc: Location, offset: int): (r: Option<(nat, nat)>)
      ensures r.Some? <==> 0 <= Step(loc, offset).0 < width && 0 <= Step(loc, offset).1 < height
      ensures r.Some? ==> (r.value.0 as int, r.value.1 as int) == Step(loc, offset)
    {
      var sx := loc.x + offset * loc.dx;
      var sy := loc.y + offset * loc.dy;
      if sx < 0 || sy < 0 then None
      else if sx >= width || sy >= height then None
      else Some((sx, sy))
    }

    /** The start of a word laid along (dx, dy) whose letter `offset` falls
        on (x, y); stepping `offset` times from it leads back to (x, y). */
    function FindStringStart(x: nat, y: nat, dx: int, dy: int, offset: nat): (r: Option<(nat, nat)>)
      ensures r.Some? <==> 0 <= x - offset * dx < width && 0 <= y - offset * dy < height
      ensures r.Some? ==> Step(Location(r.value.0, r.value.1, dx, dy), offset) == (x, y)
    {
      PositionWithOffset(Location(x, y, dx, dy), -(offset as int))
    }

    /** The placement tried for direction `d` and word index `i` around the
        anchor: it exists and passes the legality rule. */
    predicate Legal(g: seq<string>, anchor: (nat, nat), d: (int, int), i: nat, word: string)
    {
      var start := FindStringStart(anchor.0, anchor.1, d.0, d.1, i);
      start.Some? && CanInsert(g, |message|, Location(start.value.0, start.value.1, d.0, d.1), word)
    }

    /** Scans forward from (startX, startY) in row-major order, wrapping
        around, to the first blank cell. */
    method GetRandomEmptyCell(startX: nat, startY: nat) returns (x: nat, y: nat)
      requires Valid() && startX < width && startY < height && BlankCount(grid) > 0
      ensures x < width && y < height && grid[y][x] == Blank
      ensures NoBlankScanned(grid, width, height, startX, startY, x, y)
    {
      BlankExists(grid);
      ghost var blankY, blankX :| 0 <= blankY < height && 0 <= blankX < width && grid[blankY][blankX] == Blank;
      x, y := startX, startY;
      ghost var wrapped := false;
      while grid[y][x] != Blank
        invariant x < width && y < height
        invariant NoBlankScanned(grid, width, height, startX, startY, x, y)
        invariant wrapped <==> Before(x, y, startX, startY)
        decreases if wrapped then 0 else 1, height - y, width - x
      {
        ScanStep(grid, width, height, startX, startY, x, y, wrapped, blankX, blankY);
        ghost var n := NextCell(x, y, width, height);
        wrapped := wrapped || (x + 1 == width && y + 1 == height);
        x := x + 1;
        if x == width {
          x := 0;
          y := (y + 1) % height;
        }
        assert (x, y) == n;
      }
    }

    /** Whether `word` may be laid out from `loc`, by the legality rule. */
    method CanInsertWordAt(loc: Location, word: string) returns (ok: bool)
      requires Valid()
      ensures ok == CanInsert(grid, |message|, loc, word)
    {
      var newLetters := 0;
      for i := 0 to |word|
        invariant PathInBounds(grid, loc, i)
        invariant Agrees(grid, loc, word, i)
        invariant newLetters == NewLetters(grid, loc, i)
      {
        var position := PositionWithOffset(loc, i);
        if position.None? {
          return false;
        }
        var (x, y) := position.value;
        var gridChar := grid[y][x];
        if gridChar == Blank {
          newLetters := newLetters + 1;
          continue;
        }
        if gridChar != word[i] {
          return false;
        }
      }
      var empty := CountEmptyCells();
      if newLetters + |message| > empty {
        return false;
      }
      return true;
    }

    /** Writes the word along its path and records it. */
    method InsertWordAt(loc: Location, word: string)
      requires Valid() && PathInBounds(grid, loc, |word|)
      modifies this
      ensures Valid()
      ensures grid == Written(old(grid), loc, word, |word|)
      ensures words == old(words) + {word}
    {
      for i := 0 to |word|
        invariant Valid()
        invariant PathInBounds(old(grid), loc, |word|)
        invariant grid == Written(old(grid), loc, word, i) && words == old(words)
      {
        var (x, y) := PositionWithOffset(loc, i).value;
        grid := grid[y := grid[y][x := word[i]]];
      }
      words := words + {word};
    }

    /** Places `word` through the first blank cell found from
        (startX, startY): tries every direction (starting at
        `directionOffset`) and, within it, every letter of the word on that
        cell, and commits the first legal placement. The ghost results name
        the anchor cell and the attempt that succeeded. */
    method TryInsertWord(word: string, startX: nat, startY: nat, directionOffset: nat)
      returns (ok: bool, ghost anchor: (nat, nat), ghost k: nat, ghost i: nat)
      requires Valid() && startX < width && startY < height && BlankCount(grid) > 0
      requires directionOffset < |Directions|
      modifies this
      ensures Valid()
      ensures anchor.0 < width && anchor.1 < height && old(grid)[anchor.1][anchor.0] == Blank
      ensures NoBlankScanned(old(grid), width, height, startX, startY, anchor.0, anchor.1)
      ensures !ok ==> grid == old(grid) && words == old(words)
      ensures !ok ==> forall k', i' :: 0 <= k' < 8 && 0 <= i' < |word| ==>
        !Legal(old(grid), anchor, DirectionAt(directionOffset, k'), i', word)
      ensures ok ==> k < 8 && i < |word| && Legal(old(grid), anchor, DirectionAt(directionOffset, k), i, word)
      ensures ok ==> forall k', i' :: 0 <= k' < 8 && 0 <= i' < |word| && (k' < k || (k' == k && i' < i)) ==>
        !Legal(old(grid), anchor, DirectionAt(directionOffset, k'), i', word)
      ensures ok ==>
        var d := DirectionAt(directionOffset, k);
        var start := FindStringStart(anchor.0, anchor.1, d.0, d.1, i).value;
        var loc := Location(start.0, start.1, d.0, d.1);
        && PathInBounds(old(grid), loc, |word|)
        && grid == Written(old(grid), loc, word, |word|)
        && words == old(words) + {word}
      ensures ok ==> BlankCount(grid) >= |message|
      ensures ok && Blank !in word ==> BlankCount(grid) < old(BlankCount(grid))
    {
      var x, y := GetRandomEmptyCell(startX, startY);
      anchor := (x, y);
      k, i := 0, 0;
      var directions := new RandomDirectionIterator(directionOffset);
      while true
        invariant directions.offset == directionOffset && directions.index <= |Directions| == 8
        invariant grid == old(grid) && words == old(words)
        invariant NoLegalDirection(grid, anchor, directionOffset, directions.index, word)
        decreases 8 - directions.index
      {
        var next := directions.Next();
        if next.None? {
          break;
        }
        var (dx, dy) := next.value;
        ghost var kk := directions.index - 1;
        RotatedAt(Directions, directionOffset, kk);
        assert (dx, dy) == DirectionAt(directionOffset, kk);
        for wordIndex := 0 to |word|
          invariant grid == old(grid) && words == old(words)
          invariant NoLegalIndex(grid, anchor, (dx, dy), wordIndex, word)
          modifies this
        {
          var maybePosition := FindStringStart(x, y, dx, dy, wordIndex);
          if maybePosition.None? {
            NoLegalIndexStep(grid, anchor, (dx, dy), wordIndex, word);
            continue;
          }
          var (sx, sy) := maybePosition.value;
          var location := Location(sx, sy, dx, dy);
          var can := CanInsertWordAt(location, word);
          if can {
            ghost var before := grid;
            InsertWordAt(location, word);
            ok, k, i := true, kk, wordIndex;
            InsertionCount(before, location, word, wordIndex, directionOffset, kk);
            return;
          }
          NoLegalIndexStep(grid, anchor, (dx, dy), wordIndex, word);
        }
        NoLegalDirectionStep(grid, anchor, directionOffset, kk, word);
      }
      ok := false;
    }

    /** No attempt with direction `d` and a word index below `n` is legal. */
    predicate NoLegalIndex(g: seq<string>, anchor: (nat, nat), d: (int, int), n: nat, word: string)
    {
      forall i' :: 0 <= i' < n ==> !Legal(g, anchor, d, i', word)
    }

    lemma NoLegalIndexStep(g: seq<string>, anchor: (nat, nat), d: (int, int), n: nat, word: string)
      requires NoLegalIndex(g, anchor, d, n, word) && !Legal(g, anchor, d, n, word)
      ensures NoLegalIndex(g, anchor, d, n + 1, word)
    {
    }

    /** No attempt with one of the first `n` directions is legal. */
    predicate NoLegalDirection(g: seq<string>, anchor: (nat, nat), offset: nat, n: nat, word: string)
      requires offset < |Directions| && n <= |Directions|
    {
      forall k' :: 0 <= k' < n ==> NoLegalIndex(g, anchor, DirectionAt(offset, k'), |word|, word)
    }

    lemma NoLegalDirectionStep(g: seq<string>, anchor: (nat, nat), offset: nat, n: nat, word: string)
      requires offset < |Directions| && n < |Directions|
      requires NoLegalDirection(g, anchor, offset, n, word)
      requires NoLegalIndex(g, anchor, DirectionAt(offset, n), |word|, word)
      ensures NoLegalDirection(g, anchor, offset, n + 1, word)
    {
    }

    /** Blank-count facts about committing a legal placement whose letter
        `w` lands on a blank anchor. */
    lemma InsertionCount(g: seq<string>, loc: Location, word: string, w: nat, offset: nat, kk: nat)
      requires offset < |Directions| && kk < 8 && (loc.dx, loc.dy) == DirectionAt(offset, kk)
      requires CanInsert(g, |message|, loc, word) && w < |word|
      requires InGrid(g, Step(loc, w)) && At(g, Step(loc, w)) == Blank
      ensures BlankCount(Written(g, loc, word, |word|)) >= |message|
      ensures Blank !in word ==> BlankCount(Written(g, loc, word, |word|)) < BlankCount(g)
    {
      DirectionOrder(offset);
      WrittenCount(g, loc, word, |word|);
      FilledAtMostNewLetters(g, loc, word, |word|);
      if Blank !in word {
        FilledPositive(g, loc, word, |word|, w);
      }
    }

    /** The number of blank cells, counted by a row-major scan. */
    method CountEmptyCells() returns (n: nat)
      requires Valid()
      ensures n == BlankCount(grid)
    {
      n := 0;
      for y := 0 to height
        invariant n == BlankCount(grid[..y])
      {
        assert grid[..y + 1][..y] == grid[..y];
        for x := 0 to width
          invariant n == BlankCount(grid[..y]) + RowBlanks(grid[y][..x])
        {
          assert grid[y][..x + 1][..x] == grid[y][..x];
          if grid[y][x] == Blank {
            n := n + 1;
          }
        }
        assert grid[y][..width] == grid[y];
      }
      assert grid[..height] == grid;
    }

    /** The puzzle is complete when the blanks exactly fit the message. */
    method IsComplete() returns (b: bool)
      requires Valid()
      ensures b <==> BlankCount(grid) == |message|
    {
      var empty := CountEmptyCells();
      b := empty == |message|;
    }

    /** The rendered puzzle: the grid with its blanks filled by the message,
        a blank line, then the words in some enumeration order. */
    method GetPuzzleString() returns (s: string, ghost order: seq<string>)
      requires Valid() && BlankCount(grid) <= |message|
      ensures Enumerates(order, words)
      ensures s == Lines(Fill(grid, message)) + "\n" + Join(order, '\n')
    {
      s := "";
      var messageIndex := 0;
      var g := grid;
      for y := 0 to height
        invariant RowsFilled(g, message, y, s, messageIndex)
      {
        RowRoom(g, message, y, s, messageIndex);
        ghost var base := messageIndex;
        ghost var rest := message[base..];
        var row := g[y];
        var line := "";
        for x := 0 to width
          invariant base <= messageIndex
          invariant RowFilled(row, rest, x, line, messageIndex - base)
        {
          RowFilledStep(row, rest, x, line, messageIndex - base);
          var c := row[x];
          if c == Blank {
            line := line + [message[messageIndex]];
            messageIndex := messageIndex + 1;
          } else {
            line := line + [c];
          }
        }
        RowFilledDone(row, rest, line, messageIndex - base);
        RowsFilledStep(g, message, y, s, base, line);
        s := s + line + "\n";
      }
      RowsFilledDone(g, message, s, messageIndex);
      s := s + "\n";
      var ws := SetToSeq(words);
      s := s + Join(ws, '\n');
      order := ws;
    }

    method WordCount() returns (n: nat)
      ensures n == |words|
    {
      n := |words|;
    }
  }

  /** `s` renders the first `y` rows of `g` filled from `m`, which used
      the first `used` letters of `m`. */
  ghost predicate RowsFilled(g: seq<string>, m: string, y: nat, s: string, used: nat)
  {
    && y <= |g| && BlankCount(g) <= |m|
    && used == BlankCount(g[..y]) && used <= BlankCount(g)
    && s == Lines(Fill(g[..y], m))
  }

  /** The letters left after `y` rows are enough for row `y`. */
  lemma RowRoom(g: seq<string>, m: string, y: nat, s: string, used: nat)
    requires RowsFilled(g, m, y, s, used) && y < |g|
    ensures used + RowBlanks(g[y]) <= |m|
  {
    BlankCountPrefix(g, y + 1);
    assert g[..y + 1][..y] == g[..y];
  }

  /** Rendering row `y` appends that row, filled, and a newline. */
  lemma RowsFilledStep(g: seq<string>, m: string, y: nat, s: string, used: nat, line: string)
    requires RowsFilled(g, m, y, s, used) && y < |g|
    requires used + RowBlanks(g[y]) <= |m| && line == FillRow(g[y], m[used..])
    ensures RowsFilled(g, m, y + 1, s + line + "\n", used + RowBlanks(g[y]))
  {
    BlankCountPrefix(g, y + 1);
    assert g[..y + 1][..y] == g[..y];
    LinesAppend(Fill(g[..y], m), [line]);
  }

  /** With every row rendered, `s` renders the whole grid. */
  lemma RowsFilledDone(g: seq<string>, m: string, s: string, used: nat)
    requires RowsFilled(g, m, |g|, s, used)
    ensures s == Lines(Fill(g, m))
  {
    assert g[..|g|] == g;
  }
}

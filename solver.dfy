/** The solver: finds every word of a parsed puzzle, marking the cells of
    each word once it occurs at exactly one place, and reads the hidden
    message off the cells left unmarked. */
module Solver {
  import opened Wrappers
  import opened Collections
  import opened Puzzle

  type Cell = (nat, nat)

  // ---------------------------------------------------------------------
  // Stepping along a location

  /** One coordinate after `steps` steps of `delta`, unless it is negative. */
  function PositionWithOffset(start: nat, delta: int, steps: nat): Option<nat>
  {
    var position := start + steps * delta;
    if position < 0 then None else Some(position)
  }

  /** Step `step` of `loc`, unless a coordinate is negative. */
  function LocationStep(loc: Location, step: nat): (r: Option<Cell>)
    ensures r.Some? <==> Step(loc, step).0 >= 0 && Step(loc, step).1 >= 0
    ensures r.Some? ==> (r.value.0 as int, r.value.1 as int) == Step(loc, step)
  {
    match (PositionWithOffset(loc.x, loc.dx, step), PositionWithOffset(loc.y, loc.dy, step))
    case (Some(x), Some(y)) => Some((x, y))
    case _ => None
  }

  /** The cells with non-negative coordinates among the first `len` steps. */
  function StepCells(loc: Location, len: nat): set<Cell>
  {
    set k | 0 <= k < len && LocationStep(loc, k).Some? :: LocationStep(loc, k).value
  }

  /** Adds the cells of the first `len` steps to `marked`. */
  method MarkLocation(loc: Location, len: nat, marked: set<Cell>) returns (newMarked: set<Cell>)
    ensures newMarked == marked + StepCells(loc, len)
  {
    newMarked := marked;
    for offset := 0 to len
      invariant newMarked == marked + StepCells(loc, offset)
    {
      var step := LocationStep(loc, offset);
      if step.Some? {
        newMarked := newMarked + {step.value};
      }
      assert StepCells(loc, offset + 1) == StepCells(loc, offset) + (if step.Some? then {step.value} else {});
    }
  }

  predicate InPuzzle(p: Puzzle, c: Cell)
  {
    c.0 < p.width && c.1 < p.height
  }

  /** The cells of the first `len` steps of a location lying wholly in the
      grid are all grid cells. */
  lemma StepCellsInPuzzle(p: Puzzle, loc: Location, len: nat)
    requires AllInPuzzle(p, loc, len)
    ensures forall c :: c in StepCells(loc, len) ==> InPuzzle(p, c)
  {
  }

  // ---------------------------------------------------------------------
  // Reading a candidate word

  /** The state of `get_valid_word` after some steps: how many cells not yet
      marked it met, the letters read, and whether it left the grid. */
  datatype Scan = Scan(unmarked: nat, buffer: string, stopped: bool)

  /** The scan after the first `n` steps: a step with a negative coordinate
      is skipped, a step past the right or bottom edge counts as unmarked
      and stops the scan, any other step reads its letter. */
  function ScanState(p: Puzzle, loc: Location, n: nat, marked: set<Cell>): Scan
    requires WellFormed(p)
  {
    if n == 0 then Scan(0, "", false)
    else
      var s := ScanState(p, loc, n - 1, marked);
      if s.stopped then s
      else match LocationStep(loc, n - 1)
        case None => s
        case Some(c) =>
          var u := s.unmarked + (if c in marked then 0 else 1);
          match Get(p, c.0, c.1)
          case None => Scan(u, s.buffer, true)
          case Some(ch) => Scan(u, s.buffer + [ch], false)
  }

  /** The word read along `loc` for `len` steps, unless every cell met is
      already marked. */
  function ValidWord(p: Puzzle, loc: Location, len: nat, marked: set<Cell>): Option<string>
    requires WellFormed(p)
  {
    var s := ScanState(p, loc, len, marked);
    if s.unmarked == 0 then None else Some(s.buffer)
  }

  /** All of the first `n` steps are cells of the grid. */
  predicate AllInPuzzle(p: Puzzle, loc: Location, n: nat)
  {
    forall k :: 0 <= k < n ==> LocationStep(loc, k).Some? && InPuzzle(p, LocationStep(loc, k).value)
  }

  /** `word` lies along `loc` in the grid and crosses at least one cell not
      yet marked. */
  predicate Occurs(p: Puzzle, word: string, marked: set<Cell>, loc: Location)
    requires WellFormed(p)
  {
    && AllInPuzzle(p, loc, |word|)
    && (forall k :: 0 <= k < |word| ==>
          p.grid[LocationStep(loc, k).value.1][LocationStep(loc, k).value.0] == word[k])
    && (exists k :: 0 <= k < |word| && LocationStep(loc, k).value !in marked)
  }

  /** What a scan reads: fewer letters than steps unless every step is in
      the grid; then exactly the letters along the path, and a positive
      unmarked count exactly when some step is unmarked. */
  lemma {:induction false} ScanFacts(p: Puzzle, loc: Location, n: nat, marked: set<Cell>)
    requires WellFormed(p)
    ensures |ScanState(p, loc, n, marked).buffer| <= n
    ensures !AllInPuzzle(p, loc, n) ==> |ScanState(p, loc, n, marked).buffer| < n
    ensures AllInPuzzle(p, loc, n) ==>
      var s := ScanState(p, loc, n, marked);
      && !s.stopped
      && |s.buffer| == n
      && (forall k :: 0 <= k < n ==> s.buffer[k] == p.grid[LocationStep(loc, k).value.1][LocationStep(loc, k).value.0])
      && (s.unmarked > 0 <==> exists k :: 0 <= k < n && LocationStep(loc, k).value !in marked)
  {
    if n > 0 {
      ScanFacts(p, loc, n - 1, marked);
      var s := ScanState(p, loc, n - 1, marked);
      if AllInPuzzle(p, loc, n) {
        assert AllInPuzzle(p, loc, n - 1);
        var c := LocationStep(loc, n - 1).value;
        var t := ScanState(p, loc, n, marked);
        assert t.buffer == s.buffer + [p.grid[c.1][c.0]];
        if t.unmarked > 0 && c in marked {
          var k :| 0 <= k < n - 1 && LocationStep(loc, k).value !in marked;
        }
      } else if AllInPuzzle(p, loc, n - 1) {
        assert !(LocationStep(loc, n - 1).Some? && InPuzzle(p, LocationStep(loc, n - 1).value));
      }
    }
  }

  /** The reading along `loc` is `word` exactly when `word` occurs there. */
  lemma ValidWordMatches(p: Puzzle, word: string, marked: set<Cell>, loc: Location)
    requires WellFormed(p)
    ensures ValidWord(p, loc, |word|, marked) == Some(word) <==> Occurs(p, word, marked, loc)
  {
    ScanFacts(p, loc, |word|, marked);
    var s := ScanState(p, loc, |word|, marked);
    if Occurs(p, word, marked, loc) {
      assert s.buffer == word;
    }
  }

  /** The scan never changes once it has stopped. */
  lemma {:induction false} StoppedScan(p: Puzzle, loc: Location, n: nat, m: nat, marked: set<Cell>)
    requires WellFormed(p) && n <= m && ScanState(p, loc, n, marked).stopped
    ensures ScanState(p, loc, m, marked) == ScanState(p, loc, n, marked)
  {
    if n < m {
      StoppedScan(p, loc, n, m - 1, marked);
    }
  }

  /** `get_valid_word`: the scan loop, leaving at the first step past the
      grid. */
  method GetValidWord(p: Puzzle, loc: Location, len: nat, marked: set<Cell>) returns (r: Option<string>)
    requires WellFormed(p)
    ensures r == ValidWord(p, loc, len, marked)
  {
    var unmarkedLetters := 0;
    var buffer := "";
    var offset := 0;
    ghost var stopped := false;
    while offset < len
      invariant offset <= len
      invariant Scan(unmarkedLetters, buffer, stopped) == ScanState(p, loc, offset, marked)
      invariant !stopped
    {
      var step := LocationStep(loc, offset);
      if step.Some? {
        var (x, y) := step.value;
        if (x, y) !in marked {
          unmarkedLetters := unmarkedLetters + 1;
        }
        var c := Get(p, x, y);
        if c.None? {
          StoppedScan(p, loc, offset + 1, len, marked);
          stopped := true;
          break;
        }
        buffer := buffer + [c.value];
      }
      offset := offset + 1;
    }
    if unmarkedLetters == 0 {
      r := None;
    } else {
      r := Some(buffer);
    }
  }

  // ---------------------------------------------------------------------
  // Searching a word

  /** A word's candidate locations: the grid cells and directions along
      which it occurs. */
  function Candidates(p: Puzzle, word: string, marked: set<Cell>): set<Location>
    requires WellFormed(p)
  {
    set x: nat, y: nat, dx: int, dy: int |
      && x < p.width && y < p.height && -1 <= dx <= 1 && -1 <= dy <= 1
      && (dx, dy) in Directions
      && ValidWord(p, Location(x, y, dx, dy), |word|, marked) == Some(word)
      :: Location(x, y, dx, dy)
  }

  lemma CandidateMember(p: Puzzle, word: string, marked: set<Cell>, l: Location)
    requires WellFormed(p)
    ensures l in Candidates(p, word, marked) <==>
      && l.x < p.width && l.y < p.height && (l.dx, l.dy) in Directions
      && ValidWord(p, l, |word|, marked) == Some(word)
  {
    if (l.dx, l.dy) in Directions {
      assert -1 <= l.dx <= 1 && -1 <= l.dy <= 1 by {
        DirectionsAreTheEightNeighbours();
      }
    }
  }

  /** The cells holding each character. */
  function LetterCells(p: Puzzle, c: char): set<Cell>
    requires WellFormed(p)
  {
    set x: nat, y: nat | x < p.width && y < p.height && p.grid[y][x] == c :: (x, y)
  }

  /** `m` maps exactly the characters of the grid to the cells holding them. */
  predicate IsLetterMap(p: Puzzle, m: map<char, set<Cell>>)
    requires WellFormed(p)
  {
    && (forall c :: c in m <==> LetterCells(p, c) != {})
    && (forall c :: c in m ==> m[c] == LetterCells(p, c))
  }

  /** The cells with character `c` met by a column-major scan before
      column `i`, row `j`. */
  function SeenCells(p: Puzzle, c: char, i: nat, j: nat): set<Cell>
    requires WellFormed(p)
  {
    set x: nat, y: nat | x < p.width && y < p.height && (x < i || (x == i && y < j)) && p.grid[y][x] == c
      :: (x, y)
  }

  lemma SeenStep(p: Puzzle, c: char, i: nat, j: nat)
    requires WellFormed(p) && i < p.width && j < p.height
    ensures SeenCells(p, c, i, j + 1) == SeenCells(p, c, i, j) + (if p.grid[j][i] == c then {(i, j)} else {})
  {
    var a := SeenCells(p, c, i, j + 1);
    var b := SeenCells(p, c, i, j) + (if p.grid[j][i] == c then {(i, j)} else {});
    forall cell | cell in a ensures cell in b {
    }
    forall cell | cell in b ensures cell in a {
    }
  }

  lemma SeenColumn(p: Puzzle, c: char, i: nat)
    requires WellFormed(p) && i < p.width
    ensures SeenCells(p, c, i, p.height) == SeenCells(p, c, i + 1, 0)
  {
    var a := SeenCells(p, c, i, p.height);
    var b := SeenCells(p, c, i + 1, 0);
    forall cell | cell in a ensures cell in b {
    }
    forall cell | cell in b ensures cell in a {
    }
  }

  lemma SeenAll(p: Puzzle, c: char)
    requires WellFormed(p)
    ensures SeenCells(p, c, p.width, 0) == LetterCells(p, c)
  {
    var a := SeenCells(p, c, p.width, 0);
    var b := LetterCells(p, c);
    forall cell | cell in a ensures cell in b {
    }
    forall cell | cell in b ensures cell in a {
    }
  }

  /** `m` maps exactly the characters met before column `i`, row `j` to
      the cells holding them. */
  predicate MapsSeen(p: Puzzle, m: map<char, set<Cell>>, i: nat, j: nat)
    requires WellFormed(p)
  {
    && (forall c :: c in m <==> SeenCells(p, c, i, j) != {})
    && (forall c :: c in m ==> m[c] == SeenCells(p, c, i, j))
  }

  lemma MapsSeenStep(p: Puzzle, m: map<char, set<Cell>>, i: nat, j: nat)
    requires WellFormed(p) && i < p.width && j < p.height && MapsSeen(p, m, i, j)
    ensures var c := p.grid[j][i];
      MapsSeen(p, m[c := (if c in m then m[c] else {}) + {(i, j)}], i, j + 1)
  {
    var c := p.grid[j][i];
    var m' := m[c := (if c in m then m[c] else {}) + {(i, j)}];
    forall d ensures SeenCells(p, d, i, j + 1) == SeenCells(p, d, i, j) + (if d == c then {(i, j)} else {}) {
      SeenStep(p, d, i, j);
    }
    forall d ensures d in m' <==> SeenCells(p, d, i, j + 1) != {} {
      if d == c {
        assert (i, j) in SeenCells(p, d, i, j + 1);
      }
    }
    forall d | d in m' ensures m'[d] == SeenCells(p, d, i, j + 1) {
      if d == c && c !in m {
        assert SeenCells(p, c, i, j) == {};
      }
    }
  }

  lemma MapsSeenColumn(p: Puzzle, m: map<char, set<Cell>>, i: nat)
    requires WellFormed(p) && i < p.width && MapsSeen(p, m, i, p.height)
    ensures MapsSeen(p, m, i + 1, 0)
  {
    forall d ensures SeenCells(p, d, i, p.height) == SeenCells(p, d, i + 1, 0) {
      SeenColumn(p, d, i);
    }
  }

  lemma MapsSeenAll(p: Puzzle, m: map<char, set<Cell>>)
    requires WellFormed(p) && MapsSeen(p, m, p.width, 0)
    ensures IsLetterMap(p, m)
  {
    forall d ensures SeenCells(p, d, p.width, 0) == LetterCells(p, d) {
      SeenAll(p, d);
    }
  }

  /** Records every character of the grid with the cells holding it,
      scanning column by column. */
  method CreateLetterMap(p: Puzzle) returns (letterMap: map<char, set<Cell>>)
    requires WellFormed(p)
    ensures IsLetterMap(p, letterMap)
  {
    letterMap := map[];
    for i := 0 to p.width
      invariant MapsSeen(p, letterMap, i, 0)
    {
      for j := 0 to p.height
        invariant MapsSeen(p, letterMap, i, j)
      {
        MapsSeenStep(p, letterMap, i, j);
        var c := Get(p, i, j).value;
        if c !in letterMap {
          letterMap := letterMap[c := {}];
        }
        letterMap := letterMap[c := letterMap[c] + {(i, j)}];
      }
      MapsSeenColumn(p, letterMap, i);
    }
    MapsSeenAll(p, letterMap);
  }

  /** A reading equal to a non-empty word starts on a cell holding its first
      letter. */
  lemma MatchStart(p: Puzzle, word: string, marked: set<Cell>, l: Location)
    requires WellFormed(p) && word != [] && ValidWord(p, l, |word|, marked) == Some(word)
    ensures l.x < p.width && l.y < p.height && p.grid[l.y][l.x] == word[0]
  {
    ValidWordMatches(p, word, marked, l);
    assert LocationStep(l, 0) == Some((l.x, l.y));
  }

  /** `search_and_mark`: collects every location, starting on a cell with
      the word's first letter and going in any direction, along which the
      word occurs; when there is exactly one, marks its cells. */
  method SearchAndMark(p: Puzzle, word: string, marked: set<Cell>, letterMap: map<char, set<Cell>>)
    returns (found: bool, newMarked: set<Cell>, ghost loc: Location)
    requires WellFormed(p) && IsLetterMap(p, letterMap) && word != [] && word[0] in letterMap
    ensures found <==> |Candidates(p, word, marked)| == 1
    ensures found ==> Candidates(p, word, marked) == {loc} && newMarked == marked + StepCells(loc, |word|)
    ensures !found ==> newMarked == marked
  {
    var locations: seq<Location> := [];
    var starts := letterMap[word[0]];
    assert starts == LetterCells(p, word[0]);
    var todo := starts;
    while todo != {}
      invariant todo <= starts
      invariant Scanned(p, word, marked, starts - todo, {}, 0, locations)
      decreases |todo|
    {
      var cell :| cell in todo;
      ghost var visited := starts - todo;
      for j := 0 to |Directions|
        invariant Scanned(p, word, marked, visited, {cell}, j, locations)
      {
        var (dx, dy) := Directions[j];
        var location := Location(cell.0, cell.1, dx, dy);
        var w := GetValidWord(p, location, |word|, marked);
        FoundStep(p, word, marked, visited, cell, j, locations);
        if w.Some? && w.value == word {
          locations := locations + [location];
        }
      }
      FoundCell(p, word, marked, starts, todo, cell, locations);
      todo := todo - {cell};
    }
    assert starts - todo == starts;
    FoundAll(p, word, marked, starts, locations);
    if |locations| != 1 {
      return false, marked, Location(0, 0, 0, 0);
    }
    newMarked := MarkLocation(locations[0], |word|, marked);
    found, loc := true, locations[0];
  }

  /** `l` is a match found so far: one starting on a visited cell, or on a
      cell of `current` with one of the first `j` directions. */
  predicate Found(p: Puzzle, word: string, marked: set<Cell>, visited: set<Cell>, current: set<Cell>, j: nat,
                  l: Location)
    requires WellFormed(p) && j <= |Directions|
  {
    && (l.dx, l.dy) in Directions
    && ((l.x, l.y) in visited || ((l.x, l.y) in current && (l.dx, l.dy) in Directions[..j]))
    && ValidWord(p, l, |word|, marked) == Some(word)
  }

  /** `locations` lists, without repetition, exactly the matches found so far. */
  ghost predicate Scanned(p: Puzzle, word: string, marked: set<Cell>, visited: set<Cell>, current: set<Cell>, j: nat,
                    locations: seq<Location>)
    requires WellFormed(p) && j <= |Directions|
  {
    && Distinct(locations)
    && forall l :: l in locations <==> Found(p, word, marked, visited, current, j, l)
  }

  /** Trying direction `j` from `cell` adds its location exactly when the
      word is read there. */
  lemma FoundStep(p: Puzzle, word: string, marked: set<Cell>, visited: set<Cell>, cell: Cell, j: nat,
                  locations: seq<Location>)
    requires WellFormed(p) && j < |Directions| && cell !in visited
    requires Scanned(p, word, marked, visited, {cell}, j, locations)
    ensures var l := Location(cell.0, cell.1, Directions[j].0, Directions[j].1);
      Scanned(p, word, marked, visited, {cell}, j + 1,
              if ValidWord(p, l, |word|, marked) == Some(word) then locations + [l] else locations)
  {
    assert Distinct(Directions) by {
      DirectionsAreTheEightNeighbours();
    }
    var l := Location(cell.0, cell.1, Directions[j].0, Directions[j].1);
    assert Directions[..j + 1] == Directions[..j] + [Directions[j]];
    assert Directions[j] !in Directions[..j];
    assert !Found(p, word, marked, visited, {cell}, j, l);
  }

  /** Once every direction from `cell` is tried, `cell` counts as visited. */
  lemma FoundCell(p: Puzzle, word: string, marked: set<Cell>, starts: set<Cell>, todo: set<Cell>, cell: Cell,
                  locations: seq<Location>)
    requires WellFormed(p) && cell in todo && todo <= starts
    requires Scanned(p, word, marked, starts - todo, {cell}, |Directions|, locations)
    ensures todo - {cell} <= starts && |todo - {cell}| < |todo|
    ensures Scanned(p, word, marked, starts - (todo - {cell}), {}, 0, locations)
  {
    var visited := starts - todo;
    assert starts - (todo - {cell}) == visited + {cell};
    assert Directions[..|Directions|] == Directions;
    forall l ensures Found(p, word, marked, visited, {cell}, |Directions|, l) <==> Found(p, word, marked, visited + {cell}, {}, 0, l) {
    }
  }

  /** With every cell holding the word's first letter visited, the matches
      found are exactly the word's candidates. */
  lemma FoundAll(p: Puzzle, word: string, marked: set<Cell>, visited: set<Cell>, locations: seq<Location>)
    requires WellFormed(p) && word != []
    requires visited == LetterCells(p, word[0]) && Scanned(p, word, marked, visited, {}, 0, locations)
    ensures Enumerates(locations, Candidates(p, word, marked))
    ensures |locations| == |Candidates(p, word, marked)|
    ensures |locations| == 1 ==> Candidates(p, word, marked) == {locations[0]}
  {
    var cs := Candidates(p, word, marked);
    forall l | l in cs ensures l in locations {
      CandidateMember(p, word, marked, l);
      MatchStart(p, word, marked, l);
      assert (l.x, l.y) in LetterCells(p, word[0]);
    }
    forall i | 0 <= i < |locations| ensures locations[i] in cs {
      var l := locations[i];
      assert Found(p, word, marked, visited, {}, 0, l);
      CandidateMember(p, word, marked, l);
      MatchStart(p, word, marked, l);
    }
    EnumeratesCard(locations, cs);
    if |locations| == 1 {
      EnumeratesSingleton(locations, cs);
    }
  }

  // ---------------------------------------------------------------------
  // Solving

  /** Resolving the words `ws` in this order, starting with the cells
      `start` marked: each must have exactly one candidate when its turn
      comes, and its cells are then marked. `None` when some word has none or
      several. */
  ghost function Replay(p: Puzzle, start: set<Cell>, ws: seq<string>): Option<set<Cell>>
    requires WellFormed(p)
  {
    if ws == [] then Some(start)
    else match Replay(p, start, ws[..|ws| - 1])
      case None => None
      case Some(marked) => Resolve(p, marked, ws[|ws| - 1])
  }

  /** Resolving one word with the cells `marked`: it must have exactly one
      candidate, whose cells are then marked. */
  ghost function Resolve(p: Puzzle, marked: set<Cell>, w: string): Option<set<Cell>>
    requires WellFormed(p)
  {
    var cs := Candidates(p, w, marked);
    if |cs| != 1 then None
    else
      var loc :| loc in cs;
      Some(marked + StepCells(loc, |w|))
  }

  /** Replaying one more word that is found marks that word's cells. */
  lemma ReplaySnoc(p: Puzzle, start: set<Cell>, ws: seq<string>, w: string, marked: set<Cell>, loc: Location)
    requires WellFormed(p) && Replay(p, start, ws) == Some(marked) && Candidates(p, w, marked) == {loc}
    ensures Replay(p, start, ws + [w]) == Some(marked + StepCells(loc, |w|))
  {
    assert (ws + [w])[..|ws|] == ws;
  }

  /** Replaying `a` and then `b` is replaying `a + b`. */
  lemma {:induction false} ReplayAppend(p: Puzzle, start: set<Cell>, a: seq<string>, b: seq<string>, mid: set<Cell>)
    requires WellFormed(p) && Replay(p, start, a) == Some(mid)
    ensures Replay(p, start, a + b) == Replay(p, mid, b)
  {
    if b == [] {
      assert a + b == a;
    } else {
      var n := |b| - 1;
      ReplayAppend(p, start, a, b[..n], mid);
      SnocSplit(a, b);
      ReplayUnfold(p, start, a + b, a + b[..n], b[n]);
      ReplayUnfold(p, mid, b, b[..n], b[n]);
    }
  }

  lemma SnocSplit(a: seq<string>, b: seq<string>)
    requires b != []
    ensures a + b == (a + b[..|b| - 1]) + [b[|b| - 1]]
    ensures b == b[..|b| - 1] + [b[|b| - 1]]
  {
  }

  /** Replaying `init + [w]` resolves `w` after replaying `init`. */
  lemma ReplayUnfold(p: Puzzle, start: set<Cell>, ws: seq<string>, init: seq<string>, w: string)
    requires WellFormed(p) && ws == init + [w]
    ensures Replay(p, start, ws) == match Replay(p, start, init)
      case None => None
      case Some(marked) => Resolve(p, marked, w)
  {
    assert ws[..|ws| - 1] == init;
  }

  /** Replaying only adds cells, and every cell it adds lies in the grid:
      a word read along a location has all its steps in the grid. */
  lemma {:induction false} ReplayInPuzzle(p: Puzzle, start: set<Cell>, ws: seq<string>, marked: set<Cell>)
    requires WellFormed(p) && Replay(p, start, ws) == Some(marked)
    ensures start <= marked
    ensures forall c :: c in marked && c !in start ==> InPuzzle(p, c)
  {
    if ws != [] {
      var n := |ws| - 1;
      var w := ws[n];
      var prev := Replay(p, start, ws[..n]).value;
      ReplayInPuzzle(p, start, ws[..n], prev);
      var cs := Candidates(p, w, prev);
      var l :| l in cs;
      assert cs == {l} by {
        assert |cs - {l}| == 0;
      }
      assert Replay(p, start, ws) == Resolve(p, prev, w);
      assert marked == prev + StepCells(l, |w|);
      CandidateMember(p, w, prev, l);
      ValidWordMatches(p, w, prev, l);
      StepCellsInPuzzle(p, l, |w|);
    }
  }

  /** The cells marked after resolving `a` stay marked after resolving
      more words. */
  lemma ReplayGrows(p: Puzzle, a: seq<string>, b: seq<string>, m1: set<Cell>, m2: set<Cell>)
    requires WellFormed(p) && Replay(p, {}, a) == Some(m1) && Replay(p, {}, a + b) == Some(m2)
    ensures m1 <= m2
  {
    ReplayAppend(p, {}, a, b, m1);
    ReplayInPuzzle(p, m1, b, m2);
  }

  /** The letters of row `y` in columns before `n` whose cell is not marked. */
  function RowUnmarked(row: string, y: nat, n: nat, marked: set<Cell>): string
    requires n <= |row|
  {
    if n == 0 then ""
    else RowUnmarked(row, y, n - 1, marked) + (if (n - 1, y) in marked then "" else [row[n - 1]])
  }

  /** The unmarked letters of the first `h` rows, in row-major order. */
  function UnmarkedRows(p: Puzzle, marked: set<Cell>, h: nat): string
    requires WellFormed(p) && h <= p.height
  {
    if h == 0 then ""
    else UnmarkedRows(p, marked, h - 1) + RowUnmarked(p.grid[h - 1], h - 1, p.width, marked)
  }

  /** The letters of the unmarked cells, in row-major order. */
  function Unmarked(p: Puzzle, marked: set<Cell>): string
    requires WellFormed(p)
  {
    UnmarkedRows(p, marked, p.height)
  }

  /** The marked cells of row `y` in columns before `n`. */
  function MarkedInRow(marked: set<Cell>, y: nat, n: nat): set<Cell>
  {
    set c | c in marked && c.1 == y && c.0 < n
  }

  /** The marked cells of the first `h` rows. */
  function MarkedInRows(marked: set<Cell>, h: nat): set<Cell>
  {
    set c | c in marked && c.1 < h
  }

  lemma {:induction false} RowUnmarkedLength(row: string, y: nat, n: nat, marked: set<Cell>)
    requires n <= |row|
    ensures |RowUnmarked(row, y, n, marked)| + |MarkedInRow(marked, y, n)| == n
  {
    if n > 0 {
      RowUnmarkedLength(row, y, n - 1, marked);
      var a := MarkedInRow(marked, y, n - 1);
      if (n - 1, y) in marked {
        assert MarkedInRow(marked, y, n) == a + {(n - 1, y)};
      } else {
        assert MarkedInRow(marked, y, n) == a;
      }
    }
  }

  lemma {:induction false} UnmarkedRowsLength(p: Puzzle, marked: set<Cell>, h: nat)
    requires WellFormed(p) && h <= p.height
    requires forall c :: c in marked ==> InPuzzle(p, c)
    ensures |UnmarkedRows(p, marked, h)| + |MarkedInRows(marked, h)| == p.width * h
  {
    if h > 0 {
      UnmarkedRowsLength(p, marked, h - 1);
      RowUnmarkedLength(p.grid[h - 1], h - 1, p.width, marked);
      var before := MarkedInRows(marked, h - 1);
      var row := MarkedInRow(marked, h - 1, p.width);
      assert MarkedInRows(marked, h) == before + row;
      assert before !! row;
      assert p.width * h == p.width * (h - 1) + p.width;
    }
  }

  /** Every grid cell is either marked or collected: with the marked cells
      inside the grid, the collected letters number `width * height` minus
      the marked cells. */
  lemma UnmarkedLength(p: Puzzle, marked: set<Cell>)
    requires WellFormed(p) && forall c :: c in marked ==> InPuzzle(p, c)
    ensures |Unmarked(p, marked)| + |marked| == p.width * p.height
  {
    UnmarkedRowsLength(p, marked, p.height);
    assert MarkedInRows(marked, p.height) == marked;
  }

  /** The first `h` rows, each cut to `width` letters, one after another. */
  function GridText(p: Puzzle, h: nat): string
    requires WellFormed(p) && h <= p.height
  {
    if h == 0 then "" else GridText(p, h - 1) + p.grid[h - 1][..p.width]
  }

  lemma {:induction false} RowUnmarkedNothing(row: string, y: nat, n: nat)
    requires n <= |row|
    ensures RowUnmarked(row, y, n, {}) == row[..n]
  {
    if n > 0 {
      RowUnmarkedNothing(row, y, n - 1);
      assert row[..n] == row[..n - 1] + [row[n - 1]];
    }
  }

  lemma {:induction false} UnmarkedRowsNothing(p: Puzzle, h: nat)
    requires WellFormed(p) && h <= p.height
    ensures UnmarkedRows(p, {}, h) == GridText(p, h)
  {
    if h > 0 {
      UnmarkedRowsNothing(p, h - 1);
      RowUnmarkedNothing(p.grid[h - 1], h - 1, p.width);
    }
  }

  /** With nothing marked, the whole grid is collected row by row. */
  lemma UnmarkedNothing(p: Puzzle)
    requires WellFormed(p)
    ensures Unmarked(p, {}) == GridText(p, p.height)
  {
    UnmarkedRowsNothing(p, p.height);
  }

  /** `collect_unmarked`: a row-major scan keeping the unmarked letters. */
  method CollectUnmarked(p: Puzzle, marked: set<Cell>) returns (s: string)
    requires WellFormed(p)
    ensures s == Unmarked(p, marked)
  {
    s := "";
    for j := 0 to p.height
      invariant s == UnmarkedRows(p, marked, j)
    {
      ghost var before := s;
      for i := 0 to p.width
        invariant s == before + RowUnmarked(p.grid[j], j, i, marked)
      {
        var c := Get(p, i, j).value;
        if (i, j) !in marked {
          s := s + [c];
        }
      }
    }
  }

  /** `HashSet::retain` with the predicate "not found by
      `search_and_mark`": tries every word of `pending` once, in some order,
      against the cells marked so far, keeping the words not found. The
      ghost result lists the words found, in the order they were found. */
  method Retain(p: Puzzle, pending: set<string>, marked: set<Cell>, letterMap: map<char, set<Cell>>)
    returns (kept: set<string>, newMarked: set<Cell>, ghost found: seq<string>)
    requires WellFormed(p) && IsLetterMap(p, letterMap)
    requires forall w :: w in pending ==> w != [] && w[0] in letterMap
    ensures Retained(p, pending, marked, kept, newMarked, found)
  {
    var todo := pending;
    kept := {};
    newMarked := marked;
    found := [];
    while todo != {}
      invariant Pass(p, pending, marked, todo, kept, found, newMarked)
      decreases |todo|
    {
      var w :| w in todo;
      var ok, next, loc := SearchAndMark(p, w, newMarked, letterMap);
      if ok {
        PassFound(p, pending, marked, todo, kept, found, newMarked, w, loc);
        found := found + [w];
        newMarked := next;
      } else {
        PassKept(p, pending, marked, todo, kept, found, newMarked, w);
        kept := kept + {w};
      }
      todo := todo - {w};
    }
    PassDone(p, pending, marked, kept, found, newMarked);
  }

  /** The outcome of a `retain` pass over `pending` that started from the
      cells `marked`: the words kept are among `pending`, `found` lists the
      others in the order they were found, and replaying them gives the
      cells marked at the end. A pass that keeps every word has marked
      nothing, and none of its words had a single candidate. */
  ghost predicate Retained(p: Puzzle, pending: set<string>, marked: set<Cell>, kept: set<string>,
                           newMarked: set<Cell>, found: seq<string>)
  {
    && WellFormed(p)
    && kept <= pending && |kept| <= |pending| && Enumerates(found, pending - kept)
    && Replay(p, marked, found) == Some(newMarked)
    && (|kept| == |pending| ==>
          newMarked == marked && forall w :: w in kept ==> |Candidates(p, w, marked)| != 1)
  }

  /** The state of a `retain` pass over `pending` that started from the
      cells `marked`: the words still to try and those kept are disjoint
      parts of `pending`, `found` lists the rest in the order they were
      found, and replaying them gives the cells marked now. While nothing
      has been found, no word kept so far had a single candidate. */
  ghost predicate Pass(p: Puzzle, pending: set<string>, marked: set<Cell>, todo: set<string>,
                       kept: set<string>, found: seq<string>, now: set<Cell>)
  {
    && WellFormed(p)
    && todo <= pending && kept <= pending && todo !! kept
    && Enumerates(found, pending - todo - kept)
    && Replay(p, marked, found) == Some(now)
    && (found == [] ==> now == marked && forall w :: w in kept ==> |Candidates(p, w, marked)| != 1)
  }

  /** A word found during a pass moves from the words to try to the words found. */
  lemma PassFound(p: Puzzle, pending: set<string>, marked: set<Cell>, todo: set<string>, kept: set<string>,
                  found: seq<string>, now: set<Cell>, w: string, loc: Location)
    requires Pass(p, pending, marked, todo, kept, found, now)
    requires w in todo && Candidates(p, w, now) == {loc}
    ensures Pass(p, pending, marked, todo - {w}, kept, found + [w], now + StepCells(loc, |w|))
  {
    ReplaySnoc(p, marked, found, w, now, loc);
    EnumeratesSnoc(found, pending - todo - kept, w);
    assert (pending - todo - kept) + {w} == pending - (todo - {w}) - kept;
  }

  /** A word not found during a pass moves from the words to try to the words kept. */
  lemma PassKept(p: Puzzle, pending: set<string>, marked: set<Cell>, todo: set<string>, kept: set<string>,
                 found: seq<string>, now: set<Cell>, w: string)
    requires Pass(p, pending, marked, todo, kept, found, now)
    requires w in todo && |Candidates(p, w, now)| != 1
    ensures Pass(p, pending, marked, todo - {w}, kept + {w}, found, now)
  {
    assert pending - todo - kept == pending - (todo - {w}) - (kept + {w});
  }

  /** At the end of a pass the words found are the words not kept, and a
      pass that keeps every word has found nothing. */
  lemma PassDone(p: Puzzle, pending: set<string>, marked: set<Cell>, kept: set<string>,
                 found: seq<string>, now: set<Cell>)
    requires Pass(p, pending, marked, {}, kept, found, now)
    ensures Retained(p, pending, marked, kept, now, found)
  {
    assert pending - {} - kept == pending - kept;
    assert |pending| == |kept| + |pending - kept| by {
      assert pending == kept + (pending - kept);
    }
    if |kept| == |pending| {
      assert pending - kept == {};
    }
  }

  /** The state between two passes of `solve`: the words still to find are
      puzzle words, `resolved` lists the others in the order they were
      found, and replaying them gives the cells marked now. When the last
      pass kept every word (`last` is the number of words before it), none
      of them has a single candidate. */
  ghost predicate Progress(p: Puzzle, toFind: set<string>, resolved: seq<string>, marked: set<Cell>, last: nat)
  {
    && WellFormed(p)
    && toFind <= p.words
    && Enumerates(resolved, p.words - toFind)
    && Replay(p, {}, resolved) == Some(marked)
    && (|toFind| == last ==> forall w :: w in toFind ==> |Candidates(p, w, marked)| != 1)
  }

  /** One pass of `retain` moves the words it found from those to find to
      those resolved. */
  lemma ProgressStep(p: Puzzle, toFind: set<string>, resolved: seq<string>, marked: set<Cell>, last: nat,
                     kept: set<string>, newMarked: set<Cell>, found: seq<string>)
    requires Progress(p, toFind, resolved, marked, last)
    requires Retained(p, toFind, marked, kept, newMarked, found)
    ensures Progress(p, kept, resolved + found, newMarked, |toFind|)
  {
    ReplayAppend(p, {}, resolved, found, marked);
    EnumeratesConcat(resolved, p.words - toFind, found, toFind - kept);
    assert (p.words - toFind) + (toFind - kept) == p.words - kept;
  }

  /** Between passes, the words resolved are distinct puzzle words, and the
      words not resolved are exactly those still to find. */
  lemma ProgressFacts(p: Puzzle, toFind: set<string>, resolved: seq<string>, marked: set<Cell>, last: nat)
    requires Progress(p, toFind, resolved, marked, last)
    ensures Distinct(resolved) && (forall i :: 0 <= i < |resolved| ==> resolved[i] in p.words)
    ensures forall w :: w in p.words && w !in resolved <==> w in toFind
  {
  }

  /** A pass that kept every word leaves `solve` stuck: some puzzle word is
      unresolved, and none of the unresolved words has a single candidate. */
  lemma ProgressStuck(p: Puzzle, toFind: set<string>, resolved: seq<string>, marked: set<Cell>)
    requires Progress(p, toFind, resolved, marked, |toFind|) && toFind != {}
    ensures Distinct(resolved) && (forall i :: 0 <= i < |resolved| ==> resolved[i] in p.words)
    ensures exists w :: w in p.words && w !in resolved
    ensures forall w :: w in p.words && w !in resolved ==> |Candidates(p, w, marked)| != 1
  {
    ProgressFacts(p, toFind, resolved, marked, |toFind|);
    var w :| w in toFind;
    assert w in p.words && w !in resolved;
  }

  /** `solve`: repeated passes over the words still to find, each dropping
      the words found, until none is left or a pass finds nothing. The ghost
      results are the order in which the words were found and the cells
      marked at the end. */
  method Solve(p: Puzzle) returns (r: Option<string>, ghost resolved: seq<string>, ghost marked: set<Cell>)
    requires WellFormed(p)
    requires forall w :: w in p.words ==> w != [] && LetterCells(p, w[0]) != {}
    ensures Distinct(resolved) && (forall i :: 0 <= i < |resolved| ==> resolved[i] in p.words)
    ensures Replay(p, {}, resolved) == Some(marked)
    ensures r.Some? ==> (forall w :: w in p.words ==> w in resolved) && r.value == Unmarked(p, marked)
    ensures r.None? ==> (exists w :: w in p.words && w !in resolved)
    ensures r.None? ==> forall w :: w in p.words && w !in resolved ==> |Candidates(p, w, marked)| != 1
    ensures forall c :: c in marked ==> InPuzzle(p, c)
    ensures r.Some? ==> |r.value| + |marked| == p.width * p.height
  {
    var wordsToFind := p.words;
    var markedCells: set<Cell> := {};
    var letterMap := CreateLetterMap(p);
    var previousFoundWordSize: nat := 0;
    resolved := [];
    while |wordsToFind| > 0
      invariant Progress(p, wordsToFind, resolved, markedCells, previousFoundWordSize)
      decreases |wordsToFind|, if |wordsToFind| == previousFoundWordSize then 0 else 1
    {
      if |wordsToFind| == previousFoundWordSize {
        ProgressStuck(p, wordsToFind, resolved, markedCells);
        ReplayInPuzzle(p, {}, resolved, markedCells);
        marked := markedCells;
        return None, resolved, marked;
      }
      ghost var last := previousFoundWordSize;
      previousFoundWordSize := |wordsToFind|;
      var kept, newMarked, found := Retain(p, wordsToFind, markedCells, letterMap);
      ProgressStep(p, wordsToFind, resolved, markedCells, last, kept, newMarked, found);
      resolved := resolved + found;
      wordsToFind := kept;
      markedCells := newMarked;
    }
    ProgressFacts(p, wordsToFind, resolved, markedCells, previousFoundWordSize);
    var s := CollectUnmarked(p, markedCells);
    ReplayInPuzzle(p, {}, resolved, markedCells);
    UnmarkedLength(p, markedCells);
    r := Some(s);
    marked := markedCells;
  }
}

# Word search builder and solver, modelled in Dafny

The modelled program builds word-search puzzles whose leftover cells spell a
hidden message, and it solves such puzzles. This project models four parts of
it and proves what each of them promises:

- **The builder** (`PartialPuzzle`, `partial_puzzle.dfy`, with the pure grid
  facts in `grid.dfy`). A class holds a `height` × `width` grid of characters,
  where `' '` marks a blank cell, together with the message and the set of
  placed words.
  - `TryInsertWord` scans from a start cell to the first blank cell. It tries
    the eight directions in rotated order and every alignment of the word on
    that cell, and commits the first placement that stays in bounds, agrees
    with the letters already placed and leaves at least as many blanks as the message has letters.
  - `GetPuzzleString` renders the grid with its blanks replaced by the letters
    of the message in row-major order, followed by the words.
- **The solver** (`Solver`, `solver.dfy`). It makes repeated passes over the
  words still to find. A word is resolved when exactly one (cell, direction)
  reading spells it and crosses a cell not yet marked; its cells are then
  marked. The loop stops when every word is resolved or a pass resolves
  nothing. On success, the unmarked cells read row by row are the message.
- **The text format and grid geometry** (`Puzzle`, `puzzle.dfy`). This covers
  the eight-direction table, the bounds-checked cell read, the line-based
  parser and the printer. Parsing the printed form of a puzzle gives the
  puzzle back.
- **The dictionary** (`Dictionary`, `dictionary.dfy`). This covers the line
  filter of `load_from_file` and the iterator that visits every word once,
  starting at an offset.

`recovery.dfy` ties the builder to the solver. Filling a complete grid with
the message, then collecting the cells the words did not write, gives back
the message.

Helper modules:
- `Wrappers` holds `Option`.
- `Collections` holds the distinct-enumeration predicate `Enumerates`, the
  rotation used by both iterators, and `SetToSeq`, which lists a set in an
  arbitrary order.
- `Text` holds the string functions of Rust's standard library that the core
  uses: `split`, `join`, `split_whitespace().collect()` and `to_uppercase`.

Inputs the program does not control are parameters:
- The random draws become explicit parameters: the start cell of the blank
  scan, the direction offset and the dictionary offset. Every property holds
  for every choice.
- The iteration order of a `HashSet` is left arbitrary. The methods pick
  elements with `:|` and return the order they used as a ghost result.

## Model

| member | source | states |
|---|---|---|
| Puzzle.DirectionsAreTheEightNeighbours | src/puzzle.rs:4-15 | the direction table has 8 pairwise distinct entries, each component in {-1, 0, 1} and none (0, 0), and every such non-zero unit step is in the table |
| Puzzle.StepsDistinct | src/puzzle.rs:17-22 | along a non-zero direction, different step counts from a location reach different cells |
| Puzzle.Get | src/puzzle.rs:65-70 | `get(x, y)` is `Some(grid[y][x])` exactly when `x < width` and `y < height`, and `None` otherwise |
| Puzzle.FirstEmpty | src/puzzle.rs:41-44 | the index where reading switches to words is the first line that is empty once whitespace is removed (or the number of lines); every line before it is non-empty |
| Puzzle.FromString | src/puzzle.rs:32-63 | the one-pass loop with the `done_reading_grid` flag produces exactly the parse `FromLines`: the kept lines before the first empty line are the rows in order, the kept lines after it form the word set, comment lines are dropped, dimensions come from the rows, and no row means no puzzle |
| Puzzle.ParsedShape | src/puzzle.rs:55-56 | a parsed puzzle has `height` = number of rows > 0 and `width` = length of row 0; its rows and words are non-empty, free of whitespace and do not start with `#` |
| Puzzle.CleanKept | src/puzzle.rs:39-47 | a non-empty, whitespace-free line not starting with `#` is kept by the parser, unchanged |
| Puzzle.KeptLinesOfClean | src/puzzle.rs:38-53 | the parser keeps every line of a list of clean lines, in order |
| Puzzle.LayoutRows | src/puzzle.rs:41-53 | with clean rows followed by an empty line, that empty line is where word mode starts, and the rows read before it are the rows |
| Puzzle.LayoutWords | src/puzzle.rs:45-50 | the lines read after the empty line give exactly the non-empty pieces that follow it |
| Puzzle.ParseLayout | src/puzzle.rs:32-63 | clean rows, an empty line, then clean words or empty lines parse to a puzzle with those rows, the set of those words, and dimensions taken from the rows |
| Puzzle.Display | src/puzzle.rs:73-90 | the printed form is each row and a newline, a newline, then each word and a newline, the words in an order that lists the word set exactly once |
| Puzzle.DisplayText | src/puzzle.rs:77-86 | the printed form is the newline-join of the rows, an empty piece, the words and a final empty piece |
| Puzzle.DisplayRoundTrip | src/puzzle.rs:73-90 | parsing the printed form of a puzzle whose rows and words are clean and whose dimensions are those of its rows gives back the same puzzle |
| Puzzle.EnumeratedWords | src/puzzle.rs:83-86 | the non-empty pieces of the printed word list are exactly the word set |
| Puzzle.JoinedText | src/partial_puzzle.rs:200-204 | the builder's rendering is the newline-join of the rows, an empty piece and the words (or one empty piece when there are none) |
| Puzzle.JoinedRoundTrip | src/partial_puzzle.rs:186-207 | parsing the builder's rendering of clean rows and clean words gives back those rows and the set of those words |
| Text.StripFacts | src/puzzle.rs:39 | removing whitespace leaves no whitespace, never lengthens a line, and leaves a whitespace-free line unchanged |
| Text.Split | src/puzzle.rs:38 | splitting at a separator yields at least one piece, no piece holds the separator, and joining the pieces with it gives back the input |
| Text.SplitJoin | src/puzzle.rs:38 | splitting undoes joining when no piece holds the separator |
| Text.ToUpperFacts | src/dictionary.rs:29 | upper-casing keeps the length, leaves no lower-case ASCII letter, keeps `#` and whitespace where they were, and is idempotent |
| Collections.SetToSeq | src/partial_puzzle.rs:204 | a set is listed, in some order, with each element exactly once |
| Collections.Rotated | src/dictionary.rs:63 | the traversal from offset `r` has the same length as the sequence and is the sequence's suffix from `r` followed by its prefix before `r` |
| Collections.RotatedAt | src/partial_puzzle.rs:28 | item `k` of the traversal is item `(k + r) % n` of the sequence |
| Collections.RotatedIsPermutation | src/dictionary.rs:57-67 | a traversal holds every item exactly as often as the sequence does |
| Collections.RotatedEnumerates | src/partial_puzzle.rs:22-32 | a traversal of a sequence without duplicates has none either and reaches every item |
| PartialPuzzle.RandomDirectionIterator.constructor | src/partial_puzzle.rs:12-20 | a new iterator starts at index 0 with the given offset, which is below 8 |
| PartialPuzzle.RandomDirectionIterator.Next | src/partial_puzzle.rs:24-31 | while fewer than 8 items were handed out, `next` yields `DIRECTIONS[(index + offset) % 8]` and advances; after that it yields `None` and changes nothing |
| PartialPuzzle.DirectionOrder | src/partial_puzzle.rs:22-32 | the 8 directions an iterator yields are pairwise distinct, none of them is (0, 0), and every direction of the table is among them |
| PartialPuzzle.NextCell | src/partial_puzzle.rs:67-71 | the scan step moves right, then to the start of the next row, and from the last cell back to (0, 0) |
| PartialPuzzle.ScanStep | src/partial_puzzle.rs:62-75 | one scan step keeps the invariant that every cell visited so far is filled, and the scan wraps around at most once while some cell is blank |
| PartialPuzzle.PartialPuzzle.Create | src/partial_puzzle.rs:43-60 | a new builder has `height` rows of `width` blanks, so `width * height` blanks, and no words |
| PartialPuzzle.PartialPuzzle.PositionWithOffset | src/partial_puzzle.rs:77-89 | `Some((x + o*dx, y + o*dy))` exactly when both coordinates lie in `[0, width) × [0, height)`, `None` otherwise |
| PartialPuzzle.PartialPuzzle.FindStringStart | src/partial_puzzle.rs:125-142 | the start returned, when there is one, is `offset` steps back from (x, y), so stepping `offset` times from it leads back to (x, y); it exists exactly when that cell is on the grid |
| PartialPuzzle.PartialPuzzle.GetRandomEmptyCell | src/partial_puzzle.rs:62-75 | when some cell is blank, the result is a blank cell, and every cell the wrapping row-major scan from the start visited before it is filled, so it is the first blank at or after the start |
| PartialPuzzle.PartialPuzzle.CanInsertWordAt | src/partial_puzzle.rs:91-115 | true exactly when every step of the word is in bounds, every filled cell on the path holds the word's letter, and the blanks on the path plus the message length are at most the blank count |
| PartialPuzzle.PartialPuzzle.InsertWordAt | src/partial_puzzle.rs:117-123 | the new grid is the old one with `word[i]` written at step `i`, in that order, and the word set gains the word |
| PartialPuzzle.PartialPuzzle.TryInsertWord | src/partial_puzzle.rs:144-168 | the anchor is the first blank cell from the start. On failure, grid and words are unchanged and no (direction, alignment) attempt was legal. On success, the committed attempt was legal and every earlier attempt was not; the word was written along it and added; at least as many blanks as message letters remain; and a word with no blank letter strictly lowers the blank count |
| PartialPuzzle.PartialPuzzle.InsertionCount | src/partial_puzzle.rs:161-163 | committing a legal placement through a blank anchor leaves at least as many blanks as the message has letters, and strictly fewer blanks than before when the word holds no blank |
| PartialPuzzle.PartialPuzzle.CountEmptyCells | src/partial_puzzle.rs:170-180 | the nested counting loops return the number of blank cells |
| PartialPuzzle.PartialPuzzle.IsComplete | src/partial_puzzle.rs:182-184 | complete exactly when the blank count equals the message length |
| PartialPuzzle.PartialPuzzle.GetPuzzleString | src/partial_puzzle.rs:186-207 | the rendering is each row of the grid, with its blanks filled from the message in row-major order, followed by a newline; then a newline; then the words joined by newlines, in an order that lists each word once |
| PartialPuzzle.PartialPuzzle.WordCount | src/partial_puzzle.rs:209-211 | the number of words placed |
| Grid.AllBlankCount | src/partial_puzzle.rs:44-51 | `height` rows of `width` blanks hold `width * height` blanks |
| Grid.BlankExists | src/partial_puzzle.rs:66-72 | a positive blank count means some cell is blank, so the blank scan ends |
| Grid.WriteCellCount | src/partial_puzzle.rs:120 | writing one cell changes the blank count by the blank it fills or creates |
| Grid.Written | src/partial_puzzle.rs:118-121 | writing a word along an in-bounds path keeps the number of rows and the length of each row |
| Grid.WrittenCells | src/partial_puzzle.rs:117-123 | after a write, every cell off the path is as before and, along a non-zero direction, step `i` holds `word[i]` |
| Grid.WrittenOffPath | src/partial_puzzle.rs:118-121 | a cell that no step of the path reaches is left as it was |
| Grid.WrittenCount | src/partial_puzzle.rs:117-123 | along a non-zero direction, a write that agrees with the grid lowers the blank count by exactly the number of blank cells it fills with a letter |
| Grid.FilledAtMostNewLetters | src/partial_puzzle.rs:102-104 | the cells a write fills are at most the `new_letters` counted by `can_insert_word_at`, and exactly that many when the word holds no blank |
| Grid.FilledPositive | src/partial_puzzle.rs:147-163 | a write whose path crosses a blank where the word's letter is not blank fills at least one cell |
| Grid.FillRowFacts | src/partial_puzzle.rs:191-199 | filling a row keeps its length and letters and puts the next unused message letters into its blanks, in order |
| Grid.FillShape | src/partial_puzzle.rs:190-201 | the filled grid has the grid's shape, and every letter already placed is kept |
| Grid.FillReading | src/partial_puzzle.rs:186-201 | the former blanks of the filled grid, read in row-major order, are the first `BlankCount` letters of the message |
| Grid.CompleteFillSpellsMessage | src/partial_puzzle.rs:182-201 | for a complete puzzle, the former blanks of the rendered grid spell the whole message, each letter used once |
| Solver.LocationStep | src/solver.rs:28-44 | `None` exactly when `x + step*dx < 0` or `y + step*dy < 0` (there is no upper bound check), and otherwise that cell |
| Solver.MarkLocation | src/solver.rs:20-26 | the marked set gains exactly the non-negative cells of the first `len` steps |
| Solver.StepCellsInPuzzle | src/solver.rs:55-64 | when every step of a reading is inside the grid, every cell it marks is a grid cell |
| Solver.ScanFacts | src/solver.rs:46-72 | the letters read never outnumber the steps, and are fewer when some step is off the grid; when all steps are in the grid they are exactly the path's letters, and the unmarked count is positive exactly when some step is unmarked |
| Solver.StoppedScan | src/solver.rs:60-63 | once a reading steps past the right or bottom edge, nothing more is read |
| Solver.ValidWordMatches | src/solver.rs:46-72 | the reading along a location equals the word exactly when the word lies there wholly inside the grid and crosses an unmarked cell |
| Solver.GetValidWord | src/solver.rs:46-72 | the loop returns `None` when no step met is unmarked, and otherwise the letters read until the first step off the grid, skipping steps with a negative coordinate |
| Solver.CandidateMember | src/solver.rs:81-98 | a location is a candidate exactly when it starts on the grid, has a direction of the table, and its reading is the word |
| Solver.CreateLetterMap | src/solver.rs:108-120 | the map holds exactly the characters of the grid, and it maps each one to exactly the cells holding it |
| Solver.MatchStart | src/solver.rs:81-86 | a reading equal to a non-empty word starts on a cell holding the word's first letter |
| Solver.FoundAll | src/solver.rs:80-100 | the locations collected from the first-letter cells list every candidate exactly once |
| Solver.SearchAndMark | src/solver.rs:74-106 | true exactly when the word has exactly one candidate. Then the marked set gains exactly that location's `len` cells; otherwise it is unchanged |
| Solver.ReplaySnoc | src/solver.rs:154 | resolving a further word with a single candidate marks that candidate's cells |
| Solver.ReplayAppend | src/solver.rs:147-155 | resolving words `a` and then `b` gives what resolving `a + b` gives |
| Solver.ReplayInPuzzle | src/solver.rs:20-26 | resolving words only adds cells, and every cell it adds lies inside the grid |
| Solver.ReplayGrows | src/solver.rs:154 | the cells marked after some words are resolved stay marked as more words are resolved |
| Solver.Retain | src/solver.rs:154 | one pass tries every pending word once, in some order, against the cells marked so far. The kept words are those not found; the found words are listed in the order found, and resolving them gives the new marks. A pass that keeps every word marks nothing, and none of its words had a single candidate |
| Solver.ProgressStep | src/solver.rs:152-154 | after a pass, the words still to find are the kept ones, and those resolved are the earlier ones followed by the ones just found |
| Solver.ProgressStuck | src/solver.rs:149-150 | a pass that kept every word leaves some word unresolved, and no unresolved word has a single candidate |
| Solver.CollectUnmarked | src/solver.rs:122-135 | the letters of the unmarked cells, with `y` as the outer loop and `x` as the inner loop |
| Solver.UnmarkedLength | src/solver.rs:122-135 | with the marked cells inside the grid, the collected string has `width * height` minus the number of marked cells letters |
| Solver.UnmarkedNothing | src/solver.rs:122-135 | with nothing marked, the whole grid is collected row by row |
| Solver.Solve | src/solver.rs:137-158 | the resolved words are distinct puzzle words, and resolving them in order gives the marked cells, all inside the grid. On `Some(s)`, every word was resolved, `s` is the unmarked letters in row-major order, and the length of `s` plus the number of marked cells is `width * height`. On `None`, some word is unresolved and no unresolved word has a single candidate |
| Dictionary.LoadFromText | src/dictionary.rs:13-35 | the dictionary lists, each exactly once, the upper-cased whitespace-stripped lines of the text that are at least 3 long, at most `max_len` long unless `max_len` is 0, and do not start with `#` |
| Dictionary.WordSetWords | src/dictionary.rs:18-29 | every stored word is at least `MIN_WORD_LEN` long, within `max_len`, not a comment, free of whitespace and lower-case letters, and passes the filter unchanged |
| Dictionary.WordSetOfKeptWords | src/dictionary.rs:17-30 | loading a list of words that all pass the filter unchanged gives exactly the set of those words |
| Dictionary.ReloadKeepsWords | src/dictionary.rs:13-35 | writing the dictionary out one word per line and loading it again with the same bound gives the same words |
| Dictionary.DictionaryIterator.IntoIter | src/dictionary.rs:42-48 | a traversal starts at index 0 with an offset below the number of words, which requires at least one word |
| Dictionary.DictionaryIterator.Next | src/dictionary.rs:57-67 | while fewer than `n` items were handed out, `next` yields `words[(index + offset) % n]` and advances; after that it keeps yielding `None` |
| Dictionary.Traverse | src/dictionary.rs:57-67 | a `for` loop over the dictionary sees exactly `n` items, item `k` being `words[(k + r) % n]`, the same words as the dictionary, and no word twice when the dictionary has none twice |
| Recovery.RowUnmarkedIsReading | src/solver.rs:125-131 | collecting a filled row whose marked cells are the row's lettered cells reads the row's former blanks |
| Recovery.UnmarkedRowsIsReading | src/solver.rs:122-135 | the same for the first `h` rows of a grid |
| Recovery.SolverRecoversMessage | src/solver.rs:122-135 | given a complete builder grid filled from message `m`, with the marked cells exactly the cells the words wrote, the solver collects `m` |

## Left out

- `src/generator.rs` as a whole: it is command-line parsing and a retry loop around the builder, and it calls a solver module that is not part of this model. How the builder's rendering fits the parser is captured by `Puzzle.JoinedRoundTrip` and `Recovery.SolverRecoversMessage`.
- `main` in `src/solver.rs`: reading the input file and printing.
- `Solver::from_string`: a wrapper around `Puzzle::from_string`, which is modelled as `Puzzle.FromString`.
- `fmt::Debug for PartialPuzzle`: a debugging display with no behaviour of its own.
- File I/O: `Dictionary.LoadFromText` takes the file contents that `std::fs::read_to_string` would return.
- Randomness: `rand::thread_rng` draws become parameters (the start cell of the blank scan, the direction offset, the dictionary offset). No claim is made about their distribution.
- `HashSet` and `HashMap` iteration order: the model leaves it arbitrary.
  - Orders picked inside a method are returned as ghost results: the word order of `Display` and `GetPuzzleString`.
  - Orders that are ghost state or never leave the method: the order of words in a `retain` pass, and the order of first-letter cells in `SearchAndMark`.
  - No property depends on a particular order.
- Text is treated as ASCII. Byte length and character count then agree, and `to_uppercase` maps only `a`–`z`. Whitespace is the Unicode White_Space list, as for `char::is_whitespace`.
- Machine integers: `usize` and `isize` are unbounded integers. Overflow and the `as` casts of huge values are not modelled.
- Panics in the source become preconditions:
  - `Solver.Solve` and `Solver.SearchAndMark` require every word to be non-empty, with its first letter present in the grid (`chars().next().unwrap()` and `letter_map.get(..).unwrap()`);
  - the solver requires every row to be at least `width` long (`WellFormed`), since `get` indexes every row up to `width`;
  - `PartialPuzzle.PartialPuzzle.GetPuzzleString` requires no more blanks than message letters (`nth(..).unwrap()`);
  - `Dictionary.DictionaryIterator.IntoIter` requires at least one word (`gen_range(0, 0)`).
- Infinite loop becomes a precondition: `PartialPuzzle.PartialPuzzle.GetRandomEmptyCell` and `PartialPuzzle.PartialPuzzle.TryInsertWord` require a blank cell, because without one the scan never ends.
- The parser's panic on a text with no grid row (`grid[0]`) is the `None` result of `Puzzle.FromString`.
- `PartialPuzzle.PartialPuzzle.GetPuzzleString` builds each row in a local string and then appends it with its newline. The source pushes the characters straight onto the buffer; the resulting string is the same.
- `words_to_find.retain(..)` with its closure is the separate method `Solver.Retain`.

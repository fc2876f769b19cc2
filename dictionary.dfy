/** The word list the generator draws its words from: the lines of a text
    that pass a filter, stored upper-cased without duplicates, and an
    iterator that visits every word once starting at a given offset. */
module Dictionary {
  import opened Wrappers
  import opened Collections
  import opened Text

  /** `MIN_WORD_LEN`: shorter lines are skipped. */
  const MinWordLen: nat := 3

  /** The filter `load_from_file` applies to a line once its whitespace is
      removed: at least `MinWordLen` characters, at most `maxLen` unless
      `maxLen` is 0, and not a comment. */
  predicate Keep(line: string, maxLen: nat)
  {
    var s := Strip(line);
    && |s| >= MinWordLen
    && (maxLen == 0 || |s| <= maxLen)
    && s[0] != '#'
  }

  /** The word set built from `lines`: each kept line, stripped and
      upper-cased. */
  function WordSet(lines: seq<string>, maxLen: nat): set<string>
  {
    if lines == [] then {}
    else
      var last := lines[|lines| - 1];
      WordSet(lines[..|lines| - 1], maxLen) + (if Keep(last, maxLen) then {ToUpper(Strip(last))} else {})
  }

  datatype Dictionary = Dictionary(words: seq<string>)

  /** `Dictionary::load_from_file` after the file is read into `data`: one
      pass over the lines inserting each kept one into a set, then the set
      listed in some order. */
  method LoadFromText(data: string, maxLen: nat) returns (d: Dictionary)
    ensures Enumerates(d.words, WordSet(Split(data, '\n'), maxLen))
  {
    var lines := Split(data, '\n');
    var wordSet: set<string> := {};
    for i := 0 to |lines|
      invariant wordSet == WordSet(lines[..i], maxLen)
    {
      assert lines[..i + 1][..i] == lines[..i];
      var currentLine := Strip(lines[i]);
      if |currentLine| < MinWordLen {
        continue;
      }
      if maxLen > 0 && |currentLine| > maxLen {
        continue;
      }
      if currentLine[0] == '#' {
        continue;
      }
      wordSet := wordSet + {ToUpper(currentLine)};
    }
    assert lines[..|lines|] == lines;
    var words := SetToSeq(wordSet);
    d := Dictionary(words);
  }

  /** A word of the set passes the filter itself: it is long enough, not
      too long, not a comment, holds no whitespace and no lower-case
      letter. */
  lemma {:induction false} WordSetWords(lines: seq<string>, maxLen: nat, w: string)
    requires w in WordSet(lines, maxLen)
    ensures |w| >= MinWordLen && (maxLen == 0 || |w| <= maxLen) && w[0] != '#'
    ensures NoWhitespace(w) && ToUpper(w) == w
    ensures Keep(w, maxLen) && ToUpper(Strip(w)) == w
  {
    var n := |lines| - 1;
    var last := lines[n];
    if w in WordSet(lines[..n], maxLen) {
      WordSetWords(lines[..n], maxLen, w);
    } else {
      var s := Strip(last);
      assert w == ToUpper(s);
      StripFacts(last);
      ToUpperFacts(s);
      assert w[0] != '#';
      StripFacts(w);
      ToUpperFacts(w);
    }
  }

  /** Each word of a list that holds only words passing the filter is kept,
      unchanged, by the filter. */
  lemma {:induction false} WordSetOfKeptWords(ws: seq<string>, maxLen: nat)
    requires forall i :: 0 <= i < |ws| ==> Keep(ws[i], maxLen) && ToUpper(Strip(ws[i])) == ws[i]
    ensures WordSet(ws, maxLen) == set i | 0 <= i < |ws| :: ws[i]
  {
    if ws != [] {
      var n := |ws| - 1;
      WordSetOfKeptWords(ws[..n], maxLen);
      assert (set i | 0 <= i < |ws| :: ws[i]) == (set i | 0 <= i < n :: ws[..n][i]) + {ws[n]};
    }
  }

  /** Writing the words out one per line and loading them again with the
      same length bound gives back the same words. */
  lemma ReloadKeepsWords(data: string, maxLen: nat, d: Dictionary)
    requires Enumerates(d.words, WordSet(Split(data, '\n'), maxLen))
    ensures WordSet(Split(Join(d.words, '\n'), '\n'), maxLen) == WordSet(Split(data, '\n'), maxLen)
  {
    var ws := d.words;
    var lines := Split(data, '\n');
    forall i | 0 <= i < |ws| ensures Keep(ws[i], maxLen) && ToUpper(Strip(ws[i])) == ws[i] && '\n' !in ws[i] {
      WordSetWords(lines, maxLen, ws[i]);
    }
    if ws == [] {
      assert Split(Join(ws, '\n'), '\n') == [""];
      assert WordSet([""], maxLen) == {} by {
        assert [""][..0] == [];
      }
    } else {
      SplitJoin(ws, '\n');
      WordSetOfKeptWords(ws, maxLen);
      assert (set i | 0 <= i < |ws| :: ws[i]) == WordSet(lines, maxLen);
    }
  }

  /** `DictionarylIterator`: the words, the offset drawn when the traversal
      starts, and how many words have been handed out. */
  class DictionaryIterator {
    const words: seq<string>
    const offset: nat
    var index: nat

    /** `into_iter`: the offset is drawn from `0..n`, which needs at
        least one word. */
    constructor IntoIter(d: Dictionary, r: nat)
      requires r < |d.words|
      ensures words == d.words && offset == r && index == 0
    {
      words := d.words;
      offset := r;
      index := 0;
    }

    /** `next`: the word at `(index + offset) % n` while fewer than `n`
        words were handed out, `None` from then on. */
    method Next() returns (item: Option<string>)
      modifies this
      ensures old(index) >= |words| ==> item == None && index == old(index)
      ensures old(index) < |words| ==>
        item == Some(words[(old(index) + offset) % |words|]) && index == old(index) + 1
    {
      if index >= |words| {
        return None;
      }
      var actualIndex := (index + offset) % |words|;
      index := index + 1;
      item := Some(words[actualIndex]);
    }
  }

  /** What a `for` loop over the dictionary sees: the words in rotated order,
      starting at the offset, each exactly once, and then the end. */
  method Traverse(d: Dictionary, r: nat) returns (items: seq<string>)
    requires r < |d.words|
    ensures items == Rotated(d.words, r)
    ensures |items| == |d.words| && forall w :: w in items <==> w in d.words
    ensures Distinct(d.words) ==> Distinct(items)
  {
    var it := new DictionaryIterator.IntoIter(d, r);
    items := [];
    while true
      invariant it.words == d.words && it.offset == r && it.index <= |d.words|
      invariant items == Rotated(d.words, r)[..it.index]
      decreases |d.words| - it.index
    {
      var item := it.Next();
      if item.None? {
        break;
      }
      items := items + [item.value];
    }
    assert Rotated(d.words, r)[..|d.words|] == Rotated(d.words, r);
    RotatedIsPermutation(d.words, r);
    if Distinct(d.words) {
      RotatedDistinct(d.words, r);
    }
  }
}

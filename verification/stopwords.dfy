/**
 * The stopword file: one word per line, read back as a set of stripped,
 * non-blank lines, and rewritten sorted when words are added
 * (diary_stats.py, load_stopwords and add_stopwords).
 */
module Stopwords {
  import opened Wrappers
  import opened Text
  import opened Ranking

  /** What one line of a stopword file contributes: nothing when blank, else its stripped text. */
  function LineWord(l: string): (r: Option<string>)
    ensures r.Some? ==> r.value != "" && Stripped(r.value)
  {
    if Blank(l) then None else Some(Strip(l))
  }

  /**
   * The words of a stopword file's lines, in line order: each line stripped,
   * blank lines skipped.
   */
  function LineWords(lines: seq<string>): seq<string> {
    FilterMap(lines, LineWord)
  }

  /** Every word read from the lines is non-empty and stripped. */
  lemma LineWordsClean(lines: seq<string>)
    ensures forall i :: 0 <= i < |LineWords(lines)| ==> LineWords(lines)[i] != "" && Stripped(LineWords(lines)[i])
  {
    forall i | 0 <= i < |LineWords(lines)|
      ensures LineWords(lines)[i] != "" && Stripped(LineWords(lines)[i])
    {
      var k := FilterMapSound(lines, LineWord, LineWords(lines)[i]);
    }
  }

  /**
   * The lines a text-mode read of the file yields, line ends dropped:
   * `\r\n`, `\r` and `\n` all end a line.
   */
  function FileLines(text: string): seq<string> {
    Split(Newlines(text), '\n')
  }

  /** The words of the file, or none when the file does not exist. */
  function StopwordList(file: Option<string>): seq<string> {
    if file.None? then [] else LineWords(FileLines(file.value))
  }

  /**
   * `load_stopwords`: the file's set of words, empty when the file is
   * missing; every word read could be written back as a line of its own.
   */
  function LoadStopwords(file: Option<string>): (r: set<string>)
    ensures file.None? ==> r == {}
    ensures forall w :: w in r ==> Storable(w)
  {
    StopwordListClean(file);
    set w | w in StopwordList(file)
  }

  lemma StopwordListClean(file: Option<string>)
    ensures forall w :: w in StopwordList(file) ==> Storable(w)
  {
    if file.Some? {
      var lines := FileLines(file.value);
      SplitFree(Newlines(file.value), '\n', '\r');
      forall w | w in StopwordList(file) ensures Storable(w) {
        var k := FilterMapSound(lines, LineWord, w);
        StripSubset(lines[k], '\n');
        StripSubset(lines[k], '\r');
      }
    }
  }

  /** A stopword is loaded exactly when some non-blank line of the file strips to it. */
  lemma LoadStopwordsMembers(text: string, w: string)
    ensures w in LoadStopwords(Some(text)) <==>
      exists i :: 0 <= i < |FileLines(text)| && !Blank(FileLines(text)[i]) && Strip(FileLines(text)[i]) == w
  {
    var lines := FileLines(text);
    FilterMapMembers(lines, LineWord, w);
    assert forall i :: 0 <= i < |lines| ==> (LineWord(lines[i]) == Some(w) <==> !Blank(lines[i]) && Strip(lines[i]) == w);
  }

  /** The argument of `add_stopwords`: a single `str`, or any other iterable of words. */
  datatype NewWords = OneWord(word: string) | WordList(words: seq<string>)

  function NewList(n: NewWords): seq<string> {
    match n
    case OneWord(w) => [w]
    case WordList(ws) => ws
  }

  /** `{new_words}` for a string, `set(new_words)` otherwise. */
  function NewSet(n: NewWords): (r: set<string>)
    ensures forall w :: w in r <==> w in NewList(n)
  {
    set w | w in NewList(n)
  }

  /** The file text written for a list of words: each followed by `\n`. */
  function Lines(ws: seq<string>): (text: string)
    ensures |ws| == 0 <==> text == ""
  {
    if |ws| == 0 then "" else ws[0] + "\n" + Lines(ws[1..])
  }

  /** What `add_stopwords` returns, and the file text it leaves behind. */
  datatype AddResult = AddResult(added: nat, total: nat, written: string)

  /** The merged stopword list in the order it is written: `sorted(current | new)`. */
  function MergedList(n: NewWords, file: Option<string>): (r: seq<string>)
    ensures SortedStrings(r) && NoDuplicates(r)
    ensures forall w :: w in r <==> w in LoadStopwords(file) + NewSet(n)
  {
    var d := Distinct(StopwordList(file) + NewList(n));
    var r := SortStrings(d);
    PermutationNoDuplicates(d, r);
    assert forall w :: w in r <==> w in multiset(r);
    assert forall w :: w in d <==> w in multiset(d);
    r
  }

  /**
   * `add_stopwords(new_words, path)`: the number of new words that were not
   * stopwords yet, the size of the merged set, and the rewritten file.
   */
  function AddStopwords(n: NewWords, file: Option<string>): (r: AddResult)
    ensures r.added == |NewSet(n) - LoadStopwords(file)|
    ensures r.total == |LoadStopwords(file) + NewSet(n)|
  {
    var current := LoadStopwords(file);
    AddResult(|NewSet(n) - current|, |current + NewSet(n)|, Lines(MergedList(n, file)))
  }

  /**
   * The rewritten file lists the merged stopwords one per line, in strictly
   * increasing order, so without repetition.
   */
  lemma AddStopwordsWritten(n: NewWords, file: Option<string>)
    ensures exists ws ::
      && StrictlyIncreasing(ws)
      && AddStopwords(n, file).written == Lines(ws)
      && (forall w :: w in ws <==> w in LoadStopwords(file) + NewSet(n))
  {
    var ws := MergedList(n, file);
    SortedDistinctIncreasing(ws);
    assert AddStopwords(n, file).written == Lines(ws);
  }

  /** Splitting the written text at `\n` gives the words and a final empty piece. */
  lemma {:induction false} SplitLines(ws: seq<string>)
    requires forall i :: 0 <= i < |ws| ==> '\n' !in ws[i]
    ensures Split(Lines(ws), '\n') == ws + [""]
  {
    if |ws| > 0 {
      SplitLines(ws[1..]);
      SplitAfterPiece(ws[0], '\n', Lines(ws[1..]));
      assert ws == [ws[0]] + ws[1..];
    }
  }

  /**
   * Words that are non-empty, stripped and free of line ends survive being
   * written and read back.
   */
  predicate Storable(w: string) {
    w != "" && Stripped(w) && '\n' !in w && '\r' !in w
  }

  /** Written text holds a character only when some word does. */
  lemma {:induction false} LinesFree(ws: seq<string>, x: char)
    requires x != '\n'
    requires forall i :: 0 <= i < |ws| ==> x !in ws[i]
    ensures x !in Lines(ws)
  {
    if |ws| > 0 {
      LinesFree(ws[1..], x);
    }
  }

  /** Storable lines read back as themselves; the empty piece after the last `\n` is skipped. */
  lemma {:induction false} LineWordsOfStored(ws: seq<string>)
    requires forall i :: 0 <= i < |ws| ==> Storable(ws[i])
    ensures LineWords(ws + [""]) == ws
  {
    if |ws| > 0 {
      assert (ws + [""])[1..] == ws[1..] + [""];
      LineWordsOfStored(ws[1..]);
      StripStripped(ws[0]);
      assert LineWord(ws[0]) == Some(ws[0]);
      assert [ws[0]] + ws[1..] == ws;
    } else {
      assert LineWord("") == None;
    }
  }

  /** Reading back a file written from storable words yields exactly those words. */
  lemma LoadLines(ws: seq<string>)
    requires forall i :: 0 <= i < |ws| ==> Storable(ws[i])
    ensures LoadStopwords(Some(Lines(ws))) == set w | w in ws
  {
    LinesFree(ws, '\r');
    NewlinesPlain(Lines(ws));
    SplitLines(ws);
    LineWordsOfStored(ws);
  }

  /** The words added and the words already there make up the total. */
  lemma AddedCount(n: NewWords, file: Option<string>)
    ensures AddStopwords(n, file).added + |LoadStopwords(file)| == AddStopwords(n, file).total
  {
    UnionCount(LoadStopwords(file), NewSet(n));
  }

  lemma UnionCount<T>(current: set<T>, added: set<T>)
    ensures |added - current| + |current| == |current + added|
  {
    assert current + added == current + (added - current);
    assert current * (added - current) == {};
  }

  /** Adding a single word is adding the one-element list. */
  lemma OneWordIsList(w: string, file: Option<string>)
    ensures AddStopwords(OneWord(w), file) == AddStopwords(WordList([w]), file)
  {
    assert NewSet(OneWord(w)) == NewSet(WordList([w]));
    assert MergedList(OneWord(w), file) == MergedList(WordList([w]), file);
  }

  /** The merged list of storable new words and loaded stopwords is storable. */
  lemma MergedStorable(n: NewWords, file: Option<string>)
    requires forall w :: w in NewList(n) ==> Storable(w)
    ensures forall i :: 0 <= i < |MergedList(n, file)| ==> Storable(MergedList(n, file)[i])
  {
    var ws := MergedList(n, file);
    forall i | 0 <= i < |ws| ensures Storable(ws[i]) {
      var w := ws[i];
      assert w in LoadStopwords(file) + NewSet(n);
    }
  }

  /**
   * After adding storable words, the file holds the old stopwords together
   * with the new ones.
   */
  lemma AddStopwordsRoundTrip(n: NewWords, file: Option<string>)
    requires forall w :: w in NewList(n) ==> Storable(w)
    ensures LoadStopwords(Some(AddStopwords(n, file).written)) == LoadStopwords(file) + NewSet(n)
  {
    var ws := MergedList(n, file);
    assert AddStopwords(n, file).written == Lines(ws);
    MergedStorable(n, file);
    LoadLines(ws);
    MergedSet(n, file);
  }

  lemma MergedSet(n: NewWords, file: Option<string>)
    ensures (set w | w in MergedList(n, file)) == LoadStopwords(file) + NewSet(n)
  {
  }

  /** Adding the same storable words a second time adds nothing and rewrites the same file. */
  lemma AddStopwordsTwice(n: NewWords, file: Option<string>)
    requires forall w :: w in NewList(n) ==> Storable(w)
    ensures AddStopwords(n, Some(AddStopwords(n, file).written)).added == 0
    ensures AddStopwords(n, Some(AddStopwords(n, file).written)).written == AddStopwords(n, file).written
  {
    var later := Some(AddStopwords(n, file).written);
    AddStopwordsRoundTrip(n, file);
    assert NewSet(n) - LoadStopwords(later) == {};
    SameMerge(n, file, later);
  }

  /** Files holding the same merged set are rewritten identically. */
  lemma SameMerge(n: NewWords, file: Option<string>, later: Option<string>)
    requires LoadStopwords(later) == LoadStopwords(file) + NewSet(n)
    ensures AddStopwords(n, later).written == AddStopwords(n, file).written
  {
    var first := MergedList(n, file);
    var second := MergedList(n, later);
    assert forall w :: w in second <==> w in first;
    SortedDistinctIncreasing(first);
    SortedDistinctIncreasing(second);
    IncreasingUnique(first, second);
  }
}

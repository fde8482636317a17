/**
 * The walk over the diary tree in collect_diary_data: which Markdown files are
 * counted, the record each one contributes and the words it adds to the
 * counter, and the statistics built from them.
 */
module Scanner {
  import opened Wrappers
  import opened Text
  import opened Calendar
  import opened PathDate
  import opened Tokenizer
  import opened Ranking
  import opened Aggregate
  import opened Stopwords

  /**
   * One file met by `os.walk`: the directory names from the root down to it,
   * its name, and its text, or None when opening or decoding it fails.
   */
  datatype FileEntry = FileEntry(dirs: seq<string>, name: string, content: Option<string>)

  /** The optional date filter: not before `start`, not after `end`. */
  predicate InBounds(d: Date, start: Option<Date>, end: Option<Date>) {
    && (start.None? || !Before(d, start.value))
    && (end.None? || !Before(end.value, d))
  }

  /**
   * A file is counted when it ends in `.md`, its path yields a date, the date
   * passes the filter, and it can be read.
   */
  predicate Kept(e: FileEntry, start: Option<Date>, end: Option<Date>) {
    && EndsWith(e.name, ".md")
    && ExtractDate(e.dirs, e.name).Some?
    && InBounds(ExtractDate(e.dirs, e.name).value, start, end)
    && e.content.Some?
  }

  /** The row a counted file adds: its name, date and `len(content)`. */
  function RecordOf(e: FileEntry): Record
    requires ExtractDate(e.dirs, e.name).Some? && e.content.Some?
  {
    Record(e.name, ExtractDate(e.dirs, e.name).value, |e.content.value|)
  }

  /** The row a file adds, if it is counted. */
  function Admit(e: FileEntry, start: Option<Date>, end: Option<Date>): (r: Option<Record>)
    ensures r.Some? <==> Kept(e, start, end)
    ensures r.Some? ==> Valid(r.value.date) && InBounds(r.value.date, start, end)
  {
    if Kept(e, start, end) then Some(RecordOf(e)) else None
  }

  function AdmitFn(start: Option<Date>, end: Option<Date>): FileEntry -> Option<Record> {
    e => Admit(e, start, end)
  }

  /** The words a counted file adds to the counter. */
  function FileWords(lex: Lexicon, stopwords: set<string>, text: string): seq<string> {
    CountedWords(Tokenize(lex, text), stopwords)
  }

  /** The words a file adds: none unless it is counted. */
  function WordsOf(e: FileEntry, lex: Lexicon, stopwords: set<string>, start: Option<Date>, end: Option<Date>): (r: seq<string>)
    ensures forall w :: w in r ==> w != "" && Stripped(w) && w !in stopwords
  {
    if Kept(e, start, end) then FileWords(lex, stopwords, e.content.value) else []
  }

  function WordsFn(lex: Lexicon, stopwords: set<string>, start: Option<Date>, end: Option<Date>): FileEntry -> seq<string> {
    e => WordsOf(e, lex, stopwords, start, end)
  }

  /** The concatenation of `f` over `s`. */
  function FlatMap<A, B>(s: seq<A>, f: A -> seq<B>): seq<B> {
    if |s| == 0 then [] else FlatMap(s[..|s| - 1], f) + f(s[|s| - 1])
  }

  lemma {:induction false} FlatMapMembers<A, B>(s: seq<A>, f: A -> seq<B>, y: B)
    ensures y in FlatMap(s, f) <==> exists i :: 0 <= i < |s| && y in f(s[i])
    decreases |s|
  {
    if |s| > 0 {
      var p := s[..|s| - 1];
      FlatMapMembers(p, f, y);
      if exists i :: 0 <= i < |p| && y in f(p[i]) {
        var i :| 0 <= i < |p| && y in f(p[i]);
        assert s[i] == p[i];
      }
      if exists i :: 0 <= i < |s| && y in f(s[i]) {
        var i :| 0 <= i < |s| && y in f(s[i]);
        if i < |p| {
          assert p[i] == s[i];
        }
      }
    }
  }

  lemma {:induction false} FlatMapAppend<A, B>(s: seq<A>, t: seq<A>, f: A -> seq<B>)
    ensures FlatMap(s + t, f) == FlatMap(s, f) + FlatMap(t, f)
    decreases |t|
  {
    if |t| > 0 {
      var u := s + t;
      assert u[..|u| - 1] == s + t[..|t| - 1];
      assert u[|u| - 1] == t[|t| - 1];
      FlatMapAppend(s, t[..|t| - 1], f);
    } else {
      assert s + t == s;
    }
  }

  /** The rows of the counted files, in walk order. */
  function ScanRecords(entries: seq<FileEntry>, start: Option<Date>, end: Option<Date>): (r: seq<Record>)
    ensures |r| <= |entries|
    ensures forall x :: x in r ==> Valid(x.date) && InBounds(x.date, start, end)
  {
    var r := FilterMap(entries, AdmitFn(start, end));
    assert forall x :: x in r ==> Valid(x.date) && InBounds(x.date, start, end) by {
      forall x | x in r ensures Valid(x.date) && InBounds(x.date, start, end) {
        FilterMapMembers(entries, AdmitFn(start, end), x);
      }
    }
    r
  }

  /** Everything `word_counter.update` receives, file after file in walk order. */
  function ScanWords(entries: seq<FileEntry>, lex: Lexicon, stopwords: set<string>,
                     start: Option<Date>, end: Option<Date>): (r: seq<string>)
    ensures forall w :: w in r ==> w != "" && Stripped(w) && w !in stopwords
  {
    var r := FlatMap(entries, WordsFn(lex, stopwords, start, end));
    assert forall w :: w in r ==> w != "" && Stripped(w) && w !in stopwords by {
      forall w | w in r ensures w != "" && Stripped(w) && w !in stopwords {
        FlatMapMembers(entries, WordsFn(lex, stopwords, start, end), w);
      }
    }
    r
  }

  /**
   * `collect_diary_data(root, stopwords_path, start_date, end_date)`: the
   * statistics over the counted files, with the stopwords read from the
   * stopword file (None when it does not exist).
   */
  function CollectDiaryData(entries: seq<FileEntry>, lex: Lexicon, stopFile: Option<string>,
                            start: Option<Date>, end: Option<Date>): (a: Aggregation)
    ensures a.records == ScanRecords(entries, start, end)
    ensures |a.records| <= |entries|
    ensures forall i :: 0 <= i < |a.records| ==> InBounds(a.records[i].date, start, end)
    ensures forall i :: 0 <= i < |a.wordFreq| ==>
      a.wordFreq[i].0 != "" && a.wordFreq[i].0 !in LoadStopwords(stopFile) && a.wordFreq[i].1 > 0
    ensures |a.wordFreq| <= TopWords
  {
    var stopwords := LoadStopwords(stopFile);
    var words := ScanWords(entries, lex, stopwords, start, end);
    var recs := ScanRecords(entries, start, end);
    SummaryWordsClean(recs, words, stopwords);
    Summarize(recs, words)
  }

  /** Every listed word is one the counter was fed, so neither empty nor a stopword. */
  lemma SummaryWordsClean(recs: seq<Record>, words: seq<string>, stopwords: set<string>)
    requires forall w :: w in words ==> w != "" && w !in stopwords
    ensures var f := Summarize(recs, words).wordFreq;
      forall i :: 0 <= i < |f| ==> f[i].0 != "" && f[i].0 !in stopwords && f[i].1 > 0
  {
    MostCommonCounts(words, TopWords);
    var f := Summarize(recs, words).wordFreq;
    assert forall i :: 0 <= i < |f| ==> f[i].0 in words;
  }

  /**
   * `word_freq` is `most_common(100)` of every word the counted files fed to
   * the counter: each entry pairs a distinct word with its number of
   * occurrences, counts do not increase down the list, equal counts keep the
   * order of first occurrence, and a word left out occurs no more often than
   * any listed word of a full list.
   */
  lemma CollectWordFreq(entries: seq<FileEntry>, lex: Lexicon, stopFile: Option<string>,
                        start: Option<Date>, end: Option<Date>, w: string)
    ensures var ws := ScanWords(entries, lex, LoadStopwords(stopFile), start, end);
      var f := CollectDiaryData(entries, lex, stopFile, start, end).wordFreq;
      && CountPairs(ws, f)
      && DistinctWords(f)
      && NonIncreasing(f, CountOf)
      && |f| == (if |Distinct(ws)| <= TopWords then |Distinct(ws)| else TopWords)
      && (forall i, j :: 0 <= i < j < |f| && f[i].1 == f[j].1 ==> FirstIndex(ws, f[i].0) < FirstIndex(ws, f[j].0))
      && (w in ws && (forall i :: 0 <= i < |f| ==> f[i].0 != w) ==>
            |f| == TopWords && forall i :: 0 <= i < |f| ==> multiset(ws)[w] <= f[i].1)
  {
    var ws := ScanWords(entries, lex, LoadStopwords(stopFile), start, end);
    CollectWordFreqIs(entries, lex, stopFile, start, end);
    var f := CollectDiaryData(entries, lex, stopFile, start, end).wordFreq;
    MostCommonShape(ws, TopWords, f);
    MostCommonChoice(ws, TopWords, f, w);
  }

  lemma CollectWordFreqIs(entries: seq<FileEntry>, lex: Lexicon, stopFile: Option<string>,
                          start: Option<Date>, end: Option<Date>)
    ensures CollectDiaryData(entries, lex, stopFile, start, end).wordFreq ==
      MostCommon(ScanWords(entries, lex, LoadStopwords(stopFile), start, end), TopWords)
  {
    var stopwords := LoadStopwords(stopFile);
    if |ScanRecords(entries, start, end)| == 0 {
      NoRecordsNoWords(entries, lex, stopwords, start, end);
      MostCommonLength([], TopWords);
    }
  }

  /** Only counted files add words, so a scan without rows has fed no words to the counter. */
  lemma {:induction false} NoRecordsNoWords(entries: seq<FileEntry>, lex: Lexicon, stopwords: set<string>,
                                            start: Option<Date>, end: Option<Date>)
    requires |ScanRecords(entries, start, end)| == 0
    ensures ScanWords(entries, lex, stopwords, start, end) == []
    decreases |entries|
  {
    if |entries| > 0 {
      var p := entries[..|entries| - 1];
      var e := entries[|entries| - 1];
      assert entries == p + [e];
      ScanRecordsAppend(p, e, start, end);
      ScanWordsAppend(p, e, lex, stopwords, start, end);
      NoRecordsNoWords(p, lex, stopwords, start, end);
    }
  }

  /** A row is present exactly when some file is counted and that row is its own. */
  lemma ScanRecordsMembers(entries: seq<FileEntry>, start: Option<Date>, end: Option<Date>, r: Record)
    ensures r in ScanRecords(entries, start, end) <==>
      exists i :: 0 <= i < |entries| && Kept(entries[i], start, end) && RecordOf(entries[i]) == r
  {
    FilterMapMembers(entries, AdmitFn(start, end), r);
  }

  /** Only the date filter's rows: the rows with bounds are the unbounded rows that pass the bounds. */
  function FilterBounds(recs: seq<Record>, start: Option<Date>, end: Option<Date>): (r: seq<Record>)
    ensures |r| <= |recs|
  {
    if |recs| == 0 then []
    else
      var rest := FilterBounds(recs[..|recs| - 1], start, end);
      if InBounds(recs[|recs| - 1].date, start, end) then rest + [recs[|recs| - 1]] else rest
  }

  /**
   * Filtering by date while walking is the same as walking without a filter
   * and dropping the rows outside the bounds afterwards.
   */
  lemma {:induction false} ScanThenFilter(entries: seq<FileEntry>, start: Option<Date>, end: Option<Date>)
    ensures ScanRecords(entries, start, end) == FilterBounds(ScanRecords(entries, None, None), start, end)
    decreases |entries|
  {
    if |entries| > 0 {
      var p := entries[..|entries| - 1];
      var e := entries[|entries| - 1];
      ScanThenFilter(p, start, end);
      assert entries == p + [e];
      ScanRecordsAppend(p, e, start, end);
      ScanRecordsAppend(p, e, None, None);
      var all := ScanRecords(entries, None, None);
      if Kept(e, None, None) {
        assert all[..|all| - 1] == ScanRecords(p, None, None);
        assert all[|all| - 1] == RecordOf(e);
        assert Kept(e, start, end) <==> InBounds(RecordOf(e).date, start, end);
      } else {
        assert all == ScanRecords(p, None, None);
        assert !Kept(e, start, end);
      }
    }
  }

  /** Appending a file adds its row, if it is counted. */
  lemma ScanRecordsAppend(entries: seq<FileEntry>, e: FileEntry, start: Option<Date>, end: Option<Date>)
    ensures ScanRecords(entries + [e], start, end) ==
      ScanRecords(entries, start, end) + (if Kept(e, start, end) then [RecordOf(e)] else [])
  {
    FilterMapAppend(entries, [e], AdmitFn(start, end));
    assert [e][1..] == [];
  }

  /** Appending a file adds its words. */
  lemma ScanWordsAppend(entries: seq<FileEntry>, e: FileEntry, lex: Lexicon, stopwords: set<string>,
                        start: Option<Date>, end: Option<Date>)
    ensures ScanWords(entries + [e], lex, stopwords, start, end) ==
      ScanWords(entries, lex, stopwords, start, end) + WordsOf(e, lex, stopwords, start, end)
  {
    assert (entries + [e])[..|entries|] == entries;
  }

  /** A Markdown file directly under the root, or one level down, never adds a row or a word. */
  lemma ShallowFilesIgnored(entries: seq<FileEntry>, e: FileEntry, lex: Lexicon, stopwords: set<string>,
                            start: Option<Date>, end: Option<Date>)
    requires SeparatorFree(e.dirs) && |e.dirs| < 2
    ensures ScanRecords(entries + [e], start, end) == ScanRecords(entries, start, end)
    ensures ScanWords(entries + [e], lex, stopwords, start, end) == ScanWords(entries, lex, stopwords, start, end)
  {
    ShallowFilesHaveNoDate(e.dirs, e.name);
    ScanRecordsAppend(entries, e, start, end);
    ScanWordsAppend(entries, e, lex, stopwords, start, end);
  }

  /** The characters of the counted files. */
  function KeptChars(entries: seq<FileEntry>, start: Option<Date>, end: Option<Date>): nat {
    if |entries| == 0 then 0
    else
      var e := entries[|entries| - 1];
      KeptChars(entries[..|entries| - 1], start, end) + (if Kept(e, start, end) then |e.content.value| else 0)
  }

  /** The rows' character counts add up to the total length of the counted files. */
  lemma {:induction false} ScanChars(entries: seq<FileEntry>, start: Option<Date>, end: Option<Date>)
    ensures TotalChars(ScanRecords(entries, start, end)) == KeptChars(entries, start, end)
    decreases |entries|
  {
    if |entries| > 0 {
      var p := entries[..|entries| - 1];
      var e := entries[|entries| - 1];
      ScanChars(p, start, end);
      assert entries == p + [e];
      ScanRecordsAppend(p, e, start, end);
      var prev := ScanRecords(p, start, end);
      var recs := ScanRecords(entries, start, end);
      assert KeptChars(entries, start, end) ==
        KeptChars(p, start, end) + (if Kept(e, start, end) then |e.content.value| else 0);
      if Kept(e, start, end) {
        assert recs == prev + [RecordOf(e)];
        TotalCharsSnoc(recs, prev, RecordOf(e));
      } else {
        assert recs == prev;
      }
    }
  }

  lemma TotalCharsSnoc(recs: seq<Record>, prefix: seq<Record>, r: Record)
    requires recs == prefix + [r]
    ensures TotalChars(recs) == TotalChars(prefix) + r.chars
  {
    assert recs[..|recs| - 1] == prefix;
  }
}

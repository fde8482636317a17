/**
 * The dashboard's date ranges and its comparison of two ranges
 * (streamlit_app.py): the month, year and day-interval ranges handed to
 * collect_diary_data, and the totals, averages and word-frequency
 * differences shown for two of them.
 */
module Compare {
  import opened Wrappers
  import opened Text
  import opened Calendar
  import opened Ranking
  import opened Aggregate
  import opened Scanner

  /** A closed date interval `[start, end]`. */
  datatype Range = Range(start: Date, end: Date)

  /** The filter a range puts on collect_diary_data. */
  predicate InRange(d: Date, r: Range) {
    InBounds(d, Some(r.start), Some(r.end))
  }

  /**
   * The month mode: from the 1st of the month to the day before the 1st of
   * the next month (to the 31st for December). None is the ValueError that
   * `date(year, month, 1)` raises for a month or year out of range.
   */
  function MonthRange(year: int, month: int): (r: Option<Range>)
    ensures r.Some? <==> Valid(Date(year, month, 1))
    ensures r.Some? ==> r.value.start == Date(year, month, 1) && Valid(r.value.end)
    ensures r.Some? ==> !Before(r.value.end, r.value.start)
  {
    if !Valid(Date(year, month, 1)) then None
    else if month == 12 then Some(Range(Date(year, month, 1), Date(year, 12, 31)))
    else Some(Range(Date(year, month, 1), PrevDay(Date(year, month + 1, 1))))
  }

  /** The year mode: January 1st to December 31st, None when `date` rejects the year. */
  function YearRange(year: int): (r: Option<Range>)
    ensures r.Some? <==> 1 <= year <= 9999
    ensures r.Some? ==> Valid(r.value.start) && Valid(r.value.end)
  {
    if 1 <= year <= 9999 then Some(Range(Date(year, 1, 1), Date(year, 12, 31))) else None
  }

  /** The day-interval mode: a start later than the end is refused (`return None, None`). */
  function DayRange(start: Date, end: Date): (r: Option<Range>)
    ensures r.Some? <==> !Before(end, start)
    ensures r.Some? ==> r.value == Range(start, end)
  {
    if Before(end, start) then None else Some(Range(start, end))
  }

  /** A month's range holds exactly the valid dates of that month. */
  lemma MonthRangeCovers(year: int, month: int, d: Date)
    requires MonthRange(year, month).Some? && Valid(d)
    ensures InRange(d, MonthRange(year, month).value) <==> d.year == year && d.month == month
  {
    var r := MonthRange(year, month).value;
    if month < 12 {
      var next := Date(year, month + 1, 1);
      assert Valid(next);
    }
  }

  /** A year's range holds exactly the valid dates of that year. */
  lemma YearRangeCovers(year: int, d: Date)
    requires YearRange(year).Some? && Valid(d)
    ensures InRange(d, YearRange(year).value) <==> d.year == year
  {
  }

  /** A day interval is refused exactly when no date could fall inside it. */
  lemma DayRangeEmpty(start: Date, end: Date)
    requires Valid(start) && Valid(end)
    ensures DayRange(start, end).None? <==> forall d :: Valid(d) ==> !InBounds(d, Some(start), Some(end))
  {
    if !Before(end, start) {
      assert InBounds(start, Some(start), Some(end));
    }
  }

  /** How a change is reported: "increased by" when positive, otherwise "decreased by" its magnitude. */
  datatype Trend<N> = Increased(amount: N) | Decreased(amount: N)

  function IntTrend(delta: int): (t: Trend<int>)
    ensures t.Increased? <==> delta > 0
    ensures t.Increased? ==> t.amount == delta
    ensures t.Decreased? ==> t.amount == -delta && t.amount >= 0
  {
    if delta > 0 then Increased(delta) else Decreased(-delta)
  }

  function RealTrend(delta: real): (t: Trend<real>)
    ensures t.Increased? <==> delta > 0.0
    ensures t.Increased? ==> t.amount == delta
    ensures t.Decreased? ==> t.amount == -delta && t.amount >= 0.0
  {
    if delta > 0.0 then Increased(delta) else Decreased(-delta)
  }

  /** One row of the word-difference table. */
  datatype DiffRow = DiffRow(word: string, freq1: nat, freq2: nat, change: int)

  function ChangeOf(r: DiffRow): int {
    r.change
  }

  /** The words of a `(word, count)` list. */
  function PairWords(wf: seq<(string, nat)>): (ws: seq<string>)
    ensures |ws| == |wf|
    ensures forall i :: 0 <= i < |wf| ==> ws[i] == wf[i].0
  {
    seq(|wf|, i requires 0 <= i < |wf| => wf[i].0)
  }

  /** `dict(wf).get(w, 0)`: the count of the last pair for `w`, or 0. */
  function Lookup(wf: seq<(string, nat)>, w: string): (n: nat)
    ensures w !in PairWords(wf) ==> n == 0
    ensures w in PairWords(wf) ==> (w, n) in wf
  {
    if |wf| == 0 then 0
    else if wf[|wf| - 1].0 == w then wf[|wf| - 1].1
    else
      var n := Lookup(wf[..|wf| - 1], w);
      assert PairWords(wf[..|wf| - 1]) == PairWords(wf)[..|wf| - 1];
      assert w in PairWords(wf) ==> w in PairWords(wf[..|wf| - 1]);
      n
  }

  /** In a list without repeated words, the count looked up is the word's own pair. */
  lemma {:induction false} LookupDistinct(wf: seq<(string, nat)>, w: string, n: nat)
    requires DistinctWords(wf) && (w, n) in wf
    ensures Lookup(wf, w) == n
    decreases |wf|
  {
    var p := wf[..|wf| - 1];
    if wf[|wf| - 1].0 != w {
      assert (w, n) in p by {
        var i :| 0 <= i < |wf| && wf[i] == (w, n);
        assert i < |p| && p[i] == wf[i];
      }
      LookupDistinct(p, w, n);
    } else {
      var i :| 0 <= i < |wf| && wf[i] == (w, n);
      assert i == |wf| - 1;
    }
  }

  /** The rows in alphabetical word order, before sorting by change. */
  function UnsortedRows(d1: seq<(string, nat)>, d2: seq<(string, nat)>): (rows: seq<DiffRow>)
  {
    var words := SortStrings(Distinct(PairWords(d1) + PairWords(d2)));
    seq(|words|, i requires 0 <= i < |words| =>
      DiffRow(words[i], Lookup(d1, words[i]), Lookup(d2, words[i]), Lookup(d2, words[i]) - Lookup(d1, words[i])))
  }

  /**
   * The word-difference table: every word of either top-100 list, with both
   * counts (0 when absent) and the change, sorted by descending change.
   */
  function DiffTable(wf1: seq<(string, nat)>, wf2: seq<(string, nat)>): (rows: seq<DiffRow>)
    ensures NonIncreasing(rows, ChangeOf)
    ensures multiset(rows) == multiset(UnsortedRows(Take(wf1, 100), Take(wf2, 100)))
  {
    var un := UnsortedRows(Take(wf1, 100), Take(wf2, 100));
    SortDescSorted(un, ChangeOf);
    SortDescPerm(un, ChangeOf);
    SortDesc(un, ChangeOf)
  }

  /** The words of the table. */
  function RowWords(rows: seq<DiffRow>): seq<string> {
    seq(|rows|, i requires 0 <= i < |rows| => rows[i].word)
  }

  /**
   * A row is in the table exactly when its word is in either list and its
   * counts and change are the ones looked up.
   */
  lemma DiffTableMembers(wf1: seq<(string, nat)>, wf2: seq<(string, nat)>, r: DiffRow)
    ensures r in DiffTable(wf1, wf2) <==>
      && (r.word in PairWords(Take(wf1, 100)) || r.word in PairWords(Take(wf2, 100)))
      && r.freq1 == Lookup(Take(wf1, 100), r.word)
      && r.freq2 == Lookup(Take(wf2, 100), r.word)
      && r.change == r.freq2 - r.freq1
  {
    var un := UnsortedRows(Take(wf1, 100), Take(wf2, 100));
    assert r in DiffTable(wf1, wf2) <==> r in un by {
      assert r in multiset(DiffTable(wf1, wf2)) <==> r in multiset(un);
    }
    UnsortedRowsMembers(Take(wf1, 100), Take(wf2, 100), r);
  }

  lemma UnsortedRowsMembers(d1: seq<(string, nat)>, d2: seq<(string, nat)>, r: DiffRow)
    ensures r in UnsortedRows(d1, d2) <==>
      && (r.word in PairWords(d1) || r.word in PairWords(d2))
      && r.freq1 == Lookup(d1, r.word)
      && r.freq2 == Lookup(d2, r.word)
      && r.change == r.freq2 - r.freq1
  {
    var d := Distinct(PairWords(d1) + PairWords(d2));
    var words := SortStrings(d);
    var un := UnsortedRows(d1, d2);
    assert r.word in words <==> r.word in d by {
      assert r.word in words <==> r.word in multiset(words);
      assert r.word in d <==> r.word in multiset(d);
    }
    if r in un {
      var i :| 0 <= i < |un| && un[i] == r;
      assert words[i] == r.word;
    }
    if r.word in words && r.freq1 == Lookup(d1, r.word) && r.freq2 == Lookup(d2, r.word) && r.change == r.freq2 - r.freq1 {
      var i :| 0 <= i < |words| && words[i] == r.word;
      assert un[i] == r;
    }
  }

  /** No word appears in two rows. */
  lemma DiffTableDistinct(wf1: seq<(string, nat)>, wf2: seq<(string, nat)>)
    ensures NoDuplicates(RowWords(DiffTable(wf1, wf2)))
  {
    var un := UnsortedRows(Take(wf1, 100), Take(wf2, 100));
    UnsortedRowsDistinct(Take(wf1, 100), Take(wf2, 100));
    SortDescPerm(un, ChangeOf);
    PermutedRowWords(un, DiffTable(wf1, wf2));
  }

  lemma UnsortedRowsDistinct(d1: seq<(string, nat)>, d2: seq<(string, nat)>)
    ensures NoDuplicates(RowWords(UnsortedRows(d1, d2)))
  {
    var d := Distinct(PairWords(d1) + PairWords(d2));
    var words := SortStrings(d);
    PermutationNoDuplicates(d, words);
    assert RowWords(UnsortedRows(d1, d2)) == words;
  }

  /** Reordering rows whose words are distinct keeps the words distinct. */
  lemma PermutedRowWords(un: seq<DiffRow>, rows: seq<DiffRow>)
    requires multiset(rows) == multiset(un) && NoDuplicates(RowWords(un))
    ensures NoDuplicates(RowWords(rows))
  {
    assert NoDuplicates(un) by {
      forall i, j | 0 <= i < j < |un| ensures un[i] != un[j] {
        assert RowWords(un)[i] != RowWords(un)[j];
      }
    }
    PermutationNoDuplicates(un, rows);
    forall i, j | 0 <= i < j < |rows| ensures RowWords(rows)[i] != RowWords(rows)[j] {
      assert rows[i] in multiset(un) && rows[j] in multiset(un);
      var a :| 0 <= a < |un| && un[a] == rows[i];
      var b :| 0 <= b < |un| && un[b] == rows[j];
      assert a != b;
      if a < b {
        assert RowWords(un)[a] != RowWords(un)[b];
      } else {
        assert RowWords(un)[b] != RowWords(un)[a];
      }
    }
  }

  /** Swapping the two ranges swaps the counts in every row and negates the change. */
  function SwapRow(r: DiffRow): DiffRow {
    DiffRow(r.word, r.freq2, r.freq1, -r.change)
  }

  lemma DiffTableSwap(wf1: seq<(string, nat)>, wf2: seq<(string, nat)>, r: DiffRow)
    ensures r in DiffTable(wf2, wf1) <==> SwapRow(r) in DiffTable(wf1, wf2)
  {
    DiffTableMembers(wf2, wf1, r);
    DiffTableMembers(wf1, wf2, SwapRow(r));
  }

  /** What the comparison shows. */
  datatype Comparison =
    | NoData1
    | NoData2
    /**
     * The totals, counts and change of the totals, with the two top-word
     * lists; the averages and the difference table shown are derived from
     * these (`Avg1`, `Avg2`, `AvgDelta`, `Diff`).
     */
    | Report(total1: nat, total2: nat, count1: nat, count2: nat, delta: Trend<int>,
             words1: seq<(string, nat)>, words2: seq<(string, nat)>)

  /** `char_count / count if count > 0 else 0`. */
  function Average(total: nat, count: nat): real {
    if count > 0 then total as real / count as real else 0.0
  }

  /** The average times the count is the total; with no files it is 0. */
  lemma AverageOfTotal(total: nat, count: nat)
    ensures count > 0 ==> Average(total, count) * count as real == total as real
    ensures count == 0 ==> Average(total, count) == 0.0
  {
  }

  /**
   * Comparing the statistics of two ranges: a warning when the first, or
   * else the second, has no diary file; otherwise the totals, averages,
   * their changes and the word-difference table.
   */
  function CompareRanges(a1: Aggregation, a2: Aggregation): (c: Comparison)
    ensures c == NoData1 <==> |a1.records| == 0
    ensures c == NoData2 <==> |a1.records| > 0 && |a2.records| == 0
    ensures c.Report? ==>
      && c.total1 == TotalChars(a1.records) && c.total2 == TotalChars(a2.records)
      && c.count1 == |a1.records| > 0 && c.count2 == |a2.records| > 0
      && c.words1 == a1.wordFreq && c.words2 == a2.wordFreq
  {
    if |a1.records| == 0 then NoData1
    else if |a2.records| == 0 then NoData2
    else
      var t1 := TotalChars(a1.records);
      var t2 := TotalChars(a2.records);
      Report(t1, t2, |a1.records|, |a2.records|, IntTrend(t2 - t1), a1.wordFreq, a2.wordFreq)
  }

  /** The first range's daily average, `avg_1`. */
  function Avg1(c: Comparison): real
    requires c.Report?
  {
    Average(c.total1, c.count1)
  }

  /** The second range's daily average, `avg_2`. */
  function Avg2(c: Comparison): real
    requires c.Report?
  {
    Average(c.total2, c.count2)
  }

  /** How the daily average changed from the first range to the second. */
  function AvgDelta(c: Comparison): Trend<real>
    requires c.Report?
  {
    RealTrend(Avg2(c) - Avg1(c))
  }

  /** The word-difference table shown. */
  function Diff(c: Comparison): seq<DiffRow>
    requires c.Report?
  {
    DiffTable(c.words1, c.words2)
  }

  /** Each reported average times its number of files is that range's total. */
  lemma ReportAverages(a1: Aggregation, a2: Aggregation)
    requires CompareRanges(a1, a2).Report?
    ensures Avg1(CompareRanges(a1, a2)) * |a1.records| as real == TotalChars(a1.records) as real
    ensures Avg2(CompareRanges(a1, a2)) * |a2.records| as real == TotalChars(a2.records) as real
  {
    AverageOfTotal(TotalChars(a1.records), |a1.records|);
    AverageOfTotal(TotalChars(a2.records), |a2.records|);
  }

  /**
   * The daily average reads "increased" exactly when the second total per
   * file exceeds the first: t2 / n2 > t1 / n1, compared without division.
   */
  lemma AvgDeltaIncreased(c: Comparison)
    requires c.Report? && c.count1 > 0 && c.count2 > 0
    ensures AvgDelta(c).Increased? <==> c.total2 * c.count1 > c.total1 * c.count2
  {
    var x1, x2 := Avg1(c), Avg2(c);
    var n1, n2 := c.count1 as real, c.count2 as real;
    assert AvgDelta(c).Increased? <==> x2 > x1;
    AverageOfTotal(c.total1, c.count1);
    AverageOfTotal(c.total2, c.count2);
    CrossCompare(x1, x2, n1, n2);
    CastProduct(c.total2, c.count1);
    CastProduct(c.total1, c.count2);
  }

  lemma CastProduct(a: nat, b: nat)
    ensures (a * b) as real == a as real * b as real
  {
  }

  /** Two quotients compare as their cross products do. */
  lemma CrossCompare(x1: real, x2: real, n1: real, n2: real)
    requires n1 > 0.0 && n2 > 0.0
    ensures x2 > x1 <==> (x2 * n2) * n1 > (x1 * n1) * n2
  {
    var k := n1 * n2;
    assert (x2 * n2) * n1 == x2 * k;
    assert (x1 * n1) * n2 == x1 * k;
    assert k > 0.0;
    assert x2 * k - x1 * k == (x2 - x1) * k;
  }

  /** The reported change is an increase exactly when the second range has more characters. */
  lemma ReportTrend(a1: Aggregation, a2: Aggregation)
    requires CompareRanges(a1, a2).Report?
    ensures CompareRanges(a1, a2).delta.Increased? <==> TotalChars(a2.records) > TotalChars(a1.records)
    ensures CompareRanges(a1, a2).delta.amount ==
      if TotalChars(a2.records) >= TotalChars(a1.records) then TotalChars(a2.records) - TotalChars(a1.records)
      else TotalChars(a1.records) - TotalChars(a2.records)
  {
  }

  /** With equal totals the change reads "decreased by 0". */
  lemma EqualTotalsReadAsDecrease(a1: Aggregation, a2: Aggregation)
    requires CompareRanges(a1, a2).Report?
    requires TotalChars(a1.records) == TotalChars(a2.records)
    ensures CompareRanges(a1, a2).delta == Decreased(0)
  {
  }

  /**
   * Comparing the ranges the other way round swaps the totals, reverses a
   * non-zero change and swaps the counts in every difference row.
   */
  lemma CompareSwap(a1: Aggregation, a2: Aggregation, r: DiffRow)
    requires |a1.records| > 0 && |a2.records| > 0
    ensures CompareRanges(a2, a1).total1 == CompareRanges(a1, a2).total2
    ensures CompareRanges(a2, a1).total2 == CompareRanges(a1, a2).total1
    ensures CompareRanges(a1, a2).total1 != CompareRanges(a1, a2).total2 ==>
      CompareRanges(a2, a1).delta.Increased? == CompareRanges(a1, a2).delta.Decreased?
    ensures r in Diff(CompareRanges(a2, a1)) <==> SwapRow(r) in Diff(CompareRanges(a1, a2))
  {
    DiffTableSwap(a1.wordFreq, a2.wordFreq, r);
  }
}

/**
 * Turning the per-file records of a scan into the statistics the dashboard
 * shows: character totals per year, per month and per day, and the top words
 * (the DataFrame part of collect_diary_data).
 */
module Aggregate {
  import opened Text
  import opened Numbers
  import opened Calendar
  import opened Ranking

  /** One diary file that passed the scan: its name, resolved date and character count. */
  datatype Record = Record(name: string, date: Date, chars: nat)

  /** The scan's result: records, the three per-dimension totals and `word_freq`. */
  datatype Aggregation = Aggregation(
    records: seq<Record>,
    byYear: map<int, int>,
    byMonth: map<string, int>,
    byDay: map<string, int>,
    wordFreq: seq<(string, nat)>)

  /** How many entries `word_freq` keeps. */
  const TopWords: nat := 100

  function TotalChars(recs: seq<Record>): nat {
    if |recs| == 0 then 0 else TotalChars(recs[..|recs| - 1]) + recs[|recs| - 1].chars
  }

  /** The characters of the records whose key is `k`. */
  function CharsWhere<K(==)>(recs: seq<Record>, key: Record -> K, k: K): nat {
    if |recs| == 0 then 0
    else CharsWhere(recs[..|recs| - 1], key, k) + (if key(recs[|recs| - 1]) == k then recs[|recs| - 1].chars else 0)
  }

  /** The distinct keys of the records. */
  function KeysOf<K>(recs: seq<Record>, key: Record -> K): set<K> {
    set i | 0 <= i < |recs| :: key(recs[i])
  }

  ghost function Pick<K>(m: map<K, int>): K
    requires m != map[]
  {
    var k :| k in m; k
  }

  /** The sum of a map's values. */
  ghost function SumValues<K>(m: map<K, int>): int
    decreases |m|
  {
    if m == map[] then 0
    else
      var k := Pick(m);
      assert |m - {k}| < |m| by {
        assert (m - {k}).Keys == m.Keys - {k};
      }
      m[k] + SumValues(m - {k})
  }

  /** Any key can be taken out first: the sum does not depend on the order. */
  lemma {:induction false} SumValuesRemove<K>(m: map<K, int>, k: K)
    requires k in m
    ensures SumValues(m) == m[k] + SumValues(m - {k})
    decreases |m|
  {
    var p := Pick(m);
    if p != k {
      assert (m - {p}).Keys == m.Keys - {p};
      assert (m - {k}).Keys == m.Keys - {k};
      SumValuesRemove(m - {p}, k);
      SumValuesRemove(m - {k}, p);
      assert m - {p} - {k} == m - {k} - {p};
    }
  }

  lemma SumValuesUpdate<K>(m: map<K, int>, k: K, v: int)
    ensures SumValues(m[k := v]) == SumValues(m) - (if k in m then m[k] else 0) + v
  {
    SumValuesRemove(m[k := v], k);
    assert m[k := v] - {k} == m - {k};
    if k in m {
      SumValuesRemove(m, k);
    } else {
      assert m - {k} == m;
    }
  }

  /** `df.groupby(key)["字数"].sum().to_dict()`. */
  function GroupSum<K(==)>(recs: seq<Record>, key: Record -> K): map<K, int> {
    if |recs| == 0 then map[]
    else
      var m := GroupSum(recs[..|recs| - 1], key);
      var k := key(recs[|recs| - 1]);
      m[k := (if k in m then m[k] else 0) + recs[|recs| - 1].chars]
  }

  lemma KeysOfSnoc<K>(recs: seq<Record>, key: Record -> K)
    requires |recs| > 0
    ensures KeysOf(recs, key) == KeysOf(recs[..|recs| - 1], key) + {key(recs[|recs| - 1])}
  {
    var p := recs[..|recs| - 1];
    forall x | x in KeysOf(recs, key) ensures x in KeysOf(p, key) + {key(recs[|recs| - 1])} {
      var i :| 0 <= i < |recs| && key(recs[i]) == x;
      if i < |p| {
        assert recs[i] == p[i];
      }
    }
    forall x | x in KeysOf(p, key) ensures x in KeysOf(recs, key) {
      var i :| 0 <= i < |p| && key(p[i]) == x;
      assert recs[i] == p[i];
    }
  }

  /** The grouped totals have one entry per distinct key. */
  lemma {:induction false} GroupSumKeys<K>(recs: seq<Record>, key: Record -> K)
    ensures GroupSum(recs, key).Keys == KeysOf(recs, key)
    decreases |recs|
  {
    if |recs| > 0 {
      GroupSumKeys(recs[..|recs| - 1], key);
      KeysOfSnoc(recs, key);
    }
  }

  /** Each grouped total is the characters of the records with that key. */
  lemma {:induction false} GroupSumValues<K>(recs: seq<Record>, key: Record -> K)
    ensures forall k :: k in GroupSum(recs, key) ==> GroupSum(recs, key)[k] == CharsWhere(recs, key, k)
    decreases |recs|
  {
    if |recs| > 0 {
      var p := recs[..|recs| - 1];
      var k := key(recs[|recs| - 1]);
      GroupSumValues(p, key);
      if k !in GroupSum(p, key) {
        GroupSumKeys(p, key);
        CharsWhereAbsent(p, key, k);
      }
    }
  }

  /** The grouped totals add up to all characters of the records. */
  lemma {:induction false} GroupSumTotal<K>(recs: seq<Record>, key: Record -> K)
    ensures SumValues(GroupSum(recs, key)) == TotalChars(recs)
    decreases |recs|
  {
    if |recs| > 0 {
      var p := recs[..|recs| - 1];
      var m := GroupSum(p, key);
      var k := key(recs[|recs| - 1]);
      GroupSumTotal(p, key);
      SumValuesUpdate(m, k, (if k in m then m[k] else 0) + recs[|recs| - 1].chars);
    }
  }

  lemma {:induction false} CharsWhereAbsent<K>(recs: seq<Record>, key: Record -> K, k: K)
    requires k !in KeysOf(recs, key)
    ensures CharsWhere(recs, key, k) == 0
    decreases |recs|
  {
    if |recs| > 0 {
      var p := recs[..|recs| - 1];
      KeysOfSnoc(recs, key);
      assert key(recs[|recs| - 1]) != k;
      CharsWhereAbsent(p, key, k);
    }
  }

  function YearKey(r: Record): int {
    r.date.year
  }

  /** `f"{year}-{month:02d}"`. */
  function MonthKey(r: Record): string {
    IntStr(r.date.year) + "-" + Pad2(r.date.month)
  }

  /** `f"{year}-{month:02d}-{day:02d}"`. */
  function DayKey(r: Record): string {
    IntStr(r.date.year) + "-" + Pad2(r.date.month) + "-" + Pad2(r.date.day)
  }

  function MonthOf(r: Record): (int, int) {
    (r.date.year, r.date.month)
  }

  function DateOf(r: Record): Date {
    r.date
  }

  /**
   * The statistics over the scanned records: a dimension's totals are kept
   * only when that dimension has more than one distinct value, and no records
   * give empty totals and an empty word list.
   */
  function Summarize(recs: seq<Record>, words: seq<string>): (a: Aggregation)
    ensures a.records == recs
    ensures |recs| == 0 ==> a.byYear == map[] && a.byMonth == map[] && a.byDay == map[] && a.wordFreq == []
    ensures a.byYear != map[] <==> |KeysOf(recs, YearKey)| > 1
    ensures a.byMonth != map[] <==> |KeysOf(recs, MonthOf)| > 1
    ensures a.byDay != map[] <==> |KeysOf(recs, DateOf)| > 1
    ensures a.byYear != map[] ==> a.byYear.Keys == KeysOf(recs, YearKey) && SumValues(a.byYear) == TotalChars(recs)
    ensures a.byMonth != map[] ==> a.byMonth.Keys == KeysOf(recs, MonthKey) && SumValues(a.byMonth) == TotalChars(recs)
    ensures a.byDay != map[] ==> a.byDay.Keys == KeysOf(recs, DayKey) && SumValues(a.byDay) == TotalChars(recs)
    ensures forall k :: k in a.byYear ==> a.byYear[k] == CharsWhere(recs, YearKey, k)
    ensures forall k :: k in a.byMonth ==> a.byMonth[k] == CharsWhere(recs, MonthKey, k)
    ensures forall k :: k in a.byDay ==> a.byDay[k] == CharsWhere(recs, DayKey, k)
    ensures |a.wordFreq| <= TopWords
  {
    if |recs| == 0 then Aggregation(recs, map[], map[], map[], [])
    else
      GroupSumKeys(recs, YearKey);
      GroupSumTotal(recs, YearKey);
      GroupSumValues(recs, YearKey);
      GroupSumKeys(recs, MonthKey);
      GroupSumTotal(recs, MonthKey);
      GroupSumValues(recs, MonthKey);
      GroupSumKeys(recs, DayKey);
      GroupSumTotal(recs, DayKey);
      GroupSumValues(recs, DayKey);
      assert YearKey(recs[0]) in KeysOf(recs, YearKey);
      assert MonthKey(recs[0]) in KeysOf(recs, MonthKey);
      assert DayKey(recs[0]) in KeysOf(recs, DayKey);
      Aggregation(
        recs,
        if |KeysOf(recs, YearKey)| > 1 then GroupSum(recs, YearKey) else map[],
        if |KeysOf(recs, MonthOf)| > 1 then GroupSum(recs, MonthKey) else map[],
        if |KeysOf(recs, DateOf)| > 1 then GroupSum(recs, DayKey) else map[],
        MostCommon(words, TopWords))
  }

  /** Distinct months of valid dates get distinct "YYYY-MM" keys. */
  lemma MonthKeyInjective(a: Record, b: Record)
    requires Valid(a.date) && Valid(b.date)
    requires MonthKey(a) == MonthKey(b)
    ensures MonthOf(a) == MonthOf(b)
  {
    var ya := IntStr(a.date.year);
    var yb := IntStr(b.date.year);
    var ka := MonthKey(a);
    assert |Pad2(a.date.month)| == 2 && |Pad2(b.date.month)| == 2;
    assert ka[|ka| - 2..] == Pad2(a.date.month);
    assert ka[..|ka| - 3] == ya;
    assert MonthKey(b)[..|ka| - 3] == yb;
    ParseIntStr(a.date.year);
    ParseIntStr(b.date.year);
    FixedDigitsValue(a.date.month, 2);
    FixedDigitsValue(b.date.month, 2);
  }

  /** Distinct valid dates get distinct "YYYY-MM-DD" keys. */
  lemma DayKeyInjective(a: Record, b: Record)
    requires Valid(a.date) && Valid(b.date)
    requires DayKey(a) == DayKey(b)
    ensures a.date == b.date
  {
    var ka := DayKey(a);
    assert ka == MonthKey(a) + "-" + Pad2(a.date.day);
    assert DayKey(b) == MonthKey(b) + "-" + Pad2(b.date.day);
    assert ka[|ka| - 2..] == Pad2(a.date.day);
    assert ka[..|ka| - 3] == MonthKey(a);
    assert DayKey(b)[..|ka| - 3] == MonthKey(b);
    MonthKeyInjective(a, b);
    FixedDigitsValue(a.date.day, 2);
    FixedDigitsValue(b.date.day, 2);
  }
}

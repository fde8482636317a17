/**
 * Counting and ranking: `collections.Counter` over a word stream and its
 * `most_common(n)`, plus the stable descending sort both rankings use.
 */
module Ranking {
  import opened Text

  /** Keys never increase from left to right. */
  predicate NonIncreasing<T>(s: seq<T>, key: T -> int) {
    forall i, j :: 0 <= i < j < |s| ==> key(s[i]) >= key(s[j])
  }

  /** The elements whose key is `c`, in their original order. */
  function WithKey<T>(s: seq<T>, key: T -> int, c: int): seq<T> {
    if |s| == 0 then []
    else (if key(s[0]) == c then [s[0]] else []) + WithKey(s[1..], key, c)
  }

  lemma {:induction false} WithKeyAppend<T>(s: seq<T>, t: seq<T>, key: T -> int, c: int)
    ensures WithKey(s + t, key, c) == WithKey(s, key, c) + WithKey(t, key, c)
    decreases |s|
  {
    if |s| == 0 {
      assert s + t == t;
    } else {
      var h := if key(s[0]) == c then [s[0]] else [];
      var a := WithKey(s[1..], key, c);
      var b := WithKey(t, key, c);
      assert (s + t)[0] == s[0];
      assert (s + t)[1..] == s[1..] + t;
      WithKeyAppend(s[1..], t, key, c);
      assert WithKey(s + t, key, c) == h + (a + b);
      assert h + (a + b) == (h + a) + b;
    }
  }

  lemma {:induction false} WithKeyAbsent<T>(s: seq<T>, key: T -> int, c: int)
    requires forall i :: 0 <= i < |s| ==> key(s[i]) != c
    ensures WithKey(s, key, c) == []
    decreases |s|
  {
    if |s| > 0 {
      WithKeyAbsent(s[1..], key, c);
    }
  }

  lemma {:induction false} WithKeyMember<T>(s: seq<T>, key: T -> int, x: T)
    requires x in s
    ensures x in WithKey(s, key, key(x))
    decreases |s|
  {
    if s[0] != x {
      WithKeyMember(s[1..], key, x);
    }
  }

  lemma {:induction false} WithKeySubset<T>(s: seq<T>, key: T -> int, c: int, y: T)
    requires y in WithKey(s, key, c)
    ensures y in s && key(y) == c
    decreases |s|
  {
    if |s| > 0 && !(key(s[0]) == c && y == s[0]) {
      WithKeySubset(s[1..], key, c, y);
    }
  }

  /** Insert `x` after every element whose key is at least its own. */
  function InsertDesc<T>(x: T, s: seq<T>, key: T -> int): (r: seq<T>)
    ensures |r| == |s| + 1
  {
    if |s| == 0 then [x]
    else if key(s[0]) >= key(x) then [s[0]] + InsertDesc(x, s[1..], key)
    else [x] + s
  }

  /** Inserting adds exactly `x`. */
  lemma {:induction false} InsertDescPerm<T>(x: T, s: seq<T>, key: T -> int)
    ensures multiset(InsertDesc(x, s, key)) == multiset(s) + multiset{x}
  {
    if |s| > 0 && key(s[0]) >= key(x) {
      InsertDescPerm(x, s[1..], key);
      assert s == [s[0]] + s[1..];
    }
  }

  /** Inserting into a list ordered by descending key keeps it ordered. */
  lemma {:induction false} InsertDescSorted<T>(x: T, s: seq<T>, key: T -> int)
    requires NonIncreasing(s, key)
    ensures NonIncreasing(InsertDesc(x, s, key), key)
  {
    if |s| > 0 && key(s[0]) >= key(x) {
      var t := InsertDesc(x, s[1..], key);
      InsertDescSorted(x, s[1..], key);
      InsertDescPerm(x, s[1..], key);
      forall k | 0 <= k < |t| ensures key(s[0]) >= key(t[k]) {
        assert t[k] in multiset(t);
        if t[k] != x {
          assert t[k] in multiset(s[1..]);
          var m :| 0 <= m < |s[1..]| && s[1..][m] == t[k];
          assert s[m + 1] == t[k];
        }
      }
      var r := [s[0]] + t;
      forall i, j | 0 <= i < j < |r| ensures key(r[i]) >= key(r[j]) {
        assert r[j] == t[j - 1];
        if i > 0 {
          assert r[i] == t[i - 1];
        }
      }
    }
  }

  lemma {:induction false} InsertDescWithKey<T>(x: T, s: seq<T>, key: T -> int, c: int)
    requires NonIncreasing(s, key)
    ensures WithKey(InsertDesc(x, s, key), key, c) == WithKey(s, key, c) + (if key(x) == c then [x] else [])
    decreases |s|
  {
    var tail := if key(x) == c then [x] else [];
    if |s| == 0 {
      assert InsertDesc(x, s, key) == [x];
      assert [x][1..] == [];
    } else if key(s[0]) >= key(x) {
      var t := InsertDesc(x, s[1..], key);
      var head := if key(s[0]) == c then [s[0]] else [];
      InsertDescWithKey(x, s[1..], key, c);
      assert InsertDesc(x, s, key) == [s[0]] + t;
      assert ([s[0]] + t)[1..] == t;
      calc {
        WithKey([s[0]] + t, key, c);
        head + WithKey(t, key, c);
        head + (WithKey(s[1..], key, c) + tail);
        (head + WithKey(s[1..], key, c)) + tail;
        WithKey(s, key, c) + tail;
      }
    } else {
      assert InsertDesc(x, s, key) == [x] + s;
      if key(x) == c {
        WithKeyAbsent(s, key, c);
      }
      assert ([x] + s)[1..] == s;
    }
  }

  /**
   * A stable sort by descending key: the result of `sorted(s, key=key,
   * reverse=True)`, which keeps equal-key elements in their input order.
   */
  function SortDesc<T>(s: seq<T>, key: T -> int): (r: seq<T>)
    ensures |r| == |s|
  {
    if |s| == 0 then []
    else InsertDesc(s[|s| - 1], SortDesc(s[..|s| - 1], key), key)
  }

  /** The sort is a permutation of its input. */
  lemma {:induction false} SortDescPerm<T>(s: seq<T>, key: T -> int)
    ensures multiset(SortDesc(s, key)) == multiset(s)
  {
    if |s| > 0 {
      var p := s[..|s| - 1];
      SortDescPerm(p, key);
      InsertDescPerm(s[|s| - 1], SortDesc(p, key), key);
      assert s == p + [s[|s| - 1]];
    }
  }

  /** The sort orders by descending key. */
  lemma {:induction false} SortDescSorted<T>(s: seq<T>, key: T -> int)
    ensures NonIncreasing(SortDesc(s, key), key)
  {
    if |s| > 0 {
      var p := s[..|s| - 1];
      SortDescSorted(p, key);
      InsertDescSorted(s[|s| - 1], SortDesc(p, key), key);
    }
  }

  /** The sort is stable: for every key, the elements with that key keep their relative order. */
  lemma {:induction false} SortDescStable<T>(s: seq<T>, key: T -> int, c: int)
    ensures WithKey(SortDesc(s, key), key, c) == WithKey(s, key, c)
    decreases |s|
  {
    if |s| > 0 {
      var p := s[..|s| - 1];
      var x := s[|s| - 1];
      SortDescStable(p, key, c);
      SortDescSorted(p, key);
      InsertDescWithKey(x, SortDesc(p, key), key, c);
      assert s == p + [x];
      WithKeyAppend(p, [x], key, c);
      assert WithKey([x], key, c) == (if key(x) == c then [x] else []) by {
        assert [x][1..] == [];
      }
    }
  }

  /** The first `n` elements (all of them when there are fewer). */
  function Take<T>(s: seq<T>, n: nat): (r: seq<T>)
    ensures |r| == if |s| <= n then |s| else n
    ensures r == s[..|r|]
  {
    if |s| <= n then s else s[..n]
  }

  /** The position of the first occurrence of `w`, or `|ws|` when it does not occur. */
  function FirstIndex(ws: seq<string>, w: string): (i: nat)
    ensures i <= |ws|
    ensures i < |ws| <==> w in ws
    ensures i < |ws| ==> ws[i] == w && w !in ws[..i]
  {
    if |ws| == 0 then 0
    else if ws[0] == w then 0
    else
      var k := FirstIndex(ws[1..], w);
      assert ws[1..][..k] == ws[1..k + 1];
      assert ws[..k + 1] == [ws[0]] + ws[1..k + 1];
      1 + k
  }

  lemma FirstIndexExtend(p: seq<string>, x: string, y: string)
    requires y in p
    ensures FirstIndex(p + [x], y) == FirstIndex(p, y)
  {
    var q := p + [x];
    var i := FirstIndex(p, y);
    var j := FirstIndex(q, y);
    assert q[..i] == p[..i];
    assert q[i] == y;
  }

  /** The distinct elements of `ws` in first-occurrence order (a `Counter`'s key order). */
  function Distinct(ws: seq<string>): (r: seq<string>)
    ensures NoDuplicates(r)
    ensures forall w :: w in r <==> w in ws
    ensures forall i, j :: 0 <= i < j < |r| ==> FirstIndex(ws, r[i]) < FirstIndex(ws, r[j])
  {
    if |ws| == 0 then []
    else
      var p := ws[..|ws| - 1];
      var x := ws[|ws| - 1];
      var d := Distinct(p);
      assert ws == p + [x];
      forall y | y in p ensures FirstIndex(ws, y) == FirstIndex(p, y) {
        FirstIndexExtend(p, x, y);
      }
      if x in d then d
      else
        assert FirstIndex(ws, x) == |p| by {
          assert x !in ws[..|p|];
        }
        d + [x]
  }

  function CountOf(p: (string, nat)): int {
    p.1
  }

  /** `Counter(ws).items()`: each distinct word with its number of occurrences, in first-occurrence order. */
  function CounterItems(ws: seq<string>): (r: seq<(string, nat)>)
    ensures |r| == |Distinct(ws)|
    ensures forall i :: 0 <= i < |r| ==> r[i].0 == Distinct(ws)[i] && r[i].1 == multiset(ws)[r[i].0]
  {
    var d := Distinct(ws);
    seq(|d|, i requires 0 <= i < |d| => (d[i], multiset(ws)[d[i]]))
  }

  /** `Counter(ws).most_common(n)`. */
  function MostCommon(ws: seq<string>, n: nat): (r: seq<(string, nat)>)
    ensures |r| <= n
    ensures NonIncreasing(r, CountOf)
  {
    SortDescSorted(CounterItems(ws), CountOf);
    Take(SortDesc(CounterItems(ws), CountOf), n)
  }

  /** Every element of `s` is a pair of a word of `ws` and its occurrence count. */
  predicate CountPairs(ws: seq<string>, s: seq<(string, nat)>) {
    forall i :: 0 <= i < |s| ==> s[i].0 in ws && s[i].1 == multiset(ws)[s[i].0]
  }

  /** The words of `s` are pairwise distinct. */
  predicate DistinctWords(s: seq<(string, nat)>) {
    forall i, j :: 0 <= i < j < |s| ==> s[i].0 != s[j].0
  }

  lemma CounterItemsFacts(ws: seq<string>)
    ensures CountPairs(ws, CounterItems(ws))
    ensures NoDuplicates(CounterItems(ws))
    ensures forall w :: w in ws ==> (w, multiset(ws)[w]) in CounterItems(ws)
  {
    var items := CounterItems(ws);
    var d := Distinct(ws);
    forall w | w in ws ensures (w, multiset(ws)[w]) in items {
      var i :| 0 <= i < |d| && d[i] == w;
      assert items[i] == (w, multiset(ws)[w]);
    }
  }

  /**
   * Each listed count is the word's total number of occurrences, and no word
   * is listed twice.
   */
  lemma MostCommonCounts(ws: seq<string>, n: nat)
    ensures CountPairs(ws, MostCommon(ws, n))
    ensures DistinctWords(MostCommon(ws, n))
  {
    var items := CounterItems(ws);
    var sorted := SortDesc(items, CountOf);
    var r := MostCommon(ws, n);
    SortedItemsFacts(ws);
    assert forall i :: 0 <= i < |r| ==> r[i] == sorted[i];
  }

  /** The sorted items are still the word-count pairs, each word once. */
  lemma SortedItemsFacts(ws: seq<string>)
    ensures CountPairs(ws, SortDesc(CounterItems(ws), CountOf))
    ensures DistinctWords(SortDesc(CounterItems(ws), CountOf))
  {
    var items := CounterItems(ws);
    var sorted := SortDesc(items, CountOf);
    CounterItemsFacts(ws);
    SortDescPerm(items, CountOf);
    PermutationNoDuplicates(items, sorted);
    forall i | 0 <= i < |sorted| ensures sorted[i] in items {
      assert sorted[i] in multiset(items);
    }
  }

  /**
   * The listing is complete up to `n`: it has `min(n, #distinct words)` entries,
   * and a word left out occurs no more often than any word listed.
   */
  lemma MostCommonTop(ws: seq<string>, n: nat, w: string)
    requires w in ws
    requires forall i :: 0 <= i < |MostCommon(ws, n)| ==> MostCommon(ws, n)[i].0 != w
    ensures |MostCommon(ws, n)| == n
    ensures forall i :: 0 <= i < n ==> multiset(ws)[w] <= MostCommon(ws, n)[i].1
  {
    var items := CounterItems(ws);
    var sorted := SortDesc(items, CountOf);
    var r := MostCommon(ws, n);
    var k := SortedPosition(ws, w);
    assert forall i :: 0 <= i < |r| ==> r[i] == sorted[i];
    assert |r| <= k;
    assert |r| == n;
    SortDescSorted(items, CountOf);
    forall i | 0 <= i < n ensures multiset(ws)[w] <= r[i].1 {
      assert CountOf(sorted[i]) >= CountOf(sorted[k]);
    }
  }

  /** Every word of `ws` has its pair somewhere in the sorted items. */
  lemma SortedPosition(ws: seq<string>, w: string) returns (k: nat)
    requires w in ws
    ensures k < |SortDesc(CounterItems(ws), CountOf)|
    ensures SortDesc(CounterItems(ws), CountOf)[k] == (w, multiset(ws)[w])
  {
    var items := CounterItems(ws);
    var sorted := SortDesc(items, CountOf);
    CounterItemsFacts(ws);
    SortDescPerm(items, CountOf);
    var p := (w, multiset(ws)[w]);
    assert p in multiset(sorted);
    k :| 0 <= k < |sorted| && sorted[k] == p;
  }

  lemma MostCommonLength(ws: seq<string>, n: nat)
    ensures |MostCommon(ws, n)| == if |Distinct(ws)| <= n then |Distinct(ws)| else n
  {
  }

  /** What `most_common(n)` lists, for a list known to be it: counts, distinct words, order, length. */
  lemma MostCommonShape(ws: seq<string>, n: nat, f: seq<(string, nat)>)
    requires f == MostCommon(ws, n)
    ensures CountPairs(ws, f) && DistinctWords(f) && NonIncreasing(f, CountOf)
    ensures |f| == if |Distinct(ws)| <= n then |Distinct(ws)| else n
  {
    MostCommonCounts(ws, n);
    MostCommonLength(ws, n);
  }

  /** Which words `most_common(n)` prefers, for a list known to be it: ties and words left out. */
  lemma MostCommonChoice(ws: seq<string>, n: nat, f: seq<(string, nat)>, w: string)
    requires f == MostCommon(ws, n)
    ensures forall i, j :: 0 <= i < j < |f| && f[i].1 == f[j].1 ==> FirstIndex(ws, f[i].0) < FirstIndex(ws, f[j].0)
    ensures w in ws && (forall i :: 0 <= i < |f| ==> f[i].0 != w) ==>
      |f| == n && forall i :: 0 <= i < |f| ==> multiset(ws)[w] <= f[i].1
  {
    MostCommonTies(ws, n);
    if w in ws && (forall i :: 0 <= i < |f| ==> f[i].0 != w) {
      MostCommonTop(ws, n, w);
    }
  }

  /** Pairs listed in increasing order of their word's first occurrence in `ws`. */
  predicate FirstOrdered(ws: seq<string>, s: seq<(string, nat)>) {
    forall i, j :: 0 <= i < j < |s| ==> FirstIndex(ws, s[i].0) < FirstIndex(ws, s[j].0)
  }

  lemma {:induction false} FirstOrderedWithKey(ws: seq<string>, s: seq<(string, nat)>, c: int)
    requires FirstOrdered(ws, s)
    ensures FirstOrdered(ws, WithKey(s, CountOf, c))
    decreases |s|
  {
    if |s| > 0 {
      assert FirstOrdered(ws, s[1..]) by {
        forall i, j | 0 <= i < j < |s[1..]| ensures FirstIndex(ws, s[1..][i].0) < FirstIndex(ws, s[1..][j].0) {
          assert s[1..][i] == s[i + 1] && s[1..][j] == s[j + 1];
        }
      }
      FirstOrderedWithKey(ws, s[1..], c);
      var f := WithKey(s[1..], CountOf, c);
      if CountOf(s[0]) == c {
        forall y | y in f ensures FirstIndex(ws, s[0].0) < FirstIndex(ws, y.0) {
          WithKeySubset(s[1..], CountOf, c, y);
          var j :| 0 <= j < |s[1..]| && s[1..][j] == y;
          assert s[j + 1] == y;
        }
        FirstOrderedCons(ws, s[0], f);
        assert WithKey(s, CountOf, c) == [s[0]] + f;
      } else {
        assert WithKey(s, CountOf, c) == f;
      }
    }
  }

  lemma FirstOrderedCons(ws: seq<string>, x: (string, nat), f: seq<(string, nat)>)
    requires FirstOrdered(ws, f)
    requires forall y :: y in f ==> FirstIndex(ws, x.0) < FirstIndex(ws, y.0)
    ensures FirstOrdered(ws, [x] + f)
  {
    var g := [x] + f;
    forall i, j | 0 <= i < j < |g| ensures FirstIndex(ws, g[i].0) < FirstIndex(ws, g[j].0) {
      assert g[j] == f[j - 1];
      if i == 0 {
        assert g[j] in f;
      } else {
        assert g[i] == f[i - 1];
      }
    }
  }

  lemma {:induction false} TiesFollowWithKey(ws: seq<string>, s: seq<(string, nat)>, c: int)
    requires FirstOrdered(ws, WithKey(s, CountOf, c))
    ensures forall i, j :: 0 <= i < j < |s| && s[i].1 == c && s[j].1 == c ==>
      FirstIndex(ws, s[i].0) < FirstIndex(ws, s[j].0)
    decreases |s|
  {
    if |s| > 0 {
      var f := WithKey(s[1..], CountOf, c);
      var g := WithKey(s, CountOf, c);
      assert FirstOrdered(ws, f) by {
        if CountOf(s[0]) == c {
          forall i, j | 0 <= i < j < |f| ensures FirstIndex(ws, f[i].0) < FirstIndex(ws, f[j].0) {
            assert f[i] == g[i + 1] && f[j] == g[j + 1];
          }
        } else {
          assert g == f;
        }
      }
      TiesFollowWithKey(ws, s[1..], c);
      forall i, j | 0 <= i < j < |s| && s[i].1 == c && s[j].1 == c
        ensures FirstIndex(ws, s[i].0) < FirstIndex(ws, s[j].0)
      {
        if i == 0 {
          assert s[j] in s[1..];
          WithKeyMember(s[1..], CountOf, s[j]);
          var b :| 0 <= b < |f| && f[b] == s[j];
          assert g[0] == s[0] && g[b + 1] == f[b];
        } else {
          assert s[i] == s[1..][i - 1] && s[j] == s[1..][j - 1];
        }
      }
    }
  }

  /** Words with equal counts are listed in the order they first occurred. */
  lemma MostCommonTies(ws: seq<string>, n: nat)
    ensures forall i, j :: 0 <= i < j < |MostCommon(ws, n)| && MostCommon(ws, n)[i].1 == MostCommon(ws, n)[j].1 ==>
      FirstIndex(ws, MostCommon(ws, n)[i].0) < FirstIndex(ws, MostCommon(ws, n)[j].0)
  {
    var items := CounterItems(ws);
    var sorted := SortDesc(items, CountOf);
    var r := MostCommon(ws, n);
    assert FirstOrdered(ws, items);
    forall i, j | 0 <= i < j < |r| && r[i].1 == r[j].1
      ensures FirstIndex(ws, r[i].0) < FirstIndex(ws, r[j].0)
    {
      var c := r[i].1;
      SortDescStable(items, CountOf, c);
      FirstOrderedWithKey(ws, items, c);
      TiesFollowWithKey(ws, sorted, c);
      assert r[i] == sorted[i] && r[j] == sorted[j];
    }
  }
}

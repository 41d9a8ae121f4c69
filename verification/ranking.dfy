/** Ranking: Python's stable `sorted(..., key=heat_score, reverse=True)` followed by
    keeping the first ten records. */
module Ranking {
  import opened News

  const ReportSize: nat := 10

  /** Heat scores never increase along the list. */
  predicate SortedByHeat(s: seq<NewsItem>) {
    forall i, j :: 0 <= i < j < |s| ==> s[i].heatScore >= s[j].heatScore
  }

  /** `x` shares neither url nor title with any record of `ys`. */
  predicate FreshKeys(x: NewsItem, ys: seq<NewsItem>) {
    forall k :: 0 <= k < |ys| ==> ys[k].url != x.url && ys[k].title != x.title
  }

  /** Places `x` in front of the first record that does not outscore it, so `x` precedes
      every record of `ys` with an equal score. */
  function InsertByHeat(x: NewsItem, ys: seq<NewsItem>): (r: seq<NewsItem>)
    ensures multiset(r) == multiset(ys) + multiset{x}
    decreases |ys|
  {
    if |ys| == 0 || x.heatScore >= ys[0].heatScore then [x] + ys
    else
      assert ys == [ys[0]] + ys[1..];
      [ys[0]] + InsertByHeat(x, ys[1..])
  }

  /** A stable sort by descending heat score: an insertion sort that inserts each record in
      front of the equal-scored records that follow it in the input. */
  function SortByHeat(xs: seq<NewsItem>): (r: seq<NewsItem>)
    ensures multiset(r) == multiset(xs)
    decreases |xs|
  {
    if |xs| == 0 then []
    else
      assert xs == [xs[0]] + xs[1..];
      InsertByHeat(xs[0], SortByHeat(xs[1..]))
  }

  lemma SameMembers(a: seq<NewsItem>, b: seq<NewsItem>)
    requires multiset(a) == multiset(b)
    ensures forall z :: z in a <==> z in b
  {
    forall z ensures z in a <==> z in b {
      assert z in a <==> z in multiset(a);
      assert z in b <==> z in multiset(b);
    }
  }

  lemma SortedTail(s: seq<NewsItem>)
    requires |s| > 0 && SortedByHeat(s)
    ensures SortedByHeat(s[1..])
  {
    assert forall k :: 0 <= k < |s| - 1 ==> s[1..][k] == s[k + 1];
  }

  /** No record of `s` scores above `b`. */
  predicate AtMost(s: seq<NewsItem>, b: int) {
    forall k :: 0 <= k < |s| ==> s[k].heatScore <= b
  }

  lemma {:induction false} InsertAtMost(x: NewsItem, ys: seq<NewsItem>, b: int)
    requires x.heatScore <= b && AtMost(ys, b)
    ensures AtMost(InsertByHeat(x, ys), b)
    decreases |ys|
  {
    if |ys| > 0 && x.heatScore < ys[0].heatScore {
      var rest := InsertByHeat(x, ys[1..]);
      InsertAtMost(x, ys[1..], b);
      var r := [ys[0]] + rest;
      assert forall k :: 0 < k < |r| ==> r[k] == rest[k - 1];
    } else {
      var r := [x] + ys;
      assert forall k :: 0 < k < |r| ==> r[k] == ys[k - 1];
    }
  }

  lemma {:induction false} InsertKeepsOrder(x: NewsItem, ys: seq<NewsItem>)
    requires SortedByHeat(ys)
    ensures SortedByHeat(InsertByHeat(x, ys))
    decreases |ys|
  {
    if |ys| > 0 && x.heatScore < ys[0].heatScore {
      var rest := InsertByHeat(x, ys[1..]);
      SortedTail(ys);
      InsertKeepsOrder(x, ys[1..]);
      assert AtMost(ys[1..], ys[0].heatScore);
      InsertAtMost(x, ys[1..], ys[0].heatScore);
      var r := [ys[0]] + rest;
      assert forall k :: 0 < k < |r| ==> r[k] == rest[k - 1];
    }
  }

  /** The sorted list is ordered by non-increasing heat score. */
  lemma {:induction false} SortByHeatOrdered(xs: seq<NewsItem>)
    ensures SortedByHeat(SortByHeat(xs))
    decreases |xs|
  {
    if |xs| > 0 {
      SortByHeatOrdered(xs[1..]);
      InsertKeepsOrder(xs[0], SortByHeat(xs[1..]));
    }
  }

  lemma {:induction false} InsertKeepsDistinct(x: NewsItem, ys: seq<NewsItem>)
    requires Distinct(ys) && FreshKeys(x, ys)
    ensures Distinct(InsertByHeat(x, ys))
    decreases |ys|
  {
    if |ys| > 0 && x.heatScore < ys[0].heatScore {
      var rest := InsertByHeat(x, ys[1..]);
      assert Distinct(ys[1..]) && FreshKeys(x, ys[1..]) by {
        assert forall k :: 0 <= k < |ys| - 1 ==> ys[1..][k] == ys[k + 1];
      }
      InsertKeepsDistinct(x, ys[1..]);
      SameMembers(rest, ys[1..] + [x]);
      forall k | 0 <= k < |rest| ensures ys[0].url != rest[k].url && ys[0].title != rest[k].title {
        assert rest[k] in rest;
        assert rest[k] in ys[1..] + [x];
        if rest[k] != x {
          var m :| 0 <= m < |ys[1..]| && ys[1..][m] == rest[k];
          assert ys[m + 1] == rest[k];
        }
      }
      var r := [ys[0]] + rest;
      assert forall k :: 0 < k < |r| ==> r[k] == rest[k - 1];
    }
  }

  /** Sorting a list without repeated urls or titles keeps it so. */
  lemma {:induction false} SortByHeatKeepsDistinct(xs: seq<NewsItem>)
    ensures Distinct(xs) ==> Distinct(SortByHeat(xs))
    decreases |xs|
  {
    if |xs| > 0 && Distinct(xs) {
      var rest := SortByHeat(xs[1..]);
      assert Distinct(xs[1..]) by {
        assert forall k :: 0 <= k < |xs| - 1 ==> xs[1..][k] == xs[k + 1];
      }
      SortByHeatKeepsDistinct(xs[1..]);
      SameMembers(rest, xs[1..]);
      forall k | 0 <= k < |rest| ensures rest[k].url != xs[0].url && rest[k].title != xs[0].title {
        assert rest[k] in rest;
        var m :| 0 <= m < |xs[1..]| && xs[1..][m] == rest[k];
        assert xs[m + 1] == rest[k];
      }
      InsertKeepsDistinct(xs[0], rest);
    }
  }

  /** The records of `s` whose score is `v`, in order. */
  function WithScore(v: int, s: seq<NewsItem>): seq<NewsItem>
    decreases |s|
  {
    if |s| == 0 then [] else (if s[0].heatScore == v then [s[0]] else []) + WithScore(v, s[1..])
  }

  lemma {:induction false} InsertKeepsTies(v: int, x: NewsItem, ys: seq<NewsItem>)
    ensures WithScore(v, InsertByHeat(x, ys)) == (if x.heatScore == v then [x] else []) + WithScore(v, ys)
    decreases |ys|
  {
    if |ys| == 0 || x.heatScore >= ys[0].heatScore {
      assert ([x] + ys)[1..] == ys;
    } else {
      var rest := InsertByHeat(x, ys[1..]);
      InsertKeepsTies(v, x, ys[1..]);
      assert ([ys[0]] + rest)[1..] == rest;
    }
  }

  /** Stability: for every score, the records with that score appear in the sorted list in
      exactly their input order. */
  lemma {:induction false} SortKeepsTies(v: int, xs: seq<NewsItem>)
    ensures WithScore(v, SortByHeat(xs)) == WithScore(v, xs)
    decreases |xs|
  {
    if |xs| > 0 {
      SortKeepsTies(v, xs[1..]);
      InsertKeepsTies(v, xs[0], SortByHeat(xs[1..]));
    }
  }

  lemma WithScoreHead(s: seq<NewsItem>)
    ensures |s| > 0 ==> WithScore(s[0].heatScore, s) != [] && WithScore(s[0].heatScore, s)[0] == s[0]
  {
  }

  lemma {:induction false} WithScoreMember(v: int, s: seq<NewsItem>, x: NewsItem)
    requires x in WithScore(v, s)
    ensures x in s && x.heatScore == v
    decreases |s|
  {
    if x != s[0] || s[0].heatScore != v {
      WithScoreMember(v, s[1..], x);
    }
  }

  lemma WithScoreTails(v: int, a: seq<NewsItem>, b: seq<NewsItem>)
    requires |a| > 0 && |b| > 0 && a[0] == b[0] && WithScore(v, a) == WithScore(v, b)
    ensures WithScore(v, a[1..]) == WithScore(v, b[1..])
  {
    var h := if a[0].heatScore == v then [a[0]] else [];
    assert WithScore(v, a) == h + WithScore(v, a[1..]);
    assert WithScore(v, b) == h + WithScore(v, b[1..]);
    assert (h + WithScore(v, a[1..]))[|h|..] == WithScore(v, a[1..]);
    assert (h + WithScore(v, b[1..]))[|h|..] == WithScore(v, b[1..]);
  }

  /** Two lists sorted by descending score that agree on the order of every score class
      are equal: there is only one stable descending sort of a list. */
  lemma {:induction false} StableSortUnique(a: seq<NewsItem>, b: seq<NewsItem>)
    requires SortedByHeat(a) && SortedByHeat(b)
    requires forall v :: WithScore(v, a) == WithScore(v, b)
    ensures a == b
    decreases |a|
  {
    WithScoreHead(a);
    WithScoreHead(b);
    if |a| > 0 {
      var s := a[0].heatScore;
      var t := b[0].heatScore;
      WithScoreMember(s, b, a[0]);
      WithScoreMember(t, a, b[0]);
      var i :| 0 <= i < |b| && b[i] == a[0];
      var j :| 0 <= j < |a| && a[j] == b[0];
      assert s == t;
      assert a[0] == b[0];
      forall v ensures WithScore(v, a[1..]) == WithScore(v, b[1..]) {
        WithScoreTails(v, a, b);
      }
      SortedTail(a);
      SortedTail(b);
      StableSortUnique(a[1..], b[1..]);
      assert a == [a[0]] + a[1..] && b == [b[0]] + b[1..];
    }
  }

  /** `sorted(xs, key=heat_score, reverse=True)` is the one list that is sorted by
      descending score and keeps the input order within every score. */
  lemma SortByHeatIsTheStableSort(xs: seq<NewsItem>, r: seq<NewsItem>)
    requires SortedByHeat(r) && forall v :: WithScore(v, r) == WithScore(v, xs)
    ensures r == SortByHeat(xs)
  {
    forall v ensures WithScore(v, r) == WithScore(v, SortByHeat(xs)) {
      SortKeepsTies(v, xs);
    }
    SortByHeatOrdered(xs);
    StableSortUnique(r, SortByHeat(xs));
  }

  lemma PrefixKeepsBest(sorted: seq<NewsItem>, n: nat)
    requires SortedByHeat(sorted) && n <= |sorted|
    ensures forall y :: y in sorted && y !in sorted[..n] ==> forall x :: x in sorted[..n] ==> x.heatScore >= y.heatScore
  {
    forall y, x | y in sorted && y !in sorted[..n] && x in sorted[..n] ensures x.heatScore >= y.heatScore {
      var j :| 0 <= j < |sorted| && sorted[j] == y;
      var i :| 0 <= i < n && sorted[..n][i] == x;
      assert sorted[i] == x;
      assert forall k :: 0 <= k < n ==> sorted[..n][k] == sorted[k];
    }
  }

  /** A prefix of a sorted list is sorted, and keeps no repeated keys. */
  lemma PrefixOrdered(sorted: seq<NewsItem>, n: nat)
    requires n <= |sorted|
    ensures SortedByHeat(sorted) ==> SortedByHeat(sorted[..n])
    ensures Distinct(sorted) ==> Distinct(sorted[..n])
  {
    assert forall k :: 0 <= k < n ==> sorted[..n][k] == sorted[k];
  }

  lemma PrefixMultiset(s: seq<NewsItem>, n: nat)
    requires n <= |s|
    ensures multiset(s[..n]) <= multiset(s)
  {
    assert s == s[..n] + s[n..];
  }

  /** Cutting a list keeps, for every score, the earliest records with that score. */
  lemma {:induction false} WithScorePrefix(v: int, s: seq<NewsItem>, n: nat)
    requires n <= |s|
    ensures WithScore(v, s[..n]) <= WithScore(v, s)
    decreases n
  {
    if n > 0 {
      assert s[..n][0] == s[0];
      assert s[..n][1..] == s[1..][..n - 1];
      WithScorePrefix(v, s[1..], n - 1);
    }
  }

  /** The ranked report: the first min(10, n) records of the sorted list. Every record left
      out scores no higher than any record kept, and among the records of one score those
      kept are the earliest in input order, in that order. */
  function Rank(unique: seq<NewsItem>): (top: seq<NewsItem>)
    ensures |top| == if |unique| < ReportSize then |unique| else ReportSize
    ensures SortedByHeat(top)
    ensures multiset(top) <= multiset(unique)
    ensures forall y :: y in unique && y !in top ==> forall x :: x in top ==> x.heatScore >= y.heatScore
    ensures Distinct(unique) ==> Distinct(top)
    ensures forall v :: WithScore(v, top) <= WithScore(v, unique)
  {
    var sorted := SortByHeat(unique);
    var n := if |unique| > ReportSize then ReportSize else |unique|;
    assert |sorted| == |multiset(sorted)| == |multiset(unique)| == |unique|;
    SortByHeatOrdered(unique);
    SortByHeatKeepsDistinct(unique);
    PrefixOrdered(sorted, n);
    PrefixMultiset(sorted, n);
    SameMembers(sorted, unique);
    PrefixKeepsBest(sorted, n);
    assert forall v :: WithScore(v, sorted[..n]) <= WithScore(v, unique) by {
      forall v ensures WithScore(v, sorted[..n]) <= WithScore(v, unique) {
        WithScorePrefix(v, sorted, n);
        SortKeepsTies(v, unique);
      }
    }
    sorted[..n]
  }
}

/** Deduplication of the candidate pool: one pass in encounter order that keeps a record
    only when its url is non-empty and neither its url nor its title belongs to a record
    already kept. */
module Deduplication {
  import opened Sequences
  import opened News

  /** The record `x` may join the records kept so far. */
  predicate Admits(kept: seq<NewsItem>, x: NewsItem) {
    x.url !in Urls(kept) && x.title !in Titles(kept) && x.url != ""
  }

  /** The records the pass keeps, in encounter order. Collisions are checked against the
      kept records only, so a dropped record never blocks a later one. */
  function Dedup(items: seq<NewsItem>): (r: seq<NewsItem>)
    ensures Distinct(r)
    ensures forall k :: 0 <= k < |r| ==> r[k].url != ""
    ensures IsSubsequence(r, items)
    decreases |items|
  {
    if |items| == 0 then []
    else
      var front := items[..|items| - 1];
      var x := items[|items| - 1];
      var kept := Dedup(front);
      assert items == front + [x];
      if Admits(kept, x) then
        assert forall k :: 0 <= k < |kept| ==> kept[k] in kept;
        SubsequenceSnoc(kept, front, x);
        kept + [x]
      else
        SubsequenceExtend(kept, front, x);
        kept
  }

  lemma DedupStep(items: seq<NewsItem>)
    requires |items| > 0
    ensures var front, x := items[..|items| - 1], items[|items| - 1];
      Dedup(items) == if Admits(Dedup(front), x) then Dedup(front) + [x] else Dedup(front)
  {
  }

  lemma DistinctFront(items: seq<NewsItem>)
    requires |items| > 0 && Distinct(items)
    ensures var front, x := items[..|items| - 1], items[|items| - 1];
      Distinct(front) && x.url !in Urls(front) && x.title !in Titles(front)
  {
    var front, x := items[..|items| - 1], items[|items| - 1];
    assert forall k :: 0 <= k < |front| ==> front[k] == items[k];
    forall y | y in front ensures y.url != x.url && y.title != x.title {
      var k :| 0 <= k < |front| && front[k] == y;
    }
  }

  /** A list that is already distinct with non-empty urls passes through unchanged. */
  lemma {:induction false} DedupKeepsDistinct(items: seq<NewsItem>)
    requires Distinct(items)
    requires forall k :: 0 <= k < |items| ==> items[k].url != ""
    ensures Dedup(items) == items
    decreases |items|
  {
    if |items| > 0 {
      var front := items[..|items| - 1];
      var x := items[|items| - 1];
      DistinctFront(items);
      assert forall k :: 0 <= k < |front| ==> front[k].url != "" by {
        assert forall k :: 0 <= k < |front| ==> front[k] == items[k];
      }
      DedupKeepsDistinct(front);
      DedupStep(items);
      assert items == front + [x];
    }
  }

  /** Running the pass again on its own output changes nothing. */
  lemma DedupIdempotent(items: seq<NewsItem>)
    ensures Dedup(Dedup(items)) == Dedup(items)
  {
    DedupKeepsDistinct(Dedup(items));
  }

  /** Nothing is dropped needlessly: every record with a url collides, by url or title,
      with some kept record (itself, when it was kept). */
  lemma {:induction false} DedupCovers(items: seq<NewsItem>)
    ensures forall x :: x in items && x.url != "" ==>
      x.url in Urls(Dedup(items)) || x.title in Titles(Dedup(items))
    decreases |items|
  {
    if |items| > 0 {
      var front := items[..|items| - 1];
      var x := items[|items| - 1];
      var kept := Dedup(front);
      DedupCovers(front);
      assert forall y :: y in items ==> y in front || y == x;
      if Admits(kept, x) {
        KeysAppend(kept, x);
      }
    }
  }

  /** The pass keeps nothing exactly when no record has a url. */
  lemma DedupEmptyIff(items: seq<NewsItem>)
    ensures Dedup(items) == [] <==> forall k :: 0 <= k < |items| ==> items[k].url == ""
  {
    var kept := Dedup(items);
    SubsequenceMembers(kept, items);
    DedupCovers(items);
    assert forall k :: 0 <= k < |items| ==> items[k] in items;
    assert forall k :: 0 <= k < |kept| ==> kept[k] in kept;
  }

  /** First seen wins: a decision is never revisited, so the records kept from a prefix
      of the pool are a prefix of the records kept from the whole pool. */
  lemma {:induction false} DedupPrefixStable(items: seq<NewsItem>, n: nat)
    requires n <= |items|
    ensures Dedup(items[..n]) <= Dedup(items)
    decreases |items|
  {
    if n < |items| {
      var front := items[..|items| - 1];
      assert front[..n] == items[..n];
      DedupPrefixStable(front, n);
    } else {
      assert items[..n] == items;
    }
  }

  /** Of two records with the same title, when the first has a url, only the first
      survives, whatever the second's url. */
  lemma DedupTitleCollision(a: NewsItem, b: NewsItem)
    requires a.url != "" && a.title == b.title
    ensures Dedup([a, b]) == [a]
  {
    assert [a, b][..1] == [a];
    assert [a][..0] == [];
    assert Titles([a]) == {a.title};
  }

  /** Collisions are checked against kept records only: a record dropped for its title
      does not block a later record that reuses its url. */
  lemma DroppedRecordDoesNotBlock(a: NewsItem, b: NewsItem, c: NewsItem)
    requires a.url != "" && c.url != "" && a.title == b.title
    requires b.url == c.url && c.url != a.url && c.title != a.title
    ensures Dedup([a, b, c]) == [a, c]
  {
    DedupTitleCollision(a, b);
    assert [a, b, c][..2] == [a, b];
    assert Urls([a]) == {a.url} && Titles([a]) == {a.title};
  }

  /** The dedup loop of `generate_daily_report`, with its two "seen" sets updated only
      when a record is kept; it computes exactly `Dedup`. */
  method DeduplicateNews(items: seq<NewsItem>) returns (unique: seq<NewsItem>)
    ensures unique == Dedup(items)
  {
    var seenUrls: set<string> := {};
    var seenTitles: set<string> := {};
    unique := [];
    var i := 0;
    while i < |items|
      invariant 0 <= i <= |items|
      invariant unique == Dedup(items[..i])
      invariant seenUrls == Urls(unique) && seenTitles == Titles(unique)
    {
      var item := items[i];
      assert items[..i + 1][..i] == items[..i];
      assert items[..i + 1][i] == item;
      if item.url !in seenUrls && item.title !in seenTitles && item.url != "" {
        KeysAppend(unique, item);
        seenUrls := seenUrls + {item.url};
        seenTitles := seenTitles + {item.title};
        unique := unique + [item];
      }
      i := i + 1;
    }
    assert items[..|items|] == items;
  }
}

/** The summary pass of `generate_daily_report` over the ranked records: a record whose
    summary is missing or shorter than thirty characters asks for its article page, and
    takes the extracted text unless extraction produced nothing or a sentinel. The pass is
    stated for any extractor from url to result; the daily run uses `ExtractSummary` of the
    fetched page. */
module Enrichment {
  import opened Wrappers
  import opened News
  import opened Extraction

  /** Summaries shorter than this are replaced when possible. */
  const ShortSummary: nat := 30

  /** `not item.summary or len(item.summary) < 30`. */
  predicate NeedsSummary(x: NewsItem) {
    x.summary.None? || |x.summary.value| < ShortSummary
  }

  /** The two strings the extractor returns in place of a summary. */
  predicate IsSentinel(s: string) {
    s == Unavailable || s == ExtractError
  }

  /** An extraction result that is taken: present, non-empty and not a sentinel. */
  predicate Usable(r: Option<string>) {
    r.Some? && r.value != "" && !IsSentinel(r.value)
  }

  /** One record after the pass. */
  function Refresh(x: NewsItem, extract: string -> Option<string>): NewsItem {
    if NeedsSummary(x) && Usable(extract(x.url)) then
      x.(summary := extract(x.url))
    else x
  }

  /** The records after the pass, and the positions whose article page was requested, in
      request order. */
  datatype Enriched = Enriched(items: seq<NewsItem>, requested: seq<nat>)

  function Enrich(items: seq<NewsItem>, extract: string -> Option<string>): (r: Enriched)
    ensures |r.items| == |items|
    ensures forall k :: 0 <= k < |r.requested| ==> r.requested[k] < |items|
    decreases |items|
  {
    if |items| == 0 then Enriched([], [])
    else
      var n := |items| - 1;
      var done := Enrich(items[..n], extract);
      Enriched(done.items + [Refresh(items[n], extract)],
               done.requested + (if NeedsSummary(items[n]) then [n] else []))
  }

  lemma {:induction false} EnrichItems(items: seq<NewsItem>, extract: string -> Option<string>)
    ensures forall k :: 0 <= k < |items| ==> Enrich(items, extract).items[k] == Refresh(items[k], extract)
    decreases |items|
  {
    if |items| > 0 {
      var n := |items| - 1;
      EnrichItems(items[..n], extract);
      assert forall k :: 0 <= k < n ==> items[..n][k] == items[k];
    }
  }

  /** The pass touches summaries only: title, url, source, date and heat score of every
      record stay as they were, and so does the position of every record. */
  lemma EnrichKeepsKeys(items: seq<NewsItem>, extract: string -> Option<string>)
    ensures var out := Enrich(items, extract).items;
      forall k :: 0 <= k < |items| ==>
        out[k].title == items[k].title && out[k].url == items[k].url && out[k].source == items[k].source &&
        out[k].date == items[k].date && out[k].heatScore == items[k].heatScore
  {
    EnrichItems(items, extract);
  }

  /** A summary changes exactly when the record needed one and extraction produced a usable
      text, and then it becomes that text. */
  lemma EnrichSummaries(items: seq<NewsItem>, extract: string -> Option<string>)
    ensures var out := Enrich(items, extract).items;
      forall k :: 0 <= k < |items| ==>
        (if NeedsSummary(items[k]) && Usable(extract(items[k].url))
         then out[k].summary == extract(items[k].url)
         else out[k] == items[k])
  {
    EnrichItems(items, extract);
  }

  /** The positions, in order, of the records whose summary is missing or short. */
  function ShortPositions(items: seq<NewsItem>): seq<nat>
    decreases |items|
  {
    if |items| == 0 then []
    else
      var n := |items| - 1;
      ShortPositions(items[..n]) + (if NeedsSummary(items[n]) then [n] else [])
  }

  lemma {:induction false} EnrichRequestsShortPositions(items: seq<NewsItem>, extract: string -> Option<string>)
    ensures Enrich(items, extract).requested == ShortPositions(items)
    decreases |items|
  {
    if |items| > 0 {
      EnrichRequestsShortPositions(items[..|items| - 1], extract);
    }
  }

  lemma {:induction false} ShortPositionsExact(items: seq<NewsItem>)
    ensures var req := ShortPositions(items);
      (forall a, b :: 0 <= a < b < |req| ==> req[a] < req[b]) &&
      (forall k :: k in req <==> 0 <= k < |items| && NeedsSummary(items[k]))
    decreases |items|
  {
    if |items| > 0 {
      var n := |items| - 1;
      var prev := ShortPositions(items[..n]);
      ShortPositionsExact(items[..n]);
      assert forall k :: 0 <= k < n ==> items[..n][k] == items[k];
      assert forall k :: 0 <= k < |prev| ==> prev[k] in prev;
    }
  }

  /** Pages are requested in record order, at most once per record, for exactly the records
      whose summary is missing or short. */
  lemma EnrichRequests(items: seq<NewsItem>, extract: string -> Option<string>)
    ensures var req := Enrich(items, extract).requested;
      (forall a, b :: 0 <= a < b < |req| ==> req[a] < req[b]) &&
      (forall k :: k in req <==> 0 <= k < |items| && NeedsSummary(items[k]))
  {
    EnrichRequestsShortPositions(items, extract);
    ShortPositionsExact(items);
  }

  /** The loop of `generate_daily_report` over the top records. */
  method EnrichTopNews(items: seq<NewsItem>, extract: string -> Option<string>) returns (out: seq<NewsItem>, requested: seq<nat>)
    ensures Enrich(items, extract) == Enriched(out, requested)
  {
    out := [];
    requested := [];
    var i := 0;
    while i < |items|
      invariant 0 <= i <= |items|
      invariant Enrich(items[..i], extract) == Enriched(out, requested)
    {
      var item := items[i];
      if NeedsSummary(item) {
        requested := requested + [i];
        var extracted := extract(item.url);
        if Usable(extracted) {
          item := item.(summary := extracted);
        }
      }
      assert items[..i + 1][..i] == items[..i];
      out := out + [item];
      i := i + 1;
    }
    assert items[..i] == items;
  }
}

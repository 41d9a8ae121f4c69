/** `generate_daily_report`, without the file output: collect the WeChat articles for every
    keyword, drop repeats, rank by heat, keep the top ten and fill in short summaries. */
module DailyReport {
  import opened Wrappers
  import opened Sequences
  import opened Heat
  import opened News
  import opened Collector
  import opened Deduplication
  import opened Ranking
  import opened Enrichment
  import opened Extraction

  /** No article was collected at all (the function returns None), or the report's records
      with the positions whose article page was requested. The other way the function
      returns None, a failed CSV write, lies outside this model. */
  datatype ReportOutcome =
    | NothingCollected
    | Report(items: seq<NewsItem>, requested: seq<nat>)

  /** The daily run extracts a summary from each fetched article page. */
  function Extractor(fetchPage: string -> ArticlePage): string -> Option<string> {
    url => ExtractSummary(fetchPage(url))
  }

  /** The daily run scores every entry with `calculate_wechat_heat`. */
  function DailyCrawl(search: string -> SearchResponse, resolve: string -> string, today: string): Crawl {
    Crawl(search, resolve, WechatHeat, today)
  }

  function GenerateReport(search: string -> SearchResponse, resolve: string -> string,
                          fetchPage: string -> ArticlePage, today: string): (out: ReportOutcome)
    ensures out.NothingCollected? <==> Collect(SearchKeywords, DailyCrawl(search, resolve, today)) == []
  {
    var pool := Collect(SearchKeywords, DailyCrawl(search, resolve, today));
    if pool == [] then NothingCollected
    else
      var done := Enrich(Rank(Dedup(pool)), Extractor(fetchPage));
      Report(done.items, done.requested)
  }

  /** Two records that agree on everything but the summary. */
  predicate SameRecord(x: NewsItem, y: NewsItem) {
    x.title == y.title && x.url == y.url && x.source == y.source && x.date == y.date && x.heatScore == y.heatScore
  }

  /** Two lists that agree position by position on everything but the summary. */
  predicate SameButSummary(a: seq<NewsItem>, b: seq<NewsItem>) {
    |a| == |b| && forall k :: 0 <= k < |a| ==> SameRecord(a[k], b[k])
  }

  /** Ordering, uniqueness and the url check do not look at summaries. */
  lemma SameButSummaryTransfers(a: seq<NewsItem>, b: seq<NewsItem>)
    requires SameButSummary(a, b)
    ensures SortedByHeat(a) ==> SortedByHeat(b)
    ensures Distinct(a) ==> Distinct(b)
    ensures (forall k :: 0 <= k < |a| ==> a[k].url != "") ==> (forall k :: 0 <= k < |b| ==> b[k].url != "")
  {
  }

  /** Every pooled record was scored by `calculate_wechat_heat`, so its score lies in the
      range that function can produce. */
  lemma PoolScoresInRange(search: string -> SearchResponse, resolve: string -> string, today: string)
    ensures forall x :: x in Collect(SearchKeywords, DailyCrawl(search, resolve, today)) ==>
      BaseScore <= x.heatScore <= 230
  {
    var env := DailyCrawl(search, resolve, today);
    CollectProvenance(SearchKeywords, env);
    forall x | x in Collect(SearchKeywords, env) ensures BaseScore <= x.heatScore <= 230 {
      var i :| 0 <= i < |SearchKeywords| && x in Gather(SearchKeywords[i], env);
      GatherScoresWithFetchingKeyword(SearchKeywords[i], env, x);
      var a: RawArticle :| a in env.search(SearchKeywords[i]).listings && a.Listing? && a.title.Some? &&
        x.title == a.title.value && x.heatScore == env.score(SourceOf(a), a.title.value, PubTimeOf(a), SearchKeywords[i]);
      assert x.heatScore == WechatHeat(SourceOf(a), a.title.value, PubTimeOf(a), SearchKeywords[i]);
    }
  }

  /** The ranked records: at most ten, by non-increasing score, distinct, with urls and
      scores in range, and each one a pooled record. */
  predicate RankedFrom(pool: seq<NewsItem>, top: seq<NewsItem>) {
    && |top| <= ReportSize && SortedByHeat(top) && Distinct(top)
    && (forall k :: 0 <= k < |top| ==> top[k].url != "" && BaseScore <= top[k].heatScore <= 230)
    && (forall x :: x in top ==> x in pool)
  }

  /** Page requests in increasing position order, each one a position of the report. */
  predicate RequestLog(requested: seq<nat>, n: nat) {
    && (forall a, b :: 0 <= a < b < |requested| ==> requested[a] < requested[b])
    && (forall k :: k in requested ==> k < n)
  }

  /** Ranked records are deduplicated pooled records. */
  lemma RankedMembers(pool: seq<NewsItem>)
    ensures forall x :: x in Rank(Dedup(pool)) ==> x in Dedup(pool) && x in pool
  {
    var unique := Dedup(pool);
    var top := Rank(unique);
    SubsequenceMembers(unique, pool);
    forall x | x in top ensures x in unique {
      assert x in multiset(top);
      assert x in multiset(unique);
    }
  }

  lemma RankedShape(pool: seq<NewsItem>)
    requires forall x :: x in pool ==> BaseScore <= x.heatScore <= 230
    ensures RankedFrom(pool, Rank(Dedup(pool)))
  {
    var unique := Dedup(pool);
    var top := Rank(unique);
    assert |top| <= ReportSize && SortedByHeat(top) && Distinct(top) by {
      assert Distinct(unique);
    }
    assert forall x :: x in top ==> x in pool && x.url != "" by {
      RankedMembers(pool);
      forall x | x in unique ensures x.url != "" {
        var m :| 0 <= m < |unique| && unique[m] == x;
      }
    }
    assert forall k :: 0 <= k < |top| ==> top[k].url != "" && BaseScore <= top[k].heatScore <= 230 by {
      assert forall k :: 0 <= k < |top| ==> top[k] in top;
    }
  }

  /** The summary pass keeps everything but summaries and requests in order. */
  lemma EnrichedShape(top: seq<NewsItem>, extract: string -> Option<string>)
    ensures var done := Enrich(top, extract);
      SameButSummary(top, done.items) && RequestLog(done.requested, |done.items|)
  {
    EnrichKeepsKeys(top, extract);
    EnrichRequests(top, extract);
  }

  /** What the report promises about its records and its page requests: at most ten
      records, by non-increasing heat score, with no url or title twice and no empty url;
      each record is a pooled article (only its summary may have been replaced) with a
      score in the range of `calculate_wechat_heat`; pages are requested in report order,
      once per record at most. */
  predicate ReportFrom(pool: seq<NewsItem>, items: seq<NewsItem>, requested: seq<nat>) {
    && |items| <= ReportSize
    && SortedByHeat(items)
    && Distinct(items)
    && (forall k :: 0 <= k < |items| ==> items[k].url != "" && BaseScore <= items[k].heatScore <= 230)
    && (forall k :: 0 <= k < |items| ==> Pooled(pool, items[k]))
    && RequestLog(requested, |items|)
  }

  /** Some pooled record agrees with `y` on everything but the summary. */
  predicate Pooled(pool: seq<NewsItem>, y: NewsItem) {
    exists i :: 0 <= i < |pool| && SameRecord(pool[i], y)
  }

  /** A pooled record whose summary was replaced still matches that pooled record. */
  lemma PooledWitness(pool: seq<NewsItem>, x: NewsItem, y: NewsItem)
    requires x in pool && SameRecord(x, y)
    ensures Pooled(pool, y)
  {
    var i :| 0 <= i < |pool| && pool[i] == x;
  }

  /** Records of the pool keep matching the pool after their summaries are replaced. */
  lemma PooledAfterSummaries(pool: seq<NewsItem>, top: seq<NewsItem>, out: seq<NewsItem>)
    requires (forall x :: x in top ==> x in pool) && SameButSummary(top, out)
    ensures forall k :: 0 <= k < |out| ==> Pooled(pool, out[k])
  {
    forall k | 0 <= k < |out| ensures Pooled(pool, out[k]) {
      assert top[k] in top;
      PooledWitness(pool, top[k], out[k]);
    }
  }

  /** Replacing summaries of ranked pooled records, with requests in order, gives a report. */
  lemma SummariesReplaced(pool: seq<NewsItem>, top: seq<NewsItem>, out: seq<NewsItem>, requested: seq<nat>)
    requires RankedFrom(pool, top) && SameButSummary(top, out) && RequestLog(requested, |out|)
    ensures ReportFrom(pool, out, requested)
  {
    assert |out| <= ReportSize && SortedByHeat(out) && Distinct(out) by {
      SameButSummaryTransfers(top, out);
    }
    assert forall k :: 0 <= k < |out| ==> out[k].url != "" && BaseScore <= out[k].heatScore <= 230 by {
      assert forall k :: 0 <= k < |top| ==> top[k].url != "" && BaseScore <= top[k].heatScore <= 230;
    }
    assert forall k :: 0 <= k < |out| ==> Pooled(pool, out[k]) by {
      PooledAfterSummaries(pool, top, out);
    }
  }

  /** The summary pass turns ranked pooled records into a report. */
  lemma EnrichedReport(pool: seq<NewsItem>, top: seq<NewsItem>, extract: string -> Option<string>)
    requires RankedFrom(pool, top)
    ensures var done := Enrich(top, extract); ReportFrom(pool, done.items, done.requested)
  {
    var done := Enrich(top, extract);
    EnrichedShape(top, extract);
    SummariesReplaced(pool, top, done.items, done.requested);
  }

  /** Dedup, rank and the summary pass turn a pool of scored records into a report. */
  lemma TopShape(pool: seq<NewsItem>, fetchPage: string -> ArticlePage)
    requires forall x :: x in pool ==> BaseScore <= x.heatScore <= 230
    ensures var done := Enrich(Rank(Dedup(pool)), Extractor(fetchPage)); ReportFrom(pool, done.items, done.requested)
  {
    RankedShape(pool);
    EnrichedReport(pool, Rank(Dedup(pool)), Extractor(fetchPage));
  }

  /** Whenever the daily run produces a report, the report keeps those promises. */
  lemma ReportShape(search: string -> SearchResponse, resolve: string -> string,
                    fetchPage: string -> ArticlePage, today: string)
    ensures var out := GenerateReport(search, resolve, fetchPage, today);
      out.Report? ==> ReportFrom(Collect(SearchKeywords, DailyCrawl(search, resolve, today)), out.items, out.requested)
  {
    var pool := Collect(SearchKeywords, DailyCrawl(search, resolve, today));
    if pool != [] {
      PoolScoresInRange(search, resolve, today);
      TopShape(pool, fetchPage);
    }
  }

  /** An empty pool is the only way to get no report: a pool whose every record lacks a url
      still yields a report, with no records. */
  lemma UrllessPoolGivesEmptyReport(search: string -> SearchResponse, resolve: string -> string,
                                    fetchPage: string -> ArticlePage, today: string)
    requires var pool := Collect(SearchKeywords, DailyCrawl(search, resolve, today));
      pool != [] && forall k :: 0 <= k < |pool| ==> pool[k].url == ""
    ensures GenerateReport(search, resolve, fetchPage, today) == Report([], [])
  {
    DedupEmptyIff(Collect(SearchKeywords, DailyCrawl(search, resolve, today)));
  }

  /** The daily run as the source writes it: the collecting loop, the dedup loop, the sort
      and cut, and the summary loop. */
  method GenerateDailyReport(search: string -> SearchResponse, resolve: string -> string,
                             fetchPage: string -> ArticlePage, today: string)
    returns (out: ReportOutcome)
    ensures out == GenerateReport(search, resolve, fetchPage, today)
  {
    var pool := FetchWechatNews(SearchKeywords, DailyCrawl(search, resolve, today));
    if pool == [] {
      return NothingCollected;
    }
    var unique := DeduplicateNews(pool);
    var top := Rank(unique);
    var items, requested := EnrichTopNews(top, Extractor(fetchPage));
    out := Report(items, requested);
  }
}

/** `fetch_wechat_news`: one search per keyword, in the declared order; every listed
    article that has a title becomes a scored record. The search page is an oracle
    (`search`), and so is the standard-library URL join (`resolve`). */
module Collector {
  import opened Wrappers
  import opened Strings
  import opened Heat
  import opened News

  /** The keywords searched, in order. */
  const SearchKeywords: seq<string> := ["大模型", "ChatGPT", "GPT", "人工智能 大模型", "LLM"]

  const UnknownAccount: string := "未知公众号"
  const DefaultPubTime: string := "今天"

  /** One entry of the result list, as the page parser sees it. `title` is None when the
      entry has no "h3 a"/"h4 a" link; `href` is "" when the link has none; `account` and
      `pubTime` are None when the element is absent; `summary` is the summary text (or the
      entry's remaining text). `Broken` is an entry whose processing raised. */
  datatype RawArticle =
    | Listing(title: Option<string>, href: string, account: Option<string>, pubTime: Option<string>, summary: string)
    | Broken

  /** What one search request produced: it raised, or it returned a status, a body and
      the entries of the first result selector that found any. */
  datatype SearchResponse =
    | RequestFailed
    | Response(status: int, body: string, listings: seq<RawArticle>)

  /** The collaborators of one collection run: the search page for a keyword, the URL
      join for site-relative links, the heat-scoring function (`calculate_wechat_heat` in
      the daily run) and the run's date. */
  datatype Crawl = Crawl(
    search: string -> SearchResponse,
    resolve: string -> string,
    score: (string, string, string, string) -> int,
    today: string)

  datatype SkipReason = BadStatus(status: int) | CaptchaRequired | NoListings | RequestError

  datatype KeywordResult = Skipped(reason: SkipReason) | Listed(articles: seq<RawArticle>)

  /** The page asks for a captcha. */
  predicate CaptchaShown(body: string) {
    Contains(body, "验证码") || Contains(body, "请输入验证码")
  }

  /** The second captcha probe can never fire without the first: "请输入验证码" contains "验证码". */
  lemma CaptchaSecondProbeRedundant(body: string)
    ensures CaptchaShown(body) <==> Contains(body, "验证码")
  {
    var longer := "请输入验证码";
    assert longer[3..6] == "验证码";
    ContainsSlice(longer, 3, 6);
    if Contains(body, longer) {
      ContainsTransitive(body, longer, "验证码");
    }
  }

  /** The checks of one keyword's response, in source order: status, captcha, empty list.
      A keyword yields articles only when all three pass. */
  function Classify(response: SearchResponse): (k: KeywordResult)
    ensures k.Listed? <==>
      response.Response? && response.status == 200 && !CaptchaShown(response.body) && |response.listings| > 0
    ensures k.Listed? ==> k.articles == response.listings
  {
    match response
    case RequestFailed => Skipped(RequestError)
    case Response(status, body, listings) =>
      if status != 200 then Skipped(BadStatus(status))
      else if CaptchaShown(body) then Skipped(CaptchaRequired)
      else if |listings| == 0 then Skipped(NoListings)
      else Listed(listings)
  }

  /** Site-relative links are joined onto the search host; others are kept. */
  function ResolveUrl(href: string, resolve: string -> string): string {
    if "/" <= href then resolve(href) else href
  }

  function SourceOf(a: RawArticle): string
    requires a.Listing?
  {
    a.account.GetOr(UnknownAccount)
  }

  /** A missing or empty time text is read as "今天". */
  function PubTimeOf(a: RawArticle): string
    requires a.Listing?
  {
    if a.pubTime.Some? && a.pubTime.value != "" then a.pubTime.value else DefaultPubTime
  }

  /** The record built from one entry, scored with the keyword that fetched it; None for an
      entry without a title or whose processing raised. */
  function ToItem(a: RawArticle, keyword: string, env: Crawl): (r: Option<NewsItem>)
    ensures r.Some? <==> a.Listing? && a.title.Some?
    ensures r.Some? ==>
      && r.value.title == a.title.value
      && r.value.url == ResolveUrl(a.href, env.resolve)
      && r.value.source == SourceOf(a)
      && r.value.date == env.today
      && r.value.summary == Some(a.summary)
      && r.value.heatScore == env.score(SourceOf(a), a.title.value, PubTimeOf(a), keyword)
  {
    match a
    case Broken => None
    case Listing(title, href, _, _, summary) =>
      if title.None? then None
      else
        var source := SourceOf(a);
        Some(NewsItem(title.value, ResolveUrl(href, env.resolve), source, env.today, Some(summary),
                      env.score(source, title.value, PubTimeOf(a), keyword)))
  }

  /** The records one keyword's entries yield, in entry order. */
  function Harvest(keyword: string, articles: seq<RawArticle>, env: Crawl): (r: seq<NewsItem>)
    ensures |r| <= |articles|
    decreases |articles|
  {
    if |articles| == 0 then []
    else
      var earlier := Harvest(keyword, articles[..|articles| - 1], env);
      match ToItem(articles[|articles| - 1], keyword, env)
      case None => earlier
      case Some(x) => earlier + [x]
  }

  /** Every harvested record comes from one of the keyword's entries, and every entry with
      a title yields a harvested record: entries are skipped only when untitled or broken. */
  lemma {:induction false} HarvestProvenance(keyword: string, articles: seq<RawArticle>, env: Crawl)
    ensures forall x :: x in Harvest(keyword, articles, env) ==>
      exists a :: a in articles && ToItem(a, keyword, env) == Some(x)
    ensures forall a :: a in articles && a.Listing? && a.title.Some? ==>
      ToItem(a, keyword, env).value in Harvest(keyword, articles, env)
    decreases |articles|
  {
    if |articles| > 0 {
      var front := articles[..|articles| - 1];
      var last := articles[|articles| - 1];
      assert forall a :: a in articles <==> a in front || a == last;
      HarvestProvenance(keyword, front, env);
    }
  }

  /** One unfolding of `Harvest`: the last entry's record, if any, comes last. */
  lemma HarvestLast(keyword: string, articles: seq<RawArticle>, env: Crawl)
    requires |articles| > 0
    ensures Harvest(keyword, articles, env) ==
      Harvest(keyword, articles[..|articles| - 1], env) + Harvest(keyword, [articles[|articles| - 1]], env)
  {
    assert [articles[|articles| - 1]][..0] == [];
  }

  /** A single entry yields its own record when it has a title, and nothing otherwise. */
  lemma HarvestSingle(keyword: string, a: RawArticle, env: Crawl)
    ensures Harvest(keyword, [a], env) == if ToItem(a, keyword, env).Some? then [ToItem(a, keyword, env).value] else []
  {
    assert [a][..0] == [];
  }

  /** Entries are harvested in order: harvesting two runs of entries in turn is harvesting
      their concatenation. */
  lemma {:induction false} HarvestAppend(keyword: string, a: seq<RawArticle>, b: seq<RawArticle>, env: Crawl)
    ensures Harvest(keyword, a + b, env) == Harvest(keyword, a, env) + Harvest(keyword, b, env)
    decreases |b|
  {
    if |b| == 0 {
      assert a + b == a;
    } else {
      var b', last := b[..|b| - 1], b[|b| - 1];
      assert (a + b)[..|a + b| - 1] == a + b';
      assert (a + b)[|a + b| - 1] == last;
      HarvestLast(keyword, a + b, env);
      HarvestLast(keyword, b, env);
      HarvestAppend(keyword, a, b', env);
      AppendAssociative(Harvest(keyword, a, env), Harvest(keyword, b', env), Harvest(keyword, [last], env));
    }
  }

  /** What one keyword contributes to the pool: nothing when its search was skipped. */
  function Gather(keyword: string, env: Crawl): (r: seq<NewsItem>)
    ensures r != [] ==>
      && env.search(keyword).Response? && env.search(keyword).status == 200
      && !CaptchaShown(env.search(keyword).body)
      && |r| <= |env.search(keyword).listings|
  {
    match Classify(env.search(keyword))
    case Skipped(_) => []
    case Listed(articles) => Harvest(keyword, articles, env)
  }

  /** The candidate pool: the keywords' contributions concatenated in keyword order. */
  function Collect(keywords: seq<string>, env: Crawl): (pool: seq<NewsItem>)
    ensures |keywords| > 0 ==> Gather(keywords[0], env) <= pool
    decreases |keywords|
  {
    if |keywords| == 0 then []
    else
      var front := keywords[..|keywords| - 1];
      assert |front| > 0 ==> front[0] == keywords[0];
      Collect(front, env) + Gather(keywords[|keywords| - 1], env)
  }

  /** Every pooled record was fetched by one of the keywords, is dated today and carries a
      summary. How it was scored is stated by `GatherScoresWithFetchingKeyword` and, for the
      daily run, by `DailyReport.PoolScoresInRange`. */
  lemma {:induction false} CollectProvenance(keywords: seq<string>, env: Crawl)
    ensures forall x :: x in Collect(keywords, env) ==>
      exists i :: 0 <= i < |keywords| && x in Gather(keywords[i], env)
    ensures forall x :: x in Collect(keywords, env) ==>
      x.date == env.today && x.summary.Some?
    decreases |keywords|
  {
    if |keywords| > 0 {
      var front := keywords[..|keywords| - 1];
      var k := keywords[|keywords| - 1];
      CollectProvenance(front, env);
      assert forall i :: 0 <= i < |front| ==> front[i] == keywords[i];
      var outcome := Classify(env.search(k));
      if outcome.Listed? {
        HarvestProvenance(k, outcome.articles, env);
      }
    }
  }

  /** A record fetched for keyword `k` has the heat score of its entry's account, title and
      time text against `k` itself, not against any other keyword. */
  lemma GatherScoresWithFetchingKeyword(k: string, env: Crawl, x: NewsItem)
    requires x in Gather(k, env)
    ensures exists a: RawArticle ::
      && a in env.search(k).listings && a.Listing? && a.title.Some? && x.title == a.title.value
      && x.heatScore == env.score(SourceOf(a), a.title.value, PubTimeOf(a), k)
  {
    var outcome := Classify(env.search(k));
    HarvestProvenance(k, outcome.articles, env);
    var a :| a in outcome.articles && ToItem(a, k, env) == Some(x);
  }

  /** Collecting over two keyword lists in turn is collecting over their concatenation. */
  lemma {:induction false} CollectAppend(a: seq<string>, b: seq<string>, env: Crawl)
    ensures Collect(a + b, env) == Collect(a, env) + Collect(b, env)
    decreases |b|
  {
    if |b| == 0 {
      assert a + b == a;
    } else {
      var b', last := b[..|b| - 1], b[|b| - 1];
      assert (a + b)[..|a + b| - 1] == a + b';
      assert (a + b)[|a + b| - 1] == last;
      CollectLast(a + b, env);
      CollectLast(b, env);
      CollectAppend(a, b', env);
      AppendAssociative(Collect(a, env), Collect(b', env), Gather(last, env));
    }
  }

  /** One unfolding of `Collect`: the last keyword's contribution comes last. */
  lemma CollectLast(keywords: seq<string>, env: Crawl)
    requires |keywords| > 0
    ensures Collect(keywords, env) == Collect(keywords[..|keywords| - 1], env) + Gather(keywords[|keywords| - 1], env)
  {
  }

  lemma AppendAssociative(x: seq<NewsItem>, y: seq<NewsItem>, z: seq<NewsItem>)
    ensures (x + y) + z == x + (y + z)
  {
  }

  lemma GatherSkipped(keyword: string, env: Crawl)
    requires Classify(env.search(keyword)).Skipped?
    ensures Gather(keyword, env) == []
  {
  }

  /** A keyword whose search failed, hit a captcha or listed nothing contributes nothing and
      does not stop the keywords after it. */
  lemma CollectSkipsFailedKeyword(before: seq<string>, keyword: string, after: seq<string>, env: Crawl)
    requires Classify(env.search(keyword)).Skipped?
    ensures Collect(before + [keyword] + after, env) == Collect(before, env) + Collect(after, env)
  {
    assert Collect(before + [keyword] + after, env) == Collect(before + [keyword], env) + Collect(after, env) by {
      CollectAppend(before + [keyword], after, env);
    }
    assert Collect(before + [keyword], env) == Collect(before, env) by {
      CollectAppend(before, [keyword], env);
      CollectSingle(keyword, env);
      GatherSkipped(keyword, env);
    }
  }

  lemma CollectSingle(keyword: string, env: Crawl)
    ensures Collect([keyword], env) == Gather(keyword, env)
  {
    assert [keyword][..0] == [];
  }

  lemma CollectStep(keywords: seq<string>, i: nat, env: Crawl)
    requires i < |keywords|
    ensures Collect(keywords[..i + 1], env) ==
      Collect(keywords[..i], env) + Gather(keywords[i], env)
  {
    assert keywords[..i + 1][..i] == keywords[..i];
  }

  lemma HarvestStep(keyword: string, articles: seq<RawArticle>, j: nat, env: Crawl)
    requires j < |articles|
    ensures Harvest(keyword, articles[..j + 1], env) ==
      Harvest(keyword, articles[..j], env) +
      (match ToItem(articles[j], keyword, env) case None => [] case Some(x) => [x])
  {
    assert articles[..j + 1][..j] == articles[..j];
  }

  /** The per-entry loop of `fetch_wechat_news` for one keyword. */
  method HarvestListings(keyword: string, articles: seq<RawArticle>, env: Crawl)
    returns (items: seq<NewsItem>)
    ensures items == Harvest(keyword, articles, env)
  {
    items := [];
    var j := 0;
    while j < |articles|
      invariant 0 <= j <= |articles|
      invariant items == Harvest(keyword, articles[..j], env)
    {
      HarvestStep(keyword, articles, j, env);
      var item := ToItem(articles[j], keyword, env);
      if item.Some? {
        items := items + [item.value];
      }
      j := j + 1;
    }
    assert articles[..|articles|] == articles;
  }

  /** The keyword loop of `fetch_wechat_news`: a skipped keyword adds nothing and the loop
      goes on; it builds exactly the pool `Collect` describes. */
  method FetchWechatNews(keywords: seq<string>, env: Crawl)
    returns (pool: seq<NewsItem>)
    ensures pool == Collect(keywords, env)
  {
    pool := [];
    var i := 0;
    while i < |keywords|
      invariant 0 <= i <= |keywords|
      invariant pool == Collect(keywords[..i], env)
    {
      var keyword := keywords[i];
      CollectStep(keywords, i, env);
      var outcome := Classify(env.search(keyword));
      if outcome.Listed? {
        var found := HarvestListings(keyword, outcome.articles, env);
        pool := pool + found;
      }
      i := i + 1;
    }
    assert keywords[..|keywords|] == keywords;
  }
}

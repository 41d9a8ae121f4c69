# Daily large-model news report: a Dafny model

`news_crawler.py` builds a daily report of WeChat articles about large models. It runs in five steps:

1. It searches Sogou WeChat for each of five keywords.
2. It scores every listed article with `calculate_wechat_heat`.
3. It drops repeated urls and titles.
4. It sorts by heat score with a stable descending sort and keeps the top ten.
5. For records whose summary is missing or short, it fetches the article page and extracts a better summary.

This project models that decision logic as pure functions over sequences. It proves what each step promises.

| file | module | models |
|---|---|---|
| `wrappers.dfy` | `Wrappers` | `Option` |
| `sequences.dfy` | `Sequences` | in-order subsequences |
| `strings.dfy` | `Strings` | Python's substring test `in`, `\d` digits and `int()`, `" ".join`, `s[:200] + "..."` |
| `heat.dfy` | `Heat` | `calculate_wechat_heat`, including the `(\d+)小时` search |
| `news.dfy` | `News` | `NewsItem` and its identity keys |
| `collector.dfy` | `Collector` | the keyword and article loops of `fetch_wechat_news` |
| `dedup.dfy` | `Deduplication` | the url/title dedup pass |
| `ranking.dfy` | `Ranking` | `sorted(..., key=heat_score, reverse=True)[:10]` |
| `extraction.dfy` | `Extraction` | the text logic of `extract_wechat_article_summary` |
| `enrichment.dfy` | `Enrichment` | the summary refresh loop |
| `report.dfy` | `DailyReport` | `generate_daily_report` up to the CSV output |

Abstractions used throughout:

- **Collaborators are oracles.** The search page, the URL join, the article page fetch and the clock are parameters. The `Crawl` datatype carries the search page, the URL join, the scorer and the run date. The daily run instantiates the scorer with `Heat.WechatHeat`. The article page fetch is a separate parameter of `DailyReport.GenerateReport`.
- **Parsing happens before the model.** What BeautifulSoup yields is given already parsed:
  - A search result entry is a `RawArticle`: an optional title, an href, an optional account, an optional time text and a summary. `Broken` stands for an entry whose processing raised.
  - An article page is a status plus the content regions matched, in selector order, with their paragraph texts and whole text.
- **Loops are checked against functions.** The keyword loop, the listing loop, the dedup loop and the summary loop are each written as a Dafny method with loop invariants. Each method is proved to compute exactly its functional definition, and the properties are proved about the functional definition. The selector loop and the paragraph loop of the summary extraction stop early, so they are written only as the recursive functions `Extraction.FromRegions` and `Extraction.PickParagraphs`.

## Model

| member | source | states |
|---|---|---|
| Heat.FirstHit | news_crawler.py:531-534 | The index returned is the first table entry whose word is a substring of the text, or the table length when none is. |
| Heat.AccountBonus | news_crawler.py:510-541 | The bonus is one of 0, 10, 20, 25, 30. The first famous account, in table order, contained in the name gives its own weight. Only when no famous account matches does a media keyword give 10. Otherwise the bonus is 0. |
| Heat.FamousWeightsDescending | news_crawler.py:513-528 | The famous-account weights are listed in non-increasing order. |
| Heat.AccountBonusIsHeaviestMatch | news_crawler.py:531-534 | The bonus is at least the weight of any famous account the name contains, so the first match is also the heaviest. |
| Heat.AccountBonusMonotone | news_crawler.py:531-541 | A name containing every table word another name contains earns at least that name's bonus. |
| Heat.MediaAccountBonus | news_crawler.py:535-541 | A name containing a media keyword earns at least 10, whichever branch fires. |
| Heat.MatchedWeightBounded | news_crawler.py:562-564 | The title weights collected never exceed the sum of all table weights. |
| Heat.MatchedWeightAppend | news_crawler.py:562-564 | Title weights are additive over a split of the table. |
| Heat.EntryContributesIndependently | news_crawler.py:562-564 | Each title keyword adds its weight exactly when it is a substring of the title, independently of the other entries. |
| Heat.MatchedWeightMonotone | news_crawler.py:562-564 | A title containing every keyword another title contains collects at least that title's weight. |
| Heat.TitleBonus | news_crawler.py:544-564 | The title bonus is at most 125, the sum of the table. |
| Heat.DigitRun | news_crawler.py:575 | It returns the length of the leading run of `\d` characters: everything before it is a digit, and the next character is not. |
| Heat.ParseHours | news_crawler.py:575-577 | `re.search(r'(\d+)小时')` plus `int()`: the value of the leftmost digit run directly followed by "小时", None when there is none. Its own contract states that a parsed hour count implies the text contains "小时"; the value and the None case are fixed by the two lemmas below. |
| Heat.ParseHoursNoneIffNoMatch | news_crawler.py:575-576 | The hour parse fails exactly when the text has no digit run followed by "小时". |
| Heat.ParseHoursIsLeftmostMatch | news_crawler.py:575-577 | A successful parse is the decimal value of the leftmost such digit run, as `re.search` finds it. |
| Heat.ParseHoursRoundTrip | news_crawler.py:575-577 | For a digit-free prefix, the hour count written before "小时" is parsed back exactly. |
| Heat.TimeBonus | news_crawler.py:570-585 | The time bonus is one of 0, 5, 10, 15, 20. The words are tested in the order "今天", "小时", "分钟", "昨天", and the first one present decides:<br>- "今天" gives 20;<br>- "小时" gives 15 for a parsed hour count of at most 6, 10 for a larger one, and 0 when no count parses;<br>- "分钟" gives 20;<br>- "昨天" gives 5;<br>- none of the four gives 0. |
| Heat.TimeBonusUnmatchedHours | news_crawler.py:573-576 | A text with "小时" but no `(\d+)小时` match anywhere, and no "今天", earns 0. |
| Heat.HalfHourAgoBonus | news_crawler.py:573-581 | "半小时前" has no hour count, so it earns 0, less than the 15 of "1小时前". |
| Heat.MinutesAgoBonus | news_crawler.py:582-583 | "N分钟前" earns 20 for every N. |
| Heat.YesterdayBonus | news_crawler.py:584-585 | "昨天" alone earns 5. |
| Heat.JustNowBonus | news_crawler.py:570-585 | "刚刚" matches none of the four words and earns 0, less than the 5 of "昨天". |
| Heat.HoursAgoBonus | news_crawler.py:573-581 | "N小时前" earns 15 when N is at most 6 and 10 otherwise. |
| Heat.HoursAgoBonusMonotone | news_crawler.py:573-581 | For "N小时前", an older article never earns more. |
| Heat.WechatHeat | news_crawler.py:508-587 | The score is never clamped and always lies in [40, 230]. |
| Heat.SearchKeywordBonusExact | news_crawler.py:566-568 | A search keyword found in the title scores exactly 15 more than one not found. |
| Heat.WechatHeatMonotone | news_crawler.py:508-587 | With the time text fixed, an account name and title that contain every weighted word the others contain score at least as much. |
| Collector.CaptchaSecondProbeRedundant | news_crawler.py:421 | The captcha test holds exactly when the body contains "验证码", so the second probe is redundant. |
| Collector.Classify | news_crawler.py:411-433 | A keyword yields articles exactly when the request succeeded, the status is 200, no captcha is shown and the listing is non-empty. The articles yielded are the listing. |
| Collector.ToItem | news_crawler.py:437-494 | An entry yields a record exactly when it has a title. The record's fields are:<br>- the url, joined onto the host when it starts with "/";<br>- the account, else "未知公众号";<br>- today's date and the summary;<br>- the score of account, title, time text (else "今天") and the fetching keyword. |
| Collector.Harvest | news_crawler.py:437-497 | One keyword yields at most as many records as it has entries. |
| Collector.HarvestSingle | news_crawler.py:437-494 | One entry yields exactly its own record when it has a title, and nothing otherwise. |
| Collector.HarvestAppend | news_crawler.py:437-494 | Records keep the order of their entries: harvesting two runs of entries in turn is harvesting their concatenation. With `HarvestSingle`, a keyword's records are its titled entries' records, one each, in entry order. |
| Collector.HarvestProvenance | news_crawler.py:437-497 | Every harvested record comes from one of the keyword's entries. Every titled entry yields a harvested record. |
| Collector.CollectProvenance | news_crawler.py:383-503 | Every pooled record was gathered by one of the keywords, is dated today and carries a summary. |
| Collector.Gather | news_crawler.py:384-503 | One keyword's contribution: it contributes records only when its search returned status 200 without a captcha page, and at most one record per listed entry. |
| Collector.Collect | news_crawler.py:383-506 | The pool is the keywords' contributions concatenated in keyword order; its contract states that the first keyword's records open the pool. |
| Collector.GatherScoresWithFetchingKeyword | news_crawler.py:482 | A pooled record's score is the scorer applied to its entry and to the keyword that fetched it. |
| Collector.CollectAppend | news_crawler.py:383-503 | The pool is built in keyword order: collecting over a concatenation of keyword lists concatenates the pools. |
| Collector.CollectSkipsFailedKeyword | news_crawler.py:414-433 | A failed, captcha-blocked or empty keyword contributes nothing and does not stop the keywords after it. |
| Collector.HarvestListings | news_crawler.py:437-497 | The per-entry loop builds exactly `Harvest`. |
| Collector.FetchWechatNews | news_crawler.py:381-506 | The keyword loop builds exactly `Collect`. |
| Deduplication.Dedup | news_crawler.py:673-682 | The kept records are a subsequence of the pool. No url or title repeats, and every url is non-empty. |
| Deduplication.DedupKeepsDistinct | news_crawler.py:673-682 | A list with no repeats and no empty url passes through unchanged. |
| Deduplication.DedupIdempotent | news_crawler.py:673-682 | Deduplicating the output again changes nothing. |
| Deduplication.DedupCovers | news_crawler.py:678 | Every record with a url shares its url or title with some kept record, so nothing is dropped needlessly. |
| Deduplication.DedupEmptyIff | news_crawler.py:673-682 | Nothing is kept exactly when no record has a url. |
| Deduplication.DedupPrefixStable | news_crawler.py:677-682 | First seen wins: what is kept from a prefix of the pool is a prefix of what is kept from the whole pool. |
| Deduplication.DedupTitleCollision | news_crawler.py:678 | Of two records with the same title, when the first has a url, only the first is kept, whatever the second's url. |
| Deduplication.DroppedRecordDoesNotBlock | news_crawler.py:678-681 | A record dropped for its title does not block a later record with its url, because only kept records update the seen sets. |
| Deduplication.DeduplicateNews | news_crawler.py:673-682 | The loop with its two seen sets computes exactly `Dedup`. |
| Ranking.InsertByHeat | news_crawler.py:687 | Insertion adds exactly one record: it is a permutation of the input plus that record. |
| Ranking.SortByHeat | news_crawler.py:687 | The sorted list is a permutation of the input. |
| Ranking.SortByHeatOrdered | news_crawler.py:687 | The sorted list has non-increasing heat scores. |
| Ranking.SortByHeatKeepsDistinct | news_crawler.py:687 | Sorting a list without repeated urls or titles keeps it so. |
| Ranking.SortKeepsTies | news_crawler.py:687 | Stability: for every score, the records with that score appear in the same order as in the input. |
| Ranking.StableSortUnique | news_crawler.py:687 | Two lists sorted descending that agree on the order within every score are equal. |
| Ranking.SortByHeatIsTheStableSort | news_crawler.py:687 | Any list sorted descending that keeps the input order within every score is exactly the sort. |
| Ranking.Rank | news_crawler.py:687-690 | The result has min(10, n) records and is sorted. It is a sub-multiset of the unique records. Every record left out scores no higher than any record kept. For every score, the records kept with that score are the earliest ones with that score in input order, in that order. No url or title repeats. |
| Extraction.PickParagraphs | news_crawler.py:630-636 | The scan takes at most `room` paragraphs, each longer than 10 characters, in order. With room left, it takes none exactly when no paragraph is long enough. |
| Extraction.PickIsPrefixOfLong | news_crawler.py:630-636 | The scan with early exit takes exactly the first `room` long paragraphs. |
| Extraction.SelectIsFirstThreeLong | news_crawler.py:630-636 | The summary is made of the first three paragraphs longer than 10 characters. |
| Extraction.RegionSummary | news_crawler.py:627-649 | A region yields:<br>- the selected paragraphs joined by one space and truncated to 200 characters plus "...";<br>- otherwise its whole text, truncated the same way;<br>- None only when both are empty.<br>A result is never empty and has at most 203 characters. |
| Extraction.FromRegions | news_crawler.py:619-651 | The result is a non-empty text of at most 203 characters. |
| Extraction.FromRegionsFirstWins | news_crawler.py:619-649 | The first region in selector order that yields a summary decides. |
| Extraction.FromRegionsNoneUnavailable | news_crawler.py:651 | When no region yields text, the result is "无法提取微信文章摘要". |
| Extraction.FromRegionsSource | news_crawler.py:619-651 | Any other result is the summary of some region, and every earlier region yields none. |
| Extraction.ExtractSummary | news_crawler.py:602-655 | The result is:<br>- None for a non-200 status;<br>- "提取微信文章摘要时出错" when the request or the parse raised;<br>- otherwise the region result.<br>A present result has 1 to 203 characters. |
| Strings.Truncate | news_crawler.py:640-649 | A text of at most the limit is unchanged. A longer one becomes its first `limit` characters followed by "...". |
| Strings.JoinShape | news_crawler.py:639 | A join has the parts' total length plus one separator between each pair of parts, and starts with the first part. |
| Strings.DecimalRoundTrip | news_crawler.py:577 | `int()` of the decimal digits of n is n. |
| Enrichment.Enrich | news_crawler.py:693-712 | The pass keeps the list length, and every request is a position in the list. |
| Enrichment.EnrichItems | news_crawler.py:693-709 | Every record is refreshed in place, at its own position. |
| Enrichment.EnrichKeepsKeys | news_crawler.py:693-709 | Title, url, source, date and heat score of every record are unchanged, and so is the order. |
| Enrichment.EnrichSummaries | news_crawler.py:697-702 | A summary changes exactly when it was missing or shorter than 30 characters and the extractor returned a non-empty text that is not a sentinel. It then becomes exactly that text. |
| Enrichment.ShortPositionsExact | news_crawler.py:697 | The positions listed are increasing, and they are exactly those of the records whose summary is missing or short. |
| Enrichment.EnrichRequests | news_crawler.py:697-700 | Pages are requested in record order, at most once per record, for exactly the records whose summary is missing or short. |
| Enrichment.EnrichTopNews | news_crawler.py:693-712 | The loop computes exactly `Enrich`. |
| DailyReport.GenerateReport | news_crawler.py:666-670 | Apart from a failed CSV write (:741-743), which is left out with the CSV sink, no report is produced exactly when the collected pool is empty. |
| DailyReport.PoolScoresInRange | news_crawler.py:482 | Every pooled record carries a `calculate_wechat_heat` score, so its score is in [40, 230]. |
| DailyReport.RankedShape | news_crawler.py:673-690 | The ranked records number at most ten, are sorted, repeat no url or title, have urls and in-range scores, and are pooled records. |
| DailyReport.ReportShape | news_crawler.py:653-712 | A produced report:<br>- lists at most ten records, sorted by heat;<br>- repeats no url or title and has no empty url;<br>- has scores in [40, 230];<br>- holds only collected articles, with at most the summary changed;<br>- requests pages in report order, at most once per record. |
| DailyReport.UrllessPoolGivesEmptyReport | news_crawler.py:669-682 | A non-empty pool in which no record has a url still yields a report, with no records. |
| DailyReport.GenerateDailyReport | news_crawler.py:653-712 | The sequence of loops computes exactly `GenerateReport`. |

## Left out

- HTTP requests, headers, user-agent choice, timeouts and `response.encoding`: network I/O. The search page and the article page are oracle parameters.
- BeautifulSoup selectors and DOM edits are given as already parsed data. These are the entry fields, the fallback selectors, removing title and account nodes for the fallback summary, and removing script and style tags.
- `urljoin` is a parameter, applied only to hrefs that start with "/".
- `datetime.now()` is the `today` parameter, read once for the whole run.
- Collector.CollectProvenance: every record is dated with the one `today` of the run. The code reads the clock again for each article and once more for the report date, so a run that crosses midnight, with records dated on two days, is not modelled.
- `time.sleep(random.uniform(...))` and the `schedule` loop: timing and randomness, with no functional behaviour.
- The CSV file, the Server酱 push, the log lines and argparse/global key handling: output sinks and CLI plumbing.
- `fetch_baidu_news`, `fetch_sina_news`, `get_article_summary` and `extract_baidu_article_summary` are never called by `generate_daily_report`.
- `extract_keywords` (jieba) and the nltk setup: foreign libraries not used by the report.
- Heat.ParseHours: `\d` is modelled as the ASCII digits only. Python's `\d` also matches other Unicode decimal digits.
- Heat.WechatHeat: the score is the unclamped sum of the base, account, title, keyword and recency bonuses, in [40, 230]. Recency uses stepped buckets; there is no ceiling and no linear decay. The buckets are not monotone in elapsed time: "刚刚" earns 0, less than the 5 of "昨天" (`Heat.JustNowBonus`), and "半小时前" earns 0, less than the 15 of "1小时前" (`Heat.HalfHourAgoBonus`). Famous accounts and media words are matched by substring (news_crawler.py:532 and :539), not by equality.
- Deduplication.Dedup: a record with an empty url is always dropped, because the keep test ends with `and item.url`. It is never kept on its title alone.
- DailyReport.GenerateReport: an empty collected pool is the only modelled way to get no report, because the emptiness test comes before dedup. A pool that dedup empties still gives a report with no records. The source also returns None when writing the CSV file raises (news_crawler.py:741-743); that path is left out with the CSV sink.
- Enrichment.Enrich: the outer `try/except` around one record's extraction is not modelled. `extract_wechat_article_summary` already catches every exception itself and returns the error sentinel, which `Extraction.ExtractSummary` models as `Failed`.

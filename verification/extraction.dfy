/** `extract_wechat_article_summary`: the summary text taken from an article page. The
    page request and the HTML parser are abstracted: a page is the response status and,
    for each content selector that matched, the region's paragraph texts and whole text
    (all already stripped, scripts and styles removed). */
module Extraction {
  import opened Wrappers
  import opened Sequences
  import opened Strings

  /** Returned when no content region yields any text. */
  const Unavailable: string := "无法提取微信文章摘要"
  /** Returned when fetching or parsing the page raised. */
  const ExtractError: string := "提取微信文章摘要时出错"

  /** Paragraphs of at most this many characters are ignored. */
  const MinParagraph: nat := 10
  /** At most this many paragraphs make up a summary. */
  const MaxParagraphs: nat := 3
  /** Longer summaries are cut to this many characters and "..." is appended. */
  const SummaryLimit: nat := 200

  /** The element a content selector matched: the stripped text of each `p` inside it, in
      document order, and its whole stripped text. */
  datatype ContentRegion = ContentRegion(paragraphs: seq<string>, text: string)

  /** What the page request produced. `regions` holds the matched elements in the order of
      the selectors "#js_content", ".rich_media_content", "div.rich_media_area_primary",
      "div.rich_media_area_primary_inner", skipping selectors that matched nothing. */
  datatype ArticlePage =
    | Failed
    | Page(status: int, regions: seq<ContentRegion>)

  predicate IsLong(p: string) {
    |p| > MinParagraph
  }

  /** Every paragraph longer than the minimum, in order. */
  function LongParagraphs(ps: seq<string>): seq<string>
    decreases |ps|
  {
    if |ps| == 0 then []
    else (if IsLong(ps[0]) then [ps[0]] else []) + LongParagraphs(ps[1..])
  }

  /** The scan over paragraphs that stops once `room` more paragraphs have been taken. */
  function PickParagraphs(ps: seq<string>, room: nat): (r: seq<string>)
    ensures |r| <= room
    ensures forall k :: 0 <= k < |r| ==> IsLong(r[k])
    ensures IsSubsequence(r, ps)
    ensures room > 0 ==> (|r| == 0 <==> forall k :: 0 <= k < |ps| ==> !IsLong(ps[k]))
    decreases |ps|
  {
    if |ps| == 0 || room == 0 then []
    else if IsLong(ps[0]) then
      var rest := PickParagraphs(ps[1..], room - 1);
      assert ([ps[0]] + rest)[1..] == rest;
      [ps[0]] + rest
    else
      var rest := PickParagraphs(ps[1..], room);
      assert forall k :: 0 < k < |ps| ==> ps[k] == ps[1..][k - 1];
      rest
  }

  /** The paragraphs a summary is made of: the first three that are long enough. */
  function SelectParagraphs(ps: seq<string>): seq<string> {
    PickParagraphs(ps, MaxParagraphs)
  }

  /** The scan with early exit takes exactly the first `room` long paragraphs. */
  lemma {:induction false} PickIsPrefixOfLong(ps: seq<string>, room: nat)
    ensures var long := LongParagraphs(ps);
      PickParagraphs(ps, room) == long[..if |long| < room then |long| else room]
    decreases |ps|
  {
    if |ps| > 0 && room > 0 {
      var long := LongParagraphs(ps);
      var tail := LongParagraphs(ps[1..]);
      if IsLong(ps[0]) {
        PickIsPrefixOfLong(ps[1..], room - 1);
        assert long == [ps[0]] + tail;
        var n := if |tail| < room - 1 then |tail| else room - 1;
        assert long[..n + 1] == [ps[0]] + tail[..n];
      } else {
        PickIsPrefixOfLong(ps[1..], room);
        assert long == tail;
      }
    }
  }

  lemma SelectIsFirstThreeLong(ps: seq<string>)
    ensures var long := LongParagraphs(ps);
      SelectParagraphs(ps) == long[..if |long| < MaxParagraphs then |long| else MaxParagraphs]
  {
    PickIsPrefixOfLong(ps, MaxParagraphs);
  }

  /** The summary one content region yields: the selected paragraphs joined by spaces,
      otherwise the region's whole text, truncated in either case; None when both are empty. */
  function RegionSummary(region: ContentRegion): (r: Option<string>)
    ensures r.Some? ==> 0 < |r.value| <= SummaryLimit + 3
    ensures r.None? <==> SelectParagraphs(region.paragraphs) == [] && region.text == ""
    ensures SelectParagraphs(region.paragraphs) != [] ==>
      r == Some(Truncate(Join(SelectParagraphs(region.paragraphs), " "), SummaryLimit))
    ensures SelectParagraphs(region.paragraphs) == [] && region.text != "" ==>
      r == Some(Truncate(region.text, SummaryLimit))
  {
    var parts := SelectParagraphs(region.paragraphs);
    if parts != [] then
      JoinShape(parts, " ");
      assert |parts[0]| > MinParagraph;
      Some(Truncate(Join(parts, " "), SummaryLimit))
    else if region.text != "" then
      Some(Truncate(region.text, SummaryLimit))
    else
      None
  }

  /** The first region that yields a summary decides; when none does, the page counts as
      having no extractable summary. */
  function FromRegions(regions: seq<ContentRegion>): (r: string)
    ensures 0 < |r| <= SummaryLimit + 3
    decreases |regions|
  {
    if |regions| == 0 then Unavailable
    else match RegionSummary(regions[0])
      case Some(s) => s
      case None => FromRegions(regions[1..])
  }

  /** The result is the summary of the first region that has one. */
  lemma {:induction false} FromRegionsFirstWins(before: seq<ContentRegion>, region: ContentRegion, after: seq<ContentRegion>)
    requires forall k :: 0 <= k < |before| ==> RegionSummary(before[k]).None?
    requires RegionSummary(region).Some?
    ensures FromRegions(before + [region] + after) == RegionSummary(region).value
    decreases |before|
  {
    if |before| > 0 {
      assert (before + [region] + after)[1..] == before[1..] + [region] + after;
      FromRegionsFirstWins(before[1..], region, after);
    } else {
      assert (before + [region] + after)[0] == region;
    }
  }

  /** Without any region that yields text, the page has no extractable summary. */
  lemma {:induction false} FromRegionsNoneUnavailable(regions: seq<ContentRegion>)
    requires forall k :: 0 <= k < |regions| ==> RegionSummary(regions[k]).None?
    ensures FromRegions(regions) == Unavailable
    decreases |regions|
  {
    if |regions| > 0 {
      assert RegionSummary(regions[0]).None?;
      FromRegionsNoneUnavailable(regions[1..]);
    }
  }

  /** The page's summary: None for a non-200 status, the error sentinel when the request
      raised, otherwise the first region's summary or the "unavailable" sentinel. */
  function ExtractSummary(page: ArticlePage): (r: Option<string>)
    ensures page.Failed? ==> r == Some(ExtractError)
    ensures page.Page? && page.status != 200 ==> r.None?
    ensures page.Page? && page.status == 200 ==> r == Some(FromRegions(page.regions))
    ensures r.Some? ==> 0 < |r.value| <= SummaryLimit + 3
  {
    match page
      case Failed => Some(ExtractError)
      case Page(status, regions) =>
        if status != 200 then None else Some(FromRegions(regions))
  }

  /** A summary other than "unavailable" is the summary of some region, and every region
      before that one yields none. */
  lemma {:induction false} FromRegionsSource(regions: seq<ContentRegion>)
    ensures FromRegions(regions) == Unavailable ||
      exists k :: 0 <= k < |regions| && RegionSummary(regions[k]) == Some(FromRegions(regions)) &&
        forall j :: 0 <= j < k ==> RegionSummary(regions[j]).None?
    decreases |regions|
  {
    if |regions| > 0 && RegionSummary(regions[0]).None? {
      var tail := regions[1..];
      FromRegionsSource(tail);
      if FromRegions(tail) != Unavailable {
        var k :| 0 <= k < |tail| && RegionSummary(tail[k]) == Some(FromRegions(tail)) &&
          forall j :: 0 <= j < k ==> RegionSummary(tail[j]).None?;
        assert regions[k + 1] == tail[k];
        assert forall j :: 0 < j < k + 1 ==> regions[j] == tail[j - 1];
      }
    }
  }
}

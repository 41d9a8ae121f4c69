/** The record the crawler builds for each article, and the identity keys used to tell
    records apart. */
module News {
  import opened Wrappers

  /** `NewsItem`: the summary is unset (None) until some stage fills it in; the heat score
      is computed once, when the record is created. */
  datatype NewsItem = NewsItem(
    title: string,
    url: string,
    source: string,
    date: string,
    summary: Option<string>,
    heatScore: int)

  function Urls(items: seq<NewsItem>): set<string> {
    set x | x in items :: x.url
  }

  function Titles(items: seq<NewsItem>): set<string> {
    set x | x in items :: x.title
  }

  /** No two records share a url, and no two share a title. */
  predicate Distinct(items: seq<NewsItem>) {
    forall i, j :: 0 <= i < j < |items| ==> items[i].url != items[j].url && items[i].title != items[j].title
  }

  lemma KeysAppend(items: seq<NewsItem>, x: NewsItem)
    ensures Urls(items + [x]) == Urls(items) + {x.url}
    ensures Titles(items + [x]) == Titles(items) + {x.title}
  {
    assert forall y :: y in items + [x] <==> y in items || y == x;
  }
}

/** The heat score of one WeChat article: a base of 40 plus an account bonus, additive
    title-keyword weights, an exact-search-keyword bonus and a stepped recency bonus.
    The sum is returned as is, with no ceiling. */
module Heat {
  import opened Wrappers
  import opened Strings

  datatype Weighted = Weighted(word: string, weight: nat)

  const BaseScore: nat := 40
  const MediaBonus: nat := 10
  const SearchKeywordBonus: nat := 15

  /** Well-known accounts, in the order the table is scanned. */
  const FamousAccounts: seq<Weighted> := [
    Weighted("腾讯AI实验室", 30),
    Weighted("腾讯研究院", 30),
    Weighted("百度AI", 30),
    Weighted("智源研究院", 25),
    Weighted("AI科技评论", 25),
    Weighted("机器之心", 25),
    Weighted("量子位", 25),
    Weighted("新智元", 25),
    Weighted("人工智能学家", 20),
    Weighted("AIGC", 20),
    Weighted("专知", 20),
    Weighted("AI前线", 20),
    Weighted("AI新媒体联盟", 20),
    Weighted("中国人工智能学会", 20)
  ]

  /** Generic media words that earn the smaller bonus when no famous account matched. */
  const MediaKeywords: seq<string> := ["AI", "人工智能", "科技", "技术", "学院", "研究", "实验室"]

  const TitleKeywords: seq<Weighted> := [
    Weighted("大模型", 15),
    Weighted("GPT-4", 15),
    Weighted("GPT4", 15),
    Weighted("ChatGPT", 15),
    Weighted("LLM", 10),
    Weighted("AIGC", 10),
    Weighted("人工智能", 5),
    Weighted("AI", 5),
    Weighted("模型", 5),
    Weighted("Transformer", 10),
    Weighted("自然语言处理", 5),
    Weighted("NLP", 5),
    Weighted("机器学习", 5),
    Weighted("深度学习", 5)
  ]

  function Words(table: seq<Weighted>): (ws: seq<string>)
    ensures |ws| == |table| && forall i :: 0 <= i < |table| ==> ws[i] == table[i].word
  {
    seq(|table|, i requires 0 <= i < |table| => table[i].word)
  }

  /** The index of the first word contained in `text`, or `|words|` when none is. */
  function FirstHit(words: seq<string>, text: string): (i: nat)
    ensures i <= |words|
    ensures forall j :: 0 <= j < i ==> !Contains(text, words[j])
    ensures i < |words| ==> Contains(text, words[i])
    decreases |words|
  {
    if |words| == 0 then 0
    else if Contains(text, words[0]) then 0
    else 1 + FirstHit(words[1..], text)
  }

  /** Famous entry `i` is the first one, in table order, occurring in the account name. */
  predicate FirstFamousAt(account: string, i: int) {
    0 <= i < |FamousAccounts| && Contains(account, FamousAccounts[i].word) &&
    forall j :: 0 <= j < i ==> !Contains(account, FamousAccounts[j].word)
  }

  predicate NoFamousAccount(account: string) {
    forall i :: 0 <= i < |FamousAccounts| ==> !Contains(account, FamousAccounts[i].word)
  }

  predicate HasMediaKeyword(account: string) {
    exists i :: 0 <= i < |MediaKeywords| && Contains(account, MediaKeywords[i])
  }

  /** Exactly one branch fires: the first famous account occurring in the name gives its
      weight; otherwise any media word gives 10; otherwise 0. */
  function AccountBonus(account: string): (r: nat)
    ensures r in {0, 10, 20, 25, 30}
    ensures forall i :: FirstFamousAt(account, i) ==> r == FamousAccounts[i].weight
    ensures NoFamousAccount(account) && HasMediaKeyword(account) ==> r == MediaBonus
    ensures NoFamousAccount(account) && !HasMediaKeyword(account) ==> r == 0
  {
    var i := FirstHit(Words(FamousAccounts), account);
    if i < |FamousAccounts| then FamousAccounts[i].weight
    else if FirstHit(MediaKeywords, account) < |MediaKeywords| then MediaBonus
    else 0
  }

  /** The famous-account table lists weights in non-increasing order. */
  lemma FamousWeightsDescending()
    ensures forall i, j :: 0 <= i < j < |FamousAccounts| ==> FamousAccounts[i].weight >= FamousAccounts[j].weight
  {
  }

  /** Because the table is ordered by weight, the first match in table order is also the
      heaviest famous account the name contains. */
  lemma AccountBonusIsHeaviestMatch(account: string, i: nat)
    requires i < |FamousAccounts| && Contains(account, FamousAccounts[i].word)
    ensures AccountBonus(account) >= FamousAccounts[i].weight
  {
    FamousWeightsDescending();
    var k := FirstHit(Words(FamousAccounts), account);
    assert k <= i;
    assert FirstFamousAt(account, k);
  }

  /** An account name that contains every table word another name contains earns at least
      the same account bonus. */
  lemma AccountBonusMonotone(a1: string, a2: string)
    requires forall i :: 0 <= i < |FamousAccounts| && Contains(a1, FamousAccounts[i].word) ==>
      Contains(a2, FamousAccounts[i].word)
    requires forall i :: 0 <= i < |MediaKeywords| && Contains(a1, MediaKeywords[i]) ==> Contains(a2, MediaKeywords[i])
    ensures AccountBonus(a1) <= AccountBonus(a2)
  {
    var k := FirstHit(Words(FamousAccounts), a1);
    if k < |FamousAccounts| {
      assert FirstFamousAt(a1, k);
      AccountBonusIsHeaviestMatch(a2, k);
    } else if HasMediaKeyword(a1) {
      var m :| 0 <= m < |MediaKeywords| && Contains(a1, MediaKeywords[m]);
      MediaAccountBonus(a2, m);
    }
  }

  /** A name containing a media word earns at least the media bonus. */
  lemma MediaAccountBonus(account: string, m: nat)
    requires m < |MediaKeywords| && Contains(account, MediaKeywords[m])
    ensures AccountBonus(account) >= MediaBonus
  {
    var k := FirstHit(Words(FamousAccounts), account);
    if k < |FamousAccounts| {
      assert AccountBonus(account) == FamousAccounts[k].weight by {
        assert FirstFamousAt(account, k);
      }
      FamousWeightsAtLeast(k);
    } else {
      assert NoFamousAccount(account) && HasMediaKeyword(account);
    }
  }

  /** Every famous account outweighs the media bonus. */
  lemma FamousWeightsAtLeast(i: nat)
    requires i < |FamousAccounts|
    ensures FamousAccounts[i].weight >= 20
  {
  }

  /** The sum of the weights of all table entries whose word occurs in `text`. */
  function MatchedWeight(table: seq<Weighted>, text: string): nat
    decreases |table|
  {
    if |table| == 0 then 0
    else (if Contains(text, table[0].word) then table[0].weight else 0) + MatchedWeight(table[1..], text)
  }

  function TotalWeight(table: seq<Weighted>): nat
    decreases |table|
  {
    if |table| == 0 then 0 else table[0].weight + TotalWeight(table[1..])
  }

  lemma {:induction false} MatchedWeightBounded(table: seq<Weighted>, text: string)
    ensures MatchedWeight(table, text) <= TotalWeight(table)
    decreases |table|
  {
    if |table| > 0 {
      MatchedWeightBounded(table[1..], text);
    }
  }

  /** Title weights are additive: matching against two tables in turn adds up. */
  lemma {:induction false} MatchedWeightAppend(a: seq<Weighted>, b: seq<Weighted>, text: string)
    ensures MatchedWeight(a + b, text) == MatchedWeight(a, text) + MatchedWeight(b, text)
    decreases |a|
  {
    if |a| == 0 {
      assert a + b == b;
    } else {
      assert (a + b)[0] == a[0];
      assert (a + b)[1..] == a[1..] + b;
      MatchedWeightAppend(a[1..], b, text);
    }
  }

  /** Each entry contributes its weight independently of every other entry. */
  lemma EntryContributesIndependently(table: seq<Weighted>, i: nat, text: string)
    requires i < |table|
    ensures MatchedWeight(table, text) ==
      MatchedWeight(table[..i] + table[i + 1..], text) +
      (if Contains(text, table[i].word) then table[i].weight else 0)
  {
    assert table == table[..i] + ([table[i]] + table[i + 1..]);
    MatchedWeightAppend(table[..i], [table[i]] + table[i + 1..], text);
    MatchedWeightAppend([table[i]], table[i + 1..], text);
    MatchedWeightAppend(table[..i], table[i + 1..], text);
    assert ([table[i]] + table[i + 1..])[1..] == table[i + 1..];
  }

  /** A text that contains every table word another text contains scores at least as much. */
  lemma {:induction false} MatchedWeightMonotone(table: seq<Weighted>, t1: string, t2: string)
    requires forall i :: 0 <= i < |table| && Contains(t1, table[i].word) ==> Contains(t2, table[i].word)
    ensures MatchedWeight(table, t1) <= MatchedWeight(table, t2)
    decreases |table|
  {
    if |table| > 0 {
      assert forall i :: 0 <= i < |table[1..]| ==> table[1..][i] == table[i + 1];
      MatchedWeightMonotone(table[1..], t1, t2);
    }
  }

  function TitleBonus(title: string): (r: nat)
    ensures r <= 125
  {
    MatchedWeightBounded(TitleKeywords, title);
    MatchedWeight(TitleKeywords, title)
  }

  // ---- recency ----------------------------------------------------------

  /** Length of the run of digits at the start of `s`. */
  function DigitRun(s: string): (n: nat)
    ensures n <= |s|
    ensures forall k :: 0 <= k < n ==> IsDigit(s[k])
    ensures n < |s| ==> !IsDigit(s[n])
    decreases |s|
  {
    if |s| == 0 || !IsDigit(s[0]) then 0 else 1 + DigitRun(s[1..])
  }

  /** `re.search(r'(\d+)小时', s)` followed by `int(group(1))`: the value of the first
      run of digits that is immediately followed by "小时". */
  function ParseHours(s: string): (r: Option<nat>)
    ensures r.Some? ==> Contains(s, "小时")
    decreases |s|
  {
    if |s| == 0 then None
    else if !IsDigit(s[0]) then ParseHours(s[1..])
    else
      var n := DigitRun(s);
      if "小时" <= s[n..] then
        assert s[n..n + 2] == "小时";
        ContainsSlice(s, n, n + 2);
        Some(DecimalValue(s[..n]))
      else
        var r := ParseHours(s[n..]);
        if r.Some? then
          assert s[n..|s|] == s[n..];
          ContainsSlice(s, n, |s|);
          ContainsTransitive(s, s[n..], "小时");
          r
        else r
  }

  /** The pattern `(\d+)小时` matches `s` from position `i`, with the digits ending at `j`. */
  ghost predicate HourMatchAt(s: string, i: int, j: int) {
    0 <= i < j <= |s| && (forall k :: i <= k < j ==> IsDigit(s[k])) && "小时" <= s[j..]
  }

  lemma HourMatchShift(s: string, d: nat, i: int, j: int)
    requires d <= |s| && d <= i
    ensures HourMatchAt(s, i, j) <==> HourMatchAt(s[d..], i - d, j - d)
  {
    if 0 <= i < j <= |s| {
      assert s[j..] == s[d..][j - d..];
      assert forall k :: i <= k < j ==> s[k] == s[d..][k - d];
    }
  }

  /** At one start position the digit run of a match can end in only one place. */
  lemma HourMatchEndUnique(s: string, i: int, j1: int, j2: int)
    requires HourMatchAt(s, i, j1) && HourMatchAt(s, i, j2)
    ensures j1 == j2
  {
    assert s[j1] == s[j1..][0] && s[j2] == s[j2..][0];
  }

  /** No match can start inside the digit run at the front of `s` unless it ends where
      that run ends. */
  lemma HourMatchInRun(s: string, n: nat, i: int, j: int)
    requires 0 < |s| && n == DigitRun(s) && 0 <= i < n
    requires HourMatchAt(s, i, j)
    ensures j == n
  {
  }

  /** How far ParseHours advances past the front of `s` when it finds no match there. */
  function Skip(s: string): (d: nat)
    requires |s| > 0
    ensures 1 <= d <= |s|
  {
    if IsDigit(s[0]) then DigitRun(s) else 1
  }

  /** When the front of `s` does not match, no match starts before `Skip(s)`. */
  lemma NoMatchBeforeSkip(s: string)
    requires |s| > 0 && !(IsDigit(s[0]) && "小时" <= s[DigitRun(s)..])
    ensures ParseHours(s) == ParseHours(s[Skip(s)..])
    ensures forall i, j :: i < Skip(s) ==> !HourMatchAt(s, i, j)
  {
    var d := Skip(s);
    forall i, j | i < d ensures !HourMatchAt(s, i, j) {
      if HourMatchAt(s, i, j) && IsDigit(s[0]) {
        HourMatchInRun(s, d, i, j);
      }
    }
  }

  /** When ParseHours moves on to `s[d..]`, the matches there are those of `s` from `d` on. */
  lemma ShiftAll(s: string, d: nat)
    requires d <= |s|
    ensures forall i, j :: d <= i ==> (HourMatchAt(s, i, j) <==> HourMatchAt(s[d..], i - d, j - d))
  {
    forall i, j | d <= i ensures HourMatchAt(s, i, j) <==> HourMatchAt(s[d..], i - d, j - d) {
      HourMatchShift(s, d, i, j);
    }
  }

  /** ParseHours finds nothing exactly when the pattern `(\d+)小时` matches nowhere. */
  lemma {:induction false} ParseHoursNoneIffNoMatch(s: string)
    ensures ParseHours(s).None? <==> forall i, j :: !HourMatchAt(s, i, j)
    decreases |s|
  {
    if |s| > 0 {
      if IsDigit(s[0]) && "小时" <= s[DigitRun(s)..] {
        assert HourMatchAt(s, 0, DigitRun(s));
      } else {
        var d := Skip(s);
        NoMatchBeforeSkip(s);
        ShiftAll(s, d);
        ParseHoursNoneIffNoMatch(s[d..]);
        if !(forall i, j :: !HourMatchAt(s[d..], i, j)) {
          var i, j :| HourMatchAt(s[d..], i, j);
          assert HourMatchAt(s, i + d, j + d);
        }
      }
    }
  }

  /** `(i, j)` is the leftmost match of `(\d+)小时` in `s`. */
  ghost predicate LeftmostHourMatch(s: string, i: int, j: int) {
    HourMatchAt(s, i, j) && forall i2, j2 :: i2 < i ==> !HourMatchAt(s, i2, j2)
  }

  /** The number the digits of a match spell. */
  ghost function MatchValue(s: string, i: int, j: int): nat
    requires HourMatchAt(s, i, j)
  {
    assert AllDigits(s[i..j]);
    DecimalValue(s[i..j])
  }

  /** When ParseHours finds a number, it is the value of the digits of the leftmost match,
      which is what `re.search` reports. */
  lemma {:induction false} ParseHoursIsLeftmostMatch(s: string)
    requires ParseHours(s).Some?
    ensures exists i, j :: LeftmostHourMatch(s, i, j) && ParseHours(s).value == MatchValue(s, i, j)
    decreases |s|
  {
    if IsDigit(s[0]) && "小时" <= s[DigitRun(s)..] {
      var n := DigitRun(s);
      assert LeftmostHourMatch(s, 0, n);
      assert s[..n] == s[0..n];
    } else {
      var d := Skip(s);
      NoMatchBeforeSkip(s);
      ParseHoursIsLeftmostMatch(s[d..]);
      var i, j :| LeftmostHourMatch(s[d..], i, j) && ParseHours(s[d..]).value == MatchValue(s[d..], i, j);
      LeftmostShift(s, d, i, j);
    }
  }

  lemma LeftmostShift(s: string, d: nat, i: int, j: int)
    requires d <= |s| && LeftmostHourMatch(s[d..], i, j)
    requires forall i2, j2 :: i2 < d ==> !HourMatchAt(s, i2, j2)
    ensures LeftmostHourMatch(s, i + d, j + d)
    ensures MatchValue(s, i + d, j + d) == MatchValue(s[d..], i, j)
  {
    HourMatchShift(s, d, i + d, j + d);
    assert s[d..][i..j] == s[i + d..j + d];
    forall i2, j2 | i2 < i + d ensures !HourMatchAt(s, i2, j2) {
      if d <= i2 {
        HourMatchShift(s, d, i2, j2);
      }
    }
  }

  /** The phrase "N小时..." after a digit-free prefix parses back to N. */
  lemma ParseHoursRoundTrip(prefix: string, n: nat, suffix: string)
    requires forall k :: 0 <= k < |prefix| ==> !IsDigit(prefix[k])
    ensures ParseHours(prefix + Decimal(n) + "小时" + suffix) == Some(n)
  {
    var ds := Decimal(n);
    var s := prefix + ds + "小时" + suffix;
    var i0, j0 := |prefix|, |prefix| + |ds|;
    assert HourMatchAt(s, i0, j0) && s[i0..j0] == ds && forall k :: 0 <= k < i0 ==> !IsDigit(s[k]) by {
      assert s[j0..] == "小时" + suffix;
      assert forall k :: i0 <= k < j0 ==> s[k] == ds[k - i0];
      assert forall k :: 0 <= k < i0 ==> s[k] == prefix[k] && !IsDigit(s[k]);
    }
    ParseHoursNoneIffNoMatch(s);
    ParseHoursIsLeftmostMatch(s);
    var i, j :| LeftmostHourMatch(s, i, j) && ParseHours(s).value == MatchValue(s, i, j);
    assert i == i0 by {
      assert IsDigit(s[i]);
    }
    HourMatchEndUnique(s, i, j, j0);
    DecimalRoundTrip(n);
  }

  /** The stepped recency bonus; "今天" wins over every other phrase, then "小时", then
      "分钟", then "昨天". */
  function TimeBonus(pubTime: string): (r: nat)
    ensures r in {0, 5, 10, 15, 20}
    ensures Contains(pubTime, "今天") ==> r == 20
    ensures !Contains(pubTime, "今天") && Contains(pubTime, "小时") ==>
      (ParseHours(pubTime).None? ==> r == 0) &&
      (ParseHours(pubTime).Some? ==> r == if ParseHours(pubTime).value <= 6 then 15 else 10)
    ensures !Contains(pubTime, "今天") && !Contains(pubTime, "小时") && Contains(pubTime, "分钟") ==> r == 20
    ensures !Contains(pubTime, "今天") && !Contains(pubTime, "小时") && !Contains(pubTime, "分钟") ==>
      r == if Contains(pubTime, "昨天") then 5 else 0
  {
    if Contains(pubTime, "今天") then 20
    else if Contains(pubTime, "小时") then
      match ParseHours(pubTime)
      case None => 0
      case Some(hours) => if hours <= 6 then 15 else 10
    else if Contains(pubTime, "分钟") then 20
    else if Contains(pubTime, "昨天") then 5
    else 0
  }

  /** The phrase the search page shows for an article published `n` hours ago. */
  function HoursAgo(n: nat): string {
    Decimal(n) + "小时前"
  }

  /** "N小时前" mentions "小时" and not "今天". */
  lemma HoursAgoWords(n: nat)
    ensures !Contains(HoursAgo(n), "今天") && Contains(HoursAgo(n), "小时")
  {
    var t := HoursAgo(n);
    var d := |Decimal(n)|;
    assert '今' !in t by {
      assert forall k :: 0 <= k < d ==> IsDigit(t[k]);
      assert t[d..] == "小时前";
    }
    MissingCharNotContained(t, "今天");
    assert t[d..d + 2] == "小时";
    ContainsSlice(t, d, d + 2);
  }

  /** "N小时前" earns 15 for up to six hours and 10 after that. */
  lemma HoursAgoBonus(n: nat)
    ensures TimeBonus(HoursAgo(n)) == if n <= 6 then 15 else 10
  {
    assert ParseHours(HoursAgo(n)) == Some(n) by {
      assert HoursAgo(n) == "" + Decimal(n) + "小时" + "前";
      ParseHoursRoundTrip("", n, "前");
    }
    HoursAgoWords(n);
  }

  /** A text that mentions "小时" but has no digits directly before it earns nothing. */
  lemma TimeBonusUnmatchedHours(pubTime: string)
    requires !Contains(pubTime, "今天") && Contains(pubTime, "小时")
    requires forall i, j :: !HourMatchAt(pubTime, i, j)
    ensures TimeBonus(pubTime) == 0
  {
    ParseHoursNoneIffNoMatch(pubTime);
  }

  /** "半小时前" has no hour count, so half an hour ago earns nothing, while one hour ago
      earns 15. */
  lemma HalfHourAgoBonus()
    ensures TimeBonus("半小时前") == 0
    ensures TimeBonus("半小时前") < TimeBonus(HoursAgo(1))
  {
    var t := "半小时前";
    MissingCharNotContained(t, "今天");
    assert t[1..3] == "小时";
    ContainsSlice(t, 1, 3);
    assert forall k :: 0 <= k < |t| ==> !IsDigit(t[k]);
    forall i, j ensures !HourMatchAt(t, i, j) {
      if 0 <= i < j <= |t| {
        assert !IsDigit(t[i]);
      }
    }
    TimeBonusUnmatchedHours(t);
    HoursAgoBonus(1);
  }

  /** The phrase the search page shows for an article published `n` minutes ago. */
  function MinutesAgo(n: nat): string {
    Decimal(n) + "分钟前"
  }

  /** "N分钟前" earns 20, whatever N. */
  lemma MinutesAgoBonus(n: nat)
    ensures TimeBonus(MinutesAgo(n)) == 20
  {
    var t := MinutesAgo(n);
    var d := |Decimal(n)|;
    assert '今' !in t && '小' !in t by {
      assert forall k :: 0 <= k < d ==> IsDigit(t[k]);
      assert t[d..] == "分钟前";
    }
    MissingCharNotContained(t, "今天");
    MissingCharNotContained(t, "小时");
    assert t[d..d + 2] == "分钟";
    ContainsSlice(t, d, d + 2);
  }

  /** "昨天" alone earns 5. */
  lemma YesterdayBonus()
    ensures TimeBonus("昨天") == 5
  {
    var t := "昨天";
    MissingCharNotContained(t, "今天");
    MissingCharNotContained(t, "小时");
    MissingCharNotContained(t, "分钟");
    assert t[0..2] == "昨天";
    ContainsSlice(t, 0, 2);
  }

  /** "刚刚" (just now) matches none of the four words, so it earns less than "昨天". */
  lemma JustNowBonus()
    ensures TimeBonus("刚刚") == 0
    ensures TimeBonus("刚刚") < TimeBonus("昨天")
  {
    var t := "刚刚";
    MissingCharNotContained(t, "今天");
    MissingCharNotContained(t, "小时");
    MissingCharNotContained(t, "分钟");
    MissingCharNotContained(t, "昨天");
    YesterdayBonus();
  }

  /** Older "N小时前" phrases never earn a larger recency bonus. */
  lemma HoursAgoBonusMonotone(n: nat, m: nat)
    requires n <= m
    ensures TimeBonus(HoursAgo(n)) >= TimeBonus(HoursAgo(m))
  {
    HoursAgoBonus(n);
    HoursAgoBonus(m);
  }

  /** `calculate_wechat_heat`: every component is non-negative and nothing is clamped,
      so the score lies between the base 40 and 40 + 30 + 125 + 15 + 20 = 230. */
  function WechatHeat(account: string, title: string, pubTime: string, keyword: string): (r: int)
    ensures BaseScore <= r <= 230
  {
    BaseScore + AccountBonus(account) + TitleBonus(title) +
    (if Contains(title, keyword) then SearchKeywordBonus else 0) + TimeBonus(pubTime)
  }

  /** The search keyword is worth exactly fifteen points, and only when the title contains
      it: a keyword found in the title scores fifteen more than one that is not. */
  lemma SearchKeywordBonusExact(account: string, title: string, pubTime: string, hit: string, miss: string)
    requires Contains(title, hit) && !Contains(title, miss)
    ensures WechatHeat(account, title, pubTime, hit) == WechatHeat(account, title, pubTime, miss) + SearchKeywordBonus
  {
  }

  /** Removing a signal never raises the score: with the publish time fixed, an account
      name and title that contain every weighted word (and the search keyword) the others
      contain score at least as high. */
  lemma WechatHeatMonotone(a1: string, t1: string, a2: string, t2: string, pubTime: string, keyword: string)
    requires forall i :: 0 <= i < |FamousAccounts| && Contains(a1, FamousAccounts[i].word) ==>
      Contains(a2, FamousAccounts[i].word)
    requires forall i :: 0 <= i < |MediaKeywords| && Contains(a1, MediaKeywords[i]) ==> Contains(a2, MediaKeywords[i])
    requires forall i :: 0 <= i < |TitleKeywords| && Contains(t1, TitleKeywords[i].word) ==>
      Contains(t2, TitleKeywords[i].word)
    requires Contains(t1, keyword) ==> Contains(t2, keyword)
    ensures WechatHeat(a1, t1, pubTime, keyword) <= WechatHeat(a2, t2, pubTime, keyword)
  {
    AccountBonusMonotone(a1, a2);
    MatchedWeightMonotone(TitleKeywords, t1, t2);
  }
}

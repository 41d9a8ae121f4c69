/** Text operations the crawler relies on: Python's substring test `needle in text`,
    ASCII decimal digits, `sep.join(parts)` and the "first N characters plus ..." cut. */
module Strings {

  /** Python's `needle in text` on strings: `needle` occurs somewhere in `text`
      (the empty string occurs in every string). */
  predicate Contains(text: string, needle: string)
    decreases |text|
  {
    needle <= text || (|text| > 0 && Contains(text[1..], needle))
  }

  /** Every slice of a text is contained in it. */
  lemma {:induction false} ContainsSlice(text: string, i: nat, j: nat)
    requires i <= j <= |text|
    ensures Contains(text, text[i..j])
    decreases i
  {
    if i > 0 {
      assert text[1..][i - 1..j - 1] == text[i..j];
      ContainsSlice(text[1..], i - 1, j - 1);
    }
  }

  /** A non-empty needle whose first character never occurs in the text is not contained. */
  lemma {:induction false} MissingCharNotContained(text: string, needle: string)
    requires |needle| > 0 && needle[0] !in text
    ensures !Contains(text, needle)
    decreases |text|
  {
    if |text| > 0 {
      assert text[0] != needle[0];
      assert forall c :: c in text[1..] ==> c in text;
      MissingCharNotContained(text[1..], needle);
    }
  }

  /** If `outer` begins with `inner` and `inner` contains `needle`, so does `outer`. */
  lemma {:induction false} PrefixContains(outer: string, inner: string, needle: string)
    requires inner <= outer && Contains(inner, needle)
    ensures Contains(outer, needle)
    decreases |inner|
  {
    if !(needle <= inner) {
      assert inner[1..] <= outer[1..];
      PrefixContains(outer[1..], inner[1..], needle);
    }
  }

  /** Containment is transitive: a substring of a substring is a substring. */
  lemma {:induction false} ContainsTransitive(text: string, middle: string, needle: string)
    requires Contains(text, middle) && Contains(middle, needle)
    ensures Contains(text, needle)
    decreases |text|
  {
    if middle <= text {
      PrefixContains(text, middle, needle);
    } else {
      ContainsTransitive(text[1..], middle, needle);
    }
  }

  predicate IsDigit(c: char) {
    '0' <= c <= '9'
  }

  predicate AllDigits(s: string) {
    forall k :: 0 <= k < |s| ==> IsDigit(s[k])
  }

  /** Python's `int(ds)` on a run of ASCII digits, most significant digit first. */
  function DecimalValue(ds: string): nat
    requires AllDigits(ds)
    decreases |ds|
  {
    if |ds| == 0 then 0
    else 10 * DecimalValue(ds[..|ds| - 1]) + ((ds[|ds| - 1] as int) - ('0' as int))
  }

  /** The decimal rendering of `n`, as `str(n)` writes it. */
  function Decimal(n: nat): (ds: string)
    ensures |ds| > 0 && AllDigits(ds)
  {
    var last := ('0' as int + n % 10) as char;
    if n < 10 then [last] else Decimal(n / 10) + [last]
  }

  /** Reading back a rendered number gives the number. */
  lemma {:induction false} DecimalRoundTrip(n: nat)
    ensures DecimalValue(Decimal(n)) == n
  {
    var ds := Decimal(n);
    if n < 10 {
      assert ds[..0] == [];
    } else {
      DecimalRoundTrip(n / 10);
      assert ds[..|ds| - 1] == Decimal(n / 10);
    }
  }

  /** Python's `sep.join(parts)`. */
  function Join(parts: seq<string>, sep: string): string
    decreases |parts|
  {
    if |parts| == 0 then ""
    else if |parts| == 1 then parts[0]
    else parts[0] + sep + Join(parts[1..], sep)
  }

  function TotalLength(parts: seq<string>): nat
    decreases |parts|
  {
    if |parts| == 0 then 0 else |parts[0]| + TotalLength(parts[1..])
  }

  /** Joining keeps every character of every part and adds exactly one separator
      between neighbours, and the result begins with the first part. */
  lemma {:induction false} JoinShape(parts: seq<string>, sep: string)
    requires |parts| > 0
    ensures |Join(parts, sep)| == TotalLength(parts) + (|parts| - 1) * |sep|
    ensures parts[0] <= Join(parts, sep)
    decreases |parts|
  {
    if |parts| > 1 {
      JoinShape(parts[1..], sep);
    }
  }

  /** `s[:limit] + "..."` when `s` is longer than `limit`, else `s` itself. */
  function Truncate(s: string, limit: nat): (r: string)
    ensures |s| <= limit ==> r == s
    ensures |s| > limit ==> |r| == limit + 3 && s[..limit] <= r && r[limit..] == "..."
  {
    if |s| > limit then s[..limit] + "..." else s
  }
}

/** The extractor's URL core: the base URL loses its trailing slashes once,
    at construction, and every request URL is the base joined to a fixed
    path, with the comic number written in decimal as an f-string does. */
module Urls {
  import opened Errors

  const DefaultBaseUrl: string := "https://xkcd.com"
  const InfoSuffix: string := "/info.0.json"

  /** base_url.rstrip("/"): the longest prefix that does not end in '/'
      and after which only slashes follow. */
  function RStripSlashes(s: string): (r: string)
    ensures r <= s
    ensures r == [] || r[|r| - 1] != '/'
    ensures forall i :: |r| <= i < |s| ==> s[i] == '/'
    decreases |s|
  {
    if s != [] && s[|s| - 1] == '/' then RStripSlashes(s[..|s| - 1]) else s
  }

  predicate Normalised(base: string) {
    base == [] || base[|base| - 1] != '/'
  }

  /** Stripping twice strips nothing more. */
  lemma RStripIdempotent(s: string)
    ensures RStripSlashes(RStripSlashes(s)) == RStripSlashes(s)
  {
  }

  /** A base that already ends in a non-slash is left as it is. */
  lemma RStripKeepsNormalised(s: string)
    requires Normalised(s)
    ensures RStripSlashes(s) == s
  {
  }

  predicate IsDigit(ch: char) { '0' <= ch <= '9' }

  predicate AllDigits(s: string) { forall i :: 0 <= i < |s| ==> IsDigit(s[i]) }

  function DigitChar(d: nat): (ch: char)
    requires d < 10
    ensures IsDigit(ch) && ch as int - '0' as int == d
  {
    ('0' as int + d) as char
  }

  /** The decimal numeral of a natural number, most significant digit first. */
  function NatToDecimal(n: nat): (r: string)
    ensures |r| > 0 && AllDigits(r)
    ensures r[0] == '0' ==> r == "0"
  {
    if n < 10 then [DigitChar(n)] else NatToDecimal(n / 10) + [DigitChar(n % 10)]
  }

  /** str(n) for a Python int: a minus sign before the numeral of |n|. */
  function IntToDecimal(n: int): (r: string)
    ensures |r| > 0 && (r[0] == '-' <==> n < 0)
    ensures n < 0 ==> AllDigits(r[1..])
    ensures n >= 0 ==> AllDigits(r)
  {
    if n < 0 then "-" + NatToDecimal(-n) else NatToDecimal(n)
  }

  /** The value of a numeral, reading its digits left to right. */
  function DecimalValue(s: string): nat
    requires AllDigits(s)
  {
    if s == [] then 0
    else 10 * DecimalValue(s[..|s| - 1]) + (s[|s| - 1] as int - '0' as int)
  }

  /** The inverse of IntToDecimal: an optional minus sign and a non-empty
      run of digits. */
  function ParseDecimal(s: string): Option<int> {
    if |s| > 0 && s[0] == '-' then
      if |s| > 1 && AllDigits(s[1..]) then Some(-(DecimalValue(s[1..]) as int)) else None
    else if |s| > 0 && AllDigits(s) then Some(DecimalValue(s))
    else None
  }

  lemma {:induction false} NatDecimalRoundTrip(n: nat)
    ensures DecimalValue(NatToDecimal(n)) == n
  {
    if n >= 10 {
      NatDecimalRoundTrip(n / 10);
      var r := NatToDecimal(n);
      assert r[..|r| - 1] == NatToDecimal(n / 10);
    }
  }

  /** Reading back the numeral of any integer gives that integer. */
  lemma DecimalRoundTrip(n: int)
    ensures ParseDecimal(IntToDecimal(n)) == Some(n)
  {
    if n < 0 {
      NatDecimalRoundTrip(-n);
      assert IntToDecimal(n)[1..] == NatToDecimal(-n);
    } else {
      NatDecimalRoundTrip(n);
    }
  }

  /** f"{base}/info.0.json" */
  function CurrentUrl(base: string): (r: string)
    ensures |r| == |base| + |InfoSuffix|
    ensures r[..|base|] == base && r[|base|..] == InfoSuffix
  {
    base + InfoSuffix
  }

  /** f"{base}/{comic_id}/info.0.json" */
  function ComicUrl(base: string, id: int): (r: string)
    ensures |r| > |base| + 1 + |InfoSuffix|
    ensures r[..|base| + 1] == base + "/" && r[|r| - |InfoSuffix|..] == InfoSuffix
  {
    base + "/" + IntToDecimal(id) + InfoSuffix
  }

  /** The comic number a per-comic URL was built from, if it is one. */
  function IdFromComicUrl(base: string, url: string): Option<int> {
    var lo := |base| + 1;
    if |url| >= lo + |InfoSuffix| && url[..lo] == base + "/" && url[|url| - |InfoSuffix|..] == InfoSuffix
    then ParseDecimal(url[lo..|url| - |InfoSuffix|])
    else None
  }

  /** Every per-comic URL names its comic: reading the number back out of
      the URL gives the number it was built from. */
  lemma ComicUrlRoundTrip(base: string, id: int)
    ensures IdFromComicUrl(base, ComicUrl(base, id)) == Some(id)
  {
    var url := ComicUrl(base, id);
    var lo := |base| + 1;
    assert url[..lo] == base + "/";
    assert url[|url| - |InfoSuffix|..] == InfoSuffix;
    assert url[lo..|url| - |InfoSuffix|] == IntToDecimal(id);
    DecimalRoundTrip(id);
  }

  /** Distinct comics are fetched from distinct URLs. */
  lemma ComicUrlInjective(base: string, a: int, b: int)
    requires ComicUrl(base, a) == ComicUrl(base, b)
    ensures a == b
  {
    ComicUrlRoundTrip(base, a);
    ComicUrlRoundTrip(base, b);
  }

  /** The slash at position k joins two parts with exactly one slash. */
  predicate CleanJoinAt(url: string, k: nat) {
    && k < |url| && url[k] == '/'
    && (k == 0 || url[k - 1] != '/')
    && (k + 1 == |url| || url[k + 1] != '/')
  }

  /** A numeral neither starts nor ends with a slash. */
  lemma DecimalHasNoSlashEnds(id: int)
    ensures var digits := IntToDecimal(id);
      |digits| > 0 && digits[0] != '/' && digits[|digits| - 1] != '/'
  {
    if id < 0 {
      var digits := IntToDecimal(id);
      assert digits[1..] == NatToDecimal(-id);
      assert digits[|digits| - 1] == NatToDecimal(-id)[|NatToDecimal(-id)| - 1];
    }
  }

  /** With a normalised base neither URL has "//" where the base meets the
      path, nor where the numeral meets the suffix. */
  lemma UrlJoinsAreClean(base: string, id: int)
    requires Normalised(base)
    ensures CurrentUrl(base)[..|base|] == base && CleanJoinAt(CurrentUrl(base), |base|)
    ensures ComicUrl(base, id)[..|base|] == base && CleanJoinAt(ComicUrl(base, id), |base|)
    ensures CleanJoinAt(ComicUrl(base, id), |base| + 1 + |IntToDecimal(id)|)
  {
    var digits := IntToDecimal(id);
    DecimalHasNoSlashEnds(id);
    var url := ComicUrl(base, id);
    assert url == base + ("/" + digits + InfoSuffix);
    assert url[|base| + 1] == digits[0];
    assert url[|base| + |digits|] == digits[|digits| - 1];
    assert url[|base| + 1 + |digits|] == '/';
    assert url[|base| + 2 + |digits|] == 'i';
  }

  /** Whatever base the extractor is given, the one it keeps is normalised,
      so the joins of every URL it builds are clean. */
  lemma StrippedBaseJoinsAreClean(given: string, id: int)
    ensures Normalised(RStripSlashes(given))
    ensures CleanJoinAt(CurrentUrl(RStripSlashes(given)), |RStripSlashes(given)|)
    ensures CleanJoinAt(ComicUrl(RStripSlashes(given), id), |RStripSlashes(given)|)
  {
    UrlJoinsAreClean(RStripSlashes(given), id);
  }
}

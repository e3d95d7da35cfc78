/**
 What both crawlers know about catalog links: the legal-notice link that
 every page carries and that is never a title, and how a title's numeric id
 is read from the last path segment of its URL (`url.split('/').pop()`).
 */
module Links {
  import opened Wrappers
  import opened Text

  /** The fair-trade notice link in the page footer (kakao.js:208, link.js:128). */
  const FtcUrl: string := "https://www.ftc.go.kr/bizCommPop.do?wrkr_no=2208802594"

  /** `url.split('/').pop()`: the text after the last `/`, or the whole URL
      when it has none. */
  function LastSegment(url: string): string {
    if url == [] || url[|url| - 1] == '/' then []
    else LastSegment(url[..|url| - 1]) + [url[|url| - 1]]
  }

  /** The last segment is a slash-free suffix of the URL, preceded by a `/`
      unless it is the whole URL. */
  lemma {:induction false} LastSegmentSpec(url: string)
    ensures '/' !in LastSegment(url)
    ensures |LastSegment(url)| <= |url| && LastSegment(url) == url[|url| - |LastSegment(url)|..]
    ensures |LastSegment(url)| < |url| ==> url[|url| - |LastSegment(url)| - 1] == '/'
  {
    if url != [] && url[|url| - 1] != '/' {
      var init := url[..|url| - 1];
      LastSegmentSpec(init);
      var s := LastSegment(init);
      assert LastSegment(url) == s + [url[|url| - 1]];
      assert init[|init| - |s|..] + [url[|url| - 1]] == url[|url| - |s| - 1..];
      if |s| < |init| {
        assert url[|url| - |s| - 2] == init[|init| - |s| - 1];
      }
    }
  }

  /** `/^\d+$/.test(seg)` followed by `parseInt(seg, 10)`; `None` where the
      source throws its "invalid id" error. */
  function ParseId(seg: string): Option<nat> {
    if seg != [] && AllDigits(seg) then Some(DigitsValue(seg)) else None
  }

  /** The content id of a detail-page URL (kakao.js:107-112). */
  function IdOf(url: string): Option<nat> {
    ParseId(LastSegment(url))
  }

  /** Whatever precedes the last `/` does not matter. */
  lemma {:induction false} LastSegmentAfterSlash(p: string, seg: string)
    requires '/' !in seg
    ensures LastSegment(p + "/" + seg) == seg
  {
    var url := p + "/" + seg;
    if seg != [] {
      assert url[..|url| - 1] == p + "/" + seg[..|seg| - 1];
      LastSegmentAfterSlash(p, seg[..|seg| - 1]);
    }
  }

  /** A URL ending in `/` followed by the decimal digits of `n` has id `n`. */
  lemma IdOfRoundTrip(p: string, n: nat)
    ensures IdOf(p + "/" + DecimalDigits(n)) == Some(n)
  {
    var d := DecimalDigits(n);
    assert forall i :: 0 <= i < |d| ==> IsDigit(d[i]);
    LastSegmentAfterSlash(p, d);
    DecimalDigitsValue(n);
  }
}

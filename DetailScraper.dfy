/**
 kakao.js beyond its converters: `scrapePageData`, which reads one detail
 page into a record and upserts it, and the main loop, which visits a batch
 of URLs inside one transaction and counts successes and failures. The
 browser is replaced by its answers: a `Visit` per URL says what each
 selector returned, or that the page could not be opened.
 */
module DetailScraper {
  import opened Wrappers
  import opened Text
  import opened JsNumbers
  import opened FieldNormalizer
  import opened Contents
  import opened Links

  /** The answers of one loaded detail page. A selector that matched nothing,
      or whose query threw, answers `None` (`safeGetText`,
      `safeGetAttribute` and the genre query catch their own errors). Texts
      are `innerText.trim()` as the page script returns them. */
  datatype Page = Page(
    cover: Option<string>,
    title: Option<string>,
    author: Option<string>,
    genreSpans: Option<seq<string>>,
    viewsText: Option<string>,
    ratingText: Option<string>,
    scheduleText: Option<string>,
    totalEpText: Option<string>,
    startDateText: Option<string>)

  /** One URL's visit: the page loaded and the upsert either went through
      (`stored`) or raised a storage error; or a browser call the scraper does
      not guard (`newPage`, `setUserAgent`, `goto`, the start-date
      `evaluate`) threw. */
  datatype Visit = Loaded(page: Page, stored: bool) | PageError

  /** `전체`, the marker of a complete episode count. */
  const Total: string := "전체"

  /** The second genre span, when there are at least two (kakao.js:119-121). */
  function Genre(spans: Option<seq<string>>): Option<string> {
    if spans.Some? && |spans.value| > 1 then Some(spans.value[1]) else None
  }

  /** kakao.js:156: the last two characters of the schedule text, the text
      itself when it is shorter, `null` when it is absent or empty. */
  function Schedule(scheduleText: Option<string>): (r: Option<string>)
    ensures r.Some? <==> scheduleText.Some? && scheduleText.value != ""
    ensures r.Some? ==>
      var t := scheduleText.value;
      && |r.value| == (if |t| >= 2 then 2 else |t|)
      && r.value == t[|t| - |r.value|..]
  {
    if scheduleText.Some? && |scheduleText.value| >= 2 then
      var t := scheduleText.value;
      Some(t[|t| - 2..])
    else if scheduleText.Some? && scheduleText.value != "" then scheduleText
    else None
  }

  /** `s.match(/\d+/)`: the first run of digits in `s`. */
  function FirstDigitRun(s: string): (r: Option<string>)
    ensures r.Some? ==> r.value != [] && AllDigits(r.value)
    ensures r.None? ==> forall i :: 0 <= i < |s| ==> !IsDigit(s[i])
  {
    if s == [] then None
    else if IsDigit(s[0]) then Some(LeadingDigits(s))
    else FirstDigitRun(s[1..])
  }

  /** kakao.js:125-131: the first number in the episode text, taken only when
      the text contains `전체`. */
  function CurrentEp(totalEpText: Option<string>): (r: Option<nat>)
    ensures r.Some? ==> totalEpText.Some? && Includes(totalEpText.value, Total)
    ensures totalEpText.Some? && Includes(totalEpText.value, Total) ==>
      (r.Some? <==> FirstDigitRun(totalEpText.value).Some?)
  {
    if totalEpText.Some? && totalEpText.value != "" && Includes(totalEpText.value, Total) then
      match FirstDigitRun(totalEpText.value)
      case None => None
      case Some(digits) => Some(DigitsValue(digits))
    else None
  }

  /** Text with no digits before a number, and a non-digit (or nothing)
      after it, has that number as its first digit run. */
  lemma {:induction false} FirstDigitRunOf(p: string, d: string, q: string)
    requires forall i :: 0 <= i < |p| ==> !IsDigit(p[i])
    requires 1 <= |d| && AllDigits(d)
    requires q == [] || !IsDigit(q[0])
    ensures FirstDigitRun(p + d + q) == Some(d)
  {
    if p == [] {
      assert p + d + q == d + q;
      LeadingDigitsOf(d, q);
    } else {
      assert (p + d + q)[1..] == p[1..] + d + q;
      FirstDigitRunOf(p[1..], d, q);
    }
  }

  /** "전체 42화"-style text gives the episode count back. */
  lemma CurrentEpOf(p: string, n: nat, q: string)
    requires Includes(p, Total)
    requires forall i :: 0 <= i < |p| ==> !IsDigit(p[i])
    requires q == [] || !IsDigit(q[0])
    ensures CurrentEp(Some(p + DecimalDigits(n) + q)) == Some(n)
  {
    DecimalDigitsValue(n);
    CurrentEpOfDigits(p, DecimalDigits(n), q);
  }

  /** The same, for any digit string in place of the rendering. */
  lemma CurrentEpOfDigits(p: string, d: string, q: string)
    requires Includes(p, Total)
    requires forall i :: 0 <= i < |p| ==> !IsDigit(p[i])
    requires 1 <= |d| && AllDigits(d)
    requires q == [] || !IsDigit(q[0])
    ensures CurrentEp(Some(p + d + q)).Some? && CurrentEp(Some(p + d + q)).value == DigitsValue(d)
  {
    var t := p + d + q;
    IncludesAppended(p, d + q, Total);
    assert t == p + (d + q);
    FirstDigitRunOf(p, d, q);
    CurrentEpFromRun(t, d);
  }

  /** Text that has `전체` counts episodes by its first digit run. */
  lemma CurrentEpFromRun(t: string, d: string)
    requires Includes(t, Total)
    requires FirstDigitRun(t) == Some(d)
    ensures CurrentEp(Some(t)).Some? && CurrentEp(Some(t)).value == DigitsValue(d)
  {
    assert t != [];
    assert CurrentEp(Some(t)).Some?;
  }

  /** Without `전체` there is no episode count, whatever digits the text has. */
  lemma CurrentEpNeedsTotal(text: string)
    requires !Includes(text, Total)
    ensures CurrentEp(Some(text)) == None
  {
  }

  /** The record kakao.js:148-159 assembles from a loaded page whose id is
      `id`: every text passes through its converter. */
  function RecordOf(id: nat, page: Page): (r: Record)
    ensures r.id == id
    ensures r.title == page.title && r.author == page.author && r.cover == page.cover
    ensures r.genre.Some? <==> page.genreSpans.Some? && |page.genreSpans.value| >= 2
    ensures r.genre.Some? ==> r.genre.value == page.genreSpans.value[1]
    ensures r.views.Some? ==> page.viewsText.Some? && page.viewsText.value != ""
    ensures r.views.Some? && '-' !in page.viewsText.value ==> r.views.value >= 0
    ensures r.rating.Some? ==> page.ratingText.Some? && ParseFloat(page.ratingText.value).Some?
    ensures r.rating.Some? && 0.0 <= ParseFloat(page.ratingText.value).value <= 10.0 ==>
      0 <= r.rating.value <= 5
    ensures r.schedule.Some? ==> |r.schedule.value| <= 2
    ensures r.startDate.Some? <==> page.startDateText.Some? && IsCompactDate(page.startDateText.value)
    ensures r.startDate.Some? ==>
      IsIsoDate(r.startDate.value) && 2000 <= Year(r.startDate.value) <= 2099
      && Compact(r.startDate.value) == page.startDateText.value
    ensures r.currentEp.Some? ==> page.totalEpText.Some? && Includes(page.totalEpText.value, Total)
    // Each column is its converter applied to the page's text, so the
    // lemmas about the converters describe the stored values.
    ensures r.genre == Genre(page.genreSpans)
    ensures r.views == ParseViews(page.viewsText)
    ensures r.rating == ParseRating(page.ratingText)
    ensures r.schedule == Schedule(page.scheduleText)
    ensures r.startDate == FormatDateString(page.startDateText).Column()
    ensures r.currentEp == CurrentEp(page.totalEpText)
  {
    ParseViewsNonNegative(page.viewsText);

    Record(
      id := id,
      title := page.title,
      author := page.author,
      cover := page.cover,
      genre := Genre(page.genreSpans),
      views := ParseViews(page.viewsText),
      rating := ParseRating(page.ratingText),
      schedule := Schedule(page.scheduleText),
      startDate := FormatDateString(page.startDateText).Column(),
      currentEp := CurrentEp(page.totalEpText))
  }

  /** The record of a loaded page, or `None` when the URL has no numeric id
      (kakao.js:107-112). */
  function BuildRecord(url: string, page: Page): (r: Option<Record>)
    ensures r.Some? <==> IdOf(url).Some?
    ensures r.Some? ==> r.value.id == IdOf(url).value
    ensures r.Some? ==> r.value == RecordOf(IdOf(url).value, page)
  {
    match IdOf(url)
    case None => None
    case Some(id) => Some(RecordOf(id, page))
  }

  /** What `scrapePageData` returns, and so what was written: `null` when the
      page failed, the id was invalid or the upsert raised. */
  function Scraped(url: string, visit: Visit): (r: Option<Record>)
    ensures r.Some? <==> visit.Loaded? && visit.stored && IdOf(url).Some?
    ensures r.Some? ==> r.value == RecordOf(IdOf(url).value, visit.page)
  {
    match visit
    case PageError => None
    case Loaded(page, stored) => if stored then BuildRecord(url, page) else None
  }

  /** `scrapePageData(page, targetUrl)` (kakao.js:89-182): the id first, then
      each field, then the upsert. Only a record that was stored is
      returned, and only that record changes the table. */
  method ScrapePageData(db: ContentsTable, url: string, visit: Visit) returns (result: Option<Record>)
    modifies db`rows
    ensures result == Scraped(url, visit)
    ensures result.None? ==> db.rows == old(db.rows)
    ensures result.Some? ==> db.rows == WithContent(old(db.rows), result.value)
  {
    if visit.PageError? {
      return None;
    }
    var page := visit.page;
    var id := IdOf(url);
    if id.None? {
      return None;
    }
    var finalData := RecordOf(id.value, page);
    if !visit.stored {
      return None;
    }
    db.Upsert(finalData);
    return Some(finalData);
  }

  /** The number of URLs of a batch that are not the notice link. */
  function Attempted(urls: seq<string>): (n: nat)
  {
    if urls == [] then 0
    else Attempted(urls[..|urls| - 1]) + (if urls[|urls| - 1] == FtcUrl then 0 else 1)
  }

  /** What visiting one URL adds to the batch's writes. */
  function Contribution(url: string, visit: Visit): seq<Record>
  {
    if url != FtcUrl && Scraped(url, visit).Some? then [Scraped(url, visit).value] else []
  }

  /** The records a batch writes, in visiting order. */
  function Written(urls: seq<string>, visits: seq<Visit>): (recs: seq<Record>)
    requires |urls| == |visits|
  {
    if urls == [] then []
    else
      Written(urls[..|urls| - 1], visits[..|visits| - 1])
        + Contribution(urls[|urls| - 1], visits[|visits| - 1])
  }

  /** A batch writes at most one record per URL it attempts, and it
      attempts at most every URL. */
  lemma {:induction false} WrittenAtMostAttempted(urls: seq<string>, visits: seq<Visit>)
    requires |urls| == |visits|
    ensures |Written(urls, visits)| <= Attempted(urls) <= |urls|
  {
    if urls != [] {
      WrittenAtMostAttempted(urls[..|urls| - 1], visits[..|visits| - 1]);
    }
  }

  /** Every written record carries the id of one of the batch's URLs. */
  lemma {:induction false} WrittenIds(urls: seq<string>, visits: seq<Visit>, rec: Record)
    requires |urls| == |visits|
    requires rec in Written(urls, visits)
    ensures exists i :: 0 <= i < |urls| && urls[i] != FtcUrl && IdOf(urls[i]) == Some(rec.id)
    ensures exists i :: 0 <= i < |urls| && WrittenFrom(urls[i], visits[i], rec)
  {
    var n := |urls|;
    var init := Written(urls[..n - 1], visits[..n - 1]);
    if rec in init {
      WrittenIds(urls[..n - 1], visits[..n - 1], rec);
      var i :| 0 <= i < n - 1 && WrittenFrom(urls[..n - 1][i], visits[..n - 1][i], rec);
      assert urls[i] == urls[..n - 1][i] && visits[i] == visits[..n - 1][i];
      assert WrittenFrom(urls[i], visits[i], rec);
    } else {
      assert WrittenFrom(urls[n - 1], visits[n - 1], rec);
    }
  }

  /** `rec` is the record that visiting `url` stored: a detail page (not the
      notice link) that loaded, whose upsert went through, and whose id and
      columns are `rec`'s. */
  predicate WrittenFrom(url: string, visit: Visit, rec: Record) {
    && url != FtcUrl && visit.Loaded? && visit.stored
    && IdOf(url) == Some(rec.id) && rec == RecordOf(rec.id, visit.page)
  }

  /** Batches split anywhere: what one part writes does not depend on the
      other, so a page that fails or a record whose upsert raises takes
      nothing away from the rest of the batch. */
  lemma {:induction false} WrittenSplit(u1: seq<string>, v1: seq<Visit>, u2: seq<string>, v2: seq<Visit>)
    requires |u1| == |v1| && |u2| == |v2|
    ensures Written(u1 + u2, v1 + v2) == Written(u1, v1) + Written(u2, v2)
    decreases |u2|
  {
    if u2 == [] {
      assert u1 + u2 == u1 && v1 + v2 == v1;
    } else {
      var n := |u2|;
      var tail := Contribution(u2[n - 1], v2[n - 1]);
      SplitLast(u1, u2);
      SplitLast(v1, v2);
      var init := Written(u2[..n - 1], v2[..n - 1]);
      assert Written(u1 + u2, v1 + v2) == Written(u1 + u2[..n - 1], v1 + v2[..n - 1]) + tail;
      WrittenSplit(u1, v1, u2[..n - 1], v2[..n - 1]);
      assert Written(u2, v2) == init + tail;
      assert Written(u1, v1) + init + tail == Written(u1, v1) + (init + tail);
    }
  }

  /** Dropping the last element of a concatenation whose right part is
      non-empty. */
  lemma SplitLast<T>(a: seq<T>, b: seq<T>)
    requires b != []
    ensures (a + b)[..|a + b| - 1] == a + b[..|b| - 1]
    ensures (a + b)[|a + b| - 1] == b[|b| - 1]
  {
  }

  /** One more URL: the writes and the attempts grow by that URL's share. */
  lemma WrittenStep(urls: seq<string>, visits: seq<Visit>, i: nat)
    requires |urls| == |visits| && i < |urls|
    ensures Written(urls[..i + 1], visits[..i + 1]) == Written(urls[..i], visits[..i]) + Contribution(urls[i], visits[i])
    ensures Attempted(urls[..i + 1]) == Attempted(urls[..i]) + (if urls[i] == FtcUrl then 0 else 1)
  {
    assert urls[..i + 1][..i] == urls[..i] && visits[..i + 1][..i] == visits[..i];
  }

  /** Upserting records one after another. */
  function UpsertAll(t: Table, recs: seq<Record>): Table {
    if recs == [] then t else WithContent(UpsertAll(t, recs[..|recs| - 1]), recs[|recs| - 1])
  }

  /** Upserting one more record. */
  lemma UpsertAllSnoc(t: Table, recs: seq<Record>, rec: Record)
    ensures UpsertAll(t, recs + [rec]) == WithContent(UpsertAll(t, recs), rec)
  {
    assert (recs + [rec])[..|recs|] == recs;
  }

  /** The last record for id `k`, if any. */
  function LastFor(recs: seq<Record>, k: nat): (r: Option<Record>)
    ensures r.Some? ==> r.value in recs && r.value.id == k
    ensures r.None? ==> forall i :: 0 <= i < |recs| ==> recs[i].id != k
  {
    if recs == [] then None
    else if recs[|recs| - 1].id == k then Some(recs[|recs| - 1])
    else LastFor(recs[..|recs| - 1], k)
  }

  /** `recs[i]` is a record for id `k` and no later record is. */
  predicate IsLastFor(recs: seq<Record>, i: int, k: nat) {
    0 <= i < |recs| && recs[i].id == k && forall j :: i < j < |recs| ==> recs[j].id != k
  }

  /** `LastFor` finds the last record for `k`: the one at the position no
      later record for `k` follows, and there is such a position exactly
      when it finds one. */
  lemma {:induction false} LastForIsLast(recs: seq<Record>, k: nat)
    ensures LastFor(recs, k).Some? ==>
      exists i :: IsLastFor(recs, i, k) && recs[i] == LastFor(recs, k).value
    ensures forall i :: IsLastFor(recs, i, k) ==> LastFor(recs, k) == Some(recs[i])
  {
    if recs != [] {
      var n := |recs| - 1;
      var init := recs[..n];
      if recs[n].id == k {
        assert IsLastFor(recs, n, k);
        forall i | IsLastFor(recs, i, k) ensures i == n {
        }
      } else {
        LastForIsLast(init, k);
        if LastFor(recs, k).Some? {
          var i :| IsLastFor(init, i, k) && init[i] == LastFor(init, k).value;
          assert IsLastFor(recs, i, k);
        }
        forall i | IsLastFor(recs, i, k) ensures LastFor(recs, k) == Some(recs[i]) {
          assert IsLastFor(init, i, k);
        }
      }
    }
  }

  /** After a run of upserts, a row holds the detail columns of the last
      record written for its id, or is untouched when none was; the revisit
      flag is never changed by this path, and new rows start without it. */
  lemma {:induction false} UpsertAllRow(t: Table, recs: seq<Record>, k: nat)
    ensures k in UpsertAll(t, recs) <==> k in t || LastFor(recs, k).Some?
    ensures LastFor(recs, k).Some? ==> Details(k, UpsertAll(t, recs)[k]) == LastFor(recs, k).value
    ensures LastFor(recs, k).None? && k in t ==> UpsertAll(t, recs)[k] == t[k]
    ensures k in UpsertAll(t, recs) ==> UpsertAll(t, recs)[k].re == (k in t && t[k].re)
  {
    if recs != [] {
      UpsertAllRow(t, recs[..|recs| - 1], k);
    }
  }

  /** Re-running the writes of a batch changes nothing: the upsert path is
      idempotent over whole batches. */
  lemma UpsertAllIdempotent(t: Table, recs: seq<Record>)
    ensures UpsertAll(UpsertAll(t, recs), recs) == UpsertAll(t, recs)
  {
    var once := UpsertAll(t, recs);
    var twice := UpsertAll(once, recs);
    forall k
      ensures k in twice <==> k in once
      ensures k in twice ==> twice[k] == once[k]
    {
      UpsertAllRow(t, recs, k);
      UpsertAllRow(once, recs, k);
      if k in twice && LastFor(recs, k).Some? {
        assert Details(k, twice[k]) == Details(k, once[k]);
      }
    }
  }

  /** The main loop of kakao.js:201-233: BEGIN, visit every URL except the
      notice link, count each as a success or a failure, then COMMIT. When the
      commit fails, or a `page.close()` in the loop's `finally` throws out of
      the loop, the catch block rolls the whole batch back; `commitSucceeds`
      is false in both cases. */
  method RunBatch(db: ContentsTable, urls: seq<string>, visits: seq<Visit>, commitSucceeds: bool)
    returns (successCount: nat, failCount: nat)
    requires |urls| == |visits|
    requires !db.inTransaction
    modifies db
    ensures !db.inTransaction
    ensures successCount == |Written(urls, visits)|
    ensures successCount + failCount == Attempted(urls)
    ensures commitSucceeds ==> db.rows == UpsertAll(old(db.rows), Written(urls, visits))
    ensures !commitSucceeds ==> db.rows == old(db.rows)
  {
    db.Begin();
    successCount, failCount := 0, 0;
    for i := 0 to |urls|
      invariant db.inTransaction && db.snapshot == old(db.rows)
      invariant successCount == |Written(urls[..i], visits[..i])|
      invariant successCount + failCount == Attempted(urls[..i])
      invariant db.rows == UpsertAll(old(db.rows), Written(urls[..i], visits[..i]))
    {
      ghost var before := Written(urls[..i], visits[..i]);
      WrittenStep(urls, visits, i);
      if urls[i] == FtcUrl {
        assert before + Contribution(urls[i], visits[i]) == before;
        continue;
      }
      var scraped := ScrapePageData(db, urls[i], visits[i]);
      if scraped.Some? {
        assert Contribution(urls[i], visits[i]) == [scraped.value];
        UpsertAllSnoc(old(db.rows), before, scraped.value);
        successCount := successCount + 1;
      } else {
        assert before + Contribution(urls[i], visits[i]) == before;
        failCount := failCount + 1;
      }
    }
    assert urls[..|urls|] == urls && visits[..|visits|] == visits;
    if commitSucceeds {
      db.Commit();
    } else {
      db.Rollback();
    }
  }
}

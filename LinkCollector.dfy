/**
 link.js after the scroll loop: pick the title links out of the listing,
 then mark every picked title as revisited in one transaction.
 */
module LinkCollector {
  import opened Wrappers
  import opened Text
  import opened Contents
  import opened Links
  import opened ScrollStabiliser

  /** One anchor of the extraction selector: its `href`, and the
      `innerText` of its title element, `None` when the title wrapper or
      the title element inside it is missing. */
  datatype Anchor = Anchor(href: string, titleText: Option<string>)

  /** `단행`, the marker of a single-volume edition, which is not collected. */
  const SingleVolume: string := "단행"

  /** The filter of link.js:127-145: not the notice link, a title element
      present, its trimmed text non-empty and free of `단행`. */
  predicate Kept(a: Anchor) {
    && a.href != FtcUrl
    && a.titleText.Some?
    && Trim(a.titleText.value) != ""
    && !Includes(Trim(a.titleText.value), SingleVolume)
  }

  /** The hrefs of the kept anchors, in document order. */
  function ExtractHrefs(anchors: seq<Anchor>): seq<string> {
    if anchors == [] then []
    else
      var a := anchors[|anchors| - 1];
      ExtractHrefs(anchors[..|anchors| - 1]) + (if Kept(a) then [a.href] else [])
  }

  /** An href is collected exactly when some kept anchor carries it. */
  lemma {:induction false} ExtractHrefsMembers(anchors: seq<Anchor>, h: string)
    ensures h in ExtractHrefs(anchors) <==>
      exists i :: 0 <= i < |anchors| && anchors[i].href == h && Kept(anchors[i])
  {
    if anchors != [] {
      var n := |anchors|;
      var init := anchors[..n - 1];
      ExtractHrefsMembers(init, h);
      if exists i :: 0 <= i < n - 1 && init[i].href == h && Kept(init[i]) {
        var i :| 0 <= i < n - 1 && init[i].href == h && Kept(init[i]);
        assert anchors[i] == init[i];
      }
      if exists i :: 0 <= i < n && anchors[i].href == h && Kept(anchors[i]) {
        var i :| 0 <= i < n && anchors[i].href == h && Kept(anchors[i]);
        if i < n - 1 {
          assert init[i] == anchors[i];
        }
      }
    }
  }

  /** The notice link is never collected. */
  lemma NoticeNeverCollected(anchors: seq<Anchor>)
    ensures FtcUrl !in ExtractHrefs(anchors)
  {
    ExtractHrefsMembers(anchors, FtcUrl);
  }

  /** Filtering keeps document order: the links of a listing are those of
      its first part followed by those of the rest. */
  lemma {:induction false} ExtractHrefsSplit(a: seq<Anchor>, b: seq<Anchor>)
    ensures ExtractHrefs(a + b) == ExtractHrefs(a) + ExtractHrefs(b)
    decreases |b|
  {
    if b == [] {
      assert a + b == a;
    } else {
      var n := |b|;
      var last := b[n - 1];
      assert (a + b)[..|a + b| - 1] == a + b[..n - 1];
      assert (a + b)[|a + b| - 1] == last;
      ExtractHrefsSplit(a, b[..n - 1]);
      var tail := if Kept(last) then [last.href] else [];
      assert ExtractHrefs(a) + ExtractHrefs(b[..n - 1]) + tail == ExtractHrefs(a) + (ExtractHrefs(b[..n - 1]) + tail);
    }
  }

  /** The page-side `forEach` of link.js:125-146, pushing onto `results`. */
  method FilterAnchors(anchors: seq<Anchor>) returns (results: seq<string>)
    ensures results == ExtractHrefs(anchors)
  {
    results := [];
    for i := 0 to |anchors|
      invariant results == ExtractHrefs(anchors[..i])
    {
      assert anchors[..i + 1][..i] == anchors[..i];
      var anchor := anchors[i];
      var href := anchor.href;
      if href == FtcUrl {
        continue;
      }
      if anchor.titleText.Some? {
        var title := Trim(anchor.titleText.value);
        if title != "" && !Includes(title, SingleVolume) {
          results := results + [href];
        }
      }
    }
    assert anchors[..|anchors|] == anchors;
  }

  /** The ids of a list of links, or `None` when one of them does not end
      in a number (SQLite then refuses the text as an `INTEGER PRIMARY KEY`
      and the statement throws). */
  function IdsOf(hrefs: seq<string>): Option<seq<nat>> {
    if hrefs == [] then Some([])
    else
      var init := IdsOf(hrefs[..|hrefs| - 1]);
      var id := IdOf(hrefs[|hrefs| - 1]);
      if init.Some? && id.Some? then Some(init.value + [id.value]) else None
  }

  /** A link without an id makes the whole list fail. */
  lemma {:induction false} IdsOfNoneAt(hrefs: seq<string>, i: nat)
    requires i < |hrefs| && IdOf(hrefs[i]).None?
    ensures IdsOf(hrefs).None?
  {
    var n := |hrefs|;
    if i < n - 1 {
      assert hrefs[..n - 1][i] == hrefs[i];
      IdsOfNoneAt(hrefs[..n - 1], i);
    }
  }

  /** When the ids are there, they are the links' ids, in order. */
  lemma {:induction false} IdsOfAt(hrefs: seq<string>, i: nat)
    requires i < |hrefs| && IdsOf(hrefs).Some?
    ensures |IdsOf(hrefs).value| == |hrefs|
    ensures IdOf(hrefs[i]) == Some(IdsOf(hrefs).value[i])
  {
    var n := |hrefs|;
    var init := hrefs[..n - 1];
    if n > 1 {
      IdsOfAt(init, if i < n - 1 then i else 0);
    }
    if i < n - 1 {
      assert init[i] == hrefs[i];
    }
  }

  /** Marking ids revisited one after another. */
  function RevisitAll(t: Table, ids: seq<nat>): Table {
    if ids == [] then t else WithRevisit(RevisitAll(t, ids[..|ids| - 1]), ids[|ids| - 1])
  }

  /** After marking, the table has a row for every old row and every id;
      every marked row is flagged; no detail column of an existing row
      changes; unmarked rows are untouched; new rows carry only the flag. */
  lemma {:induction false} RevisitAllRow(t: Table, ids: seq<nat>, k: nat)
    ensures k in RevisitAll(t, ids) <==> k in t || k in ids
    ensures k in ids ==> RevisitAll(t, ids)[k].re
    ensures k in t ==> Details(k, RevisitAll(t, ids)[k]) == Details(k, t[k])
    ensures k in t && k !in ids ==> RevisitAll(t, ids)[k] == t[k]
    ensures k !in t && k in ids ==> RevisitAll(t, ids)[k] == RevisitOnly
  {
    if ids != [] {
      var init := ids[..|ids| - 1];
      RevisitAllRow(t, init, k);
      assert k in ids <==> k in init || k == ids[|ids| - 1];
    }
  }

  /** Running the revisit pass twice over the same links is running it once. */
  lemma RevisitAllIdempotent(t: Table, ids: seq<nat>)
    ensures RevisitAll(RevisitAll(t, ids), ids) == RevisitAll(t, ids)
  {
    var once := RevisitAll(t, ids);
    var twice := RevisitAll(once, ids);
    forall k
      ensures k in twice <==> k in once
      ensures k in twice ==> twice[k] == once[k]
    {
      RevisitAllRow(t, ids, k);
      RevisitAllRow(once, ids, k);
      if k in ids {
        assert Details(k, twice[k]) == Details(k, once[k]);
        assert twice[k].re && once[k].re;
      }
    }
  }

  /** Marking one more id. */
  lemma RevisitAllSnoc(t: Table, ids: seq<nat>, id: nat)
    ensures RevisitAll(t, ids + [id]) == WithRevisit(RevisitAll(t, ids), id)
  {
    assert (ids + [id])[..|ids|] == ids;
  }

  /** The ids of one more link. */
  lemma IdsOfSnoc(hrefs: seq<string>, i: nat)
    requires i < |hrefs| && IdsOf(hrefs[..i]).Some? && IdOf(hrefs[i]).Some?
    ensures IdsOf(hrefs[..i + 1]) == Some(IdsOf(hrefs[..i]).value + [IdOf(hrefs[i]).value])
  {
    assert hrefs[..i + 1][..i] == hrefs[..i];
  }

  /** link.js:167-173: BEGIN, one revisit upsert per link, COMMIT. A link
      without a numeric id makes its statement throw; nothing catches it, the
      process ends with the transaction open, and SQLite discards it. */
  method MarkRevisits(db: ContentsTable, hrefs: seq<string>) returns (committed: bool)
    requires !db.inTransaction
    modifies db
    ensures !db.inTransaction
    ensures committed <==> IdsOf(hrefs).Some?
    ensures committed ==> db.rows == RevisitAll(old(db.rows), IdsOf(hrefs).value)
    ensures !committed ==> db.rows == old(db.rows)
  {
    db.Begin();
    for i := 0 to |hrefs|
      invariant db.inTransaction && db.snapshot == old(db.rows)
      invariant IdsOf(hrefs[..i]).Some?
      invariant db.rows == RevisitAll(old(db.rows), IdsOf(hrefs[..i]).value)
    {
      var id := IdOf(hrefs[i]);
      if id.None? {
        IdsOfNoneAt(hrefs, i);
        db.Rollback();
        return false;
      }
      IdsOfSnoc(hrefs, i);
      RevisitAllSnoc(old(db.rows), IdsOf(hrefs[..i]).value, id.value);
      db.MarkRevisited(id.value);
    }
    assert hrefs[..|hrefs|] == hrefs;
    db.Commit();
    return true;
  }

  /** The links link.js goes on to mark: those of the listing when the
      scroll loop settled and the extraction script ran, none otherwise
      (link.js:117-156). */
  function Collected(outcome: Outcome, anchors: Option<seq<Anchor>>): seq<string> {
    if outcome.Stable? && anchors.Some? then ExtractHrefs(anchors.value) else []
  }

  /** A crawl whose scroll loop hit an error marks nothing and changes
      nothing. */
  lemma ErroredCrawlWritesNothing(t: Table, cycles: seq<Cycle>, anchors: Option<seq<Anchor>>)
    requires Stabilise(cycles).Errored?
    ensures Collected(Stabilise(cycles), anchors) == []
    ensures RevisitAll(t, IdsOf(Collected(Stabilise(cycles), anchors)).value) == t
  {
  }

  /** The whole of link.js after the page has loaded: scroll until stable,
      extract the links (`anchors` is `None` when the extraction script
      threw, which is caught and leaves the list empty), then mark them.
      When the rounds run out before the loop stops, the program never gets
      past the loop and nothing is written. */
  method CollectLinks(db: ContentsTable, cycles: seq<Cycle>, anchors: Option<seq<Anchor>>)
    returns (outcome: Outcome, hrefs: seq<string>, committed: bool)
    requires !db.inTransaction
    modifies db
    ensures outcome == Stabilise(cycles)
    ensures hrefs == Collected(outcome, anchors)
    ensures !db.inTransaction
    ensures committed <==> !outcome.OutOfInput? && IdsOf(hrefs).Some?
    ensures committed ==> db.rows == RevisitAll(old(db.rows), IdsOf(hrefs).value)
    ensures !committed ==> db.rows == old(db.rows)
  {
    outcome := ScrollUntilStable(cycles);
    hrefs := [];
    if outcome.OutOfInput? {
      return outcome, hrefs, false;
    }
    if !outcome.Errored? && anchors.Some? {
      hrefs := FilterAnchors(anchors.value);
    }
    committed := MarkRevisits(db, hrefs);
  }
}

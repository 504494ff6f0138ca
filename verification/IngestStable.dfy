/** Exactly when crawling a batch twice leaves the table as crawling it once did. */
module IngestStable {
  import opened Options
  import opened Bits
  import opened SimHash
  import opened Ingest
  import opened IngestLaws

  // ---- what storing the accepted records leaves in the table ----

  /** Of the accepted records with one URL, the table takes the first and refuses the others. */
  ghost predicate FirstOfUrl(accepted: seq<Rec>, i: nat)
    requires i < |accepted|
  {
    forall j :: 0 <= j < i ==> accepted[j].url != accepted[i].url
  }

  ghost function UrlsOf(recs: seq<Rec>): set<string> {
    set r | r in recs :: r.url
  }

  ghost function KeptPrints(h: Hashing, accepted: seq<Rec>): set<Word> {
    set i: nat | i < |accepted| && FirstOfUrl(accepted, i) :: h.Print(accepted[i].text)
  }

  lemma FirstAmongMore(init: seq<Rec>, r: Rec)
    ensures forall i :: 0 <= i < |init| ==> FirstOfUrl(init + [r], i) == FirstOfUrl(init, i)
    ensures FirstOfUrl(init + [r], |init|) <==> r.url !in UrlsOf(init)
  {
    var all := init + [r];
    assert forall i :: 0 <= i < |init| ==> all[i] == init[i];
    if r.url in UrlsOf(init) {
      var x :| x in init && x.url == r.url;
      var j :| 0 <= j < |init| && init[j] == x;
      assert all[j].url == all[|init|].url;
    }
  }

  lemma KeptPrintsAppend(h: Hashing, init: seq<Rec>, r: Rec)
    ensures KeptPrints(h, init + [r])
         == KeptPrints(h, init) + if r.url in UrlsOf(init) then {} else {h.Print(r.text)}
  {
    var all := init + [r];
    FirstAmongMore(init, r);
    forall p | p in KeptPrints(h, init)
      ensures p in KeptPrints(h, all)
    {
      var i: nat :| i < |init| && FirstOfUrl(init, i) && h.Print(init[i].text) == p;
      assert all[i] == init[i] && FirstOfUrl(all, i);
    }
    forall p | p in KeptPrints(h, all)
      ensures p in KeptPrints(h, init) || (r.url !in UrlsOf(init) && p == h.Print(r.text))
    {
      var i: nat :| i < |all| && FirstOfUrl(all, i) && h.Print(all[i].text) == p;
      if i < |init| {
        assert all[i] == init[i] && FirstOfUrl(init, i);
      }
    }
    if r.url !in UrlsOf(init) {
      assert all[|init|] == r && FirstOfUrl(all, |init|);
    }
  }

  lemma UrlsOfAppend(init: seq<Rec>, r: Rec)
    ensures UrlsOf(init + [r]) == UrlsOf(init) + {r.url}
  {
    assert forall x :: x in init + [r] <==> x in init || x == r;
  }

  /** Records of the site with texts whose fingerprints are new to the table and to each other. */
  ghost predicate NewTexts(h: Hashing, rows: seq<Row>, recs: seq<Rec>, site: string) {
    && (forall i :: 0 <= i < |recs| ==>
          && recs[i].text != "" && (site == "" || recs[i].site == site)
          && h.Print(recs[i].text) !in StoredPrints(rows, site))
    && forall i, j :: 0 <= i < j < |recs| ==> h.Print(recs[i].text) != h.Print(recs[j].text)
  }

  /** A record with a new text is refused for its URL alone. */
  lemma RefusedForUrl(h: Hashing, rows: seq<Row>, r: Rec, site: string)
    requires CollisionFree(h) && Consistent(h, rows, site)
    requires r.text != "" && h.Print(r.text) !in StoredPrints(rows, site)
    ensures Refused(rows, Stamp(h, r)) <==> r.url in StoredUrls(rows, site)
  {
    forall row | row in rows
      ensures row.contentHash != h.sha256(r.text) && Visible(row, site)
    {
      assert h.Print(row.text) in StoredPrints(rows, site);
    }
  }

  /** Storing one more record. */
  lemma RowAdded(h: Hashing, rows: seq<Row>, r: Rec, site: string)
    requires Consistent(h, rows, site) && r.text != "" && (site == "" || r.site == site)
    ensures var rows' := rows + [AsRow(Stamp(h, r))];
      && Consistent(h, rows', site)
      && StoredUrls(rows', site) == StoredUrls(rows, site) + {r.url}
      && StoredPrints(rows', site) == StoredPrints(rows, site) + {h.Print(r.text)}
  {
    var row := AsRow(Stamp(h, r));
    assert row in rows + [row];
    assert forall x :: x in rows + [row] <==> x in rows || x == row;
  }

  lemma RecordStored(h: Hashing, rows: seq<Row>, r: Rec, site: string)
    requires CollisionFree(h) && Consistent(h, rows, site) && r.text != "" && (site == "" || r.site == site)
    requires h.Print(r.text) !in StoredPrints(rows, site)
    ensures var rows' := Upsert(rows, Stamp(h, r), true);
      && Consistent(h, rows', site)
      && StoredUrls(rows', site) == StoredUrls(rows, site) + {r.url}
      && StoredPrints(rows', site)
         == StoredPrints(rows, site) + if r.url in StoredUrls(rows, site) then {} else {h.Print(r.text)}
  {
    RefusedForUrl(h, rows, r, site);
    RowAdded(h, rows, r, site);
  }

  lemma UpsertAllStamped(h: Hashing, rows: seq<Row>, init: seq<Rec>, r: Rec)
    ensures UpsertAll(rows, StampAll(h, init + [r]), _ => true)
         == Upsert(UpsertAll(rows, StampAll(h, init), _ => true), Stamp(h, r), true)
  {
    assert StampAll(h, init + [r])[..|init|] == StampAll(h, init);
  }

  /** The table knows all URLs of the records, and the fingerprint of the first record of each. */
  ghost predicate FirstsKept(h: Hashing, rows: seq<Row>, recs: seq<Rec>, site: string, rows': seq<Row>) {
    && Consistent(h, rows', site)
    && StoredUrls(rows', site) == StoredUrls(rows, site) + UrlsOf(recs)
    && StoredPrints(rows', site) == StoredPrints(rows, site) + KeptPrints(h, recs)
  }

  lemma FirstsKeptNext(h: Hashing, rows: seq<Row>, init: seq<Rec>, r: Rec, site: string, before: seq<Row>)
    requires CollisionFree(h) && NewTexts(h, rows, init + [r], site) && r.url !in StoredUrls(rows, site)
    requires FirstsKept(h, rows, init, site, before)
    ensures FirstsKept(h, rows, init + [r], site, Upsert(before, Stamp(h, r), true))
  {
    UrlsOfAppend(init, r);
    KeptPrintsAppend(h, init, r);
    NewPrintOfLast(h, rows, init, r, site);
    RecordStored(h, before, r, site);
  }

  lemma NewPrintOfLast(h: Hashing, rows: seq<Row>, init: seq<Rec>, r: Rec, site: string)
    requires NewTexts(h, rows, init + [r], site)
    ensures r.text != "" && (site == "" || r.site == site)
    ensures h.Print(r.text) !in StoredPrints(rows, site) && h.Print(r.text) !in KeptPrints(h, init)
  {
    var all := init + [r];
    assert all[|init|] == r && forall i :: 0 <= i < |init| ==> all[i] == init[i];
  }

  lemma {:induction false} StoringKeepsFirsts(h: Hashing, rows: seq<Row>, recs: seq<Rec>, site: string)
    requires CollisionFree(h) && Consistent(h, rows, site) && NewTexts(h, rows, recs, site)
    requires StoredUrls(rows, site) !! UrlsOf(recs)
    ensures FirstsKept(h, rows, recs, site, UpsertAll(rows, StampAll(h, recs), _ => true))
  {
    if recs != [] {
      var init, r := recs[..|recs| - 1], recs[|recs| - 1];
      assert recs == init + [r];
      UrlsOfAppend(init, r);
      StoringKeepsFirsts(h, rows, init, site);
      UpsertAllStamped(h, rows, init, r);
      FirstsKeptNext(h, rows, init, r, site, UpsertAll(rows, StampAll(h, init), _ => true));
    }
  }

  // ---- when a later filtering accepts nothing ----

  lemma NothingPassesIff(c: Context, recs: seq<Rec>)
    requires c.prints != {} && forall r :: r in recs ==> r.text != ""
    ensures Pass(c, recs) == [] <==> forall r :: r in recs ==> r.url in c.urls || NearStored(c, r)
  {
    if Pass(c, recs) == [] {
      forall r | r in recs
        ensures r.url in c.urls || NearStored(c, r)
      {
        var i :| 0 <= i < |recs| && recs[i] == r;
        PassPrefix(c, recs, i);
        PassPrefix(c, recs, i + 1);
        assert recs[..i + 1][..i] == recs[..i];
        assert Decide(c, [], r) != Accepted;
      }
    }
    if forall r :: r in recs ==> r.url in c.urls || NearStored(c, r) {
      NothingPasses(c, recs);
    }
  }

  /** Accepted records have texts that are new. */
  lemma AcceptedAreNew(h: Hashing, rows: seq<Row>, recs: seq<Rec>, site: string, threshold: nat)
    requires StoredPrints(rows, site) != {} && OfSite(recs, site)
    ensures var accepted := Accepts(h, rows, recs, site, true, threshold);
      NewTexts(h, rows, accepted, site) && StoredUrls(rows, site) !! UrlsOf(accepted)
  {
    var c := ContextOf(h, rows, site, true, threshold);
    var accepted := Pass(c, recs);
    PassFrom(c, recs);
    PassIsSeparated(c, recs);
    forall i | 0 <= i < |accepted|
      ensures accepted[i].text != "" && (site == "" || accepted[i].site == site)
      ensures h.Print(accepted[i].text) !in StoredPrints(rows, site)
    {
      assert accepted[i] in accepted && FarFromStored(c, accepted[i]);
      HammingMetric(h.Print(accepted[i].text), h.Print(accepted[i].text), 0);
    }
    forall i, j | 0 <= i < j < |accepted|
      ensures h.Print(accepted[i].text) != h.Print(accepted[j].text)
    {
      assert FarApart(c, accepted[i], accepted[j]);
      HammingMetric(h.Print(accepted[i].text), h.Print(accepted[i].text), 0);
    }
  }

  /** A crawl leaves the table alone just when its filter accepts nothing. */
  lemma StableIffNothingAccepted(h: Hashing, rows: seq<Row>, recs: seq<Rec>, site: string, threshold: nat)
    requires CollisionFree(h) && Consistent(h, rows, site) && OfSite(recs, site) && StoredPrints(rows, site) != {}
    ensures Crawl(h, rows, recs, site, true, threshold) == rows
       <==> Accepts(h, rows, recs, site, true, threshold) == []
  {
    var accepted := Accepts(h, rows, recs, site, true, threshold);
    AcceptedAreNew(h, rows, recs, site, threshold);
    StoringKeepsFirsts(h, rows, accepted, site);
    if accepted != [] {
      assert accepted[0].url in UrlsOf(accepted);
    }
  }

  // ---- the condition, on the filter's output before anything is stored ----

  /**
   * What is known of r once the accepted records are stored: its URL, or a fingerprint near its own, of the table or of
   * an accepted record that is the first with its URL.
   */
  ghost predicate Covered(c: Context, accepted: seq<Rec>, r: Rec) {
    || r.url in c.urls
    || NearStored(c, r)
    || r.url in UrlsOf(accepted)
    || (exists i :: 0 <= i < |accepted| && FirstOfUrl(accepted, i) && NearTo(c, r, accepted[i]))
  }

  ghost predicate NearTo(c: Context, r: Rec, a: Rec) {
    IsNearDuplicate(c.h.Print(r.text), c.h.Print(a.text), c.threshold)
  }

  lemma CoveredIsKnown(c: Context, accepted: seq<Rec>, c': Context, r: Rec)
    requires c'.h == c.h && c'.threshold == c.threshold
    requires c'.urls == c.urls + UrlsOf(accepted) && c'.prints == c.prints + KeptPrints(c.h, accepted)
    ensures Covered(c, accepted, r) <==> r.url in c'.urls || NearStored(c', r)
  {
    if NearStored(c, r) {
      var p :| p in c.prints && IsNearDuplicate(c.h.Print(r.text), p, c.threshold);
      assert p in c'.prints;
    }
    if i :| 0 <= i < |accepted| && FirstOfUrl(accepted, i) && NearTo(c, r, accepted[i]) {
      assert c.h.Print(accepted[i].text) in KeptPrints(c.h, accepted);
    }
    if NearStored(c', r) && !NearStored(c, r) {
      NearKept(c, accepted, c', r);
    }
  }

  lemma NearKept(c: Context, accepted: seq<Rec>, c': Context, r: Rec)
    requires c'.h == c.h && c'.threshold == c.threshold && c'.prints == c.prints + KeptPrints(c.h, accepted)
    requires NearStored(c', r) && !NearStored(c, r)
    ensures exists i :: 0 <= i < |accepted| && FirstOfUrl(accepted, i) && NearTo(c, r, accepted[i])
  {
    var p :| p in c'.prints && IsNearDuplicate(c.h.Print(r.text), p, c.threshold);
    assert p in KeptPrints(c.h, accepted);
    var i: nat :| i < |accepted| && FirstOfUrl(accepted, i) && c.h.Print(accepted[i].text) == p;
    assert NearTo(c, r, accepted[i]);
  }

  /**
   * Repeating a crawl, on a table and a batch of one site: it changes nothing if and only if fingerprints were not
   * compared the first time, or the first filter's output covers every record of the batch.
   */
  lemma RepeatedCrawlIff(h: Hashing, rows: seq<Row>, recs: seq<Rec>, site: string, skip: bool, threshold: nat)
    requires CollisionFree(h) && Consistent(h, rows, site) && OfSite(recs, site)
    ensures var c, accepted := ContextOf(h, rows, site, skip, threshold), Accepts(h, rows, recs, site, skip, threshold);
      var rows' := Crawl(h, rows, recs, site, skip, threshold);
      Crawl(h, rows', recs, site, skip, threshold) == rows'
      <==> FirstCrawl(rows, site, skip) || forall r :: r in recs ==> Covered(c, accepted, r)
  {
    if FirstCrawl(rows, site, skip) {
      CrawlIsIdempotent(h, rows, recs, site, skip, threshold);
    } else {
      LaterCrawlIff(h, rows, recs, site, threshold);
    }
  }

  lemma LaterCrawlIff(h: Hashing, rows: seq<Row>, recs: seq<Rec>, site: string, threshold: nat)
    requires CollisionFree(h) && Consistent(h, rows, site) && OfSite(recs, site) && StoredPrints(rows, site) != {}
    ensures var c, accepted := ContextOf(h, rows, site, true, threshold), Accepts(h, rows, recs, site, true, threshold);
      var rows' := Crawl(h, rows, recs, site, true, threshold);
      Crawl(h, rows', recs, site, true, threshold) == rows' <==> forall r :: r in recs ==> Covered(c, accepted, r)
  {
    var c, accepted := ContextOf(h, rows, site, true, threshold), Accepts(h, rows, recs, site, true, threshold);
    var rows' := Crawl(h, rows, recs, site, true, threshold);
    var c' := ContextOf(h, rows', site, true, threshold);
    AcceptedAreNew(h, rows, recs, site, threshold);
    StoringKeepsFirsts(h, rows, accepted, site);
    StableIffNothingAccepted(h, rows', recs, site, threshold);
    NothingPassesIff(c', recs);
    forall r | r in recs
      ensures Covered(c, accepted, r) <==> r.url in c'.urls || NearStored(c', r)
    {
      CoveredIsKnown(c, accepted, c', r);
    }
  }

  // ---- the second filter's output ----

  lemma StoringStaysConsistent(h: Hashing, rows: seq<Row>, recs: seq<Rec>, site: string)
    requires Consistent(h, rows, site) && OfSite(recs, site)
    ensures Consistent(h, UpsertAll(rows, StampAll(h, recs), _ => true), site)
  {
    var rows' := UpsertAll(rows, StampAll(h, recs), _ => true);
    UpsertAllGrows(rows, StampAll(h, recs), _ => true);
    forall row | row in rows' && row !in rows
      ensures Visible(row, site) && row.contentHash == h.sha256(row.text) && row.simhash == Some(h.Print(row.text))
    {
      var s :| s in StampAll(h, recs) && s.contentHash.Some? && row == AsRow(s);
      var i :| 0 <= i < |recs| && StampAll(h, recs)[i] == s;
      assert recs[i] in recs;
    }
  }

  /** What the table refuses to take is known to it: by its URL, or by its very text. */
  lemma RefusedIsKnown(h: Hashing, rows: seq<Row>, r: Rec, site: string, threshold: nat)
    requires CollisionFree(h) && Consistent(h, rows, site) && r.text != "" && Refused(rows, Stamp(h, r))
    ensures var c := ContextOf(h, rows, site, true, threshold);
      r.url in c.urls || NearStored(c, r)
  {
    var row :| row in rows && (row.contentHash == h.sha256(r.text) || row.url == r.url);
    if row.url != r.url {
      assert row.text == r.text && h.Print(r.text) in StoredPrints(rows, site);
      HammingMetric(h.Print(r.text), h.Print(r.text), 0);
    }
  }

  lemma FirstCrawlThenNothing(h: Hashing, rows: seq<Row>, recs: seq<Rec>, site: string, threshold: nat)
    requires CollisionFree(h) && Consistent(h, rows, site) && OfSite(recs, site) && StoredPrints(rows, site) == {}
    ensures Accepts(h, Crawl(h, rows, recs, site, true, threshold), recs, site, true, threshold) == []
  {
    var c, rows' := ContextOf(h, rows, site, true, threshold), Crawl(h, rows, recs, site, true, threshold);
    var c', accepted := ContextOf(h, rows', site, true, threshold), Pass(c, recs);
    FirstPass(c, recs);
    WithoutMembers(recs, c.urls);
    StoringStaysConsistent(h, rows, accepted, site);
    UpsertAllGrows(rows, StampAll(h, accepted), _ => true);
    UpsertAllCovers(rows, StampAll(h, accepted));
    forall r | r in recs
      ensures r.url in c'.urls || NearStored(c', r)
    {
      if r in accepted {
        var i :| 0 <= i < |accepted| && accepted[i] == r;
        assert StampAll(h, accepted)[i] in StampAll(h, accepted);
        RefusedIsKnown(h, rows', r, site, threshold);
      }
    }
    NothingPasses(c', recs);
  }

  /** The filter returns nothing the second time under the same condition: always after a first crawl. */
  lemma SecondFilterEmptyIff(h: Hashing, rows: seq<Row>, recs: seq<Rec>, site: string, threshold: nat)
    requires CollisionFree(h) && Consistent(h, rows, site) && OfSite(recs, site)
    ensures var c, accepted := ContextOf(h, rows, site, true, threshold), Accepts(h, rows, recs, site, true, threshold);
      var rows' := Crawl(h, rows, recs, site, true, threshold);
      Accepts(h, rows', recs, site, true, threshold) == []
      <==> FirstCrawl(rows, site, true) || forall r :: r in recs ==> Covered(c, accepted, r)
  {
    if StoredPrints(rows, site) == {} {
      FirstCrawlThenNothing(h, rows, recs, site, threshold);
    } else {
      var accepted := Accepts(h, rows, recs, site, true, threshold);
      LaterCrawlIff(h, rows, recs, site, threshold);
      AcceptedAreNew(h, rows, recs, site, threshold);
      StoringKeepsFirsts(h, rows, accepted, site);
      StableIffNothingAccepted(h, Crawl(h, rows, recs, site, true, threshold), recs, site, threshold);
    }
  }
}

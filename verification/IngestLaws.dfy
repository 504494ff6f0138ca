/** What the filter returns, and what repeating a crawl does to the table. */
module IngestLaws {
  import opened Options
  import opened Bits
  import opened SimHash
  import opened Ingest

  // ---- the filter returns a maximal separated subsequence ----

  lemma {:induction false} PassFrom(c: Context, recs: seq<Rec>)
    ensures forall a :: a in Pass(c, recs) ==> a in recs && a.url !in c.urls
    ensures forall a :: a in Pass(c, recs) && a.text != "" && c.prints != {} ==> !NearStored(c, a)
  {
    if recs != [] {
      PassFrom(c, recs[..|recs| - 1]);
    }
  }

  /** Earlier prefixes' acceptances stay at the front. */
  lemma {:induction false} PassPrefix(c: Context, recs: seq<Rec>, n: nat)
    requires n <= |recs|
    ensures Pass(c, recs[..n]) <= Pass(c, recs)
  {
    if n < |recs| {
      PassPrefix(c, recs[..|recs| - 1], n);
      assert recs[..|recs| - 1][..n] == recs[..n];
    } else {
      assert recs[..n] == recs;
    }
  }

  /** Where in the batch the accepted records stand. */
  ghost function Positions(c: Context, recs: seq<Rec>): seq<nat> {
    if recs == [] then []
    else
      var last := |recs| - 1;
      var earlier := Positions(c, recs[..last]);
      if VerdictAt(c, recs, last) == Accepted then earlier + [last] else earlier
  }

  /** The output is the batch at strictly increasing positions, namely all those with the verdict Accepted. */
  lemma {:induction false} PassIsSubsequence(c: Context, recs: seq<Rec>)
    ensures var ps := Positions(c, recs);
      && |ps| == |Pass(c, recs)|
      && (forall i, j :: 0 <= i < j < |ps| ==> ps[i] < ps[j])
      && (forall i :: 0 <= i < |ps| ==> ps[i] < |recs| && Pass(c, recs)[i] == recs[ps[i]])
      && (forall k :: 0 <= k < |recs| ==> (k in ps <==> VerdictAt(c, recs, k) == Accepted))
  {
    if recs != [] {
      var last := |recs| - 1;
      PassIsSubsequence(c, recs[..last]);
      assert recs[..last] + [recs[last]] == recs;
      forall k | 0 <= k < last
        ensures VerdictAt(c, recs, k) == VerdictAt(c, recs[..last], k)
      {
        assert recs[..last][..k] == recs[..k];
      }
    }
  }

  /** Fingerprints are compared at all: not on a first crawl, and not for records without a text. */
  ghost predicate Compared(c: Context, r: Rec) {
    c.prints != {} && r.text != ""
  }

  ghost predicate FarApart(c: Context, a: Rec, b: Rec) {
    Compared(c, a) && Compared(c, b) ==> Hamming(c.h.Print(a.text), c.h.Print(b.text)) > c.threshold
  }

  ghost predicate FarFromStored(c: Context, a: Rec) {
    Compared(c, a) ==> forall p :: p in c.prints ==> Hamming(c.h.Print(a.text), p) > c.threshold
  }

  lemma AcceptedIsFar(c: Context, earlier: seq<Rec>, r: Rec)
    requires Decide(c, earlier, r) == Accepted
    ensures FarFromStored(c, r)
    ensures forall i :: 0 <= i < |earlier| ==> FarApart(c, r, earlier[i]) && FarApart(c, earlier[i], r)
  {
    if Compared(c, r) {
      forall p | p in c.prints
        ensures Hamming(c.h.Print(r.text), p) > c.threshold
      {
        assert !NearStored(c, r);
      }
      forall i | 0 <= i < |earlier| && Compared(c, earlier[i])
        ensures Hamming(c.h.Print(r.text), c.h.Print(earlier[i].text)) > c.threshold
        ensures Hamming(c.h.Print(earlier[i].text), c.h.Print(r.text)) > c.threshold
      {
        assert !NearEarlier(c, earlier, r) && earlier[i] in earlier;
        HammingMetric(c.h.Print(r.text), c.h.Print(earlier[i].text), 0);
      }
    }
  }

  ghost predicate Separated(c: Context, out: seq<Rec>) {
    && (forall i :: 0 <= i < |out| ==> FarFromStored(c, out[i]))
    && (forall i, j :: 0 <= i < |out| && 0 <= j < |out| && i != j ==> FarApart(c, out[i], out[j]))
  }

  lemma SeparatedAppend(c: Context, out: seq<Rec>, r: Rec)
    requires Separated(c, out) && FarFromStored(c, r)
    requires forall i :: 0 <= i < |out| ==> FarApart(c, r, out[i]) && FarApart(c, out[i], r)
    ensures Separated(c, out + [r])
  {
  }

  /** Accepted records are pairwise more than the threshold apart, and that far from the table. */
  lemma {:induction false} PassIsSeparated(c: Context, recs: seq<Rec>)
    ensures Separated(c, Pass(c, recs))
  {
    if recs != [] {
      var last := |recs| - 1;
      var earlier, r := Pass(c, recs[..last]), recs[last];
      PassIsSeparated(c, recs[..last]);
      if Decide(c, earlier, r) == Accepted {
        AcceptedIsFar(c, earlier, r);
        SeparatedAppend(c, earlier, r);
      }
    }
  }

  /**
   * Nothing more could have been kept: each rejected record names a known URL or has a
   * witness within the threshold.
   */
  lemma PassIsMaximal(c: Context, recs: seq<Rec>, k: nat)
    requires k < |recs|
    ensures VerdictAt(c, recs, k) == UrlDuplicate <==> recs[k].url in c.urls
    ensures VerdictAt(c, recs, k) == NearDuplicate ==>
      && Compared(c, recs[k])
      && ((exists p :: p in c.prints && Hamming(c.h.Print(recs[k].text), p) <= c.threshold)
          || (exists a :: a in Pass(c, recs[..k]) && a in Pass(c, recs) && Compared(c, a)
                && Hamming(c.h.Print(recs[k].text), c.h.Print(a.text)) <= c.threshold))
  {
    PassPrefix(c, recs, k);
    var r := recs[k];
    if VerdictAt(c, recs, k) == NearDuplicate {
      if NearStored(c, r) {
        var p :| p in c.prints && IsNearDuplicate(c.h.Print(r.text), p, c.threshold);
        assert Hamming(c.h.Print(r.text), p) <= c.threshold;
      } else {
        var a :| a in Pass(c, recs[..k]) && a.text != ""
                 && IsNearDuplicate(c.h.Print(r.text), c.h.Print(a.text), c.threshold);
        assert a in Pass(c, recs) && Compared(c, a);
      }
    }
  }

  /** Two texts rejected because of one witness are within twice the threshold of each other. */
  lemma OneWitness(a: Word, b: Word, w: Word, threshold: int)
    requires IsNearDuplicate(a, w, threshold) && IsNearDuplicate(b, w, threshold)
    ensures Hamming(a, b) <= 2 * threshold
  {
    HammingMetric(a, w, b);
    HammingMetric(b, w, 0);
  }

  // ---- the table ----

  lemma {:induction false} UpsertAllGrows(rows: seq<Row>, recs: seq<Rec>, reachable: nat -> bool)
    ensures rows <= UpsertAll(rows, recs, reachable)
    ensures UniqueKeys(rows) ==> UniqueKeys(UpsertAll(rows, recs, reachable))
    ensures forall row :: row in UpsertAll(rows, recs, reachable) && row !in rows ==>
      exists r :: r in recs && r.contentHash.Some? && row == AsRow(r)
  {
    if recs != [] {
      var last := |recs| - 1;
      UpsertAllGrows(rows, recs[..last], reachable);
    }
  }

  /** Every record of a fault-free batch is refused from then on. */
  lemma {:induction false} UpsertAllCovers(rows: seq<Row>, recs: seq<Rec>)
    ensures forall r :: r in recs ==> Refused(UpsertAll(rows, recs, _ => true), r)
  {
    if recs != [] {
      var last := |recs| - 1;
      var before, after := UpsertAll(rows, recs[..last], _ => true), UpsertAll(rows, recs, _ => true);
      UpsertAllCovers(rows, recs[..last]);
      forall r | r in recs
        ensures Refused(after, r)
      {
        if r in recs[..last] {
          assert Refused(before, r);
        } else if !Refused(before, r) {
          assert AsRow(r) in after;
        }
      }
    }
  }

  lemma {:induction false} UpsertAllRefused(rows: seq<Row>, recs: seq<Rec>, reachable: nat -> bool)
    requires forall r :: r in recs ==> Refused(rows, r)
    ensures UpsertAll(rows, recs, reachable) == rows
  {
    if recs != [] {
      UpsertAllRefused(rows, recs[..|recs| - 1], reachable);
    }
  }

  // ---- repeating a crawl ----

  ghost function Accepts(h: Hashing, rows: seq<Row>, recs: seq<Rec>, site: string, skip: bool,
                        threshold: int): seq<Rec> {
    Pass(ContextOf(h, rows, site, skip, threshold), recs)
  }

  /** A run in which the database never fails. */
  ghost function Crawl(h: Hashing, rows: seq<Row>, recs: seq<Rec>, site: string, skip: bool, threshold: int): seq<Row> {
    Run(h, rows, recs, site, skip, threshold, _ => true)
  }

  /** Spiders never set a fingerprint; only the filter does, and only for a non-empty text. */
  ghost predicate Unstamped(recs: seq<Rec>) {
    forall r :: r in recs ==> r.simhash.None?
  }

  ghost predicate DistinctUrls(recs: seq<Rec>) {
    forall i, j :: 0 <= i < j < |recs| ==> recs[i].url != recs[j].url
  }

  /** Without a stored fingerprint at the site, or when told not to skip, only URLs are compared. */
  ghost predicate FirstCrawl(rows: seq<Row>, site: string, skip: bool) {
    !skip || StoredPrints(rows, site) == {}
  }

  /** The records whose URL is not among `urls`. */
  ghost function Without(recs: seq<Rec>, urls: set<string>): seq<Rec> {
    if recs == [] then []
    else
      var last := |recs| - 1;
      Without(recs[..last], urls) + if recs[last].url in urls then [] else [recs[last]]
  }

  lemma WithoutAppend(recs: seq<Rec>, r: Rec, urls: set<string>)
    ensures Without(recs + [r], urls) == Without(recs, urls) + if r.url in urls then [] else [r]
  {
    assert (recs + [r])[..|recs|] == recs;
  }

  lemma {:induction false} WithoutMembers(recs: seq<Rec>, urls: set<string>)
    ensures forall r :: r in Without(recs, urls) <==> r in recs && r.url !in urls
  {
    if recs != [] {
      WithoutMembers(recs[..|recs| - 1], urls);
    }
  }

  /** c1 knows what c0 knew, and besides only what came of storing some of the records c0 accepts. */
  ghost predicate Learned(c0: Context, c1: Context, accepted: seq<Rec>) {
    && c0.h == c1.h && c0.threshold == c1.threshold
    && c0.urls <= c1.urls && c0.prints <= c1.prints
    && (forall p :: p in c1.prints && p !in c0.prints ==>
          exists a :: a in accepted && a.text != "" && a.url in c1.urls && p == c1.h.Print(a.text))
    && (forall a :: a in accepted && a.text != "" && a.url in c1.urls ==> c1.h.Print(a.text) in c1.prints)
  }

  /** A near duplicate stays one: its witness is stored by now, or is accepted again. */
  lemma StillNear(c0: Context, c1: Context, accepted: seq<Rec>, first: seq<Rec>, second: seq<Rec>, r: Rec)
    requires Learned(c0, c1, accepted) && first <= accepted
    requires second == Without(first, c1.urls)
    requires Decide(c0, first, r) == NearDuplicate
    ensures Decide(c1, second, r) != Accepted
  {
    if NearStored(c0, r) {
      StillNearStored(c0, c1, accepted, r);
    } else {
      StillNearEarlier(c0, c1, accepted, first, second, r);
    }
  }

  lemma StillNearStored(c0: Context, c1: Context, accepted: seq<Rec>, r: Rec)
    requires Learned(c0, c1, accepted) && NearStored(c0, r)
    ensures NearStored(c1, r) && c1.prints != {}
  {
    var p :| p in c0.prints && IsNearDuplicate(c0.h.Print(r.text), p, c0.threshold);
    assert p in c1.prints;
  }

  lemma StillNearEarlier(c0: Context, c1: Context, accepted: seq<Rec>, first: seq<Rec>, second: seq<Rec>, r: Rec)
    requires Learned(c0, c1, accepted) && first <= accepted
    requires second == Without(first, c1.urls) && NearEarlier(c0, first, r)
    ensures NearStored(c1, r) || NearEarlier(c1, second, r)
  {
    WithoutMembers(first, c1.urls);
    var a :| a in first && a.text != "" && IsNearDuplicate(c0.h.Print(r.text), c0.h.Print(a.text), c0.threshold);
    assert a in accepted;
    if a.url in c1.urls {
      assert c1.h.Print(a.text) in c1.prints;
    } else {
      assert a in second;
    }
  }

  /** An accepted record that was not stored is accepted again: it is as far from all the others as before. */
  lemma StillFar(c0: Context, c1: Context, accepted: seq<Rec>, first: seq<Rec>, second: seq<Rec>, r: Rec)
    requires Learned(c0, c1, accepted) && first + [r] <= accepted
    requires second == Without(first, c1.urls)
    requires c0.prints != {} && Decide(c0, first, r) == Accepted && r.url !in c1.urls
    requires Separated(c0, accepted)
    ensures Decide(c1, second, r) == Accepted
  {
    WithoutMembers(first, c1.urls);
    assert r == (first + [r])[|first|] == accepted[|first|];
    forall p | p in c1.prints && r.text != ""
      ensures !IsNearDuplicate(c1.h.Print(r.text), p, c1.threshold)
    {
      if p in c0.prints {
        assert !NearStored(c0, r);
      } else {
        var a :| a in accepted && a.text != "" && a.url in c1.urls && p == c1.h.Print(a.text);
        var i :| 0 <= i < |accepted| && accepted[i] == a;
        assert i != |first| && FarApart(c0, accepted[|first|], accepted[i]);
      }
    }
    forall a | a in second && a.text != "" && r.text != ""
      ensures !IsNearDuplicate(c1.h.Print(r.text), c1.h.Print(a.text), c1.threshold)
    {
      assert !NearEarlier(c0, first, r) && a in first;
    }
  }

  /** With fingerprints to compare, a later pass accepts again exactly what is still not stored. */
  lemma {:induction false} SecondPass(c0: Context, c1: Context, recs: seq<Rec>, n: nat)
    requires n <= |recs| && c0.prints != {}
    requires Learned(c0, c1, Pass(c0, recs))
    ensures Pass(c1, recs[..n]) == Without(Pass(c0, recs[..n]), c1.urls)
  {
    if n > 0 {
      SecondPass(c0, c1, recs, n - 1);
      var accepted, r := Pass(c0, recs), recs[n - 1];
      assert recs[..n][..n - 1] == recs[..n - 1];
      var first, second := Pass(c0, recs[..n - 1]), Pass(c1, recs[..n - 1]);
      PassPrefix(c0, recs, n - 1);
      PassPrefix(c0, recs, n);
      if Decide(c0, first, r) == NearDuplicate {
        StillNear(c0, c1, accepted, first, second, r);
      } else if Decide(c0, first, r) == Accepted {
        WithoutAppend(first, r, c1.urls);
        PassIsSeparated(c0, recs);
        if r.url !in c1.urls {
          StillFar(c0, c1, accepted, first, second, r);
        }
      }
    }
  }

  /** A row that a run added is one of the records the filter accepted, stamped. */
  lemma AddedRow(h: Hashing, rows: seq<Row>, accepted: seq<Rec>, reachable: nat -> bool, row: Row) returns (a: Rec)
    requires row in UpsertAll(rows, StampAll(h, accepted), reachable) && row !in rows
    ensures a in accepted && row.url == a.url && row.site == a.site && row.text == a.text
    ensures row.simhash == if a.text == "" then a.simhash else Some(h.Print(a.text))
    ensures a.text != "" ==> row.contentHash == h.sha256(a.text)
  {
    var stamped := StampAll(h, accepted);
    UpsertAllGrows(rows, stamped, reachable);
    var s :| s in stamped && s.contentHash.Some? && row == AsRow(s);
    var i :| 0 <= i < |stamped| && stamped[i] == s;
    a := accepted[i];
  }

  /** A fingerprint new to the table is that of an accepted record, whose URL the table then knows. */
  lemma NewPrint(h: Hashing, rows: seq<Row>, accepted: seq<Rec>, site: string, reachable: nat -> bool, p: Word)
    requires Unstamped(accepted)
    requires p in StoredPrints(UpsertAll(rows, StampAll(h, accepted), reachable), site) &&
             p !in StoredPrints(rows, site)
    ensures exists a :: a in accepted && a.text != "" && p == h.Print(a.text)
                        && a.url in StoredUrls(UpsertAll(rows, StampAll(h, accepted), reachable), site)
  {
    var row :| row in UpsertAll(rows, StampAll(h, accepted), reachable) && Visible(row, site) && row.simhash == Some(p);
    var a := AddedRow(h, rows, accepted, reachable, row);
    assert a.url in StoredUrls(UpsertAll(rows, StampAll(h, accepted), reachable), site);
  }

  /** When a URL of an accepted record becomes known, it is by storing that record. */
  lemma NewUrl(h: Hashing, rows: seq<Row>, accepted: seq<Rec>, site: string, reachable: nat -> bool, a: Rec)
    requires DistinctUrls(accepted) && a in accepted && a.text != "" && a.url !in StoredUrls(rows, site)
    requires a.url in StoredUrls(UpsertAll(rows, StampAll(h, accepted), reachable), site)
    ensures h.Print(a.text) in StoredPrints(UpsertAll(rows, StampAll(h, accepted), reachable), site)
  {
    var row :| row in UpsertAll(rows, StampAll(h, accepted), reachable) && Visible(row, site) && row.url == a.url;
    var b := AddedRow(h, rows, accepted, reachable, row);
    var i :| 0 <= i < |accepted| && accepted[i] == a;
    var j :| 0 <= j < |accepted| && accepted[j] == b;
    assert i == j;
  }

  /** Storing what a later crawl accepts teaches just that, whatever the database fails to store. */
  lemma RunTeaches(h: Hashing, rows: seq<Row>, recs: seq<Rec>, site: string, threshold: int, reachable: nat -> bool)
    requires Unstamped(recs)
    requires DistinctUrls(Accepts(h, rows, recs, site, true, threshold))
    ensures var rows' := Run(h, rows, recs, site, true, threshold, reachable);
      Learned(ContextOf(h, rows, site, true, threshold), ContextOf(h, rows', site, true, threshold),
              Accepts(h, rows, recs, site, true, threshold))
  {
    var c0 := ContextOf(h, rows, site, true, threshold);
    var accepted := Pass(c0, recs);
    var c1 := ContextOf(h, Run(h, rows, recs, site, true, threshold, reachable), site, true, threshold);
    UpsertAllGrows(rows, StampAll(h, accepted), reachable);
    PassFrom(c0, recs);
    forall p | p in c1.prints && p !in c0.prints
      ensures exists a :: a in accepted && a.text != "" && a.url in c1.urls && p == h.Print(a.text)
    {
      NewPrint(h, rows, accepted, site, reachable, p);
    }
    forall a | a in accepted && a.text != "" && a.url in c1.urls
      ensures h.Print(a.text) in c1.prints
    {
      NewUrl(h, rows, accepted, site, reachable, a);
    }
  }

  /**
   * After any later crawl, however many of its writes failed, a second crawl of the same batch returns the records
   * the first one accepted whose URL is still not stored for the site: no other record, and every one of them.
   */
  lemma SecondCrawlReturns(h: Hashing, rows: seq<Row>, recs: seq<Rec>, site: string, threshold: int,
                           reachable: nat -> bool)
    requires Unstamped(recs) && StoredPrints(rows, site) != {}
    requires DistinctUrls(Accepts(h, rows, recs, site, true, threshold))
    ensures var rows' := Run(h, rows, recs, site, true, threshold, reachable);
      Accepts(h, rows', recs, site, true, threshold)
        == Without(Accepts(h, rows, recs, site, true, threshold), StoredUrls(rows', site))
  {
    var rows' := Run(h, rows, recs, site, true, threshold, reachable);
    RunTeaches(h, rows, recs, site, threshold, reachable);
    SecondPass(ContextOf(h, rows, site, true, threshold), ContextOf(h, rows', site, true, threshold), recs, |recs|);
    assert recs[..|recs|] == recs;
  }

  lemma {:induction false} FirstPass(c: Context, recs: seq<Rec>)
    requires c.prints == {}
    ensures Pass(c, recs) == Without(recs, c.urls)
  {
    if recs != [] {
      FirstPass(c, recs[..|recs| - 1]);
    }
  }

  /** A second crawl accepts nothing that the first did not accept. */
  lemma SecondCrawlAcceptsNoMore(h: Hashing, rows: seq<Row>, recs: seq<Rec>, site: string, skip: bool, threshold: int,
                                 reachable: nat -> bool)
    requires Unstamped(recs)
    requires FirstCrawl(rows, site, skip) || DistinctUrls(Accepts(h, rows, recs, site, skip, threshold))
    ensures var rows' := Run(h, rows, recs, site, skip, threshold, reachable);
      forall r :: r in Accepts(h, rows', recs, site, skip, threshold)
        ==> r in Accepts(h, rows, recs, site, skip, threshold)
  {
    var rows' := Run(h, rows, recs, site, skip, threshold, reachable);
    var c0, c1 := ContextOf(h, rows, site, skip, threshold), ContextOf(h, rows', site, skip, threshold);
    if FirstCrawl(rows, site, skip) {
      UpsertAllGrows(rows, StampAll(h, Pass(c0, recs)), reachable);
      FirstPass(c0, recs);
      WithoutMembers(recs, c0.urls);
      PassFrom(c1, recs);
    } else {
      SecondCrawlReturns(h, rows, recs, site, threshold, reachable);
      WithoutMembers(Accepts(h, rows, recs, site, true, threshold), StoredUrls(rows', site));
    }
  }

  /**
   * Crawling a batch twice leaves the table as crawling it once did: for every table, also with rows of other sites
   * and rows without a fingerprint, and every batch, also with empty texts and records of other sites, provided that
   * fingerprints are not compared or no two accepted records share a URL.
   */
  lemma CrawlIsIdempotent(h: Hashing, rows: seq<Row>, recs: seq<Rec>, site: string, skip: bool, threshold: int)
    requires Unstamped(recs)
    requires FirstCrawl(rows, site, skip) || DistinctUrls(Accepts(h, rows, recs, site, skip, threshold))
    ensures var rows' := Crawl(h, rows, recs, site, skip, threshold);
      Crawl(h, rows', recs, site, skip, threshold) == rows'
  {
    var rows' := Crawl(h, rows, recs, site, skip, threshold);
    var first, second := Accepts(h, rows, recs, site, skip, threshold), Accepts(h, rows', recs, site, skip, threshold);
    SecondCrawlAcceptsNoMore(h, rows, recs, site, skip, threshold, _ => true);
    UpsertAllCovers(rows, StampAll(h, first));
    StampAllWithin(h, second, first);
    UpsertAllRefused(rows', StampAll(h, second), _ => true);
  }

  lemma StampAllWithin(h: Hashing, recs: seq<Rec>, all: seq<Rec>)
    requires forall r :: r in recs ==> r in all
    ensures forall s :: s in StampAll(h, recs) ==> s in StampAll(h, all)
  {
    forall i | 0 <= i < |recs|
      ensures StampAll(h, recs)[i] in StampAll(h, all)
    {
      assert recs[i] in recs;
      var j :| 0 <= j < |all| && all[j] == recs[i];
      assert StampAll(h, all)[j] == StampAll(h, recs)[i];
    }
  }

  // ---- when a second crawl finds nothing at all ----

  /** Every row is of the site and carries the hashes of its own text. */
  ghost predicate Consistent(h: Hashing, rows: seq<Row>, site: string) {
    forall row :: row in rows ==>
      Visible(row, site) && row.contentHash == h.sha256(row.text) && row.simhash == Some(h.Print(row.text))
  }

  /** The spider's records: a text each, no fingerprint yet, all of the site. */
  ghost predicate OfSite(recs: seq<Rec>, site: string) {
    forall r :: r in recs ==> r.text != "" && r.simhash.None? && (site == "" || r.site == site)
  }

  ghost predicate CollisionFree(h: Hashing) {
    forall x, y :: h.sha256(x) == h.sha256(y) ==> x == y
  }

  /** The row that makes the table refuse a stored record has the record's text. */
  lemma RefusingRow(h: Hashing, rows: seq<Row>, accepted: seq<Rec>, i: nat) returns (row: Row)
    requires i < |accepted| && accepted[i].text != "" && DistinctUrls(accepted)
    ensures row in UpsertAll(rows, StampAll(h, accepted), _ => true)
    ensures row in rows ==> row.url == accepted[i].url || row.contentHash == h.sha256(accepted[i].text)
    ensures row !in rows ==>
      exists b :: (b in accepted && row.site == b.site && row.text == b.text
        && row.simhash == (if b.text == "" then b.simhash else Some(h.Print(b.text)))
        && (b == accepted[i] || (b.text != "" ==> h.sha256(b.text) == h.sha256(accepted[i].text))))
  {
    var stamped := StampAll(h, accepted);
    UpsertAllCovers(rows, stamped);
    assert stamped[i] in stamped && stamped[i] == Stamp(h, accepted[i]);
    row :| row in UpsertAll(rows, stamped, _ => true)
           && (row.contentHash == stamped[i].contentHash.value || row.url == stamped[i].url);
    if row !in rows {
      var b := AddedRow(h, rows, accepted, _ => true, row);
      var j :| 0 <= j < |accepted| && accepted[j] == b;
      assert row.url == accepted[i].url ==> i == j;
    }
  }

  /** What is accepted has its fingerprint in the table afterwards. */
  lemma AcceptedPrintStored(h: Hashing, rows: seq<Row>, accepted: seq<Rec>, site: string, a: Rec)
    requires CollisionFree(h) && Consistent(h, rows, site) && OfSite(accepted, site) && DistinctUrls(accepted)
    requires a in accepted && a.url !in StoredUrls(rows, site)
    ensures h.Print(a.text) in StoredPrints(UpsertAll(rows, StampAll(h, accepted), _ => true), site)
  {
    var i :| 0 <= i < |accepted| && accepted[i] == a;
    var row := RefusingRow(h, rows, accepted, i);
    assert row.text == a.text && Visible(row, site);
  }

  lemma {:induction false} NothingPasses(c: Context, recs: seq<Rec>)
    requires forall r :: r in recs ==> r.url in c.urls || (r.text != "" && NearStored(c, r))
    ensures Pass(c, recs) == []
  {
    if recs != [] {
      NothingPasses(c, recs[..|recs| - 1]);
    }
  }

  /** Filtering the same batch again right after storing it returns nothing, on a first crawl as on later ones. */
  lemma SecondCrawlIsEmpty(h: Hashing, rows: seq<Row>, recs: seq<Rec>, site: string, threshold: nat)
    requires CollisionFree(h) && Consistent(h, rows, site) && OfSite(recs, site)
    requires DistinctUrls(Accepts(h, rows, recs, site, true, threshold))
    ensures Accepts(h, Crawl(h, rows, recs, site, true, threshold), recs, site, true, threshold) == []
  {
    var rows' := Crawl(h, rows, recs, site, true, threshold);
    var c0, c1 := ContextOf(h, rows, site, true, threshold), ContextOf(h, rows', site, true, threshold);
    UpsertAllGrows(rows, StampAll(h, Pass(c0, recs)), _ => true);
    PassFrom(c0, recs);
    forall r | r in recs
      ensures r.url in c1.urls || NearStored(c1, r)
    {
      if r.url !in c0.urls && !NearStored(c0, r) {
        var near := NearAccepted(c0, recs, r);
        AcceptedPrintStored(h, rows, Pass(c0, recs), site, near);
        assert h.Print(near.text) in c1.prints;
      }
    }
    NothingPasses(c1, recs);
  }

  /** A record that the table does not account for is accepted or has an accepted one nearby. */
  lemma NearAccepted(c: Context, recs: seq<Rec>, r: Rec) returns (near: Rec)
    requires c.threshold >= 0 && r in recs && r.text != "" && r.url !in c.urls && !NearStored(c, r)
    ensures near in Pass(c, recs) && IsNearDuplicate(c.h.Print(r.text), c.h.Print(near.text), c.threshold)
  {
    var i :| 0 <= i < |recs| && recs[i] == r;
    PassPrefix(c, recs, i);
    if VerdictAt(c, recs, i) == NearDuplicate {
      near :| near in Pass(c, recs[..i]) && IsNearDuplicate(c.h.Print(r.text), c.h.Print(near.text), c.threshold);
    } else {
      PassIsSubsequence(c, recs);
      assert i in Positions(c, recs);
      near := r;
      HammingMetric(c.h.Print(r.text), c.h.Print(r.text), 0);
    }
  }

  // ---- without any condition: repeated crawls settle ----

  ghost function Missing(rows: seq<Row>, recs: seq<Rec>): set<string> {
    (set r | r in recs :: r.url) - StoredUrls(rows, "")
  }

  lemma {:induction false} MissingAtMost(rows: seq<Row>, recs: seq<Rec>)
    ensures |Missing(rows, recs)| <= |recs|
  {
    if recs != [] {
      var last := |recs| - 1;
      MissingAtMost(rows, recs[..last]);
      assert recs == recs[..last] + [recs[last]];
      var rest, url := Missing(rows, recs[..last]), recs[last].url;
      if url in StoredUrls(rows, "") {
        assert Missing(rows, recs) == rest;
      } else {
        assert Missing(rows, recs) == rest + {url};
        OneMoreUrl(rest, url);
      }
    }
  }

  lemma OneMoreUrl(urls: set<string>, url: string)
    ensures |urls + {url}| <= |urls| + 1
  {
  }

  lemma {:induction false} UpsertAllAddsUrls(rows: seq<Row>, recs: seq<Rec>, reachable: nat -> bool)
    ensures var rows' := UpsertAll(rows, recs, reachable);
      rows' == rows || exists r :: r in recs && r.url !in StoredUrls(rows, "") && r.url in StoredUrls(rows', "")
  {
    if recs != [] {
      var last := |recs| - 1;
      var before, after := UpsertAll(rows, recs[..last], reachable), UpsertAll(rows, recs, reachable);
      UpsertAllAddsUrls(rows, recs[..last], reachable);
      UpsertAllGrows(rows, recs[..last], reachable);
      if before != rows {
        var r :| r in recs[..last] && r.url !in StoredUrls(rows, "") && r.url in StoredUrls(before, "");
        assert r in recs && r.url in StoredUrls(after, "");
      } else if after != rows {
        assert AsRow(recs[last]) in after && Visible(AsRow(recs[last]), "");
      }
    }
  }

  lemma StampedUrl(h: Hashing, recs: seq<Rec>, s: Rec)
    requires s in StampAll(h, recs)
    ensures exists r :: r in recs && r.url == s.url
  {
    var i :| 0 <= i < |recs| && StampAll(h, recs)[i] == s;
    assert recs[i] in recs && recs[i].url == s.url;
  }

  lemma MissingShrinks(rows: seq<Row>, rows': seq<Row>, recs: seq<Rec>, url: string)
    requires rows <= rows'
    requires exists r :: r in recs && r.url == url
    requires url !in StoredUrls(rows, "") && url in StoredUrls(rows', "")
    ensures |Missing(rows', recs)| < |Missing(rows, recs)|
  {
    var before, after := Missing(rows, recs), Missing(rows', recs);
    assert url in before && url !in after && after <= before;
    assert before == after + (before - after) && url in before - after;
  }

  /** A crawl that changes the table gives one more URL of the batch a row. */
  lemma CrawlFillsIn(h: Hashing, rows: seq<Row>, recs: seq<Rec>, site: string, skip: bool, threshold: int)
    ensures var rows' := Crawl(h, rows, recs, site, skip, threshold);
      rows' == rows || |Missing(rows', recs)| < |Missing(rows, recs)|
  {
    var c := ContextOf(h, rows, site, skip, threshold);
    var stamped := StampAll(h, Pass(c, recs));
    var rows' := Crawl(h, rows, recs, site, skip, threshold);
    UpsertAllAddsUrls(rows, stamped, _ => true);
    UpsertAllGrows(rows, stamped, _ => true);
    if rows' != rows {
      var s :| s in stamped && s.url !in StoredUrls(rows, "") && s.url in StoredUrls(rows', "");
      StampedUrl(h, Pass(c, recs), s);
      PassFrom(c, recs);
      MissingShrinks(rows, rows', recs, s.url);
    }
  }

  /** The table after k crawls of the same batch. */
  ghost function CrawlTimes(h: Hashing, rows: seq<Row>, recs: seq<Rec>, site: string, skip: bool, threshold: int,
                            k: nat): seq<Row>
  {
    if k == 0 then rows
    else Crawl(h, CrawlTimes(h, rows, recs, site, skip, threshold, k - 1), recs, site, skip, threshold)
  }

  /** Settled, or with at least k more URLs of the batch stored than at first. */
  ghost predicate FilledIn(h: Hashing, rows: seq<Row>, rows': seq<Row>, recs: seq<Rec>, site: string, skip: bool,
                           threshold: int, k: nat)
  {
    Crawl(h, rows', recs, site, skip, threshold) == rows' || |Missing(rows', recs)| + k <= |Missing(rows, recs)|
  }

  lemma FilledInNext(h: Hashing, rows: seq<Row>, before: seq<Row>, recs: seq<Rec>, site: string, skip: bool,
                     threshold: int, k: nat)
    requires FilledIn(h, rows, before, recs, site, skip, threshold, k)
    ensures FilledIn(h, rows, Crawl(h, before, recs, site, skip, threshold), recs, site, skip, threshold, k + 1)
  {
    CrawlFillsIn(h, before, recs, site, skip, threshold);
  }

  lemma {:induction false} CrawlTimesFillsIn(h: Hashing, rows: seq<Row>, recs: seq<Rec>, site: string, skip: bool,
                                             threshold: int, k: nat)
    ensures FilledIn(h, rows, CrawlTimes(h, rows, recs, site, skip, threshold, k), recs, site, skip, threshold, k)
  {
    if k == 0 {
      FilledInAtFirst(h, rows, recs, site, skip, threshold);
    } else {
      CrawlTimesFillsIn(h, rows, recs, site, skip, threshold, k - 1);
      var before := CrawlTimes(h, rows, recs, site, skip, threshold, k - 1);
      FilledInNext(h, rows, before, recs, site, skip, threshold, k - 1);
      CrawlTimesNext(h, rows, recs, site, skip, threshold, k - 1);
    }
  }

  lemma FilledInAtFirst(h: Hashing, rows: seq<Row>, recs: seq<Rec>, site: string, skip: bool, threshold: int)
    ensures FilledIn(h, rows, CrawlTimes(h, rows, recs, site, skip, threshold, 0), recs, site, skip, threshold, 0)
  {
  }

  lemma CrawlTimesNext(h: Hashing, rows: seq<Row>, recs: seq<Rec>, site: string, skip: bool, threshold: int, k: nat)
    ensures CrawlTimes(h, rows, recs, site, skip, threshold, k + 1)
         == Crawl(h, CrawlTimes(h, rows, recs, site, skip, threshold, k), recs, site, skip, threshold)
  {
  }

  /** However URLs repeat in a batch, crawling it |batch| times reaches a table that further crawls leave alone. */
  lemma RepeatedCrawlsSettle(h: Hashing, rows: seq<Row>, recs: seq<Rec>, site: string, skip: bool, threshold: int)
    ensures var rows' := CrawlTimes(h, rows, recs, site, skip, threshold, |recs|);
      Crawl(h, rows', recs, site, skip, threshold) == rows'
  {
    CrawlTimesFillsIn(h, rows, recs, site, skip, threshold, |recs|);
    CrawlFillsIn(h, CrawlTimes(h, rows, recs, site, skip, threshold, |recs|), recs, site, skip, threshold);
    MissingAtMost(rows, recs);
  }

  // ---- the condition on URLs cannot be dropped ----

  ghost predicate Near(h: Hashing, a: Rec, b: Rec, threshold: int) {
    IsNearDuplicate(h.Print(a.text), h.Print(b.text), threshold)
  }

  /** A record with a text that the table knows nothing like: no equal URL, no equal text, no near fingerprint. */
  ghost predicate Novel(h: Hashing, rows: seq<Row>, site: string, threshold: int, r: Rec) {
    && r.text != "" && (site == "" || r.site == site)
    && !Refused(rows, Stamp(h, r))
    && (forall p :: p in StoredPrints(rows, site) ==> !IsNearDuplicate(h.Print(r.text), p, threshold))
  }

  /** a and b share a URL and are far apart, b' is near b alone. */
  ghost predicate Trap(h: Hashing, rows: seq<Row>, site: string, threshold: int, a: Rec, b: Rec, b': Rec) {
    && StoredPrints(rows, site) != {}
    && Novel(h, rows, site, threshold, a) && Novel(h, rows, site, threshold, b) && Novel(h, rows, site, threshold, b')
    && a.url == b.url != b'.url && h.sha256(a.text) != h.sha256(b'.text)
    && !Near(h, b, a, threshold) && !Near(h, b', a, threshold) && Near(h, b', b, threshold)
  }

  lemma PassOfThree(c: Context, a: Rec, b: Rec, b': Rec)
    ensures var p1 := if Decide(c, [], a) == Accepted then [a] else [];
      var p2 := if Decide(c, p1, b) == Accepted then p1 + [b] else p1;
      Pass(c, [a, b, b']) == if Decide(c, p2, b') == Accepted then p2 + [b'] else p2
  {
    var recs := [a, b, b'];
    assert recs[..2] == [a, b] && recs[..2][..1] == [a] && [a][..0] == [];
    assert Pass(c, [a]) == if Decide(c, [], a) == Accepted then [a] else [];
  }

  lemma TrapFirstPass(h: Hashing, rows: seq<Row>, site: string, threshold: int, a: Rec, b: Rec, b': Rec)
    requires Trap(h, rows, site, threshold, a, b, b')
    ensures Accepts(h, rows, [a, b, b'], site, true, threshold) == [a, b]
  {
    var c := ContextOf(h, rows, site, true, threshold);
    assert a.url !in c.urls && b'.url !in c.urls;
    assert Decide(c, [], a) == Accepted;
    assert Decide(c, [a], b) == Accepted;
    assert Decide(c, [a, b], b') == NearDuplicate by {
      assert b in [a, b];
    }
    PassOfThree(c, a, b, b');
    assert [a] + [b] == [a, b];
  }

  lemma TrapFirstCrawl(h: Hashing, rows: seq<Row>, site: string, threshold: int, a: Rec, b: Rec, b': Rec)
    requires Trap(h, rows, site, threshold, a, b, b')
    ensures Crawl(h, rows, [a, b, b'], site, true, threshold) == rows + [AsRow(Stamp(h, a))]
  {
    TrapFirstPass(h, rows, site, threshold, a, b, b');
    var sa, sb := Stamp(h, a), Stamp(h, b);
    assert StampAll(h, [a, b]) == [sa, sb] && [sa, sb][..1] == [sa] && [sa][..0] == [];
    var rows' := rows + [AsRow(sa)];
    assert UpsertAll(rows, [sa], _ => true) == rows';
    assert AsRow(sa) in rows';
  }

  lemma StoredAppend(rows: seq<Row>, row: Row, site: string)
    requires Visible(row, site) && row.simhash.Some?
    ensures StoredUrls(rows + [row], site) == StoredUrls(rows, site) + {row.url}
    ensures StoredPrints(rows + [row], site) == StoredPrints(rows, site) + {row.simhash.value}
  {
    assert row in rows + [row];
  }

  lemma TrapSecondPass(h: Hashing, rows: seq<Row>, site: string, threshold: int, a: Rec, b: Rec, b': Rec)
    requires Trap(h, rows, site, threshold, a, b, b')
    ensures Accepts(h, rows + [AsRow(Stamp(h, a))], [a, b, b'], site, true, threshold) == [b']
  {
    var row := AsRow(Stamp(h, a));
    StoredAppend(rows, row, site);
    var c := ContextOf(h, rows + [row], site, true, threshold);
    assert b'.url !in StoredUrls(rows, site);
    PassOfThree(c, a, b, b');
  }

  /**
   * The second record suppresses the third and is then lost to the URL key, so the second crawl of the same batch
   * stores the third: whatever else the table holds, crawling twice is not crawling once.
   */
  lemma SharedUrlBreaksIdempotence(h: Hashing, rows: seq<Row>, site: string, threshold: int, a: Rec, b: Rec, b': Rec)
    requires Trap(h, rows, site, threshold, a, b, b')
    ensures var rows' := Crawl(h, rows, [a, b, b'], site, true, threshold);
      Crawl(h, rows', [a, b, b'], site, true, threshold) == rows' + [AsRow(Stamp(h, b'))]
  {
    TrapFirstCrawl(h, rows, site, threshold, a, b, b');
    TrapSecondPass(h, rows, site, threshold, a, b, b');
    var rows', s := rows + [AsRow(Stamp(h, a))], Stamp(h, b');
    assert StampAll(h, [b']) == [s] && [s][..0] == [];
    assert !Refused(rows', s);
    assert UpsertAll(rows', [], _ => true) == rows';
  }

  /** Texts as their own token and their own SHA-256; a token hashes to its length halved. */
  const TOY: Hashing := Hashing(text => [text], token => if |token| < 8 then |token| / 2 else 4, text => text)

  lemma ToyPrint(text: string)
    ensures TOY.Print(text) == if |text| < 8 then |text| / 2 else 4
  {
    assert Hashes(TOY.tokens(text), TOY.hash64) == [TOY.hash64(text)];
    FingerprintOfOne(TOY.hash64(text));
  }

  lemma ToyNear(text: string, w: Word)
    ensures IsNearDuplicate(TOY.Print(text), w, 0) <==> TOY.Print(text) == w
  {
    HammingMetric(TOY.Print(text), w, 0);
  }

  const TOY_ROW := Row("u", "zz", "s", "zz", Some(1))

  lemma ToyNovel(r: Rec)
    requires |r.url| > 1 && r.site == "s" && r.contentHash == None && 4 <= |r.text| < 8
    ensures Novel(TOY, [TOY_ROW], "s", 0, r)
  {
    ToyPrint(r.text);
    forall w: Word
      ensures IsNearDuplicate(TOY.Print(r.text), w, 0) <==> TOY.Print(r.text) == w
    {
      ToyNear(r.text, w);
    }
    assert |TOY_ROW.url| < |r.url| && |TOY_ROW.contentHash| < |r.text|;
  }

  lemma ToyTrap(a: Rec, b: Rec, b': Rec)
    requires a.site == b.site == b'.site == "s" && a.contentHash == b.contentHash == b'.contentHash == None
    requires a.url == b.url && 1 < |a.url| < |b'.url|
    requires |a.text| == 4 && |b.text| == 6 && |b'.text| == 7
    ensures Trap(TOY, [TOY_ROW], "s", 0, a, b, b')
  {
    ToyNovel(a);
    ToyNovel(b);
    ToyNovel(b');
    ToyPrint(a.text);
    ToyPrint(b.text);
    ToyPrint(b'.text);
    ToyNear(b.text, 2);
    ToyNear(b'.text, 2);
    ToyNear(b'.text, 3);
    assert TOY_ROW in [TOY_ROW] && 1 in StoredPrints([TOY_ROW], "s");
  }

  /** The trap is real: a table with one row, three texts and the strictest threshold. */
  lemma SharedUrlTrapExists()
    ensures exists h, rows, site, threshold, a, b, b' :: Trap(h, rows, site, threshold, a, b, b')
  {
    var a, b := Rec("u1", "four", "s", None, None), Rec("u1", "sixsix", "s", None, None);
    var b' := Rec("u22", "seven77", "s", None, None);
    ToyTrap(a, b, b');
  }
}

/** What the filter and the table do, said of rows and records alone. */
module IngestMeaning {
  import opened Options
  import opened Bits
  import opened SimHash
  import opened Ingest
  import opened IngestLaws

  // ---- which rows count ----

  /** The rows of the site, or all of them when no site is given. */
  lemma StoredSets(rows: seq<Row>, site: string)
    ensures StoredUrls(rows, site) == set row | row in rows && (site == "" || row.site == site) :: row.url
    ensures StoredPrints(rows, site)
         == set row | row in rows && (site == "" || row.site == site) && row.simhash.Some? :: row.simhash.value
  {
  }

  /** Tables that agree on the rows of the site are the same to the filter. */
  lemma OwnRowsDecide(h: Hashing, rows: seq<Row>, rows': seq<Row>, recs: seq<Rec>, site: string, skip: bool,
                      threshold: int)
    requires forall row: Row :: site == "" || row.site == site ==> (row in rows <==> row in rows')
    ensures ContextOf(h, rows', site, skip, threshold) == ContextOf(h, rows, site, skip, threshold)
    ensures Accepts(h, rows', recs, site, skip, threshold) == Accepts(h, rows, recs, site, skip, threshold)
  {
    StoredSets(rows, site);
    StoredSets(rows', site);
  }

  /** So rows of other sites do not matter. */
  lemma ForeignRowsDoNotMatter(h: Hashing, rows: seq<Row>, foreign: seq<Row>, recs: seq<Rec>, site: string, skip: bool,
                               threshold: int)
    requires site != "" && forall row :: row in foreign ==> row.site != site
    ensures Accepts(h, rows + foreign, recs, site, skip, threshold) == Accepts(h, rows, recs, site, skip, threshold)
  {
    OwnRowsDecide(h, rows, rows + foreign, recs, site, skip, threshold);
  }

  /** Without skipping nothing is held back. */
  lemma WithoutSkippingAllPass(h: Hashing, rows: seq<Row>, recs: seq<Rec>, site: string, threshold: int)
    ensures Accepts(h, rows, recs, site, false, threshold) == recs
  {
    FirstPass(ContextOf(h, rows, site, false, threshold), recs);
    WithoutNone(recs);
  }

  lemma {:induction false} WithoutNone(recs: seq<Rec>)
    ensures Without(recs, {}) == recs
  {
    if recs != [] {
      WithoutNone(recs[..|recs| - 1]);
    }
  }

  // ---- the verdict on each record ----

  ghost predicate UrlStored(rows: seq<Row>, site: string, url: string) {
    exists row :: row in rows && (site == "" || row.site == site) && row.url == url
  }

  /** The site has a fingerprint to compare with. */
  ghost predicate SomePrint(rows: seq<Row>, site: string) {
    exists row :: row in rows && (site == "" || row.site == site) && row.simhash.Some?
  }

  ghost predicate NearRow(h: Hashing, rows: seq<Row>, site: string, threshold: int, r: Rec) {
    exists row :: row in rows && (site == "" || row.site == site) && row.simhash.Some?
                  && Hamming(h.Print(r.text), row.simhash.value) <= threshold
  }

  ghost predicate NearKept(c: Context, recs: seq<Rec>, k: nat)
    requires k < |recs|
  {
    exists j :: 0 <= j < k && VerdictAt(c, recs, j) == Accepted && recs[j].text != ""
                && Hamming(c.h.Print(recs[k].text), c.h.Print(recs[j].text)) <= c.threshold
  }

  /**
   * The verdict on each record of a batch, by the verdicts on those before it: a URL duplicate if the site has its URL;
   * otherwise a near duplicate if it has a text and the site has fingerprints, one of which is near, or the text of a
   * record accepted before is; otherwise accepted.
   */
  lemma VerdictMeans(h: Hashing, rows: seq<Row>, site: string, skip: bool, threshold: int, recs: seq<Rec>, k: nat)
    requires k < |recs|
    ensures var c := ContextOf(h, rows, site, skip, threshold);
      var known := skip && UrlStored(rows, site, recs[k].url);
      && (VerdictAt(c, recs, k) == UrlDuplicate <==> known)
      && (VerdictAt(c, recs, k) == NearDuplicate
          <==> !known && skip && recs[k].text != "" && SomePrint(rows, site)
               && (NearRow(h, rows, site, threshold, recs[k]) || NearKept(c, recs, k)))
  {
    var c := ContextOf(h, rows, site, skip, threshold);
    StoredSets(rows, site);
    NearEarlierMeans(c, recs, k);
    if skip && recs[k].text != "" {
      NearStoredMeans(h, rows, site, threshold, recs[k]);
    }
    assert SomePrint(rows, site) <==> StoredPrints(rows, site) != {} by {
      if row :| row in rows && (site == "" || row.site == site) && row.simhash.Some? {
        assert row.simhash.value in StoredPrints(rows, site);
      }
    }
  }

  lemma NearStoredMeans(h: Hashing, rows: seq<Row>, site: string, threshold: int, r: Rec)
    ensures NearStored(ContextOf(h, rows, site, true, threshold), r) <==> NearRow(h, rows, site, threshold, r)
  {
    var c := ContextOf(h, rows, site, true, threshold);
    StoredSets(rows, site);
    if row :| row in rows && (site == "" || row.site == site) && row.simhash.Some?
              && Hamming(h.Print(r.text), row.simhash.value) <= threshold {
      assert row.simhash.value in c.prints && IsNearDuplicate(h.Print(r.text), row.simhash.value, threshold);
    }
  }

  lemma NearEarlierMeans(c: Context, recs: seq<Rec>, k: nat)
    requires k < |recs|
    ensures NearEarlier(c, Pass(c, recs[..k]), recs[k]) <==> NearKept(c, recs, k)
  {
    if NearEarlier(c, Pass(c, recs[..k]), recs[k]) {
      var a :| a in Pass(c, recs[..k]) && a.text != ""
               && IsNearDuplicate(c.h.Print(recs[k].text), c.h.Print(a.text), c.threshold);
      var j := PassedAt(c, recs, k, a);
      assert recs[j] == a;
    }
    if j :| 0 <= j < k && VerdictAt(c, recs, j) == Accepted && recs[j].text != ""
            && Hamming(c.h.Print(recs[k].text), c.h.Print(recs[j].text)) <= c.threshold {
      AcceptedPasses(c, recs, k, j);
      assert IsNearDuplicate(c.h.Print(recs[k].text), c.h.Print(recs[j].text), c.threshold);
    }
  }

  lemma PassedAt(c: Context, recs: seq<Rec>, k: nat, a: Rec) returns (j: nat)
    requires k <= |recs| && a in Pass(c, recs[..k])
    ensures j < k && VerdictAt(c, recs, j) == Accepted && recs[j] == a
  {
    var earlier := recs[..k];
    PassIsSubsequence(c, earlier);
    var i :| 0 <= i < |Pass(c, earlier)| && Pass(c, earlier)[i] == a;
    j := Positions(c, earlier)[i];
    assert j in Positions(c, earlier) && earlier[..j] == recs[..j];
  }

  lemma AcceptedPasses(c: Context, recs: seq<Rec>, k: nat, j: nat)
    requires j < k <= |recs| && VerdictAt(c, recs, j) == Accepted
    ensures recs[j] in Pass(c, recs[..k])
  {
    var earlier := recs[..k];
    PassIsSubsequence(c, earlier);
    assert earlier[..j] == recs[..j] && VerdictAt(c, earlier, j) == Accepted;
    var i :| 0 <= i < |Positions(c, earlier)| && Positions(c, earlier)[i] == j;
    assert Pass(c, earlier)[i] == recs[j];
  }

  // ---- the table ----

  /** A row is added, with the record's data, exactly when it has a hash and no row shares its hash or its URL. */
  lemma UpsertMeans(rows: seq<Row>, r: Rec)
    ensures Upsert(rows, r, false) == rows
    ensures Insertable(rows, r) ==>
      Upsert(rows, r, true) == rows + [Row(r.url, r.text, r.site, r.contentHash.value, r.simhash)]
    ensures !Insertable(rows, r) ==> Upsert(rows, r, true) == rows
  {
  }

  ghost predicate Insertable(rows: seq<Row>, r: Rec) {
    r.contentHash.Some? && forall row :: row in rows ==> row.contentHash != r.contentHash.value && row.url != r.url
  }
}

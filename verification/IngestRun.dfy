/** The pipeline as it runs: a batch and a table updated in place, each method proved against module Ingest. */
module IngestRun {
  import opened Options
  import opened Bits
  import opened SimHash
  import opened Ingest
  import opened IngestLaws

  lemma ValuesOfUpdate(m: map<string, Word>, k: string, v: Word)
    requires k !in m
    ensures m[k := v].Values == m.Values + {v}
  {
    var m' := m[k := v];
    assert m'[k] == v;
    forall x | x in m.Values
      ensures x in m'.Values
    {
      var u :| u in m && m[u] == x;
      assert m'[u] == x;
    }
  }

  ghost function VisibleRows(rows: seq<Row>, site: string): set<nat> {
    set i: nat | i < |rows| && Visible(rows[i], site)
  }

  lemma VisibleRowsNext(rows: seq<Row>, site: string, i: nat)
    requires i < |rows|
    ensures |VisibleRows(rows[..i + 1], site)|
         == |VisibleRows(rows[..i], site)| + if Visible(rows[i], site) then 1 else 0
  {
    var before, after := VisibleRows(rows[..i], site), VisibleRows(rows[..i + 1], site);
    assert after == if Visible(rows[i], site) then before + {i} else before;
  }

  /** The record's content hash is in the table already, or it has none. */
  ghost predicate HashKnown(rows: seq<Row>, r: Rec) {
    r.contentHash.None? || exists row :: row in rows && row.contentHash == r.contentHash.value
  }

  lemma StoredUrlsNext(rows: seq<Row>, site: string, i: nat)
    requires UniqueKeys(rows) && i < |rows|
    ensures StoredUrls(rows[..i + 1], site)
         == StoredUrls(rows[..i], site) + if Visible(rows[i], site) then {rows[i].url} else {}
    ensures rows[i].url !in StoredUrls(rows[..i], site)
  {
    assert rows[..i + 1] == rows[..i] + [rows[i]];
  }

  /** The URLs of the rows of the site, each row's its own. */
  ghost predicate UrlsOf(rows: seq<Row>, site: string, urls: set<string>) {
    urls == StoredUrls(rows, site) && |urls| == |VisibleRows(rows, site)|
  }

  lemma UrlsOfNext(rows: seq<Row>, site: string, i: nat, urls: set<string>)
    requires UniqueKeys(rows) && i < |rows| && UrlsOf(rows[..i], site, urls)
    ensures UrlsOf(rows[..i + 1], site, if Visible(rows[i], site) then urls + {rows[i].url} else urls)
  {
    VisibleRowsNext(rows, site, i);
    StoredUrlsNext(rows, site, i);
  }

  /** Every record with one of the URLs is refused; if they are those of all sites, only a hash refuses any other. */
  ghost predicate UrlDecides(rows: seq<Row>, site: string, urls: set<string>, r: Rec) {
    && (r.url in urls ==> Refused(rows, r))
    && (site == "" ==> (Refused(rows, r) <==> r.url in urls || HashKnown(rows, r)))
  }

  ghost predicate UrlsDecide(rows: seq<Row>, site: string, urls: set<string>) {
    forall r: Rec :: UrlDecides(rows, site, urls, r)
  }

  lemma StoredUrlsDecide(rows: seq<Row>, site: string)
    ensures UrlsDecide(rows, site, StoredUrls(rows, site))
  {
    forall r: Rec
      ensures UrlDecides(rows, site, StoredUrls(rows, site), r)
    {
      if r.url in StoredUrls(rows, site) {
        var row :| row in rows && row.url == r.url;
        assert Refused(rows, r);
      }
      if site == "" && Refused(rows, r) && r.contentHash.Some? {
        var row :| row in rows && (row.contentHash == r.contentHash.value || row.url == r.url);
        assert Visible(row, site);
      }
    }
  }

  /** The fingerprints of the rows of the site, by their URLs. */
  ghost predicate HashesOf(rows: seq<Row>, site: string, hashes: map<string, Word>) {
    && hashes.Values == StoredPrints(rows, site)
    && (forall row :: row in rows && Visible(row, site) && row.simhash.Some? ==>
          row.url in hashes && hashes[row.url] == row.simhash.value)
    && (forall u :: u in hashes ==>
          exists row :: row in rows && Visible(row, site) && row.url == u && row.simhash.Some?)
  }

  lemma HashesNext(rows: seq<Row>, row: Row, site: string, hashes: map<string, Word>)
    requires HashesOf(rows, site, hashes) && forall r :: r in rows ==> r.url != row.url
    ensures HashesOf(rows + [row], site,
              if Visible(row, site) && row.simhash.Some? then hashes[row.url := row.simhash.value] else hashes)
  {
    assert forall r :: r in rows + [row] <==> r in rows || r == row;
    StoredPrintsNext(rows, row, site);
    if Visible(row, site) && row.simhash.Some? {
      HashAdded(rows, row, site, hashes);
    }
  }

  lemma StoredPrintsNext(rows: seq<Row>, row: Row, site: string)
    ensures StoredPrints(rows + [row], site)
         == StoredPrints(rows, site) + if Visible(row, site) && row.simhash.Some? then {row.simhash.value} else {}
  {
    assert forall r :: r in rows + [row] <==> r in rows || r == row;
  }

  lemma HashAdded(rows: seq<Row>, row: Row, site: string, hashes: map<string, Word>)
    requires HashesOf(rows, site, hashes) && forall r :: r in rows ==> r.url != row.url
    requires Visible(row, site) && row.simhash.Some?
    ensures HashesOf(rows + [row], site, hashes[row.url := row.simhash.value])
  {
    assert forall r :: r in rows + [row] <==> r in rows || r == row;
    StoredPrintsNext(rows, row, site);
    ValuesOfUpdate(hashes, row.url, row.simhash.value);
    assert row in rows + [row];
  }

  /** Table jd_raw with its unique indexes on content_hash and source_url. */
  class JdTable {
    var rows: seq<Row>

    ghost predicate Valid()
      reads this
    {
      UniqueKeys(rows)
    }

    constructor ()
      ensures Valid() && rows == []
    {
      rows := [];
    }

    /**
     * The URLs of the site's rows, each row's its own. A record that is skipped for its URL is one that the table would
     * refuse, and over all sites only a content hash can make it refuse another.
     */
    method ExistingUrls(site: string) returns (urls: set<string>)
      requires Valid()
      ensures urls == StoredUrls(rows, site) && |urls| == |VisibleRows(rows, site)|
      ensures UrlsDecide(rows, site, urls)
      ensures forall u :: u in urls <==> exists row :: row in rows && (site == "" || row.site == site) && row.url == u
    {
      urls := {};
      for i := 0 to |rows|
        invariant UrlsOf(rows[..i], site, urls)
      {
        UrlsOfNext(rows, site, i, urls);
        if Visible(rows[i], site) {
          urls := urls + {rows[i].url};
        }
      }
      assert rows[..|rows|] == rows;
      StoredUrlsDecide(rows, site);
    }

    /** The fingerprints by URL, of the site's rows or of all; rows without one are left out. */
    method ExistingHashes(site: string) returns (hashes: map<string, Word>)
      requires Valid()
      ensures hashes.Values == StoredPrints(rows, site)
      ensures forall row :: row in rows && (site == "" || row.site == site) && row.simhash.Some? ==>
        row.url in hashes && hashes[row.url] == row.simhash.value
      ensures forall u :: u in hashes ==>
        exists row :: row in rows && (site == "" || row.site == site) && row.url == u && row.simhash.Some?
    {
      hashes := map[];
      for i := 0 to |rows|
        invariant HashesOf(rows[..i], site, hashes)
      {
        var row := rows[i];
        assert rows[..i + 1] == rows[..i] + [row];
        HashesNext(rows[..i], row, site, hashes);
        if Visible(row, site) && row.simhash.Some? {
          hashes := hashes[row.url := row.simhash.value];
        }
      }
      assert rows[..|rows|] == rows;
    }

    /** Insert and commit; without a hash, and with a known URL under a new hash, the statement raises an error. */
    method UpsertJd(record: Rec, db: Database) returns (status: Status)
      requires Valid()
      modifies this
      ensures Valid()
      ensures rows == Upsert(old(rows), record, db == Works)
      ensures status == StatusOf(old(rows), record, db)
      ensures rows == if status == Inserted
        then old(rows) + [Row(record.url, record.text, record.site, record.contentHash.value, record.simhash)]
        else old(rows)
      ensures status == Inserted <==>
        db == Works && record.contentHash.Some?
        && forall row :: row in old(rows) ==> row.contentHash != record.contentHash.value && row.url != record.url
      ensures status == Failed <==>
        db == CommitFails && record.contentHash.Some?
        && ((exists row :: row in old(rows) && row.contentHash == record.contentHash.value)
            || forall row :: row in old(rows) ==> row.url != record.url)
    {
      if db == ExecuteFails || record.contentHash.None? {
        return Duplicate;
      }
      var passedOver := exists row :: row in rows && row.contentHash == record.contentHash.value;
      if !passedOver && exists row :: row in rows && row.url == record.url {
        return Duplicate;
      }
      if db == CommitFails {
        return Failed;
      }
      if passedOver {
        return Duplicate;
      }
      rows := rows + [AsRow(record)];
      status := Inserted;
    }
  }

  /** The statistics of one batch. */
  datatype IncrementalResult = IncrementalResult(
    total: nat, inserted: nat, urlDuplicate: nat, contentNearDuplicate: nat,
    skippedUrls: seq<string>, insertedUrls: seq<string>)

  ghost function CountOf(c: Context, recs: seq<Rec>, v: Verdict): nat {
    if recs == [] then 0
    else CountOf(c, recs[..|recs| - 1], v) + if VerdictAt(c, recs, |recs| - 1) == v then 1 else 0
  }

  ghost function SkippedUrls(c: Context, recs: seq<Rec>): seq<string> {
    if recs == [] then []
    else
      var last := |recs| - 1;
      SkippedUrls(c, recs[..last]) + if VerdictAt(c, recs, last) == Accepted then [] else [recs[last].url]
  }

  ghost function Urls(recs: seq<Rec>): (us: seq<string>) {
    seq(|recs|, i requires 0 <= i < |recs| => recs[i].url)
  }

  /** What the statistics of a batch have to be. */
  ghost function StatsOf(c: Context, recs: seq<Rec>): IncrementalResult {
    IncrementalResult(|recs|, CountOf(c, recs, Accepted), CountOf(c, recs, UrlDuplicate),
                      CountOf(c, recs, NearDuplicate),
                      SkippedUrls(c, recs), Urls(Pass(c, recs)))
  }

  /** One more record, with its verdict, in the statistics. */
  function Counted(s: IncrementalResult, v: Verdict, url: string): IncrementalResult {
    match v
    case Accepted => s.(total := s.total + 1, inserted := s.inserted + 1, insertedUrls := s.insertedUrls + [url])
    case UrlDuplicate =>
      s.(total := s.total + 1, urlDuplicate := s.urlDuplicate + 1, skippedUrls := s.skippedUrls + [url])
    case NearDuplicate =>
      s.(total := s.total + 1, contentNearDuplicate := s.contentNearDuplicate + 1, skippedUrls := s.skippedUrls + [url])
  }

  /** Every record is counted exactly once. */
  lemma {:induction false} StatsAddUp(c: Context, recs: seq<Rec>)
    ensures var s := StatsOf(c, recs);
      && s.total == s.inserted + s.urlDuplicate + s.contentNearDuplicate
      && s.inserted == |s.insertedUrls|
      && s.urlDuplicate + s.contentNearDuplicate == |s.skippedUrls|
  {
    if recs != [] {
      StatsAddUp(c, recs[..|recs| - 1]);
    }
  }

  /** The records with a verdict, by their positions. */
  ghost function At(c: Context, recs: seq<Rec>, v: Verdict): set<nat> {
    set k: nat | k < |recs| && VerdictAt(c, recs, k) == v
  }

  lemma AtNext(c: Context, recs: seq<Rec>, v: Verdict)
    requires recs != []
    ensures var last := |recs| - 1;
      |At(c, recs, v)| == |At(c, recs[..last], v)| + if VerdictAt(c, recs, last) == v then 1 else 0
  {
    var last := |recs| - 1;
    var init := recs[..last];
    AtInit(c, recs, v);
    OneMore(At(c, init, v), At(c, recs, v), last);
  }

  lemma OneMore(before: set<nat>, after: set<nat>, last: nat)
    requires forall k :: k in before <==> k in after && k < last
    requires forall k :: k in after ==> k <= last
    ensures |after| == |before| + if last in after then 1 else 0
  {
    if last in after {
      assert after == before + {last};
    } else {
      assert after == before;
    }
  }

  lemma VerdictOfInit(c: Context, recs: seq<Rec>, k: nat)
    requires k < |recs| - 1
    ensures VerdictAt(c, recs[..|recs| - 1], k) == VerdictAt(c, recs, k)
  {
    assert recs[..|recs| - 1][..k] == recs[..k];
  }

  lemma AtInit(c: Context, recs: seq<Rec>, v: Verdict)
    requires recs != []
    ensures forall k: nat :: k in At(c, recs[..|recs| - 1], v) <==> k in At(c, recs, v) && k < |recs| - 1
  {
    forall k: nat | k < |recs| - 1
      ensures VerdictAt(c, recs[..|recs| - 1], k) == VerdictAt(c, recs, k)
    {
      VerdictOfInit(c, recs, k);
    }
  }

  /** Each number counts the records with its verdict. */
  lemma {:induction false} StatsCount(c: Context, recs: seq<Rec>)
    ensures var s := StatsOf(c, recs);
      && s.total == |recs|
      && s.inserted == |At(c, recs, Accepted)|
      && s.urlDuplicate == |At(c, recs, UrlDuplicate)|
      && s.contentNearDuplicate == |At(c, recs, NearDuplicate)|
  {
    if recs == [] {
      assert forall v :: At(c, recs, v) == {};
    } else {
      StatsCount(c, recs[..|recs| - 1]);
      AtNext(c, recs, Accepted);
      AtNext(c, recs, UrlDuplicate);
      AtNext(c, recs, NearDuplicate);
    }
  }

  /** Either URL list names the records of its kind in the order of the batch. */
  lemma StatsList(c: Context, recs: seq<Rec>) returns (accepted: seq<nat>, rejected: seq<nat>)
    ensures ListedAt(recs, accepted, StatsOf(c, recs).insertedUrls)
    ensures ListedAt(recs, rejected, StatsOf(c, recs).skippedUrls)
    ensures forall k :: 0 <= k < |recs| ==> (k in accepted <==> VerdictAt(c, recs, k) == Accepted)
    ensures forall k :: 0 <= k < |recs| ==> (k in rejected <==> VerdictAt(c, recs, k) != Accepted)
  {
    PassIsSubsequence(c, recs);
    accepted := Positions(c, recs);
    rejected := SkippedInOrder(c, recs);
  }

  ghost predicate ListedAt(recs: seq<Rec>, ps: seq<nat>, urls: seq<string>) {
    && |ps| == |urls|
    && (forall i, j :: 0 <= i < j < |ps| ==> ps[i] < ps[j])
    && (forall i :: 0 <= i < |ps| ==> ps[i] < |recs| && urls[i] == recs[ps[i]].url)
  }

  /** For each record whether it was accepted. */
  ghost function Flags(c: Context, recs: seq<Rec>): (fs: seq<bool>)
    ensures |fs| == |recs|
  {
    seq(|recs|, k requires 0 <= k < |recs| => VerdictAt(c, recs, k) == Accepted)
  }

  ghost function Skipped(flags: seq<bool>, recs: seq<Rec>): seq<string>
    requires |flags| == |recs|
  {
    if recs == [] then []
    else
      var last := |recs| - 1;
      Skipped(flags[..last], recs[..last]) + if flags[last] then [] else [recs[last].url]
  }

  lemma {:induction false} SkippedIs(c: Context, recs: seq<Rec>)
    ensures SkippedUrls(c, recs) == Skipped(Flags(c, recs), recs)
  {
    if recs != [] {
      var last := |recs| - 1;
      SkippedIs(c, recs[..last]);
      FlagsOfInit(c, recs);
    }
  }

  lemma FlagsOfInit(c: Context, recs: seq<Rec>)
    requires recs != []
    ensures Flags(c, recs)[..|recs| - 1] == Flags(c, recs[..|recs| - 1])
  {
    forall k: nat | k < |recs| - 1
      ensures Flags(c, recs)[k] == Flags(c, recs[..|recs| - 1])[k]
    {
      VerdictOfInit(c, recs, k);
    }
  }

  lemma SkippedInOrder(c: Context, recs: seq<Rec>) returns (ps: seq<nat>)
    ensures ListedAt(recs, ps, SkippedUrls(c, recs))
    ensures forall k :: 0 <= k < |recs| ==> (k in ps <==> VerdictAt(c, recs, k) != Accepted)
  {
    SkippedIs(c, recs);
    ps := Unflagged(Flags(c, recs), recs);
    assert forall k :: 0 <= k < |recs| ==> (Flags(c, recs)[k] <==> VerdictAt(c, recs, k) == Accepted);
  }

  lemma {:induction false} Unflagged(flags: seq<bool>, recs: seq<Rec>) returns (ps: seq<nat>)
    requires |flags| == |recs|
    ensures ListedAt(recs, ps, Skipped(flags, recs))
    ensures forall k :: 0 <= k < |recs| ==> (k in ps <==> !flags[k])
  {
    ps := [];
    if recs != [] {
      var last := |recs| - 1;
      ps := Unflagged(flags[..last], recs[..last]);
      ListedAtMore(recs, ps, Skipped(flags[..last], recs[..last]));
      if !flags[last] {
        ps := ps + [last];
      }
    }
  }

  lemma ListedAtMore(recs: seq<Rec>, ps: seq<nat>, urls: seq<string>)
    requires recs != [] && ListedAt(recs[..|recs| - 1], ps, urls)
    ensures var last := |recs| - 1;
      ListedAt(recs, ps, urls) && ListedAt(recs, ps + [last], urls + [recs[last].url]) && last !in ps
  {
  }

  /** The fingerprints of this batch that later records are compared with. */
  ghost function BatchPrints(h: Hashing, accepted: seq<Rec>): seq<Word> {
    if accepted == [] then []
    else
      var last := |accepted| - 1;
      BatchPrints(h, accepted[..last]) + if accepted[last].text == "" then [] else [h.Print(accepted[last].text)]
  }

  lemma {:induction false} BatchPrintsMembers(h: Hashing, accepted: seq<Rec>)
    ensures forall p ::
              p in BatchPrints(h, accepted) <==> exists a :: a in accepted && a.text != "" && h.Print(a.text) == p
  {
    if accepted != [] {
      var last := |accepted| - 1;
      BatchPrintsMembers(h, accepted[..last]);
      assert accepted == accepted[..last] + [accepted[last]];
    }
  }

  /** Where the filter stands after some of the records. */
  datatype Progress = Progress(accepted: seq<Rec>, batchHashes: seq<Word>, stats: IncrementalResult)

  ghost function ProgressOf(c: Context, recs: seq<Rec>): Progress {
    Progress(Pass(c, recs), BatchPrints(c.h, Pass(c, recs)), StatsOf(c, recs))
  }

  /** Verdict v on r leads from stage p to stage p'. */
  ghost predicate Move(c: Context, p: Progress, r: Rec, v: Verdict, p': Progress) {
    && p.batchHashes == BatchPrints(c.h, p.accepted)
    && v == Decide(c, p.accepted, r)
    && p'.accepted == p.accepted + (if v == Accepted then [r] else [])
    && p'.batchHashes == p.batchHashes + (if v == Accepted && r.text != "" then [c.h.Print(r.text)] else [])
    && p'.stats == Counted(p.stats, v, r.url)
  }

  ghost predicate Moves(c: Context, recs: seq<Rec>, ps: seq<Progress>, vs: seq<Verdict>, n: nat)
    requires n < |recs| == |vs| < |ps|
  {
    vs[n] == VerdictAt(c, recs, n) && Move(c, ps[n], recs[n], vs[n], ps[n + 1])
  }

  lemma BatchPrintsAppend(h: Hashing, accepted: seq<Rec>, r: Rec)
    ensures BatchPrints(h, accepted + [r]) == BatchPrints(h, accepted) + if r.text == "" then [] else [h.Print(r.text)]
  {
    assert (accepted + [r])[..|accepted|] == accepted;
  }

  lemma StatsAfter(c: Context, recs: seq<Rec>)
    requires recs != []
    ensures var last := |recs| - 1;
      StatsOf(c, recs) == Counted(StatsOf(c, recs[..last]), VerdictAt(c, recs, last), recs[last].url)
  {
    var last := |recs| - 1;
    var accepted := Pass(c, recs[..last]);
    assert Urls(accepted + [recs[last]]) == Urls(accepted) + [recs[last].url];
  }

  lemma LastMove(c: Context, recs: seq<Rec>)
    requires recs != []
    ensures var last := |recs| - 1;
      Move(c, ProgressOf(c, recs[..last]), recs[last], VerdictAt(c, recs, last), ProgressOf(c, recs))
  {
    var last := |recs| - 1;
    BatchPrintsAppend(c.h, Pass(c, recs[..last]), recs[last]);
    StatsAfter(c, recs);
  }

  /** The stages of the filter, from none to all of the records, and the verdicts that lead from each to the next. */
  lemma {:induction false} Stages(c: Context, recs: seq<Rec>) returns (ps: seq<Progress>, vs: seq<Verdict>)
    ensures |vs| == |recs| && |ps| == |recs| + 1
    ensures ps[0] == Progress([], [], IncrementalResult(0, 0, 0, 0, [], []))
    ensures ps[|recs|] == ProgressOf(c, recs)
    ensures forall n :: 0 <= n < |recs| ==> Moves(c, recs, ps, vs, n)
  {
    if recs == [] {
      ps, vs := [ProgressOf(c, recs)], [];
    } else {
      var last := |recs| - 1;
      var ps', vs' := Stages(c, recs[..last]);
      ps, vs := ps' + [ProgressOf(c, recs)], vs' + [VerdictAt(c, recs, last)];
      LastMove(c, recs);
      forall n | 0 <= n < last
        ensures Moves(c, recs, ps, vs, n)
      {
        assert Moves(c, recs[..last], ps', vs', n);
        assert recs[..last][..n] == recs[..n];
      }
    }
  }

  method NearAnyStored(newHash: Word, hashes: map<string, Word>, threshold: int) returns (isDup: bool)
    ensures isDup <==> exists p :: p in hashes.Values && IsNearDuplicate(newHash, p, threshold)
  {
    var left := hashes.Keys;
    isDup := false;
    while left != {}
      invariant left <= hashes.Keys
      invariant forall u :: u in hashes.Keys - left ==> !IsNearDuplicate(newHash, hashes[u], threshold)
      decreases left
    {
      var u :| u in left;
      if IsNearDuplicate(newHash, hashes[u], threshold) {
        assert hashes[u] in hashes.Values;
        return true;
      }
      left := left - {u};
    }
  }

  method NearAnyEarlier(newHash: Word, batchHashes: seq<Word>, threshold: int) returns (isDup: bool)
    ensures isDup <==> exists p :: p in batchHashes && IsNearDuplicate(newHash, p, threshold)
  {
    for i := 0 to |batchHashes|
      invariant forall j :: 0 <= j < i ==> !IsNearDuplicate(newHash, batchHashes[j], threshold)
    {
      if IsNearDuplicate(newHash, batchHashes[i], threshold) {
        return true;
      }
    }
    isDup := false;
  }

  /** The comparison with the table and then with the batch; on a duplicate nothing more is compared. */
  method IsContentDuplicate(ghost c: Context, ghost earlier: seq<Rec>, ghost r: Rec,
                            newHash: Word, hashes: map<string, Word>, batchHashes: seq<Word>, threshold: int)
    returns (isDup: bool)
    requires newHash == c.h.Print(r.text) && threshold == c.threshold
    requires hashes.Values == c.prints && batchHashes == BatchPrints(c.h, earlier)
    ensures isDup <==> NearStored(c, r) || NearEarlier(c, earlier, r)
  {
    BatchPrintsMembers(c.h, earlier);
    isDup := NearAnyStored(newHash, hashes, threshold);
    if !isDup {
      isDup := NearAnyEarlier(newHash, batchHashes, threshold);
    }
  }

  /** The body of the filter's loop: the verdict on one record and the batch's fingerprints after it. */
  method Consider(ghost c: Context, ghost earlier: seq<Rec>, h: Hashing, rec: Rec, urls: set<string>,
                  hashes: map<string, Word>, batchHashes: seq<Word>, threshold: int)
    returns (v: Verdict, rec': Rec, batchHashes': seq<Word>)
    requires c == Context(h, urls, hashes.Values, threshold)
    requires hashes != map[] ==> batchHashes == BatchPrints(h, earlier)
    ensures v == Decide(c, earlier, rec)
    ensures rec' == if v == Accepted then Stamp(h, rec) else rec
    ensures v == Accepted && rec.text != "" ==>
      rec' == rec.(contentHash := Some(h.sha256(rec.text)),
                   simhash := Some(Fingerprint(Hashes(h.tokens(rec.text), h.hash64))))
    ensures v != Accepted || rec.text == "" ==> rec' == rec
    ensures hashes != map[] ==>
      batchHashes' == batchHashes + if v == Accepted && rec.text != "" then [h.Print(rec.text)] else []
  {
    var firstCrawl := hashes == map[];
    rec', batchHashes' := rec, batchHashes;
    if rec.url in urls {
      return UrlDuplicate, rec, batchHashes;
    }
    if rec.text != "" {
      var newHash := Simhash(h.tokens(rec.text), h.hash64);
      if !firstCrawl {
        assert hashes.Values != {} by {
          var u :| u in hashes;
          assert hashes[u] in hashes.Values;
        }
        var isDup := IsContentDuplicate(c, earlier, rec, newHash, hashes, batchHashes, threshold);
        if isDup {
          return NearDuplicate, rec, batchHashes;
        }
        batchHashes' := batchHashes + [newHash];
      }
      rec' := rec.(contentHash := Some(h.sha256(rec.text)), simhash := Some(newHash));
    }
    v := Accepted;
  }

  /** The records of a batch once the filter is through: those accepted carry their hashes, the others are as before. */
  ghost predicate Processed(c: Context, before: seq<Rec>, after: seq<Rec>) {
    && |after| == |before|
    && forall j :: 0 <= j < |before| ==>
         after[j] == if VerdictAt(c, before, j) == Accepted then Stamp(c.h, before[j]) else before[j]
  }

  /** The same with the first n records done. */
  ghost predicate Partly(h: Hashing, before: seq<Rec>, vs: seq<Verdict>, n: nat, now: seq<Rec>)
    requires |vs| == |before|
  {
    && |now| == |before|
    && forall j :: 0 <= j < |before| ==> now[j] == if j < n && vs[j] == Accepted then Stamp(h, before[j]) else before[j]
  }

  lemma PartlyNext(h: Hashing, before: seq<Rec>, vs: seq<Verdict>, n: nat, now: seq<Rec>, rec: Rec)
    requires |vs| == |before| && n < |before| && Partly(h, before, vs, n, now)
    requires rec == if vs[n] == Accepted then Stamp(h, before[n]) else before[n]
    ensures Partly(h, before, vs, n + 1, now[n := rec])
  {
  }

  /** The filter's loop, given what is already known. */
  method FilterRecords(ghost c: Context, h: Hashing, records: array<Rec>, urls: set<string>,
                       hashes: map<string, Word>, threshold: int)
    returns (filtered: seq<Rec>, stats: IncrementalResult)
    requires c == Context(h, urls, hashes.Values, threshold)
    modifies records
    ensures filtered == StampAll(h, Pass(c, old(records[..])))
    ensures stats == StatsOf(c, old(records[..]))
    ensures Processed(c, old(records[..]), records[..])
  {
    ghost var recs := records[..];
    filtered := [];
    stats := IncrementalResult(0, 0, 0, 0, [], []);
    var batchHashes: seq<Word> := [];
    ghost var ps, vs := Stages(c, recs);
    for n := 0 to records.Length
      invariant filtered == StampAll(h, ps[n].accepted)
      invariant Partly(h, recs, vs, n, records[..])
      invariant hashes != map[] ==> batchHashes == ps[n].batchHashes
      invariant stats == ps[n].stats
    {
      assert Moves(c, recs, ps, vs, n);
      ghost var now := records[..];
      var v, rec;
      v, rec, batchHashes := Consider(c, ps[n].accepted, h, records[n], urls, hashes, batchHashes, threshold);
      records[n] := rec;
      PartlyNext(h, recs, vs, n, now, rec);
      assert records[..] == now[n := rec];
      stats := Counted(stats, v, rec.url);
      if v == Accepted {
        StampAllAppend(h, ps[n].accepted, recs[n]);
        filtered := filtered + [rec];
      }
    }
    VerdictsOf(c, recs, ps, vs);
  }

  lemma StampAllAppend(h: Hashing, recs: seq<Rec>, r: Rec)
    ensures StampAll(h, recs + [r]) == StampAll(h, recs) + [Stamp(h, r)]
  {
  }

  lemma VerdictsOf(c: Context, recs: seq<Rec>, ps: seq<Progress>, vs: seq<Verdict>)
    requires |vs| == |recs| < |ps| && forall n :: 0 <= n < |recs| ==> Moves(c, recs, ps, vs, n)
    ensures forall n :: 0 <= n < |recs| ==> vs[n] == VerdictAt(c, recs, n)
  {
    forall n | 0 <= n < |recs|
      ensures vs[n] == VerdictAt(c, recs, n)
    {
      assert Moves(c, recs, ps, vs, n);
    }
  }

  method CheckIncremental(h: Hashing, table: JdTable, records: array<Rec>, site: string, skip: bool, threshold: int)
    returns (filtered: seq<Rec>, stats: IncrementalResult)
    requires table.Valid()
    modifies records
    ensures var c := ContextOf(h, table.rows, site, skip, threshold);
      && filtered == StampAll(h, Pass(c, old(records[..])))
      && stats == StatsOf(c, old(records[..]))
      && Processed(c, old(records[..]), records[..])
  {
    var existingUrls: set<string>, existingHashes: map<string, Word> := {}, map[];
    if skip {
      existingUrls := table.ExistingUrls(site);
      existingHashes := table.ExistingHashes(site);
    }
    ghost var c := ContextOf(h, table.rows, site, skip, threshold);
    filtered, stats := FilterRecords(c, h, records, existingUrls, existingHashes, threshold);
  }

  lemma UpsertAllNext(rows: seq<Row>, recs: seq<Rec>, n: nat, reachable: nat -> bool)
    requires n < |recs|
    ensures UpsertAll(rows, recs[..n + 1], reachable)
         == Upsert(UpsertAll(rows, recs[..n], reachable), recs[n], reachable(n))
  {
    assert recs[..n + 1][..n] == recs[..n];
  }

  /**
   * One site of the incremental command: filter the crawled items, then store what is left and count the
   * insertions.
   */
  method CmdIncremental(h: Hashing, table: JdTable, items: array<Rec>, site: string, skip: bool, threshold: int,
                        moods: nat -> Database) returns (inserted: nat)
    requires table.Valid()
    modifies table, items
    ensures table.Valid()
    ensures table.rows == Run(h, old(table.rows), old(items[..]), site, skip, threshold, Reachable(moods))
    ensures inserted == |table.rows| - |old(table.rows)|
  {
    inserted := 0;
    if items.Length == 0 {
      return;
    }
    var filtered, stats := CheckIncremental(h, table, items, site, skip, threshold);
    inserted := StoreFiltered(table, filtered, moods);
  }

  /** The command's loop over what the filter left. */
  method StoreFiltered(table: JdTable, filtered: seq<Rec>, moods: nat -> Database) returns (inserted: nat)
    requires table.Valid()
    modifies table
    ensures table.Valid()
    ensures table.rows == UpsertAll(old(table.rows), filtered, Reachable(moods))
    ensures inserted == |table.rows| - |old(table.rows)|
  {
    inserted := 0;
    for n := 0 to |filtered|
      invariant table.Valid()
      invariant table.rows == UpsertAll(old(table.rows), filtered[..n], Reachable(moods))
      invariant inserted == |table.rows| - |old(table.rows)|
    {
      UpsertAllNext(old(table.rows), filtered, n, Reachable(moods));
      var r := table.UpsertJd(filtered[n], moods(n));
      if r == Inserted {
        inserted := inserted + 1;
      }
    }
    assert filtered[..|filtered|] == filtered;
  }
}

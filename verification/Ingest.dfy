/**
 * Incremental ingest of crawled job descriptions: the table with its two unique keys
 * (crawler/persistence/dao.py), the greedy duplicate filter (crawler/pipelines/incremental.py)
 * and the command that runs one after the other (crawler/scripts/run_incremental.py).
 */
module Ingest {
  import opened Options
  import opened Bits
  import opened SimHash

  /** The functions the pipeline takes from elsewhere: tokenising, MD5 of a token, SHA-256 of a text. */
  datatype Hashing = Hashing(tokens: string -> seq<string>, hash64: string -> Word, sha256: string -> string) {
    function Print(text: string): Word {
      Fingerprint(Hashes(tokens(text), hash64))
    }
  }

  /** The fields of a crawled record that decide its fate. */
  datatype Rec = Rec(url: string, text: string, site: string, contentHash: Option<string>, simhash: Option<Word>)

  datatype Row = Row(url: string, text: string, site: string, contentHash: string, simhash: Option<Word>)

  datatype Status = Inserted | Duplicate | Failed

  datatype Verdict = UrlDuplicate | NearDuplicate | Accepted

  // ---- the table, as a function of its rows ----

  /** An empty site name stands for no filter on the site. */
  predicate Visible(row: Row, site: string) {
    site == "" || row.site == site
  }

  ghost function StoredUrls(rows: seq<Row>, site: string): set<string> {
    set row | row in rows && Visible(row, site) :: row.url
  }

  ghost function StoredPrints(rows: seq<Row>, site: string): set<Word> {
    set row | row in rows && Visible(row, site) && row.simhash.Some? :: row.simhash.value
  }

  /** The two unique indexes of jd_raw. */
  ghost predicate UniqueKeys(rows: seq<Row>) {
    forall i, j :: 0 <= i < j < |rows| ==> rows[i].url != rows[j].url && rows[i].contentHash != rows[j].contentHash
  }

  /** A record the table refuses: no content hash, or a content hash or URL already there, at any site. */
  ghost predicate Refused(rows: seq<Row>, r: Rec) {
    || r.contentHash.None?
    || (exists row :: row in rows && (row.contentHash == r.contentHash.value || row.url == r.url))
  }

  /** How the database takes one write: the statement fails, the commit fails, or neither. */
  datatype Database = Works | ExecuteFails | CommitFails

  /**
   * The insertion raises an error: there is no content hash, or the URL is known. A known content hash is passed over
   * in silence before the URL is looked at.
   */
  ghost predicate Raises(rows: seq<Row>, r: Rec) {
    || r.contentHash.None?
    || (&& (forall row :: row in rows ==> row.contentHash != r.contentHash.value)
        && exists row :: row in rows && row.url == r.url)
  }

  /** Any error of the statement is taken for a duplicate; only an error of the commit counts as a failure. */
  ghost function StatusOf(rows: seq<Row>, r: Rec, db: Database): Status {
    match db
    case ExecuteFails => Duplicate
    case CommitFails => if Raises(rows, r) then Duplicate else Failed
    case Works => if Refused(rows, r) then Duplicate else Inserted
  }

  function Reachable(moods: nat -> Database): nat -> bool {
    (n: nat) => moods(n) == Works
  }

  function AsRow(r: Rec): Row
    requires r.contentHash.Some?
  {
    Row(r.url, r.text, r.site, r.contentHash.value, r.simhash)
  }

  ghost function Upsert(rows: seq<Row>, r: Rec, reachable: bool): seq<Row> {
    if !reachable || Refused(rows, r) then rows else rows + [AsRow(r)]
  }

  ghost function UpsertAll(rows: seq<Row>, recs: seq<Rec>, reachable: nat -> bool): seq<Row> {
    if recs == [] then rows
    else
      var last := |recs| - 1;
      Upsert(UpsertAll(rows, recs[..last], reachable), recs[last], reachable(last))
  }

  // ---- the filter, as a function of what is known and the records so far ----

  /** What one run of the filter compares against. */
  datatype Context = Context(h: Hashing, urls: set<string>, prints: set<Word>, threshold: int)

  ghost function ContextOf(h: Hashing, rows: seq<Row>, site: string, skip: bool, threshold: int): Context {
    if skip then Context(h, StoredUrls(rows, site), StoredPrints(rows, site), threshold)
    else Context(h, {}, {}, threshold)
  }

  ghost predicate NearStored(c: Context, r: Rec) {
    exists p :: p in c.prints && IsNearDuplicate(c.h.Print(r.text), p, c.threshold)
  }

  ghost predicate NearEarlier(c: Context, earlier: seq<Rec>, r: Rec) {
    exists a :: a in earlier && a.text != "" && IsNearDuplicate(c.h.Print(r.text), c.h.Print(a.text), c.threshold)
  }

  /** The verdict on r when `earlier` are the records of the batch accepted before it. */
  ghost function Decide(c: Context, earlier: seq<Rec>, r: Rec): Verdict {
    if r.url in c.urls then UrlDuplicate
    else if r.text != "" && c.prints != {} && (NearStored(c, r) || NearEarlier(c, earlier, r)) then NearDuplicate
    else Accepted
  }

  /** The accepted records, in order. */
  ghost function Pass(c: Context, recs: seq<Rec>): seq<Rec> {
    if recs == [] then []
    else
      var last := |recs| - 1;
      var earlier := Pass(c, recs[..last]);
      if Decide(c, earlier, recs[last]) == Accepted then earlier + [recs[last]] else earlier
  }

  ghost function VerdictAt(c: Context, recs: seq<Rec>, i: nat): Verdict
    requires i < |recs|
  {
    Decide(c, Pass(c, recs[..i]), recs[i])
  }

  /** Acceptance writes the two hashes of a non-empty text into the record. */
  function Stamp(h: Hashing, r: Rec): Rec {
    if r.text == "" then r
    else r.(contentHash := Some(h.sha256(r.text)), simhash := Some(h.Print(r.text)))
  }

  function StampAll(h: Hashing, recs: seq<Rec>): (s: seq<Rec>)
    ensures |s| == |recs|
    ensures forall i :: 0 <= i < |s| ==> s[i] == Stamp(h, recs[i])
  {
    seq(|recs|, i requires 0 <= i < |recs| => Stamp(h, recs[i]))
  }

  /** The rows after filtering and storing one batch. */
  ghost function Run(h: Hashing, rows: seq<Row>, recs: seq<Rec>, site: string, skip: bool, threshold: int,
                     reachable: nat -> bool): seq<Row>
  {
    UpsertAll(rows, StampAll(h, Pass(ContextOf(h, rows, site, skip, threshold), recs)), reachable)
  }
}

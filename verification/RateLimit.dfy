/**
 * The rate limiter of the HTTP gateway (backend/app/main.py): a fixed-window counter kept in Redis and, for requests
 * that Redis does not decide, a log of recent admissions in memory that is trimmed lazily and swept now and then.
 */
module RateLimit {
  import opened Options

  type Ip = string

  /** Window in seconds, admissions per window, and the number of buckets above which the sweep runs. */
  datatype Config = Config(window: real, max: nat, sweepAbove: nat)

  function Get(m: map<Ip, seq<real>>, ip: Ip): seq<real> {
    if ip in m then m[ip] else []
  }

  /** The times younger than the window. */
  function Recent(ts: seq<real>, now: real, window: real): seq<real> {
    if ts == [] then []
    else
      var last := |ts| - 1;
      Recent(ts[..last], now, window) + if now - ts[last] < window then [ts[last]] else []
  }

  // ---- in memory ----

  function StaleKeys(buckets: map<Ip, seq<real>>, now: real, window: real): set<Ip> {
    set k | k in buckets && (buckets[k] == [] || now - buckets[k][|buckets[k]| - 1] > window)
  }

  function Trimmed(c: Config, buckets: map<Ip, seq<real>>, ip: Ip, now: real): map<Ip, seq<real>> {
    var trimmed := buckets[ip := Recent(Get(buckets, ip), now, c.window)];
    if |trimmed| > c.sweepAbove then trimmed - StaleKeys(trimmed, now, c.window) else trimmed
  }

  predicate MemoryAdmits(c: Config, buckets: map<Ip, seq<real>>, ip: Ip, now: real) {
    |Get(Trimmed(c, buckets, ip, now), ip)| < c.max
  }

  function MemoryStep(c: Config, buckets: map<Ip, seq<real>>, ip: Ip, now: real): map<Ip, seq<real>> {
    var trimmed := Trimmed(c, buckets, ip, now);
    trimmed[ip := Get(trimmed, ip) + if MemoryAdmits(c, buckets, ip, now) then [now] else []]
  }

  // ---- in Redis ----

  /** A counter; a key without expiry lives for ever. */
  datatype Key = Key(count: nat, expiresAt: Option<real>)

  predicate Live(keys: map<Ip, Key>, ip: Ip, now: real) {
    ip in keys && (keys[ip].expiresAt.Some? ==> now < keys[ip].expiresAt.value)
  }

  /** INCR, and EXPIRE when the counter comes out as 1, as one atomic script. */
  function RedisKey(c: Config, keys: map<Ip, Key>, ip: Ip, now: real): Key {
    var k := if Live(keys, ip, now) then keys[ip] else Key(0, None);
    Key(k.count + 1, if k.count + 1 == 1 then Some(now + c.window) else k.expiresAt)
  }

  // ---- both, over whole runs ----

  /**
   * The atomic steps of all requests, interleaved. A request makes at most one INCR (whose reply may be lost) and at
   * most one check in memory, with anything in between; each admission lets the request through once.
   */
  datatype Step =
    | Incr(ip: Ip, now: real, replied: bool)
    | Memory(ip: Ip, now: real)

  /** The state of the limiter and, for the specification only, the times of all admissions. */
  datatype World = World(buckets: map<Ip, seq<real>>, keys: map<Ip, Key>,
                         memoryLog: map<Ip, seq<real>>, redisLog: map<Ip, seq<real>>)

  function Append(log: map<Ip, seq<real>>, ip: Ip, now: real, admitted: bool): map<Ip, seq<real>> {
    if admitted then log[ip := Get(log, ip) + [now]] else log
  }

  function Do(c: Config, w: World, s: Step): World {
    match s
    case Memory(ip, now) =>
      w.(buckets := MemoryStep(c, w.buckets, ip, now),
         memoryLog := Append(w.memoryLog, ip, now, MemoryAdmits(c, w.buckets, ip, now)))
    case Incr(ip, now, replied) =>
      var key := RedisKey(c, w.keys, ip, now);
      w.(keys := w.keys[ip := key], redisLog := Append(w.redisLog, ip, now, replied && key.count <= c.max))
  }

  function RunFrom(c: Config, w: World, steps: seq<Step>): World {
    if steps == [] then w else Do(c, RunFrom(c, w, steps[..|steps| - 1]), steps[|steps| - 1])
  }

  const IDLE: World := World(map[], map[], map[], map[])

  function Run(c: Config, steps: seq<Step>): World {
    RunFrom(c, IDLE, steps)
  }

  ghost predicate Timely(steps: seq<Step>) {
    forall i, j :: 0 <= i <= j < |steps| ==> steps[i].now <= steps[j].now
  }

  // ---- sorted logs ----

  ghost predicate Sorted(ts: seq<real>) {
    forall i, j :: 0 <= i <= j < |ts| ==> ts[i] <= ts[j]
  }

  /** Sorted, and none later than now. */
  ghost predicate SortedUpTo(ts: seq<real>, now: real) {
    Sorted(ts) && (ts == [] || ts[|ts| - 1] <= now)
  }

  /** Trimming keeps a log sorted, and keeps its last entry if that is recent. */
  lemma {:induction false} RecentSorted(ts: seq<real>, now: real, window: real)
    requires Sorted(ts)
    ensures var r := Recent(ts, now, window);
      Sorted(r) && (r != [] ==> r[|r| - 1] == ts[|ts| - 1] && now - r[|r| - 1] < window)
  {
    if ts != [] {
      RecentSorted(ts[..|ts| - 1], now, window);
      if now - ts[|ts| - 1] >= window {
        RecentNone(ts, now, window);
      }
    }
  }

  lemma RecentAppend(ts: seq<real>, t: real, now: real, window: real)
    ensures Recent(ts + [t], now, window) == Recent(ts, now, window) + if now - t < window then [t] else []
  {
    assert (ts + [t])[..|ts|] == ts;
  }

  lemma {:induction false} RecentAgain(ts: seq<real>, before: real, now: real, window: real)
    requires before <= now
    ensures Recent(Recent(ts, before, window), now, window) == Recent(ts, now, window)
  {
    if ts != [] {
      var init, last := ts[..|ts| - 1], ts[|ts| - 1];
      RecentAgain(init, before, now, window);
      assert Recent(ts, before, window) == Recent(init, before, window) + if before - last < window then [last] else [];
      RecentAppend(Recent(init, before, window), last, now, window);
      if before - last >= window {
        assert Recent(ts, before, window) == Recent(init, before, window);
      }
    }
  }

  lemma {:induction false} RecentNone(ts: seq<real>, now: real, window: real)
    requires Sorted(ts) && (ts == [] || now - ts[|ts| - 1] >= window)
    ensures Recent(ts, now, window) == []
  {
    if |ts| >= 2 {
      RecentNone(ts[..|ts| - 1], now, window);
    }
  }

  lemma SortedAppend(ts: seq<real>, now: real)
    requires SortedUpTo(ts, now)
    ensures SortedUpTo(ts + [now], now)
  {
  }

  lemma {:induction false} RecentCount(ts: seq<real>, now: real, window: real, i: nat)
    requires Sorted(ts) && i < |ts| && now - ts[i] < window
    ensures |Recent(ts, now, window)| >= |ts| - i
  {
    if i < |ts| - 1 {
      RecentCount(ts[..|ts| - 1], now, window, i);
    }
  }

  // ---- the lazily trimmed buckets refine the full log ----

  /** The decision that keeps every admission for ever and counts those younger than the window. */
  function FullLogAdmits(c: Config, log: map<Ip, seq<real>>, ip: Ip, now: real): bool {
    |Recent(Get(log, ip), now, c.window)| < c.max
  }

  function FullLog(c: Config, steps: seq<Step>): map<Ip, seq<real>> {
    if steps == [] then map[]
    else
      var log, s := FullLog(c, steps[..|steps| - 1]), steps[|steps| - 1];
      if s.Memory? then Append(log, s.ip, s.now, FullLogAdmits(c, log, s.ip, s.now)) else log
  }

  /** The entries of a log that are younger than the window. */
  ghost function Younger(log: seq<real>, now: real, window: real): set<nat> {
    set i: nat | i < |log| && now - log[i] < window
  }

  lemma {:induction false} RecentCounts(log: seq<real>, now: real, window: real)
    ensures |Recent(log, now, window)| == |Younger(log, now, window)|
    ensures forall t :: t in Recent(log, now, window) ==> t in log && now - t < window
  {
    if log == [] {
      assert Younger(log, now, window) == {};
    } else {
      var last := |log| - 1;
      RecentCounts(log[..last], now, window);
      assert Younger(log, now, window)
          == Younger(log[..last], now, window) + if now - log[last] < window then {last} else {};
    }
  }

  /** What the full log is: it admits while fewer than max of a client's admissions are younger than the window. */
  lemma FullLogMeans(c: Config, steps: seq<Step>, s: Step, ip: Ip)
    ensures var log, log' := FullLog(c, steps), FullLog(c, steps + [s]);
      && (FullLogAdmits(c, log, ip, s.now) <==> |Younger(Get(log, ip), s.now, c.window)| < c.max)
      && Get(log', ip) == Get(log, ip)
         + if s.Memory? && s.ip == ip && |Younger(Get(log, ip), s.now, c.window)| < c.max then [s.now] else []
  {
    RecentCounts(Get(FullLog(c, steps), ip), s.now, c.window);
    assert (steps + [s])[..|steps|] == steps;
  }

  /** After a check, what the client's bucket holds is younger than the window. */
  lemma BucketIsRecent(c: Config, buckets: map<Ip, seq<real>>, ip: Ip, now: real)
    requires c.window > 0.0
    ensures forall t :: t in Get(MemoryStep(c, buckets, ip, now), ip) ==> now - t < c.window
  {
    RecentCounts(Get(buckets, ip), now, c.window);
  }

  /** When there are too many buckets, those left are not empty and have an entry no older than the window. */
  lemma SweepLeavesRecent(c: Config, buckets: map<Ip, seq<real>>, ip: Ip, now: real, k: Ip)
    ensures |buckets.Keys + {ip}| > c.sweepAbove && k in Trimmed(c, buckets, ip, now) ==>
      HasRecent(Trimmed(c, buckets, ip, now)[k], now, c.window)
  {
    TooMany(buckets, ip, Recent(Get(buckets, ip), now, c.window));
    if |buckets.Keys + {ip}| > c.sweepAbove && k in Trimmed(c, buckets, ip, now) {
      NotStale(buckets[ip := Recent(Get(buckets, ip), now, c.window)], now, c.window, k);
    }
  }

  ghost predicate HasRecent(bucket: seq<real>, now: real, window: real) {
    bucket != [] && now - bucket[|bucket| - 1] <= window
  }

  lemma NotStale(buckets: map<Ip, seq<real>>, now: real, window: real, k: Ip)
    requires k in buckets - StaleKeys(buckets, now, window)
    ensures HasRecent((buckets - StaleKeys(buckets, now, window))[k], now, window)
  {
  }

  lemma TooMany(buckets: map<Ip, seq<real>>, ip: Ip, bucket: seq<real>)
    ensures |buckets[ip := bucket]| == |buckets.Keys + {ip}|
  {
    assert buckets[ip := bucket].Keys == buckets.Keys + {ip};
    assert |buckets[ip := bucket]| == |buckets[ip := bucket].Keys|;
  }

  /** Below that number, and of clients with a recent entry, every bucket stays. */
  lemma SweepKeepsRecent(c: Config, buckets: map<Ip, seq<real>>, ip: Ip, now: real, k: Ip)
    requires k in buckets && k != ip
    requires |buckets.Keys + {ip}| <= c.sweepAbove
          || (buckets[k] != [] && now - buckets[k][|buckets[k]| - 1] <= c.window)
    ensures k in Trimmed(c, buckets, ip, now) && Trimmed(c, buckets, ip, now)[k] == buckets[k]
  {
    TooMany(buckets, ip, Recent(Get(buckets, ip), now, c.window));
    var trimmed := buckets[ip := Recent(Get(buckets, ip), now, c.window)];
    assert |trimmed| > c.sweepAbove ==> k !in StaleKeys(trimmed, now, c.window);
  }

  /** A bucket and a full log agree on all that is still recent. */
  ghost predicate SameRecent(bucket: seq<real>, log: seq<real>, now: real, window: real) {
    SortedUpTo(bucket, now) && SortedUpTo(log, now) && Recent(bucket, now, window) == Recent(log, now, window)
  }

  ghost predicate Agree(c: Config, buckets: map<Ip, seq<real>>, log: map<Ip, seq<real>>, now: real) {
    forall ip: Ip :: SameRecent(Get(buckets, ip), Get(log, ip), now, c.window)
  }

  lemma SameRecentLater(bucket: seq<real>, log: seq<real>, before: real, now: real, window: real)
    requires SameRecent(bucket, log, before, window) && before <= now
    ensures SameRecent(bucket, log, now, window)
  {
    RecentAgain(bucket, before, now, window);
    RecentAgain(log, before, now, window);
  }

  lemma SameRecentTrimmed(bucket: seq<real>, log: seq<real>, now: real, window: real)
    requires SameRecent(bucket, log, now, window)
    ensures SameRecent(Recent(bucket, now, window), log, now, window)
  {
    RecentAgain(bucket, now, now, window);
    RecentSorted(bucket, now, window);
  }

  lemma SameRecentAppend(bucket: seq<real>, log: seq<real>, now: real, window: real)
    requires SameRecent(bucket, log, now, window)
    ensures SameRecent(bucket + [now], log + [now], now, window)
  {
    RecentAppend(bucket, now, now, window);
    RecentAppend(log, now, now, window);
    SortedAppend(bucket, now);
    SortedAppend(log, now);
  }

  /** A bucket whose last entry is stale is stale throughout, so dropping it loses nothing recent. */
  lemma SameRecentSwept(bucket: seq<real>, log: seq<real>, now: real, window: real)
    requires SameRecent(bucket, log, now, window)
    requires bucket == [] || now - bucket[|bucket| - 1] > window
    ensures SameRecent([], log, now, window)
  {
    RecentNone(bucket, now, window);
  }

  lemma TrimmedBucket(c: Config, buckets: map<Ip, seq<real>>, log: seq<real>, ip: Ip, now: real, k: Ip)
    requires SameRecent(Get(buckets, k), log, now, c.window)
    ensures SameRecent(Get(Trimmed(c, buckets, ip, now), k), log, now, c.window)
  {
    var unswept, trimmed := buckets[ip := Recent(Get(buckets, ip), now, c.window)], Trimmed(c, buckets, ip, now);
    SameRecentTrimmed(Get(buckets, k), log, now, c.window);
    assert SameRecent(Get(unswept, k), log, now, c.window);
    if k in unswept && k !in trimmed {
      SameRecentSwept(unswept[k], log, now, c.window);
    }
  }

  lemma TrimmedAgrees(c: Config, buckets: map<Ip, seq<real>>, log: map<Ip, seq<real>>, ip: Ip, now: real)
    requires Agree(c, buckets, log, now)
    ensures Agree(c, Trimmed(c, buckets, ip, now), log, now)
  {
    forall k: Ip
      ensures SameRecent(Get(Trimmed(c, buckets, ip, now), k), Get(log, k), now, c.window)
    {
      TrimmedBucket(c, buckets, Get(log, k), ip, now, k);
    }
  }

  lemma AgreeAppend(c: Config, buckets: map<Ip, seq<real>>, log: map<Ip, seq<real>>, ip: Ip, now: real)
    requires Agree(c, buckets, log, now)
    ensures Agree(c, buckets[ip := Get(buckets, ip) + [now]], log[ip := Get(log, ip) + [now]], now)
  {
    var buckets', log' := buckets[ip := Get(buckets, ip) + [now]], log[ip := Get(log, ip) + [now]];
    forall k: Ip
      ensures SameRecent(Get(buckets', k), Get(log', k), now, c.window)
    {
      assert SameRecent(Get(buckets, k), Get(log, k), now, c.window);
      SameRecentAppend(Get(buckets, k), Get(log, k), now, c.window);
    }
  }

  lemma AgreeTouch(c: Config, buckets: map<Ip, seq<real>>, log: map<Ip, seq<real>>, ip: Ip, now: real)
    requires Agree(c, buckets, log, now)
    ensures Agree(c, buckets[ip := Get(buckets, ip) + []], log, now)
  {
    var buckets' := buckets[ip := Get(buckets, ip) + []];
    forall k: Ip
      ensures SameRecent(Get(buckets', k), Get(log, k), now, c.window)
    {
      assert SameRecent(Get(buckets, k), Get(log, k), now, c.window);
      assert Get(buckets', k) == Get(buckets, k);
    }
  }

  /** One check in memory: the decision is the full log's, and the buckets keep agreeing with it. */
  lemma MemoryStepAgrees(c: Config, buckets: map<Ip, seq<real>>, log: map<Ip, seq<real>>, ip: Ip, now: real)
    requires Agree(c, buckets, log, now)
    ensures MemoryAdmits(c, buckets, ip, now) == FullLogAdmits(c, log, ip, now)
    ensures Agree(c, MemoryStep(c, buckets, ip, now), Append(log, ip, now, FullLogAdmits(c, log, ip, now)), now)
  {
    TrimmedAgrees(c, buckets, log, ip, now);
    AgreeAppend(c, Trimmed(c, buckets, ip, now), log, ip, now);
    AgreeTouch(c, Trimmed(c, buckets, ip, now), log, ip, now);
  }

  lemma {:induction false} RunAgrees(c: Config, steps: seq<Step>, now: real)
    requires Timely(steps) && (steps != [] ==> steps[|steps| - 1].now <= now)
    ensures Agree(c, Run(c, steps).buckets, Run(c, steps).memoryLog, now)
    ensures Run(c, steps).memoryLog == FullLog(c, steps)
  {
    if steps != [] {
      var last := |steps| - 1;
      var s, w := steps[last], Run(c, steps[..last]);
      RunAgrees(c, steps[..last], s.now);
      if s.Memory? {
        MemoryStepAgrees(c, w.buckets, w.memoryLog, s.ip, s.now);
      }
      var w' := Run(c, steps);
      forall ip: Ip
        ensures SameRecent(Get(w'.buckets, ip), Get(w'.memoryLog, ip), now, c.window)
      {
        assert SameRecent(Get(w'.buckets, ip), Get(w'.memoryLog, ip), s.now, c.window);
        SameRecentLater(Get(w'.buckets, ip), Get(w'.memoryLog, ip), s.now, now, c.window);
      }
    }
  }

  /**
   * However requests and clients interleave, the limiter in memory admits exactly what a limiter admits that never
   * forgets: one that keeps every admission and counts those younger than the window.
   */
  lemma MemoryRefinesFullLog(c: Config, steps: seq<Step>, s: Step)
    requires Timely(steps + [s]) && s.Memory?
    ensures Run(c, steps).memoryLog == FullLog(c, steps)
    ensures MemoryAdmits(c, Run(c, steps).buckets, s.ip, s.now) == FullLogAdmits(c, FullLog(c, steps), s.ip, s.now)
  {
    var all := steps + [s];
    assert forall i :: 0 <= i < |steps| ==> all[i] == steps[i];
    assert all[|steps|] == s;
    RunAgrees(c, steps, s.now);
    MemoryStepAgrees(c, Run(c, steps).buckets, Run(c, steps).memoryLog, s.ip, s.now);
  }

  // ---- how much is let through in any interval as long as the window ----

  /** The admissions in [from, from + window). */
  function CountIn(ts: seq<real>, from: real, window: real): (n: nat)
    ensures n <= |ts|
  {
    if ts == [] then 0
    else
      var last := |ts| - 1;
      CountIn(ts[..last], from, window) + if from <= ts[last] < from + window then 1 else 0
  }

  /** Any n + 1 consecutive admissions take at least the window. */
  ghost predicate Spaced(ts: seq<real>, n: nat, window: real) {
    Sorted(ts) && forall i :: 0 <= i < |ts| - n ==> ts[i + n] - ts[i] >= window
  }

  lemma {:induction false} CountBefore(ts: seq<real>, from: real, window: real, n: nat)
    requires n <= |ts| && forall i :: 0 <= i < |ts| - n ==> ts[i] < from
    ensures CountIn(ts, from, window) <= n
  {
    if ts != [] {
      CountBefore(ts[..|ts| - 1], from, window, if n > 0 then n - 1 else 0);
    }
  }

  lemma {:induction false} CountSpaced(ts: seq<real>, from: real, window: real, n: nat)
    requires window > 0.0 && Spaced(ts, n, window)
    ensures CountIn(ts, from, window) <= n
  {
    if ts != [] && n <= |ts| {
      var last := |ts| - 1;
      if from <= ts[last] < from + window {
        forall i | 0 <= i < |ts| - n
          ensures ts[i] < from
        {
          assert ts[i] <= ts[last - n] && ts[last - n + n] - ts[last - n] >= window;
        }
        CountBefore(ts, from, window, n);
      } else {
        CountSpaced(ts[..last], from, window, n);
      }
    }
  }

  /** Admitting when fewer than max admissions are recent keeps any max + 1 of them at least the window apart. */
  lemma {:induction false} FullLogIsSpaced(c: Config, steps: seq<Step>, ip: Ip, now: real)
    requires Timely(steps) && (steps != [] ==> steps[|steps| - 1].now <= now)
    ensures SortedUpTo(Get(FullLog(c, steps), ip), now)
    ensures Spaced(Get(FullLog(c, steps), ip), c.max, c.window)
  {
    if steps != [] {
      var last := |steps| - 1;
      var s := steps[last];
      FullLogIsSpaced(c, steps[..last], ip, s.now);
      var log := Get(FullLog(c, steps[..last]), ip);
      if s.Memory? && s.ip == ip && FullLogAdmits(c, FullLog(c, steps[..last]), ip, s.now) {
        assert |log| >= c.max && c.max > 0 ==> s.now - log[|log| - c.max] >= c.window by {
          if |log| >= c.max && c.max > 0 && s.now - log[|log| - c.max] < c.window {
            RecentCount(log, s.now, c.window, |log| - c.max);
          }
        }
        SpacedAppend(log, s.now, c.max, c.window);
      }
    }
  }

  /**
   * One client's counter and its admissions, those from index `first` on belonging to the key's present life:
   * at most max of them, and, when that many or none was lost, the earliest is the one that created the key.
   */
  ghost predicate Generation(c: Config, log: seq<real>, key: Key, first: nat, now: real) {
    && key.count >= 1 && key.expiresAt.Some? && first <= |log|
    && var start := key.expiresAt.value - c.window;
    && start <= now
    && |log| - first <= key.count && |log| - first <= c.max
    && (first > 0 ==> log[first - 1] <= start)
    && (0 < c.max <= first ==> log[first - c.max] <= start - c.window)
    && (first < |log| && (|log| - first == key.count || |log| - first == c.max) ==> log[first] == start)
  }

  function KeyOf(keys: map<Ip, Key>, ip: Ip): Option<Key> {
    if ip in keys then Some(keys[ip]) else None
  }

  ghost predicate RedisInvariant(c: Config, key: Option<Key>, log: seq<real>, first: nat, now: real)
    requires c.max >= 1
  {
    && SortedUpTo(log, now) && Spaced(log, 2 * c.max - 1, c.window)
    && if key.Some? then Generation(c, log, key.value, first, now) else log == []
  }

  lemma SpacedAppend(log: seq<real>, now: real, n: nat, window: real)
    requires SortedUpTo(log, now) && Spaced(log, n, window)
    requires |log| >= n ==> now - (log + [now])[|log| - n] >= window
    ensures SortedUpTo(log + [now], now) && Spaced(log + [now], n, window)
  {
    SortedAppend(log, now);
  }

  /** An INCR on a key that has expired, or never was, begins a new life. */
  lemma FirstIncr(c: Config, key: Option<Key>, log: seq<real>, first: nat, now: real, replied: bool)
    requires c.max >= 1 && c.window > 0.0 && RedisInvariant(c, key, log, first, now)
    requires key.Some? ==> key.value.expiresAt.value <= now
    ensures RedisInvariant(c, Some(Key(1, Some(now + c.window))), if replied then log + [now] else log, |log|, now)
  {
    var n := |log|;
    assert c.max <= n ==> n - c.max <= first && log[n - c.max] <= now - c.window;
    SpacedAppend(log, now, 2 * c.max - 1, c.window);
  }

  /** A further INCR within the key's life. */
  lemma NextIncr(c: Config, key: Key, log: seq<real>, first: nat, now: real, replied: bool)
    requires c.max >= 1 && c.window > 0.0 && RedisInvariant(c, Some(key), log, first, now)
    ensures RedisInvariant(c, Some(key.(count := key.count + 1)),
                           if replied && key.count + 1 <= c.max then log + [now] else log, first, now)
  {
    if key.count + 1 <= c.max {
      SpacedAppend(log, now, 2 * c.max - 1, c.window);
    }
  }

  /** Where in the log of its admissions a client's counter began its present life. */
  ghost function Born(c: Config, steps: seq<Step>, ip: Ip): nat {
    if steps == [] then 0
    else
      var w, s := Run(c, steps[..|steps| - 1]), steps[|steps| - 1];
      if s.Incr? && s.ip == ip && !Live(w.keys, ip, s.now) then |Get(w.redisLog, ip)|
      else Born(c, steps[..|steps| - 1], ip)
  }

  ghost predicate ClientInvariant(c: Config, steps: seq<Step>, ip: Ip, now: real)
    requires c.max >= 1
  {
    var w := Run(c, steps);
    RedisInvariant(c, KeyOf(w.keys, ip), Get(w.redisLog, ip), Born(c, steps, ip), now)
  }

  lemma LiveIncrKeepsInvariant(c: Config, w: World, ip: Ip, first: nat, now: real, replied: bool)
    requires c.max >= 1 && c.window > 0.0 && Live(w.keys, ip, now)
    requires RedisInvariant(c, KeyOf(w.keys, ip), Get(w.redisLog, ip), first, now)
    ensures var w' := Do(c, w, Incr(ip, now, replied));
      RedisInvariant(c, KeyOf(w'.keys, ip), Get(w'.redisLog, ip), first, now)
  {
    NextIncr(c, w.keys[ip], Get(w.redisLog, ip), first, now, replied);
  }

  lemma NewIncrKeepsInvariant(c: Config, w: World, ip: Ip, first: nat, now: real, replied: bool)
    requires c.max >= 1 && c.window > 0.0 && !Live(w.keys, ip, now)
    requires RedisInvariant(c, KeyOf(w.keys, ip), Get(w.redisLog, ip), first, now)
    ensures var w' := Do(c, w, Incr(ip, now, replied));
      RedisInvariant(c, KeyOf(w'.keys, ip), Get(w'.redisLog, ip), |Get(w.redisLog, ip)|, now)
  {
    FirstIncr(c, KeyOf(w.keys, ip), Get(w.redisLog, ip), first, now, replied);
  }

  lemma IncrKeepsInvariant(c: Config, w: World, ip: Ip, first: nat, now: real, replied: bool)
    requires c.max >= 1 && c.window > 0.0
    requires RedisInvariant(c, KeyOf(w.keys, ip), Get(w.redisLog, ip), first, now)
    ensures var w' := Do(c, w, Incr(ip, now, replied));
      RedisInvariant(c, KeyOf(w'.keys, ip), Get(w'.redisLog, ip),
                     if Live(w.keys, ip, now) then first else |Get(w.redisLog, ip)|, now)
  {
    if Live(w.keys, ip, now) {
      LiveIncrKeepsInvariant(c, w, ip, first, now, replied);
    } else {
      NewIncrKeepsInvariant(c, w, ip, first, now, replied);
    }
  }

  lemma OtherStepKeepsInvariant(c: Config, w: World, ip: Ip, first: nat, s: Step, now: real)
    requires c.max >= 1 && RedisInvariant(c, KeyOf(w.keys, ip), Get(w.redisLog, ip), first, now)
    requires s.Memory? || s.ip != ip
    ensures var w' := Do(c, w, s);
      RedisInvariant(c, KeyOf(w'.keys, ip), Get(w'.redisLog, ip), first, now)
  {
    var w' := Do(c, w, s);
    assert KeyOf(w'.keys, ip) == KeyOf(w.keys, ip) && Get(w'.redisLog, ip) == Get(w.redisLog, ip);
  }

  lemma RedisInvariantLater(c: Config, key: Option<Key>, log: seq<real>, first: nat, before: real, now: real)
    requires c.max >= 1 && RedisInvariant(c, key, log, first, before) && before <= now
    ensures RedisInvariant(c, key, log, first, now)
  {
  }

  lemma {:induction false} ClientInvariantAlways(c: Config, steps: seq<Step>, ip: Ip, now: real)
    requires c.max >= 1 && c.window > 0.0
    requires Timely(steps) && (steps != [] ==> steps[|steps| - 1].now <= now)
    ensures ClientInvariant(c, steps, ip, now)
  {
    if steps != [] {
      var last := |steps| - 1;
      var s, w, first := steps[last], Run(c, steps[..last]), Born(c, steps[..last], ip);
      ClientInvariantAlways(c, steps[..last], ip, s.now);
      if s.Incr? && s.ip == ip {
        IncrKeepsInvariant(c, w, ip, first, s.now, s.replied);
      } else {
        OtherStepKeepsInvariant(c, w, ip, first, s, s.now);
      }
      var w' := Do(c, w, s);
      RedisInvariantLater(c, KeyOf(w'.keys, ip), Get(w'.redisLog, ip), Born(c, steps, ip), s.now, now);
    }
  }

  /**
   * However requests and clients interleave, and whenever Redis fails or loses a reply, any interval as long as the
   * window sees at most 2 max - 1 admissions of a client through Redis, max in memory, and so 3 max - 1 together.
   */
  lemma AdmissionBound(c: Config, steps: seq<Step>, ip: Ip, from: real)
    requires c.max >= 1 && c.window > 0.0 && Timely(steps)
    ensures var w := Run(c, steps);
      && CountIn(Get(w.redisLog, ip), from, c.window) <= 2 * c.max - 1
      && CountIn(Get(w.memoryLog, ip), from, c.window) <= c.max
      && CountIn(Get(w.redisLog, ip), from, c.window) + CountIn(Get(w.memoryLog, ip), from, c.window) <= 3 * c.max - 1
  {
    if steps != [] {
      var now := steps[|steps| - 1].now;
      ClientInvariantAlways(c, steps, ip, now);
      CountSpaced(Get(Run(c, steps).redisLog, ip), from, c.window, 2 * c.max - 1);
      RunAgrees(c, steps, now);
      FullLogIsSpaced(c, steps, ip, now);
      CountSpaced(Get(FullLog(c, steps), ip), from, c.window, c.max);
    }
  }

  /** No key is left without an expiry, and none outlives the window that follows the last step. */
  lemma KeysExpire(c: Config, steps: seq<Step>, ip: Ip, now: real)
    requires c.max >= 1 && c.window > 0.0
    requires Timely(steps) && (steps != [] ==> steps[|steps| - 1].now <= now)
    requires ip in Run(c, steps).keys
    ensures Run(c, steps).keys[ip].expiresAt.Some?
    ensures !Live(Run(c, steps).keys, ip, now + c.window)
  {
    ClientInvariantAlways(c, steps, ip, now);
  }

  // ---- the bound through Redis is attained ----

  function Burst(ip: Ip, now: real, n: nat): seq<Step> {
    if n == 0 then [] else Burst(ip, now, n - 1) + [Incr(ip, now, true)]
  }

  function Times(now: real, n: nat): seq<real> {
    seq(n, _ => now)
  }

  lemma RunAppend(c: Config, steps: seq<Step>, s: Step)
    ensures Run(c, steps + [s]) == Do(c, Run(c, steps), s)
  {
    assert (steps + [s])[..|steps|] == steps;
  }

  /** An answered INCR of a key with room left. */
  lemma IncrAdmitted(c: Config, w: World, ip: Ip, now: real)
    requires var key := RedisKey(c, w.keys, ip, now); key.count <= c.max
    ensures var w' := Do(c, w, Incr(ip, now, true));
      && ip in w'.keys && w'.keys[ip] == RedisKey(c, w.keys, ip, now)
      && Get(w'.redisLog, ip) == Get(w.redisLog, ip) + [now]
  {
  }

  lemma {:induction false} RunConcat(c: Config, w: World, a: seq<Step>, b: seq<Step>)
    ensures RunFrom(c, w, a + b) == RunFrom(c, RunFrom(c, w, a), b)
  {
    if b == [] {
      assert a + b == a;
    } else {
      assert (a + b)[..|a + b| - 1] == a + b[..|b| - 1];
      RunConcat(c, w, a, b[..|b| - 1]);
    }
  }

  function DoBurst(c: Config, w: World, ip: Ip, now: real, n: nat): World {
    if n == 0 then w else Do(c, DoBurst(c, w, ip, now, n - 1), Incr(ip, now, true))
  }

  lemma {:induction false} RunBurst(c: Config, w: World, ip: Ip, now: real, n: nat)
    ensures RunFrom(c, w, Burst(ip, now, n)) == DoBurst(c, w, ip, now, n)
  {
    if n > 0 {
      RunBurst(c, w, ip, now, n - 1);
      assert Burst(ip, now, n)[..|Burst(ip, now, n)| - 1] == Burst(ip, now, n - 1);
    }
  }

  lemma RunThreeBursts(c: Config, w: World, ip: Ip, t1: real, n1: nat, t2: real, n2: nat, t3: real, n3: nat)
    ensures RunFrom(c, w, Burst(ip, t1, n1) + Burst(ip, t2, n2) + Burst(ip, t3, n3))
         == DoBurst(c, DoBurst(c, DoBurst(c, w, ip, t1, n1), ip, t2, n2), ip, t3, n3)
  {
    var b1, b2, b3 := Burst(ip, t1, n1), Burst(ip, t2, n2), Burst(ip, t3, n3);
    RunConcat(c, w, b1 + b2, b3);
    RunConcat(c, w, b1, b2);
    RunBurst(c, w, ip, t1, n1);
    RunBurst(c, DoBurst(c, w, ip, t1, n1), ip, t2, n2);
    RunBurst(c, DoBurst(c, DoBurst(c, w, ip, t1, n1), ip, t2, n2), ip, t3, n3);
  }

  /** What a counter stands at when a request comes in. */
  function Standing(keys: map<Ip, Key>, ip: Ip, now: real): nat {
    if Live(keys, ip, now) then keys[ip].count else 0
  }

  /** A burst is admitted as far as the counter has room; on a key that has expired it starts a new life. */
  lemma {:induction false} BurstAdmitted(c: Config, w: World, ip: Ip, now: real, n: nat)
    requires c.window > 0.0 && Standing(w.keys, ip, now) + n <= c.max
    requires Live(w.keys, ip, now) ==> w.keys[ip].count >= 1
    ensures var w' := DoBurst(c, w, ip, now, n);
      && Standing(w'.keys, ip, now) == Standing(w.keys, ip, now) + n
      && Get(w'.redisLog, ip) == Get(w.redisLog, ip) + Times(now, n)
      && (n > 0 && !Live(w.keys, ip, now) ==> ip in w'.keys && w'.keys[ip].expiresAt == Some(now + c.window))
      && (n == 0 || Live(w.keys, ip, now) ==>
            (ip in w.keys <==> ip in w'.keys) && (ip in w.keys ==> w'.keys[ip].expiresAt == w.keys[ip].expiresAt))
  {
    if n > 0 {
      BurstAdmitted(c, w, ip, now, n - 1);
      IncrAdmitted(c, DoBurst(c, w, ip, now, n - 1), ip, now);
      assert Times(now, n) == Times(now, n - 1) + [now];
    }
  }

  lemma CountAppend(ts: seq<real>, t: real, from: real, window: real)
    ensures CountIn(ts + [t], from, window) == CountIn(ts, from, window) + if from <= t < from + window then 1 else 0
  {
    assert (ts + [t])[..|ts|] == ts;
  }

  lemma {:induction false} CountTimes(ts: seq<real>, now: real, n: nat, from: real, window: real)
    requires from <= now < from + window
    ensures CountIn(ts + Times(now, n), from, window) == CountIn(ts, from, window) + n
  {
    if n == 0 {
      assert ts + Times(now, n) == ts;
    } else {
      CountTimes(ts, now, n - 1, from, window);
      assert ts + Times(now, n) == ts + Times(now, n - 1) + [now];
      CountAppend(ts + Times(now, n - 1), now, from, window);
    }
  }

  lemma {:induction false} BurstTimes(ip: Ip, now: real, n: nat)
    ensures |Burst(ip, now, n)| == n && forall i :: 0 <= i < n ==> Burst(ip, now, n)[i].now == now
  {
    if n > 0 {
      BurstTimes(ip, now, n - 1);
    }
  }

  /** n requests at `start`, max - n `late` in the window that they open, and max just as it ends. */
  function WorstCase(c: Config, ip: Ip, start: real, late: real, n: nat): seq<Step>
    requires n <= c.max
  {
    Burst(ip, start, n) + Burst(ip, late, c.max - n) + Burst(ip, start + c.window, c.max)
  }

  /** A burst within one life of the key and one just as it expires are both admitted in full. */
  lemma ThreeBurstsAdmitted(c: Config, w0: World, ip: Ip, t: real, n1: nat, t2: real, n2: nat, n3: nat)
    requires c.window > 0.0 && ip !in w0.keys
    requires t <= t2 < t + c.window && 0 < n1 && n1 + n2 <= c.max && n3 <= c.max
    ensures Get(DoBurst(c, DoBurst(c, DoBurst(c, w0, ip, t, n1), ip, t2, n2), ip, t + c.window, n3).redisLog, ip)
         == Get(w0.redisLog, ip) + Times(t, n1) + Times(t2, n2) + Times(t + c.window, n3)
  {
    var w1 := DoBurst(c, w0, ip, t, n1);
    BurstAdmitted(c, w0, ip, t, n1);
    var w2 := DoBurst(c, w1, ip, t2, n2);
    BurstAdmitted(c, w1, ip, t2, n2);
    BurstAdmitted(c, w2, ip, t + c.window, n3);
  }

  lemma WorstCaseIsTimely(c: Config, ip: Ip, start: real, late: real, n: nat)
    requires start <= late <= start + c.window && n <= c.max
    ensures Timely(WorstCase(c, ip, start, late, n))
  {
    BurstTimes(ip, start, n);
    BurstTimes(ip, late, c.max - n);
    BurstTimes(ip, start + c.window, c.max);
    var steps := WorstCase(c, ip, start, late, n);
    assert forall i :: 0 <= i < |steps| ==>
      steps[i].now == if i < n then start else if i < c.max then late else start + c.window;
  }

  lemma WorstCaseInBursts(c: Config, ip: Ip, start: real, late: real, n: nat)
    requires n <= c.max
    ensures Run(c, WorstCase(c, ip, start, late, n)).redisLog
         == DoBurst(c, DoBurst(c, DoBurst(c, IDLE, ip, start, n), ip, late, c.max - n),
                    ip, start + c.window, c.max).redisLog
  {
    RunThreeBursts(c, IDLE, ip, start, n, late, c.max - n, start + c.window, c.max);
  }

  lemma WorstCaseAdmitted(c: Config, ip: Ip, start: real, late: real, n: nat)
    requires 1 <= n <= c.max && start < late < start + c.window
    ensures Get(Run(c, WorstCase(c, ip, start, late, n)).redisLog, ip)
         == Times(start, n) + Times(late, c.max - n) + Times(start + c.window, c.max)
  {
    WorstCaseInBursts(c, ip, start, late, n);
    ThreeBurstsAdmitted(c, IDLE, ip, start, n, late, c.max - n, c.max);
    assert Get(IDLE.redisLog, ip) + Times(start, n) == Times(start, n);
  }

  /**
   * With one early request, 2 max - 1 admissions follow in one interval of the window's length:
   * the bound is attained.
   */
  lemma AdmissionBoundIsAttained(c: Config, ip: Ip, start: real, late: real, n: nat)
    requires 1 <= n <= c.max && start < late < start + c.window
    ensures var steps := WorstCase(c, ip, start, late, n);
      Timely(steps) && CountIn(Get(Run(c, steps).redisLog, ip), late, c.window) == 2 * c.max - n
  {
    WorstCaseIsTimely(c, ip, start, late, n);
    WorstCaseAdmitted(c, ip, start, late, n);
    CountThree(c, start, late, n);
  }

  /** Requests that Redis does not decide, all at one time. */
  function MemoryBurst(ip: Ip, now: real, n: nat): seq<Step> {
    if n == 0 then [] else MemoryBurst(ip, now, n - 1) + [Memory(ip, now)]
  }

  /** Steps in time, the last of them by now. */
  ghost predicate TimelyUpTo(steps: seq<Step>, now: real) {
    Timely(steps) && (steps != [] ==> steps[|steps| - 1].now <= now)
  }

  lemma TimelyAppend(steps: seq<Step>, s: Step)
    requires TimelyUpTo(steps, s.now)
    ensures TimelyUpTo(steps + [s], s.now)
  {
    var all := steps + [s];
    assert forall i :: 0 <= i < |steps| ==> all[i] == steps[i] && steps[i].now <= s.now;
  }

  lemma MemoryBurstNext(steps: seq<Step>, ip: Ip, now: real, n: nat)
    requires n > 0
    ensures steps + MemoryBurst(ip, now, n) == (steps + MemoryBurst(ip, now, n - 1)) + [Memory(ip, now)]
  {
  }

  lemma {:induction false} AfterMemoryBurst(c: Config, steps: seq<Step>, ip: Ip, now: real, n: nat)
    requires TimelyUpTo(steps, now)
    ensures TimelyUpTo(steps + MemoryBurst(ip, now, n), now)
    ensures Run(c, steps + MemoryBurst(ip, now, n)).redisLog == Run(c, steps).redisLog
  {
    if n == 0 {
      assert steps + MemoryBurst(ip, now, n) == steps;
    } else {
      var before := steps + MemoryBurst(ip, now, n - 1);
      AfterMemoryBurst(c, steps, ip, now, n - 1);
      MemoryBurstNext(steps, ip, now, n);
      TimelyAppend(before, Memory(ip, now));
      RunAppend(c, before, Memory(ip, now));
    }
  }

  lemma {:induction false} RecentAtMost(ts: seq<real>, now: real, window: real)
    ensures |Recent(ts, now, window)| <= |ts|
  {
    if ts != [] {
      RecentAtMost(ts[..|ts| - 1], now, window);
    }
  }

  lemma FullLogAppend(c: Config, steps: seq<Step>, ip: Ip, now: real)
    requires |Get(FullLog(c, steps), ip)| < c.max
    ensures Get(FullLog(c, steps + [Memory(ip, now)]), ip) == Get(FullLog(c, steps), ip) + [now]
  {
    assert (steps + [Memory(ip, now)])[..|steps|] == steps;
    RecentAtMost(Get(FullLog(c, steps), ip), now, c.window);
  }

  /** Where memory has admitted none, it admits a burst up to the maximum. */
  lemma MemoryBurstAdmitted(c: Config, steps: seq<Step>, ip: Ip, now: real, n: nat)
    requires n <= c.max && Get(FullLog(c, steps), ip) == []
    ensures Get(FullLog(c, steps + MemoryBurst(ip, now, n)), ip) == Times(now, n)
  {
    NoMemoryBurst(steps, ip, now);
    for k := 0 to n
      invariant Get(FullLog(c, steps + MemoryBurst(ip, now, k)), ip) == Times(now, k)
    {
      MemoryBurstGrows(c, steps, ip, now, k + 1);
    }
  }

  lemma NoMemoryBurst(steps: seq<Step>, ip: Ip, now: real)
    ensures steps + MemoryBurst(ip, now, 0) == steps && Times(now, 0) == []
  {
  }

  lemma MemoryBurstGrows(c: Config, steps: seq<Step>, ip: Ip, now: real, n: nat)
    requires 0 < n <= c.max && Get(FullLog(c, steps + MemoryBurst(ip, now, n - 1)), ip) == Times(now, n - 1)
    ensures Get(FullLog(c, steps + MemoryBurst(ip, now, n)), ip) == Times(now, n)
  {
    MemoryBurstNext(steps, ip, now, n);
    FullLogAppend(c, steps + MemoryBurst(ip, now, n - 1), ip, now);
    assert Times(now, n - 1) + [now] == Times(now, n);
  }

  lemma {:induction false} NoMemoryLog(c: Config, steps: seq<Step>)
    requires forall s :: s in steps ==> s.Incr?
    ensures FullLog(c, steps) == map[]
  {
    if steps != [] {
      assert steps[|steps| - 1] in steps;
      NoMemoryLog(c, steps[..|steps| - 1]);
    }
  }

  lemma {:induction false} BurstIsIncr(ip: Ip, now: real, n: nat)
    ensures forall s :: s in Burst(ip, now, n) ==> s.Incr?
  {
    if n > 0 {
      BurstIsIncr(ip, now, n - 1);
    }
  }

  /** The worst case with max more requests that fall to memory, as the last window opens. */
  function WorstCaseOfBoth(c: Config, ip: Ip, start: real, late: real): seq<Step>
    requires c.max >= 1
  {
    WorstCase(c, ip, start, late, 1) + MemoryBurst(ip, start + c.window, c.max)
  }

  /** 3 max - 1 admissions through both in one interval: that bound is attained as well. */
  lemma BoundOfBothIsAttained(c: Config, ip: Ip, start: real, late: real)
    requires 1 <= c.max && start < late < start + c.window
    ensures var steps := WorstCaseOfBoth(c, ip, start, late);
      && Timely(steps)
      && CountIn(Get(Run(c, steps).redisLog, ip), late, c.window)
         + CountIn(Get(Run(c, steps).memoryLog, ip), late, c.window) == 3 * c.max - 1
  {
    var now, incrs, steps := start + c.window, WorstCase(c, ip, start, late, 1), WorstCaseOfBoth(c, ip, start, late);
    AdmissionBoundIsAttained(c, ip, start, late, 1);
    WorstCaseEnds(c, ip, start, late);
    AfterMemoryBurst(c, incrs, ip, now, c.max);
    NoMemoryLog(c, incrs);
    MemoryBurstAdmitted(c, incrs, ip, now, c.max);
    RunAgrees(c, steps, now);
    CountTimes([], now, c.max, late, c.window);
    assert [] + Times(now, c.max) == Times(now, c.max);
  }

  lemma WorstCaseEnds(c: Config, ip: Ip, start: real, late: real)
    requires 1 <= c.max
    ensures var steps := WorstCase(c, ip, start, late, 1);
      steps != [] && steps[|steps| - 1].now == start + c.window && forall s :: s in steps ==> s.Incr?
  {
    BurstTimes(ip, start + c.window, c.max);
    BurstIsIncr(ip, start, 1);
    BurstIsIncr(ip, late, c.max - 1);
    BurstIsIncr(ip, start + c.window, c.max);
  }

  lemma CountThree(c: Config, start: real, late: real, n: nat)
    requires n <= c.max && start < late < start + c.window
    ensures CountIn(Times(start, n) + Times(late, c.max - n) + Times(start + c.window, c.max), late, c.window)
         == 2 * c.max - n
  {
    CountNone(start, n, late, c.window);
    CountTimes(Times(start, n), late, c.max - n, late, c.window);
    CountTimes(Times(start, n) + Times(late, c.max - n), start + c.window, c.max, late, c.window);
  }

  lemma {:induction false} CountNone(now: real, n: nat, from: real, window: real)
    requires now < from
    ensures CountIn(Times(now, n), from, window) == 0
  {
    CountBefore(Times(now, n), from, window, 0);
  }
}

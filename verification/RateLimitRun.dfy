/** The rate limiting middleware with its state updated in place, tied to the runs of module RateLimit. */
module RateLimitRun {
  import opened Options
  import opened RateLimit

  /**
   * How Redis behaves on one request: there is no client, it is down, it counts but the reply is lost,
   * or it answers.
   */
  datatype RedisMood = NoClient | Down | ReplyLost | Answers

  /** What becomes of a request: how often the handler was called, and whether the client was told 429. */
  datatype Outcome = Outcome(calls: nat, tooMany: bool)

  ghost function Admissions(w: World, ip: Ip): nat {
    |Get(w.redisLog, ip)| + |Get(w.memoryLog, ip)|
  }

  lemma AfterIncr(c: Config, steps: seq<Step>, ip: Ip, now: real, replied: bool)
    ensures var w, w', key := Run(c, steps), Run(c, steps + [Incr(ip, now, replied)]),
                           RedisKey(c, Run(c, steps).keys, ip, now);
      && w'.buckets == w.buckets && w'.keys == w.keys[ip := key]
      && Admissions(w', ip) == Admissions(w, ip) + if replied && key.count <= c.max then 1 else 0
  {
    RunAppend(c, steps, Incr(ip, now, replied));
  }

  /**
   * A key that has expired, or never was, starts at 1 for a window's time; a live one counts on
   * and keeps its expiry.
   */
  lemma RedisKeyMeans(c: Config, keys: map<Ip, Key>, ip: Ip, now: real)
    ensures ip !in keys || (keys[ip].expiresAt.Some? && keys[ip].expiresAt.value <= now) ==>
      RedisKey(c, keys, ip, now) == Key(1, Some(now + c.window))
    ensures ip in keys && keys[ip].count >= 1 && keys[ip].expiresAt.Some? && now < keys[ip].expiresAt.value ==>
      RedisKey(c, keys, ip, now) == Key(keys[ip].count + 1, keys[ip].expiresAt)
  {
  }

  lemma AfterMemory(c: Config, steps: seq<Step>, ip: Ip, now: real)
    ensures var w, w' := Run(c, steps), Run(c, steps + [Memory(ip, now)]);
      && w'.buckets == MemoryStep(c, w.buckets, ip, now) && w'.keys == w.keys
      && Admissions(w', ip) == Admissions(w, ip) + if MemoryAdmits(c, w.buckets, ip, now) then 1 else 0
  {
    RunAppend(c, steps, Memory(ip, now));
  }

  /** Redis lets a request through now, and so does the check in memory later. */
  predicate CallsTwice(c: Config, keys: map<Ip, Key>, buckets: map<Ip, seq<real>>, ip: Ip, now: real, later: real) {
    RedisKey(c, keys, ip, now).count <= c.max && MemoryAdmits(c, buckets, ip, later)
  }

  /** After any run there are requests for which both would, unless the limiter admits nothing at all. */
  lemma SomeRequestCallsTwice(c: Config, steps: seq<Step>, now: real, later: real)
    ensures c.max >= 1
       <==> exists ip :: CallsTwice(c, Run(c, steps).keys, Run(c, steps).buckets, ip, now, later)
  {
    var w := Run(c, steps);
    if c.max >= 1 {
      var ip := NewClient(w.keys.Keys + w.buckets.Keys);
      assert Get(Trimmed(c, w.buckets, ip, later), ip) == [];
      assert CallsTwice(c, w.keys, w.buckets, ip, now, later);
    }
  }

  /** There is always a client that has not been seen. */
  lemma NewClient(seen: set<Ip>) returns (ip: Ip)
    ensures ip !in seen
  {
    var longest := "";
    var left := seen;
    while left != {}
      invariant forall k :: k in seen && k !in left ==> |k| <= |longest|
      decreases left
    {
      var k :| k in left;
      longest := if |k| > |longest| then k else longest;
      left := left - {k};
    }
    ip := longest + "x";
  }

  class RateLimiter {
    const config: Config
    var buckets: map<Ip, seq<real>>
    var keys: map<Ip, Key>
    ghost var steps: seq<Step>  // all atomic steps so far

    ghost predicate Valid()
      reads this
    {
      buckets == Run(config, steps).buckets && keys == Run(config, steps).keys
    }

    constructor (config: Config)
      ensures Valid() && steps == [] && this.config == config
    {
      this.config := config;
      buckets, keys, steps := map[], map[], [];
    }

    /** The script that Redis runs atomically; its reply may get lost on the way. */
    method IncrScript(ip: Ip, now: real, ghost replied: bool) returns (count: nat)
      requires Valid()
      modifies `keys, `steps
      ensures Valid() && steps == old(steps) + [Incr(ip, now, replied)]
      ensures count == RedisKey(config, old(keys), ip, now).count
      ensures keys == old(keys)[ip := RedisKey(config, old(keys), ip, now)]
      ensures Admissions(Run(config, steps), ip)
           == Admissions(Run(config, old(steps)), ip) + if replied && count <= config.max then 1 else 0
    {
      AfterIncr(config, steps, ip, now, replied);
      var key := if Live(keys, ip, now) then keys[ip] else Key(0, None);
      key := key.(count := key.count + 1);
      if key.count == 1 {
        key := key.(expiresAt := Some(now + config.window));
      }
      assert key == RedisKey(config, keys, ip, now);
      keys := keys[ip := key];
      count := key.count;
      steps := steps + [Incr(ip, now, replied)];
    }

    method TrimBucket(ip: Ip, now: real)
      modifies `buckets
      ensures buckets == old(buckets)[ip := Recent(Get(old(buckets), ip), now, config.window)]
    {
      var bucket := Get(buckets, ip);
      var kept: seq<real> := [];
      for i := 0 to |bucket|
        invariant kept == Recent(bucket[..i], now, config.window)
      {
        assert bucket[..i + 1][..i] == bucket[..i];
        if now - bucket[i] < config.window {
          kept := kept + [bucket[i]];
        }
      }
      assert bucket[..|bucket|] == bucket;
      buckets := buckets[ip := kept];
    }

    method Sweep(now: real)
      modifies `buckets
      ensures buckets == old(buckets) - StaleKeys(old(buckets), now, config.window)
    {
      ghost var before := buckets;
      var stale := StaleKeys(buckets, now, config.window);
      ghost var gone: set<Ip> := {};
      while stale != {}
        invariant gone + stale == StaleKeys(before, now, config.window)
        invariant buckets == before - gone
        decreases stale
      {
        var k :| k in stale;
        buckets := buckets - {k};
        stale, gone := stale - {k}, gone + {k};
      }
    }

    method TrimAndSweep(ip: Ip, now: real)
      modifies `buckets
      ensures buckets == Trimmed(config, old(buckets), ip, now)
    {
      TrimBucket(ip, now);
      if |buckets| > config.sweepAbove {
        Sweep(now);
      }
    }

    method CheckInMemory(ip: Ip, now: real) returns (admitted: bool)
      requires Valid()
      modifies `buckets, `steps
      ensures Valid() && steps == old(steps) + [Memory(ip, now)]
      ensures admitted == MemoryAdmits(config, old(buckets), ip, now)
      ensures Admissions(Run(config, steps), ip) == Admissions(Run(config, old(steps)), ip) + if admitted then 1 else 0
    {
      AfterMemory(config, steps, ip, now);
      TrimAndSweep(ip, now);
      var bucket := Get(buckets, ip);
      assert bucket + [] == bucket;
      admitted := |bucket| < config.max;
      buckets := buckets[ip := if admitted then bucket + [now] else bucket];
      steps := steps + [Memory(ip, now)];
    }

    /**
     * One request, not exempt from limiting. Redis decides if it answers; otherwise, and also when the handler raises
     * after Redis let the request through, the check in memory decides and the handler may be called (again).
     */
    method Dispatch(ip: Ip, mood: RedisMood, now: real, handlerRaises: bool, later: real) returns (outcome: Outcome)
      requires Valid()
      modifies this
      ensures Valid()
      ensures mood == Answers && RedisKey(config, old(keys), ip, now).count > config.max ==>
        outcome == Outcome(0, true) && steps == old(steps) + [Incr(ip, now, true)]
      ensures mood == Answers && RedisKey(config, old(keys), ip, now).count <= config.max && !handlerRaises ==>
        outcome == Outcome(1, false) && steps == old(steps) + [Incr(ip, now, true)]
      ensures mood == Answers && RedisKey(config, old(keys), ip, now).count <= config.max && handlerRaises ==>
        outcome.calls >= 1 && steps == old(steps) + [Incr(ip, now, true)] + [Memory(ip, later)]
      ensures mood == ReplyLost ==> steps == old(steps) + [Incr(ip, now, false)] + [Memory(ip, later)]
      ensures mood == NoClient || mood == Down ==> steps == old(steps) + [Memory(ip, later)]
      ensures outcome.calls == Admissions(Run(config, steps), ip) - Admissions(Run(config, old(steps)), ip)
      ensures outcome.tooMany ==> outcome.calls == if mood == Answers && handlerRaises
        && RedisKey(config, old(keys), ip, now).count <= config.max then 1 else 0
      ensures !outcome.tooMany ==> outcome.calls == if mood == Answers && handlerRaises then 2 else 1
      ensures outcome.calls == 2 <==>
        handlerRaises && mood == Answers && CallsTwice(config, old(keys), old(buckets), ip, now, later)
    {
      var calls := 0;
      if mood == Answers {
        var count := IncrScript(ip, now, true);
        if count > config.max {
          return Outcome(0, true);
        }
        calls := 1;
        if !handlerRaises {
          return Outcome(1, false);
        }
      } else if mood == ReplyLost {
        var lost := IncrScript(ip, now, false);
      }
      var admitted := CheckInMemory(ip, later);
      outcome := if admitted then Outcome(calls + 1, false) else Outcome(calls, true);
    }
  }
}

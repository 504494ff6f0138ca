/** The pool of proxies: a breaker each and a cursor that goes round, skipping those in cooldown. */
module ProxyPool {
  import opened Options
  import opened Breaker

  // ---- one turn of the cursor ----

  /** Where the cursor stands after i + 1 steps. */
  function Next(n: nat, cursor: nat, i: nat): (k: nat)
    requires cursor < n && i < n
    ensures k < n
  {
    if cursor + 1 + i < n then cursor + 1 + i else cursor + 1 + i - n
  }

  /** All indices in the order in which the cursor comes by, its own last. */
  function Ring(n: nat, cursor: nat): (ring: seq<nat>)
    requires cursor < n
    ensures |ring| == n
    ensures forall i :: 0 <= i < n ==> ring[i] == Next(n, cursor, i) < n
  {
    seq(n, i requires 0 <= i < n => Next(n, cursor, i))
  }

  /** Those of the indices whose proxy is not in cooldown. */
  function Usable(indices: seq<nat>, open: seq<bool>): (us: seq<nat>)
    requires forall i :: 0 <= i < |indices| ==> indices[i] < |open|
  {
    if indices == [] then []
    else (if open[indices[0]] then [] else [indices[0]]) + Usable(indices[1..], open)
  }

  /** The queue that the cursor stands for: the usable proxies in the order of their turns. */
  function Waiting(open: seq<bool>, cursor: nat): seq<nat>
    requires cursor < |open|
  {
    Usable(Ring(|open|, cursor), open)
  }

  lemma {:induction false} UsableConcat(a: seq<nat>, b: seq<nat>, open: seq<bool>)
    requires forall i :: 0 <= i < |a| ==> a[i] < |open|
    requires forall i :: 0 <= i < |b| ==> b[i] < |open|
    ensures Usable(a + b, open) == Usable(a, open) + Usable(b, open)
  {
    if a == [] {
      assert a + b == b;
    } else {
      UsableConcat(a[1..], b, open);
      assert (a + b)[1..] == a[1..] + b;
      var head := if open[a[0]] then [] else [a[0]];
      assert head + (Usable(a[1..], open) + Usable(b, open)) == (head + Usable(a[1..], open)) + Usable(b, open);
    }
  }

  lemma {:induction false} UsableMembers(indices: seq<nat>, open: seq<bool>)
    requires forall i :: 0 <= i < |indices| ==> indices[i] < |open|
    ensures forall k :: k in Usable(indices, open) <==> k in indices && !open[k]
    ensures (forall i, j :: 0 <= i < j < |indices| ==> indices[i] != indices[j]) ==>
      forall i, j :: 0 <= i < j < |Usable(indices, open)| ==> Usable(indices, open)[i] != Usable(indices, open)[j]
  {
    if indices != [] {
      UsableMembers(indices[1..], open);
      assert indices == [indices[0]] + indices[1..];
    }
  }

  lemma RingIsPermutation(n: nat, cursor: nat)
    requires cursor < n
    ensures forall k: nat :: k < n ==> k in Ring(n, cursor)
    ensures forall i, j :: 0 <= i < j < n ==> Ring(n, cursor)[i] != Ring(n, cursor)[j]
  {
    forall k: nat | k < n
      ensures k in Ring(n, cursor)
    {
      assert Ring(n, cursor)[if k > cursor then k - cursor - 1 else k + n - cursor - 1] == k;
    }
  }

  /** The ring is what stepping the cursor modulo n visits, and after n steps it is back. */
  lemma RingStep(n: nat, cursor: nat, i: nat)
    requires cursor < n && i < n
    ensures Ring(n, cursor)[i] == ((if i == 0 then cursor else Ring(n, cursor)[i - 1]) + 1) % n
  {
    Wrapped((if i == 0 then cursor else Ring(n, cursor)[i - 1]) + 1, n);
  }

  lemma Wrapped(x: nat, n: nat)
    requires 0 < x <= n
    ensures x % n == if x == n then 0 else x
  {
  }

  /** The queue holds each usable proxy of the pool exactly once. */
  lemma WaitingHoldsAllUsable(open: seq<bool>, cursor: nat)
    requires cursor < |open|
    ensures forall k: nat :: k in Waiting(open, cursor) <==> k < |open| && !open[k]
    ensures forall i, j :: 0 <= i < j < |Waiting(open, cursor)| ==> Waiting(open, cursor)[i] != Waiting(open, cursor)[j]
  {
    RingIsPermutation(|open|, cursor);
    UsableMembers(Ring(|open|, cursor), open);
  }

  /** When the cursor stops at the i-th place of the ring, the ring turns by that much. */
  lemma RingTurns(n: nat, cursor: nat, i: nat)
    requires cursor < n && i < n
    ensures var ring := Ring(n, cursor);
      Ring(n, ring[i]) == ring[i + 1..] + ring[..i + 1]
  {
    var ring := Ring(n, cursor);
    var turned := ring[i + 1..] + ring[..i + 1];
    assert forall j :: 0 <= j < n ==> Ring(n, ring[i])[j] == turned[j];
  }

  /** Stopping at the first usable proxy of the ring takes the head of the queue and puts it at the end. */
  lemma PickRotates(open: seq<bool>, cursor: nat, i: nat)
    requires cursor < |open| && i < |open|
    requires var ring := Ring(|open|, cursor);
      !open[ring[i]] && forall j :: 0 <= j < i ==> open[ring[j]]
    ensures var queue, picked := Waiting(open, cursor), Ring(|open|, cursor)[i];
      queue != [] && queue[0] == picked && Waiting(open, picked) == queue[1..] + [queue[0]]
  {
    var ring := Ring(|open|, cursor);
    var skipped, picked, rest := ring[..i], ring[i], ring[i + 1..];
    assert ring == skipped + ([picked] + rest);
    NoneUsable(skipped, open);
    UsableConcat(skipped, [picked] + rest, open);
    UsableConcat([picked], rest, open);
    assert [picked][1..] == [];
    RingTurns(|open|, cursor, i);
    assert Ring(|open|, picked) == rest + (skipped + [picked]);
    UsableConcat(rest, skipped + [picked], open);
    UsableConcat(skipped, [picked], open);
  }

  lemma {:induction false} NoneUsable(indices: seq<nat>, open: seq<bool>)
    requires forall i :: 0 <= i < |indices| ==> indices[i] < |open| && open[indices[i]]
    ensures Usable(indices, open) == []
  {
    if indices != [] {
      NoneUsable(indices[1..], open);
    }
  }

  /** One pick, as an operation on the queue. */
  function Picked(open: seq<bool>, cursor: nat): (p: Option<nat>)
    requires cursor < |open|
    ensures p.Some? ==> p.value < |open|
  {
    WaitingHoldsAllUsable(open, cursor);
    if Waiting(open, cursor) == [] then None
    else
      assert Waiting(open, cursor)[0] in Waiting(open, cursor);
      Some(Waiting(open, cursor)[0])
  }

  /** The indices that the next k picks return while the breakers stay as they are. */
  function Picks(open: seq<bool>, cursor: nat, k: nat): seq<nat>
    requires cursor < |open|
    decreases k
  {
    var p := Picked(open, cursor);
    if k == 0 || p.None? then [] else [p.value] + Picks(open, p.value, k - 1)
  }

  /** Where the first usable proxy of the ring is found. */
  lemma {:induction false} FirstUsable(open: seq<bool>, indices: seq<nat>) returns (i: nat)
    requires forall j :: 0 <= j < |indices| ==> indices[j] < |open|
    requires Usable(indices, open) != []
    ensures i < |indices| && !open[indices[i]] && indices[i] == Usable(indices, open)[0]
    ensures forall j :: 0 <= j < i ==> open[indices[j]]
  {
    if !open[indices[0]] {
      i := 0;
    } else {
      var k := FirstUsable(open, indices[1..]);
      i := k + 1;
      assert forall j :: 1 <= j < i ==> indices[j] == indices[1..][j - 1];
    }
  }

  lemma PickedRotates(open: seq<bool>, cursor: nat)
    requires cursor < |open| && Picked(open, cursor).Some?
    ensures var queue := Waiting(open, cursor);
      Waiting(open, Picked(open, cursor).value) == queue[1..] + [queue[0]]
  {
    var i := FirstUsable(open, Ring(|open|, cursor));
    PickRotates(open, cursor, i);
  }

  lemma {:induction false} PicksAreQueue(open: seq<bool>, cursor: nat, k: nat)
    requires cursor < |open| && k <= |Waiting(open, cursor)|
    ensures Picks(open, cursor, k) == Waiting(open, cursor)[..k]
    decreases k
  {
    if k > 0 {
      var queue, p := Waiting(open, cursor), Picked(open, cursor).value;
      PickedRotates(open, cursor);
      PicksAreQueue(open, p, k - 1);
      assert (queue[1..] + [queue[0]])[..k - 1] == queue[1..][..k - 1];
    }
  }

  /**
   * While the breakers stay as they are, m picks, m being the number of usable proxies, return each of these once
   * and no other proxy.
   */
  lemma RoundRobinIsFair(open: seq<bool>, cursor: nat)
    requires cursor < |open|
    ensures var picks := Picks(open, cursor, |Waiting(open, cursor)|);
      && (forall i, j :: 0 <= i < j < |picks| ==> picks[i] != picks[j])
      && (forall k: nat :: k in picks <==> k < |open| && !open[k])
  {
    PicksAreQueue(open, cursor, |Waiting(open, cursor)|);
    WaitingHoldsAllUsable(open, cursor);
  }

  // ---- several proxies, each with its own breaker ----

  datatype PoolEvent = PoolEvent(proxy: string, event: Event)

  function Lookup(state: map<string, Breaker>, proxy: string): Option<Breaker> {
    if proxy in state then Some(state[proxy]) else None
  }

  function ApplyTo(state: map<string, Breaker>, e: PoolEvent): map<string, Breaker> {
    var b := Apply(Lookup(state, e.proxy), e.event);
    if b.Some? then state[e.proxy := b.value] else state
  }

  function PoolAfter(events: seq<PoolEvent>): map<string, Breaker> {
    if events == [] then map[] else ApplyTo(PoolAfter(events[..|events| - 1]), events[|events| - 1])
  }

  /** The events of one proxy. */
  function Of(events: seq<PoolEvent>, proxy: string): seq<Event> {
    if events == [] then []
    else
      var last := |events| - 1;
      Of(events[..last], proxy) + if events[last].proxy == proxy then [events[last].event] else []
  }

  /** What happens to other proxies never shows: each breaker is where its own events alone bring it. */
  lemma {:induction false} BreakersAreIndependent(events: seq<PoolEvent>, proxy: string)
    ensures Lookup(PoolAfter(events), proxy) == After(None, Of(events, proxy))
  {
    if events != [] {
      var last := |events| - 1;
      BreakersAreIndependent(events[..last], proxy);
      AfterAppend(Of(events[..last], proxy), events[last].event);
    }
  }

  lemma AfterAppend(trace: seq<Event>, e: Event)
    ensures After(None, trace + [e]) == Apply(After(None, trace), e)
    ensures trace + [] == trace
  {
    assert (trace + [e])[..|trace|] == trace;
  }

  function OpenAmong(entries: seq<string>, breakers: map<string, Breaker>, now: real): (open: seq<bool>)
    ensures |open| == |entries|
    ensures forall i :: 0 <= i < |open| ==> open[i] == IsOpen(Lookup(breakers, entries[i]), now)
  {
    seq(|entries|, i requires 0 <= i < |entries| => IsOpen(Lookup(breakers, entries[i]), now))
  }

  predicate Cooling(breakers: map<string, Breaker>, proxy: string, now: real) {
    proxy in breakers && breakers[proxy].cooldownUntil > now
  }

  /** The index d places on from the cursor, round and round. */
  function Ahead(n: nat, cursor: nat, d: nat): (k: nat)
    requires n > 0
    ensures k == (cursor + d) % n < n
  {
    (cursor + d) % n
  }

  /** Going on from the cursor, the d-th entry is the first that is not cooling. */
  ghost predicate StopsAt(breakers: map<string, Breaker>, entries: seq<string>, now: real, cursor: nat, d: nat)
    requires entries != []
  {
    && !Cooling(breakers, entries[Ahead(|entries|, cursor, d)], now)
    && forall j :: 1 <= j < d ==> Cooling(breakers, entries[Ahead(|entries|, cursor, j)], now)
  }

  /** A scan ends at the first entry that is not cooling, its own last, or finds that all are. */
  ghost predicate ScanEnds(breakers: map<string, Breaker>, entries: seq<string>, now: real, from: nat, to: nat,
                           picked: Option<string>)
    requires entries != [] && to < |entries|
  {
    && (picked.None? ==> to == from && forall k :: 0 <= k < |entries| ==> Cooling(breakers, entries[k], now))
    && (picked.Some? ==> picked.value == entries[to] && exists d ::
          1 <= d <= |entries| && to == Ahead(|entries|, from, d) && StopsAt(breakers, entries, now, from, d))
  }

  lemma ScanFinds(breakers: map<string, Breaker>, entries: seq<string>, now: real, cursor: nat, i: nat)
    requires cursor < |entries| && i < |entries|
    requires var ring, open := Ring(|entries|, cursor), OpenAmong(entries, breakers, now);
      !open[ring[i]] && forall j :: 0 <= j < i ==> open[ring[j]]
    ensures var to := Ring(|entries|, cursor)[i];
      ScanEnds(breakers, entries, now, cursor, to, Some(entries[to]))
  {
    var ring, n := Ring(|entries|, cursor), |entries|;
    RingIsModular(n, cursor, i);
    forall j | 1 <= j < i + 1
      ensures Cooling(breakers, entries[Ahead(n, cursor, j)], now)
    {
      RingIsModular(n, cursor, j - 1);
      assert OpenAmong(entries, breakers, now)[ring[j - 1]];
    }
    assert StopsAt(breakers, entries, now, cursor, i + 1);
  }

  lemma ScanFindsNone(breakers: map<string, Breaker>, entries: seq<string>, now: real, cursor: nat)
    requires cursor < |entries|
    requires var ring, open := Ring(|entries|, cursor), OpenAmong(entries, breakers, now);
      forall j :: 0 <= j < |entries| ==> open[ring[j]]
    ensures ScanEnds(breakers, entries, now, cursor, cursor, None)
  {
    var ring, open := Ring(|entries|, cursor), OpenAmong(entries, breakers, now);
    RingIsPermutation(|entries|, cursor);
    forall k: nat | k < |entries|
      ensures Cooling(breakers, entries[k], now)
    {
      assert k in ring;
      var j :| 0 <= j < |ring| && ring[j] == k;
      assert open[ring[j]];
    }
  }

  lemma RingIsModular(n: nat, cursor: nat, i: nat)
    requires cursor < n && i < n
    ensures Ahead(n, cursor, i + 1) == Ring(n, cursor)[i]
  {
    ModOnce(cursor + (i + 1), n);
  }

  lemma ModOnce(x: nat, n: nat)
    requires 0 < n && x < 2 * n
    ensures x % n == if x < n then x else x - n
  {
    if x < n {
      Wrapped(if x == 0 then n else x, n);
    } else {
      assert x == n + (x - n);
    }
  }

  // ---- the module's state, updated in place ----

  class Pool {
    var entries: seq<string>
    var cursor: nat
    var breakers: map<string, Breaker>
    ghost var events: seq<PoolEvent>  // all failures and successes so far

    ghost predicate Valid()
      reads this
    {
      (entries == [] ==> cursor == 0) && (entries != [] ==> cursor < |entries|) && breakers == PoolAfter(events)
    }

    constructor ()
      ensures Valid() && entries == [] && events == []
    {
      entries, cursor, breakers, events := [], 0, map[], [];
    }

    /** Which entries are in cooldown; two entries with the same URL share a breaker. */
    function Open(now: real): (open: seq<bool>)
      reads `entries, `breakers
      ensures |open| == |entries|
    {
      OpenAmong(entries, breakers, now)
    }

    /** The next usable proxy in turn; None, with the cursor back where it was, when there is none. */
    method PickProxy(now: real, proxyList: seq<string>) returns (picked: Option<string>)
      requires Valid()
      modifies `entries, `cursor
      ensures Valid()
      ensures entries == if old(entries) == [] then proxyList else old(entries)
      ensures entries == [] ==> picked == None
      ensures entries != [] ==> var p := Picked(Open(now), old(cursor));
        if p.None? then picked == None && cursor == old(cursor)
        else cursor == p.value && picked == Some(entries[p.value])
      ensures entries != [] ==> ScanEnds(breakers, entries, now, old(cursor), cursor, picked)
    {
      if entries == [] {
        entries := proxyList;
      }
      if entries == [] {
        return None;
      }
      picked := NextUsable(now);
    }

    /** The scan from the cursor on, once around. */
    method NextUsable(now: real) returns (picked: Option<string>)
      requires Valid() && entries != []
      modifies `cursor
      ensures Valid()
      ensures var p := Picked(Open(now), old(cursor));
        if p.None? then picked == None && cursor == old(cursor)
        else cursor == p.value && picked == Some(entries[p.value])
      ensures ScanEnds(breakers, entries, now, old(cursor), cursor, picked)
    {
      ghost var start, ring, open := cursor, Ring(|entries|, cursor), OpenAmong(entries, breakers, now);
      for i := 0 to |entries|
        invariant cursor < |entries| && cursor == if i == 0 then start else ring[i - 1]
        invariant forall j :: 0 <= j < i ==> open[ring[j]]
      {
        RingStep(|entries|, start, i);
        cursor := (cursor + 1) % |entries|;
        var breaker := Lookup(breakers, entries[cursor]);
        if breaker.None? || !IsOpen(breaker, now) {
          PickRotates(open, start, i);
          ScanFinds(breakers, entries, now, start, i);
          return Some(entries[cursor]);
        }
      }
      NoneUsable(ring, open);
      ScanFindsNone(breakers, entries, now, start);
      picked := None;
    }

    method RecordFailure(proxy: string, now: real)
      requires Valid()
      modifies `breakers, `events
      ensures Valid() && events == old(events) + [PoolEvent(proxy, Failure(now))]
      ensures breakers == old(breakers)[proxy := AfterFailure(Lookup(old(breakers), proxy), now)]
    {
      assert (events + [PoolEvent(proxy, Failure(now))])[..|events|] == events;
      events := events + [PoolEvent(proxy, Failure(now))];
      if proxy !in breakers {
        breakers := breakers[proxy := Breaker(now, 1, 0.0)];
        return;
      }
      var breaker := breakers[proxy];
      if now - breaker.windowStart > WINDOW_SECONDS {
        breakers := breakers[proxy := breaker.(windowStart := now, failCount := 1)];
        return;
      }
      breaker := breaker.(failCount := breaker.failCount + 1);
      if breaker.failCount >= FAIL_THRESHOLD && breaker.cooldownUntil <= now {
        breaker := breaker.(cooldownUntil := now + COOLDOWN_SECONDS);
      }
      breakers := breakers[proxy := breaker];
    }

    method RecordSuccess(proxy: string, now: real)
      requires Valid()
      modifies `breakers, `events
      ensures Valid() && events == old(events) + [PoolEvent(proxy, Success(now))]
      ensures breakers.Keys == old(breakers).Keys
      ensures forall k :: k in breakers ==>
        breakers[k] == if k == proxy then Breaker(now, 0, old(breakers)[k].cooldownUntil) else old(breakers)[k]
    {
      assert (events + [PoolEvent(proxy, Success(now))])[..|events|] == events;
      events := events + [PoolEvent(proxy, Success(now))];
      if proxy in breakers {
        breakers := breakers[proxy := breakers[proxy].(failCount := 0, windowStart := now)];
      }
    }
  }
}

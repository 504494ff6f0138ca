/** The compliant fetcher: limiter, retry and proxies that are given up (crawler/compliance.py). */
module Fetcher {
  import opened Options
  import opened Sets

  /** How an attempt to send ends: a response, a refused connection, or another HTTP error. */
  datatype Reply = Responds | ConnectFails | OtherFails

  /** One attempt: its end, how long it took, and by how much a wait after it oversleeps. */
  datatype Attempt = Attempt(reply: Reply, took: real, overslept: real)

  /** What the outside world contributes to one call of fetch. */
  datatype Call = Call(allowed: bool, useProxy: bool, choice: nat, first: Attempt, second: Attempt)

  /**
   * The limiter's last wait, the dead proxies, and, for the specification, the times of all sends and waits, and the
   * proxy that each send went through.
   */
  datatype State = State(clock: real, last: real, dead: set<string>, sends: seq<real>, waits: seq<real>,
                         routes: seq<Option<string>>)

  function Send(st: State, via: Option<string>, took: real): State {
    st.(sends := st.sends + [st.clock], routes := st.routes + [via], clock := st.clock + took)
  }

  /** Sleep until the interval since the last wait is over. */
  function Wait(minInterval: real, st: State, overslept: real): State {
    var delta := st.clock - st.last;
    var clock := if delta < minInterval then st.clock + (minInterval - delta) + overslept else st.clock;
    st.(clock := clock, last := clock, waits := st.waits + [clock])
  }

  function Alive(pool: seq<string>, dead: set<string>): (alive: seq<string>)
    ensures forall p :: p in alive <==> p in pool && p !in dead
  {
    if pool == [] then []
    else Alive(pool[..|pool| - 1], dead) + if pool[|pool| - 1] in dead then [] else [pool[|pool| - 1]]
  }

  function GetProxy(pool: seq<string>, dead: set<string>, choice: nat): (proxy: Option<string>)
    ensures proxy.Some? ==> proxy.value in pool && proxy.value !in dead
  {
    var alive := Alive(pool, dead);
    if alive == [] then None else Some(alive[choice % |alive|])
  }

  /** After a failed first attempt: a proxy that refused is dead, and direct is next; otherwise wait and try again. */
  function Recover(minInterval: real, st: State, proxy: Option<string>, first: Attempt): State {
    if proxy.Some? && first.reply.ConnectFails? then st.(dead := st.dead + {proxy.value})
    else Wait(minInterval, st, first.overslept)
  }

  function Retry(minInterval: real, st: State, proxy: Option<string>, second: Attempt): State {
    var st' := Send(st, proxy, second.took);
    if second.reply.Responds? then Wait(minInterval, st', second.overslept)
    else if proxy.Some? && second.reply.ConnectFails? then st'.(dead := st'.dead + {proxy.value})
    else st'
  }

  function ChosenProxy(pool: seq<string>, dead: set<string>, call: Call): (proxy: Option<string>)
    ensures proxy.Some? ==> proxy.value in pool && proxy.value !in dead
  {
    if call.useProxy then GetProxy(pool, dead, call.choice) else None
  }

  function Fetch(pool: seq<string>, minInterval: real, st: State, call: Call): State {
    if !call.allowed then st
    else
      var proxy := ChosenProxy(pool, st.dead, call);
      var sent := Send(st, proxy, call.first.took);
      if call.first.reply.Responds? then Wait(minInterval, sent, call.first.overslept)
      else
        var proxy' := if call.first.reply.ConnectFails? then None else proxy;
        Retry(minInterval, Recover(minInterval, sent, proxy, call.first), proxy', call.second)
  }

  function Run(pool: seq<string>, minInterval: real, st: State, calls: seq<Call>): State {
    if calls == [] then st
    else Fetch(pool, minInterval, Run(pool, minInterval, st, calls[..|calls| - 1]), calls[|calls| - 1])
  }

  ghost predicate Physical(calls: seq<Call>) {
    forall i :: 0 <= i < |calls| ==>
      calls[i].first.took >= 0.0 && calls[i].first.overslept >= 0.0 &&
      calls[i].second.took >= 0.0 && calls[i].second.overslept >= 0.0
  }

  /** A live proxy is used whenever there is one, and any of them may be. */
  lemma LiveProxyIsUsed(pool: seq<string>, dead: set<string>)
    ensures forall choice :: GetProxy(pool, dead, choice).None? <==> forall p :: p in pool ==> p in dead
    ensures forall p :: p in pool && p !in dead ==> exists choice: nat :: GetProxy(pool, dead, choice) == Some(p)
  {
    var alive := Alive(pool, dead);
    if p :| p in pool && p !in dead {
      assert p in alive;
    }
    forall p | p in pool && p !in dead
      ensures exists choice: nat :: GetProxy(pool, dead, choice) == Some(p)
    {
      assert p in alive;
      var i: nat :| i < |alive| && alive[i] == p;
      SmallMod(i, |alive|);
      assert GetProxy(pool, dead, i) == Some(p);
    }
  }

  lemma SmallMod(x: nat, n: nat)
    requires x < n
    ensures x % n == x
  {
  }

  /** A call that asks for no proxy, or finds none alive, goes direct. */
  lemma DirectIff(pool: seq<string>, dead: set<string>, call: Call)
    ensures ChosenProxy(pool, dead, call).None? <==> !call.useProxy || forall p :: p in pool ==> p in dead
  {
    LiveProxyIsUsed(pool, dead);
  }

  /** The proxy that a call finds dead: the one it chose, if an attempt through it ends in a refused connection. */
  function Refusing(pool: seq<string>, st: State, call: Call): (refusing: set<string>)
    ensures refusing != {} ==> call.allowed && ChosenProxy(pool, st.dead, call).Some?
  {
    var proxy := ChosenProxy(pool, st.dead, call);
    var refused := call.first.reply.ConnectFails? || (call.first.reply.OtherFails? && call.second.reply.ConnectFails?);
    if call.allowed && proxy.Some? && refused then {proxy.value} else {}
  }

  /** Which way a call's requests go: the first through the proxy chosen, the second, too, unless that refused. */
  lemma CallRoutes(pool: seq<string>, minInterval: real, st: State, call: Call)
    ensures var st', proxy := Fetch(pool, minInterval, st, call), ChosenProxy(pool, st.dead, call);
      st'.routes == st.routes
        + (if !call.allowed then [] else if call.first.reply.Responds? then [proxy]
           else [proxy, if call.first.reply.ConnectFails? then None else proxy])
  {
    if call.allowed {
      var proxy := ChosenProxy(pool, st.dead, call);
      var next := if call.first.reply.ConnectFails? then None else proxy;
      assert st.routes + [proxy] + [next] == st.routes + [proxy, next];
    }
  }

  /** From any state on, every request goes direct or through a proxy of the pool that was not dead then. */
  lemma {:induction false} DeadIsNeverUsed(pool: seq<string>, minInterval: real, st: State, calls: seq<Call>)
    ensures var st' := Run(pool, minInterval, st, calls);
      && st.routes <= st'.routes && st.dead <= st'.dead
      && forall k :: |st.routes| <= k < |st'.routes| && st'.routes[k].Some? ==>
           st'.routes[k].value in pool && st'.routes[k].value !in st.dead
  {
    if calls != [] {
      var last := |calls| - 1;
      var before := Run(pool, minInterval, st, calls[..last]);
      DeadIsNeverUsed(pool, minInterval, st, calls[..last]);
      CallRoutes(pool, minInterval, before, calls[last]);
      CallEffect(pool, minInterval, before, calls[last]);
    }
  }

  /**
   * What a call does: no request if it is not allowed, one if the first attempt gets a response, otherwise two; a wait
   * after a response, and another between the attempts unless a proxy refused; and the proxy that refused is dead.
   */
  lemma CallEffect(pool: seq<string>, minInterval: real, st: State, call: Call)
    ensures var st', first, second := Fetch(pool, minInterval, st, call), call.first.reply, call.second.reply;
      var skipsWait := ChosenProxy(pool, st.dead, call).Some? && first.ConnectFails?;
      && st'.dead == st.dead + Refusing(pool, st, call)
      && |st'.sends| == |st.sends| + (if !call.allowed then 0 else if first.Responds? then 1 else 2)
      && |st'.waits| == |st.waits| + (if !call.allowed then 0 else if first.Responds? then 1
                                      else (if skipsWait then 0 else 1) + if second.Responds? then 1 else 0)
  {
  }

  // ---- how many requests are sent ----

  ghost function PoolSet(pool: seq<string>): set<string> {
    set p | p in pool
  }

  /** A first attempt that fails is paid for by a wait or by a proxy that is newly dead. */
  lemma RecoverPays(pool: seq<string>, minInterval: real, st: State, proxy: Option<string>, first: Attempt)
    requires proxy.Some? ==> proxy.value in pool && proxy.value !in st.dead
    ensures var st' := Recover(minInterval, st, proxy, first);
      && st'.sends == st.sends && st.waits <= st'.waits && st.dead <= st'.dead <= st.dead + PoolSet(pool)
      && |st'.waits| + |st'.dead| == |st.waits| + |st.dead| + 1
  {
  }

  lemma RetryPays(pool: seq<string>, minInterval: real, st: State, proxy: Option<string>, second: Attempt)
    requires proxy.Some? ==> proxy.value in pool
    ensures var st' := Retry(minInterval, st, proxy, second);
      && st.sends <= st'.sends && st.waits <= st'.waits && st.dead <= st'.dead <= st.dead + PoolSet(pool)
      && |st'.sends| == |st.sends| + 1
  {
  }

  /**
   * One call: two sends at most for each wait and for each proxy it finds dead;
   * such a proxy was in the pool and alive.
   */
  lemma FetchPays(pool: seq<string>, minInterval: real, st: State, call: Call)
    ensures var st' := Fetch(pool, minInterval, st, call);
      && st.sends <= st'.sends && st.waits <= st'.waits && st.dead <= st'.dead <= st.dead + PoolSet(pool)
      && |st'.sends| + 2 * |st.waits| + 2 * |st.dead| <= |st.sends| + 2 * |st'.waits| + 2 * |st'.dead|
  {
    if call.allowed && !call.first.reply.Responds? {
      var proxy := ChosenProxy(pool, st.dead, call);
      var sent := Send(st, proxy, call.first.took);
      var recovered := Recover(minInterval, sent, proxy, call.first);
      var next := if call.first.reply.ConnectFails? then None else proxy;
      var st' := Retry(minInterval, recovered, next, call.second);
      RecoverPays(pool, minInterval, sent, proxy, call.first);
      RetryPays(pool, minInterval, recovered, next, call.second);
      SubsetSize(recovered.dead, st'.dead);
      assert Fetch(pool, minInterval, st, call) == st';
    }
  }

  lemma {:induction false} RunPays(pool: seq<string>, minInterval: real, st: State, calls: seq<Call>)
    ensures var st' := Run(pool, minInterval, st, calls);
      && st.sends <= st'.sends && st.waits <= st'.waits && st.dead <= st'.dead <= st.dead + PoolSet(pool)
      && |st'.sends| + 2 * |st.waits| + 2 * |st.dead| <= |st.sends| + 2 * |st'.waits| + 2 * |st'.dead|
  {
    if calls != [] {
      var init := calls[..|calls| - 1];
      RunPays(pool, minInterval, st, init);
      FetchPays(pool, minInterval, Run(pool, minInterval, st, init), calls[|calls| - 1]);
    }
  }

  // ---- how far apart waits are ----

  /** Waits in order, a minimal interval apart, the last of them remembered, none in the future. */
  ghost predicate Paced(minInterval: real, st: State) {
    && st.last <= st.clock
    && (forall i :: 1 <= i < |st.waits| ==> st.waits[i] - st.waits[i - 1] >= minInterval)
    && (st.waits != [] ==> st.last == st.waits[|st.waits| - 1])
  }

  /** Time has passed, and all waits since then are over after that. */
  ghost predicate Later(st: State, st': State) {
    && st.clock <= st'.clock && st.waits <= st'.waits
    && forall i :: |st.waits| <= i < |st'.waits| ==> st'.waits[i] >= st.clock
  }

  lemma LaterTransitive(a: State, b: State, c: State)
    requires Later(a, b) && Later(b, c)
    ensures Later(a, c)
  {
    assert forall i :: 0 <= i < |b.waits| ==> c.waits[i] == b.waits[i];
  }

  lemma WaitKeepsPace(minInterval: real, st: State, overslept: real)
    requires minInterval > 0.0 && overslept >= 0.0 && Paced(minInterval, st)
    ensures var st' := Wait(minInterval, st, overslept);
      Paced(minInterval, st') && Later(st, st')
  {
  }

  lemma RecoverKeepsPace(minInterval: real, st: State, proxy: Option<string>, first: Attempt)
    requires minInterval > 0.0 && first.overslept >= 0.0 && Paced(minInterval, st)
    ensures var st' := Recover(minInterval, st, proxy, first);
      Paced(minInterval, st') && Later(st, st')
  {
    WaitKeepsPace(minInterval, st, first.overslept);
  }

  lemma RetryKeepsPace(minInterval: real, st: State, proxy: Option<string>, second: Attempt)
    requires minInterval > 0.0 && second.took >= 0.0 && second.overslept >= 0.0 && Paced(minInterval, st)
    ensures var st' := Retry(minInterval, st, proxy, second);
      Paced(minInterval, st') && Later(st, st')
  {
    var sent := Send(st, proxy, second.took);
    WaitKeepsPace(minInterval, sent, second.overslept);
    LaterTransitive(st, sent, Wait(minInterval, sent, second.overslept));
  }

  lemma FetchKeepsPace(pool: seq<string>, minInterval: real, st: State, call: Call)
    requires minInterval > 0.0 && Physical([call]) && Paced(minInterval, st)
    ensures var st' := Fetch(pool, minInterval, st, call);
      Paced(minInterval, st') && Later(st, st')
  {
    assert [call][0] == call;
    if call.allowed {
      var proxy := ChosenProxy(pool, st.dead, call);
      var sent := Send(st, proxy, call.first.took);
      if call.first.reply.Responds? {
        WaitKeepsPace(minInterval, sent, call.first.overslept);
        LaterTransitive(st, sent, Wait(minInterval, sent, call.first.overslept));
      } else {
        var recovered := Recover(minInterval, sent, proxy, call.first);
        RecoverKeepsPace(minInterval, sent, proxy, call.first);
        LaterTransitive(st, sent, recovered);
        RetryKeepsPace(minInterval, recovered, if call.first.reply.ConnectFails? then None else proxy, call.second);
        LaterTransitive(st, recovered, Fetch(pool, minInterval, st, call));
      }
    }
  }

  lemma {:induction false} RunKeepsPace(pool: seq<string>, minInterval: real, st: State, calls: seq<Call>)
    requires minInterval > 0.0 && Physical(calls) && Paced(minInterval, st)
    ensures var st' := Run(pool, minInterval, st, calls);
      Paced(minInterval, st') && Later(st, st')
  {
    if calls != [] {
      var last := |calls| - 1;
      var before := Run(pool, minInterval, st, calls[..last]);
      RunKeepsPace(pool, minInterval, st, calls[..last]);
      FetchKeepsPace(pool, minInterval, before, calls[last]);
      LaterTransitive(st, before, Fetch(pool, minInterval, before, calls[last]));
    }
  }

  /** n intervals, added up. */
  function Intervals(n: nat, d: real): real {
    if n == 0 then 0.0 else Intervals(n - 1, d) + d
  }

  lemma {:induction false} IntervalsProduct(n: nat, d: real)
    ensures Intervals(n, d) == n as real * d
  {
    if n > 0 {
      IntervalsProduct(n - 1, d);
      var m := (n - 1) as real;
      assert n as real == m + 1.0;
      assert (m + 1.0) * d == m * d + d;
    }
  }

  /** n + 1 successive waits span n intervals. */
  lemma {:induction false} WaitsSpan(minInterval: real, st: State, i: nat, n: nat)
    requires Paced(minInterval, st) && i + n < |st.waits|
    ensures st.waits[i + n] - st.waits[i] >= Intervals(n, minInterval)
  {
    if n > 0 {
      WaitsSpan(minInterval, st, i, n - 1);
    }
  }

  /** n intervals fit into a time span only if n is at most the time divided by d. */
  lemma FitsInto(n: nat, time: real, d: real)
    requires d > 0.0 && Intervals(n, d) <= time
    ensures n as real <= time / d
  {
    IntervalsProduct(n, d);
    assert time / d - n as real == (time - n as real * d) / d;
  }

  lemma WaitsBounded(pool: seq<string>, minInterval: real, st: State, calls: seq<Call>)
    requires minInterval > 0.0 && Physical(calls) && Paced(minInterval, st)
    ensures var st' := Run(pool, minInterval, st, calls);
      (|st'.waits| - |st.waits|) as real <= (st'.clock - st.clock) / minInterval + 1.0
  {
    var st' := Run(pool, minInterval, st, calls);
    RunKeepsPace(pool, minInterval, st, calls);
    var n := if |st'.waits| > |st.waits| then |st'.waits| - |st.waits| - 1 else 0;
    if |st'.waits| > |st.waits| {
      WaitsSpan(minInterval, st', |st.waits|, n);
    }
    FitsInto(n, st'.clock - st.clock, minInterval);
  }

  /**
   * In a run of any calls that share the limiter, sends are bounded by the time T it takes: at most
   * 2 (T / interval + 1) and two more for each proxy of the pool that is found dead meanwhile.
   */
  lemma SendsBounded(pool: seq<string>, minInterval: real, st: State, calls: seq<Call>)
    requires minInterval > 0.0 && Physical(calls) && Paced(minInterval, st)
    ensures var st' := Run(pool, minInterval, st, calls);
      && |st'.dead - st.dead| <= |PoolSet(pool)|
      && (|st'.sends| - |st.sends|) as real
           <= 2.0 * ((st'.clock - st.clock) / minInterval + 1.0) + 2.0 * |st'.dead - st.dead| as real
  {
    var st' := Run(pool, minInterval, st, calls);
    RunPays(pool, minInterval, st, calls);
    WaitsBounded(pool, minInterval, st, calls);
    SubsetSize(st'.dead - st.dead, PoolSet(pool));
    assert st'.dead == st.dead + (st'.dead - st.dead);
  }

  // ---- what the interval does not promise ----

  /**
   * What is over in less than the interval: an attempt sent at `sent` that took less and, where a wait follows it that
   * has to sleep, a sleep that overran by less than the limiter had been idle.
   */
  predicate Quick(minInterval: real, sent: real, last: real, a: Attempt, waits: bool) {
    a.took < minInterval && (waits && sent + a.took - last < minInterval ==> a.overslept < sent - last)
  }

  /** Where a call stands before its last request, and that request. */
  ghost function BeforeLastSend(pool: seq<string>, minInterval: real, st: State, call: Call): State {
    var proxy := ChosenProxy(pool, st.dead, call);
    if call.first.reply.Responds? then st
    else Recover(minInterval, Send(st, proxy, call.first.took), proxy, call.first)
  }

  function LastAttempt(call: Call): Attempt {
    if call.first.reply.Responds? then call.first else call.second
  }

  /**
   * After a call the next request may follow the call's last one in less than an interval: it may exactly when that one
   * was quick. Waits are counted from the last wait, not from the last request, and a call whose attempts both fail
   * ends without any.
   */
  lemma NextRequestTooEarlyIff(pool: seq<string>, minInterval: real, st: State, call: Call)
    requires minInterval > 0.0 && Physical([call]) && Paced(minInterval, st) && call.allowed
    ensures var st', before, final := Fetch(pool, minInterval, st, call), BeforeLastSend(pool, minInterval, st, call),
                                      LastAttempt(call);
      && |st'.sends| > |st.sends| && st'.sends[|st'.sends| - 1] == before.clock
      && (st'.clock - before.clock < minInterval
          <==> Quick(minInterval, before.clock, before.last, final, final.reply.Responds?))
  {
    assert [call][0] == call;
  }

  /** So two failures may leave no time at all, even right after a wait. */
  lemma FailedCallMayEndAtOnce(pool: seq<string>, minInterval: real, st: State)
    requires minInterval > 0.0 && st.last == st.clock && Paced(minInterval, st)
    ensures var refused := Attempt(OtherFails, 0.0, 0.0);
      var st' := Fetch(pool, minInterval, st, Call(true, false, 0, refused, refused));
      |st'.sends| == |st.sends| + 2 && st'.clock == st'.sends[|st.sends| + 1]
  {
  }

  /**
   * The retry within a call comes less than an interval after the first attempt exactly when that attempt was quick;
   * it is not waited for when a proxy refused the connection.
   */
  lemma RetryTooEarlyIff(pool: seq<string>, minInterval: real, st: State, call: Call)
    requires minInterval > 0.0 && Physical([call]) && Paced(minInterval, st)
    requires call.allowed && !call.first.reply.Responds?
    ensures var st', refused := Fetch(pool, minInterval, st, call),
                                ChosenProxy(pool, st.dead, call).Some? && call.first.reply.ConnectFails?;
      && |st'.sends| == |st.sends| + 2 && st'.sends[|st.sends|] == st.clock
      && (st'.sends[|st.sends| + 1] - st.clock < minInterval
          <==> Quick(minInterval, st.clock, st.last, call.first, !refused))
  {
    assert [call][0] == call;
  }

  /** Three requests in a row that succeed at once always span an interval. */
  lemma ThreeRequestsSpan(pool: seq<string>, minInterval: real, st: State, first: Call, second: Call)
    requires minInterval > 0.0 && Physical([first, second]) && Paced(minInterval, st)
    requires first.allowed && second.allowed && first.first.reply.Responds? && second.first.reply.Responds?
    ensures var st1 := Fetch(pool, minInterval, st, first);
      Fetch(pool, minInterval, st1, second).clock - st.clock >= minInterval
  {
    assert [first, second][0] == first && [first, second][1] == second;
  }

  /** A proxy that refuses the connection is replaced by a direct retry at once, without a wait in between. */
  lemma DirectRetryDoesNotWait(pool: seq<string>, minInterval: real, st: State, call: Call)
    requires call.allowed && call.useProxy && call.first.reply.ConnectFails?
    requires GetProxy(pool, st.dead, call.choice).Some?
    ensures var st' := Fetch(pool, minInterval, st, call);
      && st'.sends == st.sends + [st.clock, st.clock + call.first.took]
      && |st'.waits| == |st.waits| + if call.second.reply.Responds? then 1 else 0
  {
    assert st.sends + [st.clock] + [st.clock + call.first.took] == st.sends + [st.clock, st.clock + call.first.took];
  }

  // ---- the fetcher as it runs ----

  /** The limiter's and the proxy list's state, updated in place; the clock is the outside world's. */
  class Client {
    const minInterval: real
    var pool: seq<string>
    var dead: set<string>
    var last: real
    var clock: real
    ghost var sends: seq<real>
    ghost var waits: seq<real>
    ghost var routes: seq<Option<string>>

    constructor (minInterval: real, clock: real)
      ensures View() == State(clock, 0.0, {}, [], [], []) && pool == [] && this.minInterval == minInterval
    {
      this.minInterval, this.clock := minInterval, clock;
      pool, dead, last, sends, waits, routes := [], {}, 0.0, [], [], [];
    }

    ghost function View(): State
      reads this
    {
      State(clock, last, dead, sends, waits, routes)
    }

    method SendRequest(ghost via: Option<string>, took: real)
      modifies `clock, `sends, `routes
      ensures View() == Send(old(View()), via, took)
      ensures clock == old(clock) + took && sends == old(sends) + [old(clock)] && routes == old(routes) + [via]
    {
      routes := routes + [via];
      sends := sends + [clock];
      clock := clock + took;
    }

    method WaitTurn(overslept: real)
      modifies `clock, `last, `waits
      ensures View() == Wait(minInterval, old(View()), overslept)
      ensures clock == if old(last) + minInterval <= old(clock) then old(clock) else old(last) + minInterval + overslept
      ensures last == clock
    {
      var delta := clock - last;
      if delta < minInterval {
        clock := clock + (minInterval - delta) + overslept;
      }
      last := clock;
      waits := waits + [clock];
    }

    /** The list from the environment is read while the one in memory is empty. */
    method PickProxy(proxyList: seq<string>, choice: nat) returns (proxy: Option<string>)
      modifies `pool
      ensures pool == if old(pool) == [] then proxyList else old(pool)
      ensures proxy == GetProxy(pool, dead, choice)
      ensures proxy.None? <==> forall p :: p in pool ==> p in dead
    {
      if pool == [] {
        pool := proxyList;
      }
      var alive: seq<string> := [];
      for i := 0 to |pool|
        invariant alive == Alive(pool[..i], dead)
      {
        assert pool[..i + 1][..i] == pool[..i];
        if pool[i] !in dead {
          alive := alive + [pool[i]];
        }
      }
      assert pool[..|pool|] == pool;
      LiveProxyIsUsed(pool, dead);
      if alive == [] {
        return None;
      }
      proxy := Some(alive[choice % |alive|]);
    }

    method FetchUrl(call: Call, proxyList: seq<string>) returns (ok: bool)
      modifies this
      ensures pool == if call.allowed && call.useProxy && old(pool) == [] then proxyList else old(pool)
      ensures View() == Fetch(pool, minInterval, old(View()), call)
      ensures ok <==> call.allowed && (call.first.reply.Responds? || call.second.reply.Responds?)
    {
      if !call.allowed {
        return false;
      }
      var proxy: Option<string> := None;
      if call.useProxy {
        proxy := PickProxy(proxyList, call.choice);
      }
      ghost var start, chosen := View(), proxy;
      label Chosen:
      ok := false;
      for attempt := 0 to 2
        invariant attempt == 0 ==> View() == start && proxy == chosen
        invariant attempt == 1 ==> !call.first.reply.Responds?
        invariant attempt == 1 ==>
          View() == Recover(minInterval, Send(start, chosen, call.first.took), chosen, call.first)
        invariant attempt == 1 ==> proxy == if call.first.reply.ConnectFails? then None else chosen
        invariant attempt == 2 ==> !call.first.reply.Responds? && !call.second.reply.Responds?
        invariant attempt == 2 ==> View() == Fetch(pool, minInterval, start, call)
        invariant pool == old@Chosen(pool)
      {
        var a := if attempt == 0 then call.first else call.second;
        SendRequest(proxy, a.took);
        if a.reply.Responds? {
          ok := true;
          break;
        }
        if proxy.Some? && a.reply.ConnectFails? {
          dead := dead + {proxy.value};
          proxy := None;
        } else if attempt == 0 {
          WaitTurn(a.overslept);
        }
      }
      if !ok {
        return;
      }
      WaitTurn(if call.first.reply.Responds? then call.first.overslept else call.second.overslept);
    }
  }
}

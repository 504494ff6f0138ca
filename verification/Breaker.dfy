/** The circuit breaker that each proxy has (crawler/middleware/proxy_middleware.py). */
module Breaker {
  import opened Options

  const WINDOW_SECONDS: real := 300.0
  const COOLDOWN_SECONDS: real := 300.0
  const FAIL_THRESHOLD: nat := 3

  datatype Breaker = Breaker(windowStart: real, failCount: nat, cooldownUntil: real)

  predicate IsOpen(b: Option<Breaker>, now: real) {
    b.Some? && b.value.cooldownUntil > now
  }

  function AfterFailure(b: Option<Breaker>, now: real): Breaker {
    if b.None? then Breaker(now, 1, 0.0)
    else if now - b.value.windowStart > WINDOW_SECONDS then b.value.(windowStart := now, failCount := 1)
    else
      var counted := b.value.(failCount := b.value.failCount + 1);
      if counted.failCount >= FAIL_THRESHOLD && counted.cooldownUntil <= now
      then counted.(cooldownUntil := now + COOLDOWN_SECONDS)
      else counted
  }

  function AfterSuccess(b: Option<Breaker>, now: real): Option<Breaker> {
    if b.None? then None else Some(b.value.(failCount := 0, windowStart := now))
  }

  // ---- one proxy over time ----

  datatype Event = Failure(at: real) | Success(at: real)

  function Apply(b: Option<Breaker>, e: Event): Option<Breaker> {
    match e
    case Failure(at) => Some(AfterFailure(b, at))
    case Success(at) => AfterSuccess(b, at)
  }

  function After(b: Option<Breaker>, trace: seq<Event>): Option<Breaker> {
    if trace == [] then b else Apply(After(b, trace[..|trace| - 1]), trace[|trace| - 1])
  }

  /** Non-negative, non-decreasing times, as a monotonic clock gives them. */
  ghost predicate Timely(trace: seq<Event>) {
    && (forall i :: 0 <= i < |trace| ==> 0.0 <= trace[i].at)
    && forall i, j :: 0 <= i <= j < |trace| ==> trace[i].at <= trace[j].at
  }

  /** The failure at time `now` starts a cooldown. */
  ghost predicate Opens(b: Option<Breaker>, now: real) {
    !IsOpen(b, now) && IsOpen(Some(AfterFailure(b, now)), now)
  }

  /** The breaker is open after one of the failures at the given times, no success coming between them. */
  ghost predicate OpenAfterOneOf(b: Option<Breaker>, times: seq<real>)
    decreases |times|
  {
    && times != []
    && var next := Some(AfterFailure(b, times[0]));
       IsOpen(next, times[0]) || OpenAfterOneOf(next, times[1..])
  }

  /** Non-decreasing times from 0 on, all within one closed window. */
  ghost predicate WithinWindow(times: seq<real>) {
    && times != [] && 0.0 <= times[0]
    && (forall i, j :: 0 <= i <= j < |times| ==> times[i] <= times[j])
    && times[|times| - 1] - times[0] <= WINDOW_SECONDS
  }

  // ---- how many failures in a window open the breaker ----

  /** The counting window of b ends between the times s and t. */
  ghost predicate EndsBetween(b: Breaker, s: real, t: real) {
    s - b.windowStart <= WINDOW_SECONDS < t - b.windowStart
  }

  /** The breaker is closed, and its counting window ends among the three failures too early for the count so far. */
  ghost predicate SplitByWindow(b: Option<Breaker>, times: seq<real>)
    requires |times| == 3
  {
    && b.Some? && !IsOpen(b, times[0])
    && ((EndsBetween(b.value, times[0], times[1]) && b.value.failCount <= 1)
        || (EndsBetween(b.value, times[1], times[2]) && b.value.failCount == 0))
  }

  /** Three failures within a window open the breaker, as documented, exactly when they are not split by its window. */
  lemma ThreeFailuresOpenIff(b: Option<Breaker>, times: seq<real>)
    requires |times| == 3 && WithinWindow(times)
    ensures OpenAfterOneOf(b, times) <==> !SplitByWindow(b, times)
  {
    var b1 := Some(AfterFailure(b, times[0]));
    var b2 := Some(AfterFailure(b1, times[1]));
    assert times[1..] == [times[1], times[2]] && times[1..][1..] == [times[2]] && [times[2]][1..] == [];
    assert OpenAfterOneOf(b2, [times[2]]) <==> IsOpen(Some(AfterFailure(b2, times[2])), times[2]);
    assert OpenAfterOneOf(b1, times[1..]) <==> IsOpen(b2, times[1]) || OpenAfterOneOf(b2, [times[2]]);
  }

  /** The breaker is closed with no failure counted, and its counting window ends between the second and the third. */
  ghost predicate HalvedByWindow(b: Option<Breaker>, times: seq<real>)
    requires |times| == 4
  {
    b.Some? && !IsOpen(b, times[0]) && b.value.failCount == 0 && EndsBetween(b.value, times[1], times[2])
  }

  /** Four failures fail to open it in that one case only. */
  lemma FourFailuresOpenIff(b: Option<Breaker>, times: seq<real>)
    requires |times| == 4 && WithinWindow(times)
    ensures OpenAfterOneOf(b, times) <==> !HalvedByWindow(b, times)
  {
    ThreeFailuresOpenIff(Some(AfterFailure(b, times[0])), times[1..]);
  }

  /** Five failures within a window always open it, whatever went before. */
  lemma FiveFailuresOpen(b: Option<Breaker>, times: seq<real>)
    requires |times| == 5 && WithinWindow(times)
    ensures OpenAfterOneOf(b, times)
  {
    FourFailuresOpenIff(Some(AfterFailure(b, times[0])), times[1..]);
  }

  /** A failure, a success, and then four failures within four seconds that do not open the breaker. */
  lemma FourFailuresMayNotOpen()
    ensures var trace, times := [Failure(0.0), Success(0.0)], [299.0, 300.0, 301.0, 302.0];
      Timely(trace) && WithinWindow(times) && !OpenAfterOneOf(After(None, trace), times)
  {
    var trace, times := [Failure(0.0), Success(0.0)], [299.0, 300.0, 301.0, 302.0];
    assert trace[..1] == [Failure(0.0)] && trace[..1][..0] == [];
    assert After(None, trace[..1]) == Some(Breaker(0.0, 1, 0.0));
    assert After(None, trace) == Some(Breaker(0.0, 0, 0.0));
    FourFailuresOpenIff(After(None, trace), times);
  }

  /** A success restarts the counting: three failures within a window from it on always open the breaker. */
  lemma SuccessRestartsWindow(trace: seq<Event>, s: real, times: seq<real>)
    requires Timely(trace + [Success(s)]) && |times| == 3 && WithinWindow(times)
    requires s <= times[0] && times[2] - s <= WINDOW_SECONDS
    ensures OpenAfterOneOf(After(None, trace + [Success(s)]), times)
  {
    assert (trace + [Success(s)])[..|trace|] == trace;
    ThreeFailuresOpenIff(After(None, trace + [Success(s)]), times);
  }

  /** Successes before any failure leave no trace: the first three failures within a window open the breaker. */
  lemma {:induction false} FirstFailuresOpen(trace: seq<Event>, times: seq<real>)
    requires forall e :: e in trace ==> e.Success?
    requires |times| == 3 && WithinWindow(times)
    ensures After(None, trace) == None && OpenAfterOneOf(After(None, trace), times)
  {
    if trace != [] {
      assert trace[|trace| - 1] in trace;
      FirstFailuresOpen(trace[..|trace| - 1], times);
    }
    ThreeFailuresOpenIff(None, times);
  }

  /** Two failures after a success, or without anything before them, do not open it. */
  lemma TwoFailuresDoNotOpen(trace: seq<Event>, s: real, t1: real, t2: real)
    requires !IsOpen(After(None, trace), s) && 0.0 <= s <= t1 <= t2
    ensures !OpenAfterOneOf(After(None, trace + [Success(s)]), [t1, t2]) && !OpenAfterOneOf(None, [t1, t2])
  {
    assert (trace + [Success(s)])[..|trace|] == trace;
    TwoFailures(After(None, trace + [Success(s)]), t1, t2);
    TwoFailures(None, t1, t2);
  }

  lemma TwoFailures(b: Option<Breaker>, t1: real, t2: real)
    requires 0.0 <= t1 <= t2 && (b.Some? ==> !IsOpen(b, t1) && b.value.failCount == 0)
    ensures !OpenAfterOneOf(b, [t1, t2])
  {
    var b1 := Some(AfterFailure(b, t1));
    assert [t1, t2][1..] == [t2] && [t2][1..] == [];
    assert OpenAfterOneOf(b1, [t2]) <==> IsOpen(Some(AfterFailure(b1, t2)), t2);
    assert OpenAfterOneOf(b, [t1, t2]) <==> IsOpen(b1, t1) || OpenAfterOneOf(b1, [t2]);
  }

  /**
   * A cooldown lasts from its opening for 300 seconds to the instant, whatever is recorded meanwhile: further failures
   * do not prolong it and successes do not end it.
   */
  lemma {:induction false} CooldownLastsExactly(trace: seq<Event>, now: real, later: seq<Event>, at: real)
    requires Timely(trace + [Failure(now)] + later) && Opens(After(None, trace), now)
    requires forall e :: e in later ==> e.at < now + 300.0
    ensures After(None, trace + [Failure(now)] + later).Some?
    ensures After(None, trace + [Failure(now)] + later).value.cooldownUntil == now + 300.0
    ensures IsOpen(After(None, trace + [Failure(now)] + later), at) <==> at < now + 300.0
  {
    var all := trace + [Failure(now)] + later;
    if later == [] {
      assert all[..|all| - 1] == trace && all[|all| - 1] == Failure(now);
    } else {
      var init, last := later[..|later| - 1], later[|later| - 1];
      assert last in later;
      assert all[..|all| - 1] == trace + [Failure(now)] + init && all[|all| - 1] == last;
      CooldownLastsExactly(trace, now, init, last.at);
    }
  }

  // ---- what an opening tells about the past ----

  /** The last n events are failures, none before `since`. */
  ghost predicate EndsInFailures(trace: seq<Event>, n: nat, since: real) {
    n <= |trace| && forall i :: |trace| - n <= i < |trace| ==> trace[i].Failure? && trace[i].at >= since
  }

  /** The count is that of the latest failures in a row since the window began. */
  lemma {:induction false} CountIsOfLatestFailures(trace: seq<Event>)
    requires Timely(trace)
    ensures var b := After(None, trace);
      b.Some? ==>
        && EndsInFailures(trace, b.value.failCount, b.value.windowStart)
        && (trace != [] ==> b.value.windowStart <= trace[|trace| - 1].at)
  {
    if trace != [] {
      CountIsOfLatestFailures(trace[..|trace| - 1]);
    }
  }

  /** No opening without three failures in a row, all within the window that ends with the last of them. */
  lemma OpeningHasCause(trace: seq<Event>, now: real)
    requires Timely(trace + [Failure(now)]) && Opens(After(None, trace), now)
    ensures EndsInFailures(trace + [Failure(now)], FAIL_THRESHOLD, now - WINDOW_SECONDS)
    ensures AfterFailure(After(None, trace), now).cooldownUntil == now + COOLDOWN_SECONDS
  {
    var all := trace + [Failure(now)];
    assert forall i :: 0 <= i < |trace| ==> all[i] == trace[i];
    assert all[|trace|] == Failure(now);
    CountIsOfLatestFailures(trace);
  }

  /** After an opening the cooldown stays, and counting has either gone on in the old window or begun anew. */
  lemma {:induction false} AfterOpening(trace: seq<Event>, now: real, later: seq<Event>)
    requires Timely(trace + [Failure(now)] + later) && Opens(After(None, trace), now)
    ensures var b0, b := After(None, trace), After(None, trace + [Failure(now)] + later);
      && b0.Some? && b.Some? && b.value.cooldownUntil >= now + COOLDOWN_SECONDS
      && (b.value.windowStart == b0.value.windowStart || EndsInFailures(later, b.value.failCount, now))
  {
    var all := trace + [Failure(now)] + later;
    assert all[|trace|] == Failure(now);
    if later == [] {
      assert all[..|all| - 1] == trace;
    } else {
      var init := later[..|later| - 1];
      assert all[..|all| - 1] == trace + [Failure(now)] + init;
      assert all[|all| - 1] == later[|later| - 1];
      AfterOpening(trace, now, init);
    }
  }

  /**
   * Two openings of one proxy are at least a cooldown apart, and the second rests on three fresh failures, recorded in
   * a row after the first - except when the first failures all came at one instant and the second opening comes
   * exactly one cooldown after it.
   */
  lemma ReopeningNeedsFreshFailures(trace: seq<Event>, now: real, later: seq<Event>, again: real)
    requires Timely(trace + [Failure(now)] + later + [Failure(again)])
    requires Opens(After(None, trace), now) && Opens(After(None, trace + [Failure(now)] + later), again)
    ensures again - now >= COOLDOWN_SECONDS
    ensures EndsInFailures(later + [Failure(again)], FAIL_THRESHOLD, now)
         || (again == now + COOLDOWN_SECONDS && After(None, trace).Some? && After(None, trace).value.windowStart == now)
  {
    var before := trace + [Failure(now)] + later;
    var all := before + [Failure(again)];
    assert forall i :: 0 <= i < |before| ==> all[i] == before[i];
    assert forall i :: 0 <= i < |trace| ==> all[i] == trace[i];
    assert all[|trace|] == Failure(now) && all[|before|] == Failure(again);
    AfterOpening(trace, now, later);
    CountIsOfLatestFailures(trace);
  }

  /** On a clock that never stands still the exception cannot arise. */
  lemma ReopeningOnStrictClock(trace: seq<Event>, now: real, later: seq<Event>, again: real)
    requires Timely(trace + [Failure(now)] + later + [Failure(again)])
    requires forall e :: e in trace ==> e.at < now
    requires Opens(After(None, trace), now) && Opens(After(None, trace + [Failure(now)] + later), again)
    ensures again - now >= COOLDOWN_SECONDS
    ensures EndsInFailures(later + [Failure(again)], FAIL_THRESHOLD, now)
  {
    var all := trace + [Failure(now)] + later + [Failure(again)];
    assert forall i :: 0 <= i < |trace| ==> all[i] == trace[i];
    CountIsOfLatestFailures(trace);
    ReopeningNeedsFreshFailures(trace, now, later, again);
  }

  /** The event at `again` is a second opening that does not rest on three fresh failures. */
  ghost predicate ReopensEarly(trace: seq<Event>, now: real, later: seq<Event>, again: real) {
    && Timely(trace + [Failure(now)] + later + [Failure(again)])
    && Opens(After(None, trace + [Failure(now)] + later), again)
    && !EndsInFailures(later + [Failure(again)], FAIL_THRESHOLD, now)
  }

  /** The exception is open to a breaker exactly when its counting window began at the instant of the first opening. */
  lemma ReopensEarlyIff(trace: seq<Event>, now: real)
    requires Timely(trace + [Failure(now)]) && Opens(After(None, trace), now)
    ensures (exists later, again :: ReopensEarly(trace, now, later, again))
       <==> After(None, trace).Some? && After(None, trace).value.windowStart == now
  {
    if later, again :| ReopensEarly(trace, now, later, again) {
      ReopeningNeedsFreshFailures(trace, now, later, again);
    }
    if After(None, trace).Some? && After(None, trace).value.windowStart == now {
      OneFailureReopens(trace, now);
    }
  }

  /** It takes a single failure, one cooldown later. */
  lemma OneFailureReopens(trace: seq<Event>, now: real)
    requires Timely(trace + [Failure(now)]) && Opens(After(None, trace), now)
    requires After(None, trace).Some? && After(None, trace).value.windowStart == now
    ensures ReopensEarly(trace, now, [], now + COOLDOWN_SECONDS)
  {
    var atOpening, again := trace + [Failure(now)], now + COOLDOWN_SECONDS;
    assert atOpening + [] == atOpening && atOpening[..|trace|] == trace && atOpening[|trace|] == Failure(now);
    var all := atOpening + [] + [Failure(again)];
    assert forall i :: 0 <= i < |atOpening| ==> all[i] == atOpening[i];
    assert all[|atOpening|] == Failure(again);
  }

  /** The exception is real: three failures at time 0, and the next failure after them opens the breaker again. */
  lemma ReopeningAfterOneFailure()
    ensures var trace := [Failure(0.0), Failure(0.0)];
      && Timely(trace + [Failure(0.0)] + [] + [Failure(300.0)])
      && Opens(After(None, trace), 0.0) && Opens(After(None, trace + [Failure(0.0)] + []), 300.0)
      && ReopensEarly(trace, 0.0, [], 300.0)
  {
    var trace := [Failure(0.0), Failure(0.0)];
    assert trace[..1] == [Failure(0.0)] && trace[..1][..0] == [];
    assert After(None, trace[..1]) == Some(Breaker(0.0, 1, 0.0));
    assert After(None, trace) == Some(Breaker(0.0, 2, 0.0));
    assert (trace + [Failure(0.0)])[2] == Failure(0.0);
    OneFailureReopens(trace, 0.0);
  }
}

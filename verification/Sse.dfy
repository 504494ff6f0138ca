/** Accounting of open event-stream connections (backend/app/dependencies.py). */
module Sse {

  const MAX_PER_IP: nat := 25
  const MAX_GLOBAL: nat := 500

  type Ip = string

  datatype Event = Connect(ip: Ip) | Disconnect(ip: Ip)

  /** The two counters, and, for the specification, the connections they stand for. */
  datatype Counts = Counts(perIp: map<Ip, nat>, total: nat)

  function Of(perIp: map<Ip, nat>, ip: Ip): nat {
    if ip in perIp then perIp[ip] else 0
  }

  predicate Admits(c: Counts, ip: Ip) {
    c.total < MAX_GLOBAL && Of(c.perIp, ip) < MAX_PER_IP
  }

  function Apply(c: Counts, e: Event): Counts {
    match e
    case Connect(ip) =>
      if Admits(c, ip) then Counts(c.perIp[ip := Of(c.perIp, ip) + 1], c.total + 1) else c
    case Disconnect(ip) =>
      var n := Of(c.perIp, ip);
      Counts(if n == 0 then c.perIp else if n == 1 then c.perIp - {ip} else c.perIp[ip := n - 1],
             if c.total > 0 then c.total - 1 else 0)
  }

  function Run(events: seq<Event>): Counts {
    if events == [] then Counts(map[], 0) else Apply(Run(events[..|events| - 1]), events[|events| - 1])
  }

  /** The connections that are open: those admitted and not yet closed. */
  function Open(events: seq<Event>): multiset<Ip> {
    if events == [] then multiset{}
    else
      var init := events[..|events| - 1];
      OpenAfter(Run(init), Open(init), events[|events| - 1])
  }

  function OpenAfter(c: Counts, open: multiset<Ip>, e: Event): multiset<Ip> {
    match e
    case Connect(ip) => if Admits(c, ip) then open + multiset{ip} else open
    case Disconnect(ip) => open - multiset{ip}
  }

  /** Disconnects of clients without an open connection. */
  function Strays(events: seq<Event>): nat {
    if events == [] then 0
    else
      var last := events[|events| - 1];
      Strays(events[..|events| - 1])
        + if last.Disconnect? && last.ip !in Open(events[..|events| - 1]) then 1 else 0
  }

  ghost predicate PerIpAgrees(perIp: map<Ip, nat>, open: multiset<Ip>) {
    && (forall ip: Ip :: Of(perIp, ip) == open[ip])
    && (forall ip: Ip :: ip in perIp ==> 1 <= Of(perIp, ip) <= MAX_PER_IP)
  }

  /** The map holds exactly the open connections of each client, at least 1 and at most 25, never a zero. */
  lemma {:induction false} PerIpIsOpen(events: seq<Event>)
    ensures PerIpAgrees(Run(events).perIp, Open(events))
  {
    if events != [] {
      var init := events[..|events| - 1];
      PerIpIsOpen(init);
      PerIpAfter(Run(init), Open(init), events[|events| - 1]);
    }
  }

  lemma PerIpAfter(c: Counts, open: multiset<Ip>, e: Event)
    requires PerIpAgrees(c.perIp, open)
    ensures PerIpAgrees(Apply(c, e).perIp, OpenAfter(c, open, e))
  {
    var after, open' := Apply(c, e).perIp, OpenAfter(c, open, e);
    forall ip: Ip
      ensures Of(after, ip) == open'[ip]
      ensures ip in after ==> 1 <= Of(after, ip) <= MAX_PER_IP
    {
      assert Of(c.perIp, ip) == open[ip];
    }
  }

  lemma TotalAfter(c: Counts, open: multiset<Ip>, e: Event, strays: nat)
    requires c.total <= MAX_GLOBAL && c.total <= |open| <= c.total + strays
    ensures var total, open' := Apply(c, e).total, OpenAfter(c, open, e);
      total <= MAX_GLOBAL
      && total <= |open'| <= total + strays + if e.Disconnect? && e.ip !in open then 1 else 0
  {
    if e.Disconnect? {
      if e.ip in open {
        assert open == (open - multiset{e.ip}) + multiset{e.ip};
      } else {
        assert open - multiset{e.ip} == open;
      }
    }
  }

  /**
   * The global count never exceeds 500 nor the number of open connections, and falls short of that number by at most
   * one for each stray disconnect - so without strays the two agree.
   */
  lemma {:induction false} TotalIsOpen(events: seq<Event>)
    ensures var c, open := Run(events), |Open(events)|;
      c.total <= MAX_GLOBAL && c.total <= open <= c.total + Strays(events)
  {
    if events != [] {
      var init := events[..|events| - 1];
      TotalIsOpen(init);
      TotalAfter(Run(init), Open(init), events[|events| - 1], Strays(init));
    }
  }

  /** Disconnects that make the two counts drift apart: of no open connection, at a positive global count. */
  function Missed(events: seq<Event>): nat {
    if events == [] then 0
    else
      var init, last := events[..|events| - 1], events[|events| - 1];
      Missed(init) + if last.Disconnect? && last.ip !in Open(init) && Run(init).total > 0 then 1 else 0
  }

  /** And those that bring them together again: of an open connection, at global count 0. */
  function Recovered(events: seq<Event>): nat {
    if events == [] then 0
    else
      var init, last := events[..|events| - 1], events[|events| - 1];
      Recovered(init) + if last.Disconnect? && last.ip in Open(init) && Run(init).total == 0 then 1 else 0
  }

  /** The open connections that the global count misses; so the two agree exactly when these are equally many. */
  lemma {:induction false} TotalMisses(events: seq<Event>)
    ensures |Open(events)| == Run(events).total + Missed(events) - Recovered(events)
  {
    if events != [] {
      var init := events[..|events| - 1];
      TotalMisses(init);
      OpenCount(Run(init), Open(init), events[|events| - 1]);
    }
  }

  lemma OpenCount(c: Counts, open: multiset<Ip>, e: Event)
    ensures |OpenAfter(c, open, e)| == match e
      case Connect(ip) => if Admits(c, ip) then |open| + 1 else |open|
      case Disconnect(ip) => if ip in open then |open| - 1 else |open|
  {
    if e.Disconnect? {
      if e.ip in open {
        assert open == (open - multiset{e.ip}) + multiset{e.ip};
      } else {
        assert open - multiset{e.ip} == open;
      }
    }
  }

  /** Each stray disconnect weakens the limit by one place at most. */
  lemma OpenConnectionsBounded(events: seq<Event>)
    ensures |Open(events)| <= MAX_GLOBAL + Strays(events)
  {
    TotalIsOpen(events);
  }

  /** A disconnect without an open connection closes none, and still lowers the global count unless that is 0. */
  lemma StrayIsMissed(events: seq<Event>, ip: Ip)
    requires ip !in Open(events)
    ensures var c, after := Run(events), events + [Disconnect(ip)];
      && Open(after) == Open(events) && Run(after).perIp == c.perIp
      && Run(after).total == (if c.total > 0 then c.total - 1 else 0)
      && Strays(after) == Strays(events) + 1
  {
    var after := events + [Disconnect(ip)];
    assert after[..|events|] == events;
    PerIpIsOpen(events);
    assert Of(Run(events).perIp, ip) == 0;
  }

  /** So the global count can miss an open connection. */
  lemma MissedConnectionExists(a: Ip, b: Ip)
    requires a != b
    ensures var events := [Connect(a), Disconnect(b)];
      Run(events).total == 0 && Open(events) == multiset{a}
  {
    var connected := [Connect(a)];
    assert connected[..0] == [];
    assert Run(connected) == Counts(map[a := 1], 1) && Open(connected) == multiset{a};
    StrayIsMissed(connected, b);
    assert connected + [Disconnect(b)] == [Connect(a), Disconnect(b)];
  }

  /** A client is admitted while fewer than 25 of its connections are open and the global count is below 500. */
  lemma AdmittedIff(events: seq<Event>, ip: Ip)
    ensures Open(events + [Connect(ip)]) == Open(events) + multiset{ip}
       <==> Run(events).total < 500 && Open(events)[ip] < 25
    ensures Open(events + [Connect(ip)]) == Open(events) + multiset{ip} || Open(events + [Connect(ip)]) == Open(events)
  {
    assert (events + [Connect(ip)])[..|events|] == events;
    PerIpIsOpen(events);
    assert Of(Run(events).perIp, ip) == Open(events)[ip];
    assert (Open(events) + multiset{ip})[ip] == Open(events)[ip] + 1;
  }

  class Connections {
    var perIp: map<Ip, nat>
    var total: nat
    ghost var events: seq<Event>

    ghost predicate Valid()
      reads this
    {
      Counts(perIp, total) == Run(events)
    }

    constructor ()
      ensures Valid() && events == []
    {
      perIp, total, events := map[], 0, [];
    }

    method Connect(ip: Ip) returns (admitted: bool)
      requires Valid()
      modifies this
      ensures Valid() && events == old(events) + [Event.Connect(ip)]
      ensures admitted <==> Open(events) == Open(old(events)) + multiset{ip}
      ensures admitted <==> old(total) < 500 && (ip in old(perIp) ==> old(perIp)[ip] < 25)
      ensures total == old(total) + if admitted then 1 else 0
      ensures perIp == if admitted then old(perIp)[ip := (if ip in old(perIp) then old(perIp)[ip] else 0) + 1]
                       else old(perIp)
    {
      assert (events + [Event.Connect(ip)])[..|events|] == events;
      events := events + [Event.Connect(ip)];
      if total >= MAX_GLOBAL {
        return false;
      }
      if Of(perIp, ip) >= MAX_PER_IP {
        return false;
      }
      perIp := perIp[ip := Of(perIp, ip) + 1];
      total := total + 1;
      admitted := true;
    }

    method Disconnect(ip: Ip)
      requires Valid()
      modifies this
      ensures Valid() && events == old(events) + [Event.Disconnect(ip)]
      ensures total == if old(total) > 0 then old(total) - 1 else 0
      ensures forall k :: k in perIp <==> k in old(perIp) && (k == ip ==> old(perIp)[k] != 1)
      ensures forall k :: k in perIp ==>
        perIp[k] == if k == ip && old(perIp)[k] > 0 then old(perIp)[k] - 1 else old(perIp)[k]
    {
      assert (events + [Event.Disconnect(ip)])[..|events|] == events;
      events := events + [Event.Disconnect(ip)];
      if Of(perIp, ip) > 0 {
        perIp := perIp[ip := perIp[ip] - 1];
        if perIp[ip] == 0 {
          assert perIp - {ip} == Run(old(events)).perIp - {ip};
          perIp := perIp - {ip};
        }
      }
      if total > 0 {
        total := total - 1;
      }
    }
  }
}

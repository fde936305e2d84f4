/**
 The bounded forwarding engine of one router, and the journeys of an envelope
 through many routers.
 */
module Forwarding {
  import opened Options
  import opened Routing

  const MAX_ROUTE_BODY_BYTES: nat := 1024 * 1024

  type U8 = x: int | 0 <= x <= 255

  datatype Envelope = Envelope(request: nat, source: NodeId, destination: NodeId, deadline: int, hops: U8, payload: seq<char>)

  datatype DropReason = Expired | Duplicate | HopLimitExhausted | Backpressure | PayloadTooLarge | NoRoute

  datatype Decision =
    | Deliver(envelope: Envelope)
    | Forward(nextHop: NodeId, envelope: Envelope)
    | Drop(reason: DropReason)

  datatype RouterState = RouterState(
    local: NodeId,
    links: Links,
    seen: seq<nat>,
    seenCapacity: nat,
    inflight: nat,
    maxInflight: nat
  )

  /** The newest `n` elements. */
  function Newest(s: seq<nat>, n: nat): seq<nat> { if |s| > n then s[|s| - n..] else s }

  /** `handle`, given the answer of `next_hop` in case it is asked. */
  function Decide(s: RouterState, e: Envelope, now: int, hop: Option<NodeId>): (RouterState, Decision) {
    if e.deadline <= now then (s, Drop(Expired))
    else if e.request in s.seen then (s, Drop(Duplicate))
    else
      var t := s.(seen := Newest(s.seen + [e.request], s.seenCapacity));
      if e.destination == s.local then (t, Deliver(e))
      else if e.hops == 0 then (t, Drop(HopLimitExhausted))
      else if |e.payload| > MAX_ROUTE_BODY_BYTES then (t, Drop(PayloadTooLarge))
      else if s.inflight >= s.maxInflight then (t, Drop(Backpressure))
      else if hop.None? then (t, Drop(NoRoute))
      else (t.(inflight := s.inflight + 1), Forward(hop.value, e.(hops := e.hops - 1)))
  }

  /** The window and the set beside it hold the same requests, none twice. */
  ghost predicate Mirrors(seen: seq<nat>, seenSet: set<nat>) {
    (forall x :: x in seenSet <==> x in seen) && forall i, j :: 0 <= i < j < |seen| ==> seen[i] != seen[j]
  }

  lemma PushMirrors(seen: seq<nat>, seenSet: set<nat>, request: nat)
    requires Mirrors(seen, seenSet) && request !in seenSet
    ensures Mirrors(seen + [request], seenSet + {request})
  {
  }

  lemma DropMirrors(seen: seq<nat>, seenSet: set<nat>)
    requires Mirrors(seen, seenSet) && seen != []
    ensures Mirrors(seen[1..], seenSet - {seen[0]})
  {
    assert seen == [seen[0]] + seen[1..];
  }

  /** `Router`, updated in place. */
  class Router {
    const local: NodeId
    var links: Links
    var seen: seq<nat>
    var seenSet: set<nat>
    const seenCapacity: nat
    var inflight: nat
    const maxInflight: nat

    /** The deduplication window: the set mirrors the queue, which holds each id once. */
    ghost predicate Valid() reads this {
      Mirrors(seen, seenSet) && |seen| <= seenCapacity
    }

    ghost function S(): RouterState reads this {
      RouterState(local, links, seen, seenCapacity, inflight, maxInflight)
    }

    constructor (local: NodeId, seenCapacity: nat, maxInflight: nat)
      ensures Valid() && S() == RouterState(local, map[], [], seenCapacity, 0, maxInflight)
    {
      this.local, this.seenCapacity, this.maxInflight := local, seenCapacity, maxInflight;
      links, seen, seenSet, inflight := map[], [], {}, 0;
    }

    /** Remember a request id; false when it is already in the window. */
    method MarkSeen(request: nat) returns (isNew: bool)
      requires Valid()
      modifies `seen, `seenSet
      ensures Valid()
      ensures isNew == (request !in old(seen))
      ensures seen == if isNew then Newest(old(seen) + [request], seenCapacity) else old(seen)
    {
      if request in seenSet { return false; }
      PushMirrors(seen, seenSet, request);
      seenSet := seenSet + {request};
      seen := seen + [request];
      ghost var all := seen;
      while |seen| > seenCapacity
        invariant |seen| <= |all| && seen == all[|all| - |seen|..]
        invariant |all| == old(|seen|) + 1 && (|seen| >= seenCapacity || seen == all)
        invariant Mirrors(seen, seenSet)
        decreases |seen|
      {
        var oldest := seen[0];
        DropMirrors(seen, seenSet);
        seen := seen[1..];
        seenSet := seenSet - {oldest};
      }
      isNew := true;
    }

    method CompleteForward()
      requires Valid()
      modifies `inflight
      ensures Valid() && S() == old(S()).(inflight := if old(inflight) == 0 then 0 else old(inflight) - 1)
    {
      inflight := if inflight == 0 then 0 else inflight - 1;
    }

    method Handle(e: Envelope, now: int) returns (decision: Decision, ghost hop: Option<NodeId>)
      requires Valid()
      modifies this
      ensures Valid()
      ensures IsNextHop(links, local, e.destination, hop)
      ensures (S(), decision) == Decide(old(S()), e, now, hop)
    {
      hop := NextHopExists(links, local, e.destination);
      if e.deadline <= now { return Drop(Expired), hop; }
      var isNew := MarkSeen(e.request);
      if !isNew { return Drop(Duplicate), hop; }
      if e.destination == local { return Deliver(e), hop; }
      if e.hops == 0 { return Drop(HopLimitExhausted), hop; }
      if |e.payload| > MAX_ROUTE_BODY_BYTES { return Drop(PayloadTooLarge), hop; }
      if inflight >= maxInflight { return Drop(Backpressure), hop; }
      var next := NextHop(links, local, e.destination);
      hop := next;
      if next.None? { return Drop(NoRoute), hop; }
      inflight := inflight + 1;
      decision := Forward(next.value, e.(hops := e.hops - 1));
    }
  }

  /** Some answer always meets the contract of `next_hop`. */
  lemma NextHopExists(db: Links, local: NodeId, dest: NodeId) returns (hop: Option<NodeId>)
    ensures IsNextHop(db, local, dest, hop)
  {
    if local == dest { return Some(dest); }
    if Reachable(db, local, dest) {
      var p := ShortestExists(db, local, dest);
      assert |p| >= 2;
      hop := Some(p[1]);
    } else {
      hop := None;
    }
  }

  lemma {:induction false} ShorterThan(db: Links, a: NodeId, b: NodeId, p: seq<NodeId>) returns (q: seq<NodeId>)
    requires PathFromTo(db, a, b, p)
    ensures ShortestPath(db, a, b, q)
    decreases |p|
  {
    if r :| PathFromTo(db, a, b, r) && |r| < |p| {
      q := ShorterThan(db, a, b, r);
    } else {
      q := p;
    }
  }

  lemma ShortestExists(db: Links, a: NodeId, b: NodeId) returns (q: seq<NodeId>)
    requires Reachable(db, a, b)
    ensures ShortestPath(db, a, b, q)
  {
    var p :| PathFromTo(db, a, b, p);
    q := ShorterThan(db, a, b, p);
  }

  // ----- distances -----

  ghost predicate Dist(db: Links, a: NodeId, b: NodeId, n: nat) {
    exists p :: ShortestPath(db, a, b, p) && |p| - 1 == n
  }

  lemma DistZero(db: Links, a: NodeId, b: NodeId, n: nat)
    requires Dist(db, a, b, n)
    ensures n == 0 <==> a == b
  {
    assert a == b ==> PathFromTo(db, a, b, [a]);
  }

  /** Each hop of `next_hop` is exactly one closer to the destination. */
  lemma HopIsCloser(db: Links, a: NodeId, b: NodeId, n: nat, hop: Option<NodeId>)
    requires Dist(db, a, b, n) && a != b && IsNextHop(db, a, b, hop)
    ensures hop.Some? && n >= 1 && Dist(db, hop.value, b, n - 1)
  {
    var w :| ShortestPath(db, a, b, w) && |w| - 1 == n;
    assert PathFromTo(db, a, b, w);
    var p :| ShortestPath(db, a, b, p) && |p| >= 2 && p[1] == hop.value;
    assert |p| == |w|;
    var q := p[1..];
    assert PathFromTo(db, hop.value, b, q) by {
      assert forall i :: 0 <= i < |q| ==> q[i] == p[i + 1];
    }
    forall r | PathFromTo(db, hop.value, b, r) ensures |r| - 1 >= n - 1 {
      assert p[1] in Edges(db, p[0]);
      Prepend(db, a, r);
      assert PathFromTo(db, a, b, [a] + r);
    }
    assert ShortestPath(db, hop.value, b, q);
  }

  // ----- journeys -----

  /** One router handling the envelope: its state just before, the time, and what `next_hop` answers. */
  datatype Visit = Visit(router: RouterState, now: int, hop: Option<NodeId>)

  ghost predicate IsVisit(v: Visit, e: Envelope) {
    IsNextHop(v.router.links, v.router.local, e.destination, v.hop)
  }

  function DecisionOf(v: Visit, e: Envelope): Decision { Decide(v.router, e, v.now, v.hop).1 }

  /** Consecutive routers, each handed what the previous one forwarded. Router states in between are arbitrary. */
  ghost predicate Journey(vs: seq<Visit>, es: seq<Envelope>) {
    && |vs| == |es| && vs != []
    && (forall i :: 0 <= i < |vs| ==> IsVisit(vs[i], es[i]))
    && (forall i :: 0 <= i < |vs| - 1 ==> DecisionOf(vs[i], es[i]) == Forward(vs[i + 1].router.local, es[i + 1]))
  }

  /** With any databases and any router states, an envelope is forwarded at most its hop budget times. */
  lemma {:induction false} HopBudgetBounds(vs: seq<Visit>, es: seq<Envelope>, i: nat)
    requires Journey(vs, es) && i < |es|
    ensures es[i].hops == es[0].hops - i
    ensures es[i] == es[0].(hops := es[i].hops)
    ensures i <= es[0].hops
  {
    if i > 0 {
      HopBudgetBounds(vs, es, i - 1);
      assert DecisionOf(vs[i - 1], es[i - 1]) == Forward(vs[i].router.local, es[i]);
    }
  }

  /**
   The envelope meets good conditions: every router holds the same database and
   has a free slot, the deadline is not reached, the body is small enough, and
   no router knows the request id unless this journey already came by.
   */
  ghost predicate Friendly(vs: seq<Visit>, es: seq<Envelope>, db: Links) {
    && |vs| == |es|
    && (forall i :: 0 <= i < |vs| ==>
         && vs[i].router.links == db
         && vs[i].router.inflight < vs[i].router.maxInflight
         && vs[i].now < es[i].deadline
         && |es[i].payload| <= MAX_ROUTE_BODY_BYTES)
    && (forall i :: 0 <= i < |vs| && es[i].request in vs[i].router.seen ==>
         exists j :: 0 <= j < i && vs[j].router.local == vs[i].router.local)
  }

  /** Along a friendly journey the distance to the destination drops by one per hop. */
  lemma {:induction false} DistanceDrops(vs: seq<Visit>, es: seq<Envelope>, db: Links, n: nat, i: nat)
    requires Journey(vs, es) && Friendly(vs, es, db) && i < |vs|
    requires Dist(db, vs[0].router.local, es[0].destination, n)
    ensures i <= n && Dist(db, vs[i].router.local, es[0].destination, n - i)
  {
    if i > 0 {
      DistanceDrops(vs, es, db, n, i - 1);
      HopBudgetBounds(vs, es, i - 1);
      var v := vs[i - 1];
      assert DecisionOf(v, es[i - 1]) == Forward(vs[i].router.local, es[i]);
      HopIsCloser(db, v.router.local, es[0].destination, n - (i - 1), v.hop);
    }
  }

  /** ... so no router is visited twice. */
  lemma NoRouterTwice(vs: seq<Visit>, es: seq<Envelope>, db: Links, n: nat, i: nat, j: nat)
    requires Journey(vs, es) && Friendly(vs, es, db) && i < j < |vs|
    requires Dist(db, vs[0].router.local, es[0].destination, n)
    ensures vs[i].router.local != vs[j].router.local
  {
    DistanceDrops(vs, es, db, n, i);
    DistanceDrops(vs, es, db, n, j);
  }

  /** What the router reached after `i` forwards decides. */
  lemma FriendlyDecision(vs: seq<Visit>, es: seq<Envelope>, db: Links, n: nat, i: nat)
    requires Journey(vs, es) && Friendly(vs, es, db) && i < |vs|
    requires Dist(db, vs[0].router.local, es[0].destination, n)
    ensures i <= n && i <= es[0].hops
    ensures DecisionOf(vs[i], es[i]).Deliver? <==> i == n
    ensures DecisionOf(vs[i], es[i]).Forward? <==> i < n && i < es[0].hops
    ensures i < n && i == es[0].hops ==> DecisionOf(vs[i], es[i]) == Drop(HopLimitExhausted)
    ensures i == n ==> vs[i].router.local == es[0].destination
  {
    HopBudgetBounds(vs, es, i);
    DistanceDrops(vs, es, db, n, i);
    DistZero(db, vs[i].router.local, es[0].destination, n - i);
    if es[i].request in vs[i].router.seen {
      var j :| 0 <= j < i && vs[j].router.local == vs[i].router.local;
      NoRouterTwice(vs, es, db, n, j, i);
    }
    if i < n { HopIsCloser(db, vs[i].router.local, es[0].destination, n - i, vs[i].hop); }
  }

  /** The journey is over: the last router did not forward. */
  ghost predicate Over(vs: seq<Visit>, es: seq<Envelope>)
    requires |vs| == |es| && vs != []
  {
    !DecisionOf(vs[|vs| - 1], es[|es| - 1]).Forward?
  }

  /**
   When all routers hold the same database, an envelope whose destination is at
   distance n is delivered, unchanged but for its hop counter and after exactly
   n forwards through distinct routers, if and only if its hop budget is at
   least n; otherwise it is dropped after exhausting the budget.
   */
  lemma DeliveredIffBudget(vs: seq<Visit>, es: seq<Envelope>, db: Links, n: nat)
    requires Journey(vs, es) && Friendly(vs, es, db) && Over(vs, es)
    requires Dist(db, vs[0].router.local, es[0].destination, n)
    ensures var last := DecisionOf(vs[|vs| - 1], es[|es| - 1]);
      && (last.Deliver? <==> es[0].hops >= n)
      && (last.Deliver? ==> |vs| - 1 == n && last.envelope == es[0].(hops := es[0].hops - n)
                            && vs[|vs| - 1].router.local == es[0].destination)
      && (!last.Deliver? ==> |vs| - 1 == es[0].hops && last == Drop(HopLimitExhausted))
    ensures forall i, j :: 0 <= i < j < |vs| ==> vs[i].router.local != vs[j].router.local
  {
    var k := |vs| - 1;
    FriendlyDecision(vs, es, db, n, k);
    HopBudgetBounds(vs, es, k);
    forall i, j | 0 <= i < j < |vs| ensures vs[i].router.local != vs[j].router.local {
      NoRouterTwice(vs, es, db, n, i, j);
    }
  }

  /** An unreachable destination is never delivered to: the first router drops the envelope. */
  lemma UnreachableIsDropped(v: Visit, e: Envelope)
    requires IsVisit(v, e) && !Reachable(v.router.links, v.router.local, e.destination)
    ensures DecisionOf(v, e).Drop?
  {
    if v.router.local == e.destination {
      assert PathFromTo(v.router.links, v.router.local, e.destination, [e.destination]);
    }
  }
}

/**
 What one router guarantees over any sequence of operations: which envelopes it
 takes on, how long it remembers a request, and how many forwards are outstanding.
 */
module RouterRuns {
  import opened Options
  import opened Routing
  import opened Forwarding

  /** One operation: an envelope with the answer of the routing table, a settled forward, or any change of the links. */
  datatype Op =
    | Handling(envelope: Envelope, now: int, hop: Option<NodeId>)
    | Completing
    | Relinking(links: Links)

  function Apply(s: RouterState, op: Op): RouterState {
    match op
    case Handling(e, now, hop) => Decide(s, e, now, hop).0
    case Completing => s.(inflight := if s.inflight == 0 then 0 else s.inflight - 1)
    case Relinking(links) => s.(links := links)
  }

  /** The router before operation `k`. */
  function At(s: RouterState, ops: seq<Op>, k: nat): RouterState
    requires k <= |ops|
  {
    if k == 0 then s else Apply(At(s, ops, k - 1), ops[k - 1])
  }

  function DecisionAt(s: RouterState, ops: seq<Op>, k: nat): Decision
    requires k < |ops| && ops[k].Handling?
  {
    Decide(At(s, ops, k), ops[k].envelope, ops[k].now, ops[k].hop).1
  }

  /** An envelope whose deadline has not passed. */
  predicate Unexpired(op: Op) { op.Handling? && op.now < op.envelope.deadline }

  /** The operation takes a request on: it is neither expired nor refused as a duplicate. */
  predicate TakenOn(s: RouterState, ops: seq<Op>, k: nat)
    requires k < |ops|
  {
    Unexpired(ops[k]) && DecisionAt(s, ops, k) != Drop(Duplicate)
  }

  /** The router takes request `r` on at operation `l`. */
  predicate Takes(s: RouterState, ops: seq<Op>, l: nat, r: nat)
    requires l < |ops|
  {
    TakenOn(s, ops, l) && ops[l].envelope.request == r
  }

  /** How many requests are taken on at operations `i` up to `j`. */
  function TakenBetween(s: RouterState, ops: seq<Op>, i: nat, j: nat): nat
    requires i <= j <= |ops|
    decreases j
  {
    if i == j then 0 else TakenBetween(s, ops, i, j - 1) + if TakenOn(s, ops, j - 1) then 1 else 0
  }

  /** A router as its constructor and operations leave it: the window fits. */
  predicate WindowOk(s: RouterState) { |s.seen| <= s.seenCapacity }

  // ----- the window is the end of the log -----

  /** The requests taken on, in order. */
  function Log(s: RouterState, ops: seq<Op>, k: nat): seq<nat>
    requires k <= |ops|
  {
    if k == 0 then []
    else Log(s, ops, k - 1) + if TakenOn(s, ops, k - 1) then [ops[k - 1].envelope.request] else []
  }

  lemma NewestAppend(a: seq<nat>, n: nat, x: nat)
    ensures Newest(Newest(a, n) + [x], n) == Newest(a + [x], n)
  {
  }

  lemma StepWindow(t: RouterState, op: Op)
    ensures var u := Apply(t, op);
      && u.seenCapacity == t.seenCapacity && u.local == t.local
      && u.seen == if Unexpired(op) && Decide(t, op.envelope, op.now, op.hop).1 != Drop(Duplicate)
                   then Newest(t.seen + [op.envelope.request], t.seenCapacity) else t.seen
  {
  }

  lemma {:induction false} WindowIsLog(s: RouterState, ops: seq<Op>, k: nat)
    requires WindowOk(s) && k <= |ops|
    ensures At(s, ops, k).seenCapacity == s.seenCapacity && At(s, ops, k).local == s.local
    ensures At(s, ops, k).seen == Newest(s.seen + Log(s, ops, k), s.seenCapacity)
  {
    if k == 0 {
      assert s.seen + [] == s.seen;
    } else {
      WindowIsLog(s, ops, k - 1);
      StepWindow(At(s, ops, k - 1), ops[k - 1]);
      var before := s.seen + Log(s, ops, k - 1);
      if TakenOn(s, ops, k - 1) {
        NewestAppend(before, s.seenCapacity, ops[k - 1].envelope.request);
        assert before + [ops[k - 1].envelope.request] == s.seen + Log(s, ops, k);
      } else {
        assert Log(s, ops, k) == Log(s, ops, k - 1);
      }
    }
  }

  lemma {:induction false} LogGrows(s: RouterState, ops: seq<Op>, i: nat, j: nat) returns (tail: seq<nat>)
    requires i <= j <= |ops|
    ensures Log(s, ops, j) == Log(s, ops, i) + tail && |tail| == TakenBetween(s, ops, i, j)
    ensures forall r :: r in tail ==> exists l :: i <= l < j && TakenOn(s, ops, l) && ops[l].envelope.request == r
    decreases j
  {
    if i == j {
      tail := [];
    } else {
      var init := LogGrows(s, ops, i, j - 1);
      tail := init + if TakenOn(s, ops, j - 1) then [ops[j - 1].envelope.request] else [];
    }
  }

  lemma InNewest(a: seq<nat>, r: nat, tail: seq<nat>, n: nat)
    requires r !in tail
    ensures r in Newest(a + [r] + tail, n) <==> |tail| < n
  {
    var all := a + [r] + tail;
    if |all| > n {
      var w := Newest(all, n);
      if |tail| < n { assert w[n - 1 - |tail|] == all[|a|] == r; }
      else { assert w == tail[|tail| - n..]; }
    } else {
      assert all[|a|] == r;
    }
  }

  /**
   How long a request is remembered. Let `i` be the latest time before `j` at
   which the router took the request on. Unexpired again at `j`, it is refused
   as a duplicate, with no effect at all, exactly when fewer than
   `seenCapacity` requests were taken on in between.
   */
  lemma DuplicateExactly(s: RouterState, ops: seq<Op>, i: nat, j: nat, r: nat)
    requires WindowOk(s) && i < j < |ops| && Takes(s, ops, i, r)
    requires Unexpired(ops[j]) && ops[j].envelope.request == r
    requires forall l :: i < l < j ==> !Takes(s, ops, l, r)
    ensures DecisionAt(s, ops, j) == Drop(Duplicate) <==> TakenBetween(s, ops, i + 1, j) < s.seenCapacity
    ensures DecisionAt(s, ops, j) == Drop(Duplicate) ==> At(s, ops, j + 1) == At(s, ops, j)
  {
    var before, tail := WindowSince(s, ops, i, j);
    forall l | i < l < j && TakenOn(s, ops, l) ensures ops[l].envelope.request != r { assert !Takes(s, ops, l, r); }
    assert r !in tail;
    InNewest(before, r, tail, s.seenCapacity);
    DecisionsExactly(At(s, ops, j), ops[j].envelope, ops[j].now, ops[j].hop);
  }

  /** The window at `j`, split at the request taken on at `i`. */
  lemma WindowSince(s: RouterState, ops: seq<Op>, i: nat, j: nat) returns (before: seq<nat>, tail: seq<nat>)
    requires WindowOk(s) && i < j <= |ops| && TakenOn(s, ops, i)
    ensures At(s, ops, j).seen == Newest(before + [ops[i].envelope.request] + tail, s.seenCapacity)
    ensures |tail| == TakenBetween(s, ops, i + 1, j)
    ensures forall r :: r in tail ==> exists l :: i < l < j && TakenOn(s, ops, l) && ops[l].envelope.request == r
  {
    WindowIsLog(s, ops, j);
    tail := LogGrows(s, ops, i + 1, j);
    before := s.seen + Log(s, ops, i);
    assert s.seen + Log(s, ops, j) == before + [ops[i].envelope.request] + tail;
  }

  // ----- no request is taken on twice within the window -----

  lemma {:induction false} LatestTakenOn(s: RouterState, ops: seq<Op>, i: nat, j: nat, r: nat) returns (m: nat)
    requires i < j <= |ops| && Takes(s, ops, i, r)
    ensures i <= m < j && Takes(s, ops, m, r)
    ensures forall l :: m < l < j ==> !Takes(s, ops, l, r)
    decreases j
  {
    m := j - 1;
    while !Takes(s, ops, m, r)
      invariant i <= m < j
      invariant forall l :: m < l < j ==> !Takes(s, ops, l, r)
      decreases m
    {
      m := m - 1;
    }
  }

  lemma {:induction false} TakenShrinks(s: RouterState, ops: seq<Op>, i: nat, m: nat, j: nat)
    requires i <= m <= j <= |ops|
    ensures TakenBetween(s, ops, m, j) <= TakenBetween(s, ops, i, j)
    decreases j
  {
    if m < j { TakenShrinks(s, ops, i, m, j - 1); }
  }

  /** The router does something with the envelope: delivers it or forwards it. */
  predicate ActsOn(s: RouterState, ops: seq<Op>, k: nat)
    requires k < |ops|
  {
    ops[k].Handling? && (DecisionAt(s, ops, k).Deliver? || DecisionAt(s, ops, k).Forward?)
  }

  /** Whatever happens to the links meanwhile: a request acted on twice was pushed out of the window in between. */
  lemma ActedOnTwice(s: RouterState, ops: seq<Op>, i: nat, j: nat)
    requires WindowOk(s) && i < j < |ops| && ActsOn(s, ops, i) && ActsOn(s, ops, j)
    requires ops[j].envelope.request == ops[i].envelope.request
    ensures TakenBetween(s, ops, i + 1, j) >= s.seenCapacity
  {
    ActsIsTaken(s, ops, i);
    ActsIsTaken(s, ops, j);
    TakenTwice(s, ops, i, j, ops[i].envelope.request);
  }

  lemma TakenTwice(s: RouterState, ops: seq<Op>, i: nat, j: nat, r: nat)
    requires WindowOk(s) && i < j < |ops| && Takes(s, ops, i, r) && Takes(s, ops, j, r)
    ensures TakenBetween(s, ops, i + 1, j) >= s.seenCapacity
  {
    var m := LatestTakenOn(s, ops, i, j, r);
    assert DecisionAt(s, ops, j) != Drop(Duplicate);
    DuplicateExactly(s, ops, m, j, r);
    TakenShrinks(s, ops, i + 1, m + 1, j);
  }

  lemma ActsIsTaken(s: RouterState, ops: seq<Op>, k: nat)
    requires k < |ops| && ActsOn(s, ops, k)
    ensures Unexpired(ops[k]) && DecisionAt(s, ops, k) != Drop(Duplicate) && Takes(s, ops, k, ops[k].envelope.request)
  {
    DecisionsExactly(At(s, ops, k), ops[k].envelope, ops[k].now, ops[k].hop);
  }

  // ----- one decision, by what the envelope and the router are -----

  /** The checks pass up to the one for the local destination. */
  predicate FreshElsewhere(s: RouterState, e: Envelope, now: int) {
    now < e.deadline && e.request !in s.seen && e.destination != s.local
  }

  /** When each outcome happens; an expired or repeated envelope leaves no trace, any other is remembered. */
  lemma DecisionsExactly(s: RouterState, e: Envelope, now: int, hop: Option<NodeId>)
    ensures var (t, d) := Decide(s, e, now, hop); var ready := FreshElsewhere(s, e, now) && e.hops >= 1;
      && (d == Drop(Expired) <==> now >= e.deadline)
      && (d == Drop(Duplicate) <==> now < e.deadline && e.request in s.seen)
      && (d.Deliver? <==> now < e.deadline && e.request !in s.seen && e.destination == s.local)
      && (d.Deliver? ==> d.envelope == e)
      && (d == Drop(HopLimitExhausted) <==> FreshElsewhere(s, e, now) && e.hops == 0)
      && (d == Drop(PayloadTooLarge) <==> ready && |e.payload| > 1_048_576)
      && (d == Drop(Backpressure) <==> ready && |e.payload| <= 1_048_576 && s.inflight >= s.maxInflight)
      && (d == Drop(NoRoute) <==> ready && |e.payload| <= 1_048_576 && s.inflight < s.maxInflight && hop.None?)
      && (d.Forward? <==> ready && |e.payload| <= 1_048_576 && s.inflight < s.maxInflight && hop.Some?)
      && (d.Forward? ==> d.nextHop == hop.value && d.envelope == e.(hops := e.hops - 1))
      && (t.inflight == s.inflight + if d.Forward? then 1 else 0)
      && (now >= e.deadline || e.request in s.seen ==> t == s)
      && (now < e.deadline && e.request !in s.seen && s.seenCapacity > 0 ==> e.request in t.seen)
  {
    var all := s.seen + [e.request];
    if s.seenCapacity > 0 {
      var w := Newest(all, s.seenCapacity);
      assert w[|w| - 1] == e.request;
    }
  }

  // ----- outstanding forwards -----

  /** Forwards handed out minus forwards settled, where settling none outstanding does nothing. */
  function Outstanding(s: RouterState, ops: seq<Op>, k: nat): nat
    requires k <= |ops|
  {
    if k == 0 then s.inflight
    else
      var before := Outstanding(s, ops, k - 1);
      match ops[k - 1]
      case Handling(_, _, _) => if DecisionAt(s, ops, k - 1).Forward? then before + 1 else before
      case Completing => if before == 0 then 0 else before - 1
      case Relinking(_) => before
  }

  /** The counter is the number of outstanding forwards, and never passes its limit. */
  lemma {:induction false} InflightIsOutstanding(s: RouterState, ops: seq<Op>, k: nat)
    requires s.inflight <= s.maxInflight && k <= |ops|
    ensures At(s, ops, k).inflight == Outstanding(s, ops, k) <= s.maxInflight && At(s, ops, k).maxInflight == s.maxInflight
  {
    if k > 0 {
      InflightIsOutstanding(s, ops, k - 1);
      var op := ops[k - 1];
      if op.Handling? { DecisionsExactly(At(s, ops, k - 1), op.envelope, op.now, op.hop); }
    }
  }
}

/**
 What every run of the failure detector guarantees about its probes: one per
 target at a time, failure counts below the threshold, and as many consecutive
 misses before a suspicion as the threshold asks for.
 */
module FailureDetection {
  import opened Registers
  import opened SwimSpec
  import opened SwimRuns

  // ----- probe bookkeeping kept by every step -----

  /** Each target has at most one outstanding probe. */
  ghost predicate OneProbePerTarget(s: State) {
    forall n, k :: n in s.pending && k in s.pending && n != k ==> s.pending[n].target != s.pending[k].target
  }

  /** Stored failure counts are positive and below the threshold. */
  ghost predicate CountsBelowThreshold(s: State) {
    forall id :: id in s.failures ==> 1 <= s.failures[id] < s.config.failureThreshold
  }

  ghost predicate ProbesOk(s: State) {
    OneProbePerTarget(s) && CountsBelowThreshold(s)
  }

  function Count(s: State, id: Id): nat { if id in s.failures then s.failures[id] else 0 }

  predicate IsSuspectBroadcast(a: Action, id: Id) {
    a.Broadcast? && a.message.Suspect? && a.message.id == id
  }

  ghost predicate Emits(actions: seq<Action>, id: Id) {
    exists a :: a in actions && IsSuspectBroadcast(a, id)
  }

  ghost predicate Hits(s: State, order: seq<U64>, id: Id) {
    exists n :: n in order && n in s.pending && s.pending[n].target == id
  }

  /** The count of one target after the probes in `order` timed out. */
  function CountAfter(s: State, hit: bool, id: Id): nat {
    if !hit then Count(s, id)
    else if Count(s, id) + 1 < s.config.failureThreshold then Count(s, id) + 1
    else 0
  }

  /** The miss is one too many for a peer that still counts as Active. */
  predicate Fires(s: State, hit: bool, id: Id) {
    hit && Count(s, id) + 1 >= s.config.failureThreshold && id in s.view.members && s.view.members[id].state.Active?
  }

  /** What missed probes may do to `id`: suspect it, announcing the incarnation held, or nothing. */
  ghost predicate SuspectedBy(s: State, o: Outcome, fires: bool, id: Id) {
    && (Emits(o.actions, id) <==> fires)
    && (fires <==> id in s.view.members && Broadcast(Suspect(id, s.view.members[id].incarnation)) in o.actions)
    && (forall a :: a in o.actions && IsSuspectBroadcast(a, id) ==>
          id in s.view.members && a.message.incarnation == s.view.members[id].incarnation)
    && (id in o.s.view.members <==> id in s.view.members)
    && (id in s.view.members ==>
          if fires then o.s.view.members[id].state.Suspected?
                        && o.s.view.members[id].incarnation == s.view.members[id].incarnation
          else o.s.view.members[id] == s.view.members[id])
  }

  lemma TimeOutOneCount(s: State, now: I64, n: U64, id: Id)
    requires CountsBelowThreshold(s) && n in s.pending
    ensures var o := TimeOutOne(s, now, n); var hit := s.pending[n].target == id;
      && CountsBelowThreshold(o.s)
      && Count(o.s, id) == CountAfter(s, hit, id)
      && SuspectedBy(s, o, Fires(s, hit, id), id)
  {
    var o := TimeOutOne(s, now, n);
    if o.actions != [] {
      assert o.actions[0] in o.actions && IsSuspectBroadcast(o.actions[0], s.pending[n].target);
    }
  }

  lemma {:induction false} TimeOutAllCount(s: State, now: I64, order: seq<U64>, id: Id)
    requires ProbesOk(s) && Distinct(order) && forall n :: n in order ==> n in s.pending
    ensures var o := TimeOutAll(s, now, order);
      && CountsBelowThreshold(o.s)
      && Count(o.s, id) == CountAfter(s, Hits(s, order, id), id)
      && SuspectedBy(s, o, Fires(s, Hits(s, order, id), id), id)
    decreases |order|
  {
    if order != [] {
      var init, n := order[..|order| - 1], order[|order| - 1];
      assert order == init + [n] && n !in init;
      TimeOutAllCount(s, now, init, id);
      TimeOutAllFrame(s, now, init);
      var b := TimeOutAll(s, now, init);
      assert b.s.pending[n] == s.pending[n];
      TimeOutOneCount(b.s, now, n, id);
      assert Hits(s, order, id) <==> Hits(s, init, id) || s.pending[n].target == id;
      assert s.pending[n].target == id ==> !Hits(s, init, id);
      SuspectedByTwo(s, b, TimeOutOne(b.s, now, n), Fires(s, Hits(s, init, id), id), Fires(b.s, s.pending[n].target == id, id), id);
    }
  }

  /** Two steps of which at most one fires. */
  lemma SuspectedByTwo(s: State, b: Outcome, l: Outcome, first: bool, second: bool, id: Id)
    requires SuspectedBy(s, b, first, id) && SuspectedBy(b.s, l, second, id)
    requires !first || !second
    ensures SuspectedBy(s, Outcome(l.s, b.actions + l.actions), first || second, id)
  {
    var all := b.actions + l.actions;
    forall a | a in all && IsSuspectBroadcast(a, id) ensures a in b.actions || a in l.actions {}
    if Emits(b.actions, id) {
      var a :| a in b.actions && IsSuspectBroadcast(a, id);
      assert a in all;
    }
    if Emits(l.actions, id) {
      var a :| a in l.actions && IsSuspectBroadcast(a, id);
      assert a in all;
    }
  }

  /** The time a probe has been out, on a clock that may start below zero or step back. */
  function Elapsed(now: I64, sentAt: U64): nat {
    if now < sentAt then 0 else now - sentAt
  }

  /** The probe's timeout has run out. */
  predicate Overdue(s: State, now: I64, n: U64) {
    n in s.pending && Elapsed(now, s.pending[n].sentAt) >= s.config.pingTimeout
  }

  lemma TimedOutIsOverdue(s: State, now: I64)
    ensures forall n :: n in TimedOut(s, now) <==> Overdue(s, now, n)
  {
  }

  /** The tick misses a probe of `id`. */
  ghost predicate Missing(s: State, now: I64, id: Id) {
    exists n :: Overdue(s, now, n) && s.pending[n].target == id
  }

  /** The probe-timeout phase, target by target. */
  lemma ProbedCount(s: State, now: I64, ch: Choices, id: Id)
    requires ProbesOk(s) && ValidChoices(s, now, ch)
    ensures var o := Probed(s, now, ch);
      && CountsBelowThreshold(o.s)
      && Count(o.s, id) == CountAfter(s, Missing(s, now, id), id)
      && (id != s.local ==> SuspectedBy(s, o, Fires(s, Missing(s, now, id), id), id))
      && (Emits(o.actions, id) ==> Missing(s, now, id) && Count(s, id) + 1 >= s.config.failureThreshold)
  {
    var h := Heartbeat(s, now);
    assert TimedOut(h, now) == TimedOut(s, now);
    TimedOutIsOverdue(s, now);
    TimeOutAllCount(h, now, ch.timedOut, id);
    assert Hits(h, ch.timedOut, id) <==> Missing(s, now, id);
  }

  lemma ProbeRoundOneProbe(s: State, now: I64, order: seq<Id>)
    requires OneProbePerTarget(s)
    ensures OneProbePerTarget(GenerateProbes(s, now, order).s)
  {
    BestProbeIsOldest(s, now, order);
    var t := GenerateProbes(s, now, order).s;
    var b := BestProbe(s, now, order).candidate;
    if b.Some? {
      forall n, k | n in t.pending && k in t.pending && n != k ensures t.pending[n].target != t.pending[k].target {
        if n == t.sequence { assert t.pending[k] == s.pending[k]; }
        else if k == t.sequence { assert t.pending[n] == s.pending[n]; }
      }
    }
  }

  lemma TickProbes(s: State, now: I64, ch: Choices)
    requires ProbesOk(s) && ValidChoices(s, now, ch)
    ensures ProbesOk(Tick(s, now, ch).s)
  {
    TickFrame(s, now, ch);
    ProbedCount(s, now, ch, s.local);
    ProbeRoundOneProbe(Judged(s, now, ch).s, now, ch.active);
  }

  lemma StepProbes(s: State, e: Event)
    requires ProbesOk(s) && Enabled(s, e)
    ensures ProbesOk(Step(s, e).s)
  {
    match e
    case TickAt(now, ch) => TickProbes(s, now, ch);
    case Receive(from, message, now) => MessageFrame(s, from, message, now);
    case LeaveLocal(now) =>
    case Annotate(annotations, now) =>
  }

  lemma {:induction false} RunProbes(s: State, es: seq<Event>, k: nat)
    requires ProbesOk(s) && IsRun(s, es) && k <= |es|
    ensures ProbesOk(At(s, es, k))
  {
    if k > 0 {
      RunProbes(s, es, k - 1);
      AtNext(s, es, k - 1);
      StepProbes(At(s, es, k - 1), es[k - 1]);
    }
  }

  /** A freshly booted instance meets the starting conditions of all run results. */
  lemma BootMeetsConditions(config: Config, register: Register)
    requires register.state.Active?
    ensures var s := New(register.id, config, register);
      && LocalOk(s) && ProbesOk(s)
      && s.failures == map[] && s.lastProbe == map[] && s.since == map[]
  {
    assert New(register.id, config, register).view.members == map[register.id := register];
  }

  // ----- a suspicion takes `failure_threshold` consecutive missed probes -----

  datatype Resolution = Answered | Missed

  /** How an event resolved an outstanding probe of `id`, if it did. */
  ghost function ResolvedBy(s: State, e: Event, id: Id): seq<Resolution> {
    if e.Receive? && e.message.Ack? && e.message.n in s.pending && s.pending[e.message.n].target == id then [Answered]
    else if e.TickAt? && Missing(s, e.now, id) then [Missed]
    else []
  }

  /** The resolved probes of `id`, oldest first. */
  ghost function Resolved(s: State, es: seq<Event>, id: Id): seq<Resolution>
    decreases |es|
  {
    if es == [] then []
    else Resolved(s, es[..|es| - 1], id) + ResolvedBy(Exec(s, es[..|es| - 1]), es[|es| - 1], id)
  }

  /** The last `c` resolved probes were all missed. */
  ghost predicate EndsWithMisses(h: seq<Resolution>, c: nat) {
    c <= |h| && forall i :: |h| - c <= i < |h| ==> h[i].Missed?
  }

  lemma TickCount(s: State, now: I64, ch: Choices, id: Id)
    requires ProbesOk(s) && ValidChoices(s, now, ch)
    ensures var o := Tick(s, now, ch);
      && Count(o.s, id) == CountAfter(s, Missing(s, now, id), id)
      && (Emits(o.actions, id) <==> Emits(Probed(s, now, ch).actions, id))
      && (forall a :: IsSuspectBroadcast(a, id) ==> (a in o.actions <==> a in Probed(s, now, ch).actions))
      && (Emits(o.actions, id) ==> Missing(s, now, id) && Count(s, id) + 1 >= s.config.failureThreshold)
  {
    ProbedCount(s, now, ch, id);
    TickFrame(s, now, ch);
    var p, t := Probed(s, now, ch), Tick(s, now, ch);
    forall a | IsSuspectBroadcast(a, id) ensures a in t.actions <==> a in p.actions {
      CheckSuspectsActions(p.s, now, ch.suspected, a);
    }
  }

  lemma StepCount(s: State, e: Event, id: Id)
    requires ProbesOk(s) && Enabled(s, e)
    ensures var hit := ResolvedBy(s, e, id); var o := Step(s, e);
      && (hit == [] ==> Count(o.s, id) == Count(s, id))
      && (hit == [Answered] ==> Count(o.s, id) == 0)
      && (hit == [Missed] ==> Count(o.s, id) == CountAfter(s, true, id))
      && (Emits(o.actions, id) ==> hit == [Missed] && Count(s, id) + 1 >= s.config.failureThreshold)
  {
    match e
    case TickAt(now, ch) => TickCount(s, now, ch, id);
    case Receive(from, message, now) => MessageFrame(s, from, message, now);
    case LeaveLocal(now) =>
    case Annotate(annotations, now) =>
  }

  lemma ResolvedStep(s: State, es: seq<Event>, k: nat, id: Id)
    requires 0 < k <= |es|
    ensures Resolved(s, es[..k], id) == Resolved(s, es[..k - 1], id) + ResolvedBy(At(s, es, k - 1), es[k - 1], id)
  {
    assert es[..k][..k - 1] == es[..k - 1];
  }

  /** How many misses the history ends with. */
  function Misses(h: seq<Resolution>): nat
    decreases |h|
  {
    if h == [] || h[|h| - 1].Answered? then 0 else Misses(h[..|h| - 1]) + 1
  }

  /** A suspicion is due every so many misses in a row; a threshold of 0 acts like 1. */
  function Every(c: Config): (d: nat)
    ensures d >= 1
  {
    if c.failureThreshold == 0 then 1 else c.failureThreshold
  }

  lemma MissesAppend(h: seq<Resolution>, r: Resolution)
    ensures Misses(h + [r]) == if r.Answered? then 0 else Misses(h) + 1
  {
    assert (h + [r])[..|h|] == h;
  }

  /** `m` modulo `d`, by repeated subtraction. */
  function Remainder(m: nat, d: nat): nat
    requires d >= 1
  {
    if m < d then m else Remainder(m - d, d)
  }

  lemma {:induction false} NextRemainder(m: nat, d: nat)
    requires d >= 1
    ensures Remainder(m, d) < d && Remainder(m, d) <= m
    ensures Remainder(m + 1, d) == if Remainder(m, d) + 1 < d then Remainder(m, d) + 1 else 0
  {
    if m >= d { NextRemainder(m - d, d); }
  }

  lemma StepMisses(s: State, e: Event, h: seq<Resolution>, id: Id)
    requires ProbesOk(s) && Enabled(s, e) && Count(s, id) == Remainder(Misses(h), Every(s.config))
    ensures Count(Step(s, e).s, id) == Remainder(Misses(h + ResolvedBy(s, e, id)), Every(s.config))
  {
    StepCount(s, e, id);
    var r := ResolvedBy(s, e, id);
    if r == [] {
      assert h + r == h;
    } else {
      MissesAppend(h, r[0]);
      NextRemainder(Misses(h), Every(s.config));
    }
  }

  /** The stored count is exactly the number of misses since the last answer, counted anew after each suspicion due. */
  lemma {:induction false} CountsAreMisses(s: State, es: seq<Event>, k: nat, id: Id)
    requires ProbesOk(s) && s.failures == map[] && IsRun(s, es) && k <= |es|
    ensures Count(At(s, es, k), id) == Remainder(Misses(Resolved(s, es[..k], id)), Every(s.config))
  {
    if k > 0 {
      CountsAreMisses(s, es, k - 1, id);
      RunProbes(s, es, k - 1);
      ConfigFixed(s, es, k - 1);
      AtNext(s, es, k - 1);
      ResolvedStep(s, es, k, id);
      StepMisses(At(s, es, k - 1), es[k - 1], Resolved(s, es[..k - 1], id), id);
    }
  }

  /**
   Over every run from a freshly booted instance: a Suspect broadcast about
   `id` is emitted only when its last `failure_threshold` resolved probes were
   all missed.
   */
  lemma SuspicionNeedsMisses(s: State, es: seq<Event>, k: nat, id: Id)
    requires ProbesOk(s) && s.failures == map[] && IsRun(s, es) && k < |es|
    requires Emits(Step(At(s, es, k), es[k]).actions, id)
    ensures EndsWithMisses(Resolved(s, es[..k + 1], id), s.config.failureThreshold)
  {
    CountsAreMisses(s, es, k, id);
    RunProbes(s, es, k);
    ConfigFixed(s, es, k);
    var b, h := At(s, es, k), Resolved(s, es[..k], id);
    StepCount(b, es[k], id);
    ResolvedStep(s, es, k + 1, id);
    MissesAppend(h, Missed);
    NextRemainder(Misses(h), Every(s.config));
    MissesAreLast(h + [Missed], s.config.failureThreshold);
  }

  lemma {:induction false} MissesAreLast(h: seq<Resolution>, c: nat)
    requires c <= Misses(h)
    ensures EndsWithMisses(h, c)
    decreases |h|
  {
    if c > 0 { MissesAreLast(h[..|h| - 1], c - 1); }
  }

  /** Tick `k` misses a probe of `x` and thereby completes a run of misses as long as the threshold asks. */
  ghost predicate Completes(s: State, es: seq<Event>, k: nat, x: Id)
    requires k < |es|
  {
    && ResolvedBy(At(s, es, k), es[k], x) == [Missed]
    && Remainder(Misses(Resolved(s, es[..k + 1], x)), Every(s.config)) == 0
  }

  /**
   Over every run from a freshly booted instance: a tick announces that a peer
   is suspected, at the incarnation held, and holds it Suspected after the probe
   timeouts, exactly when it completes a run of `failure_threshold` misses while
   the peer is Active. Otherwise the probe timeouts leave the peer's register alone.
   */
  lemma SuspectedExactly(s: State, es: seq<Event>, k: nat, x: Id)
    requires ProbesOk(s) && s.failures == map[] && IsRun(s, es) && k < |es| && es[k].TickAt? && x != s.local
    ensures var b, o := At(s, es, k), Step(At(s, es, k), es[k]); var p := Probed(b, es[k].now, es[k].ch).s;
            var due := Completes(s, es, k, x) && x in b.view.members && b.view.members[x].state.Active?;
      && (Emits(o.actions, x) <==> due)
      && (due ==> Broadcast(Suspect(x, b.view.members[x].incarnation)) in o.actions)
      && (forall a :: a in o.actions && IsSuspectBroadcast(a, x) ==>
            x in b.view.members && a.message.incarnation == b.view.members[x].incarnation)
      && (x in p.view.members <==> x in b.view.members)
      && (x in b.view.members ==>
            if due then p.view.members[x].state.Suspected? && p.view.members[x].incarnation == b.view.members[x].incarnation
            else p.view.members[x] == b.view.members[x])
  {
    FiresExactly(s, es, k, x);
    RunProbes(s, es, k);
    ConfigFixed(s, es, k);
    TickSuspects(At(s, es, k), es[k].now, es[k].ch, x);
  }

  lemma FiresExactly(s: State, es: seq<Event>, k: nat, x: Id)
    requires ProbesOk(s) && s.failures == map[] && IsRun(s, es) && k < |es| && es[k].TickAt?
    ensures var b := At(s, es, k);
      Fires(b, Missing(b, es[k].now, x), x) <==>
        Completes(s, es, k, x) && x in b.view.members && b.view.members[x].state.Active?
  {
    if Missing(At(s, es, k), es[k].now, x) { MissCompletes(s, es, k, x); }
  }

  lemma MissCompletes(s: State, es: seq<Event>, k: nat, x: Id)
    requires ProbesOk(s) && s.failures == map[] && IsRun(s, es) && k < |es|
    requires ResolvedBy(At(s, es, k), es[k], x) == [Missed]
    ensures Remainder(Misses(Resolved(s, es[..k + 1], x)), Every(s.config)) == 0
        <==> Count(At(s, es, k), x) + 1 >= At(s, es, k).config.failureThreshold
  {
    var h, m := Resolved(s, es[..k], x), Misses(Resolved(s, es[..k], x));
    CountsAreMisses(s, es, k, x);
    ConfigFixed(s, es, k);
    ResolvedStep(s, es, k + 1, x);
    MissesAppend(h, Missed);
    assert Misses(Resolved(s, es[..k + 1], x)) == m + 1;
    NextRemainder(m, Every(s.config));
  }

  lemma TickSuspects(s: State, now: I64, ch: Choices, x: Id)
    requires ProbesOk(s) && ValidChoices(s, now, ch) && x != s.local
    ensures SuspectedBy(s, Outcome(Probed(s, now, ch).s, Tick(s, now, ch).actions), Fires(s, Missing(s, now, x), x), x)
  {
    ProbedCount(s, now, ch, x);
    TickCount(s, now, ch, x);
  }
}

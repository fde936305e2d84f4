/**
 Runs of one SWIM instance, and what each of its steps keeps: the local
 lifecycle, the order keys of all members, and the probe bookkeeping.
 */
module SwimRuns {
  import opened Order
  import opened Registers
  import opened Memberships
  import opened SwimSpec

  datatype Event =
    | Receive(from: Id, message: Message, now: I64)
    | TickAt(now: I64, ch: Choices)
    | LeaveLocal(now: I64)
    | Annotate(annotations: StrMap, now: I64)

  function Step(s: State, e: Event): Outcome {
    match e
    case Receive(from, message, now) => OnMessage(s, from, message, now)
    case TickAt(now, ch) => Tick(s, now, ch)
    case LeaveLocal(now) => Outcome(SwimSpec.LeaveLocal(s, now), [])
    case Annotate(annotations, now) => SwimSpec.Annotate(s, annotations, now)
  }

  ghost predicate Enabled(s: State, e: Event) {
    e.TickAt? ==> ValidChoices(s, e.now, e.ch)
  }

  function Exec(s: State, es: seq<Event>): State
    decreases |es|
  {
    if es == [] then s else Step(Exec(s, es[..|es| - 1]), es[|es| - 1]).s
  }

  /** The state just before event `i`. */
  function At(s: State, es: seq<Event>, i: nat): State
    requires i <= |es|
  {
    Exec(s, es[..i])
  }

  ghost predicate IsRun(s: State, es: seq<Event>) {
    forall i :: 0 <= i < |es| ==> Enabled(At(s, es, i), es[i])
  }

  lemma AtNext(s: State, es: seq<Event>, i: nat)
    requires i < |es|
    ensures At(s, es, i + 1) == Step(At(s, es, i), es[i]).s
  {
    assert es[..i + 1][..i] == es[..i];
  }

  // ----- what each phase of a tick leaves alone -----

  /** Members may only have moved from Active to Suspected. */
  ghost predicate MaySuspect(m: Members, m': Members, now: I64) {
    && m'.Keys == m.Keys
    && forall id :: id in m ==> m'[id] == m[id] || m'[id] == m[id].Suspect(now)
  }

  ghost predicate NoSelfProbe(s: State) {
    forall n :: n in s.pending ==> s.pending[n].target != s.local
  }

  /** The effect of resolving the probes in `gone` as timed out. */
  ghost predicate AfterTimeouts(s: State, t: State, now: I64, gone: set<U64>) {
    && t == s.(pending := t.pending, failures := t.failures, view := t.view)
    && t.pending == s.pending - gone
    && MaySuspect(s.view.members, t.view.members, now)
    && (NoSelfProbe(s) && s.local in s.view.members ==> t.view.members[s.local] == s.view.members[s.local])
  }

  lemma TimeOutOneFrame(s: State, now: I64, n: U64)
    ensures AfterTimeouts(s, TimeOutOne(s, now, n).s, now, {n})
  {
    if n !in s.pending { assert s.pending - {n} == s.pending; }
  }

  lemma AfterTimeoutsCompose(s: State, t: State, u: State, now: I64, a: set<U64>, b: set<U64>)
    requires AfterTimeouts(s, t, now, a) && AfterTimeouts(t, u, now, b)
    ensures AfterTimeouts(s, u, now, a + b)
  {
    assert u.pending == s.pending - (a + b);
    forall id | id in s.view.members
      ensures u.view.members[id] == s.view.members[id] || u.view.members[id] == s.view.members[id].Suspect(now)
    {
      assert s.view.members[id].Suspect(now).Suspect(now) == s.view.members[id].Suspect(now);
    }
  }

  lemma {:induction false} TimeOutAllFrame(s: State, now: I64, order: seq<U64>)
    ensures AfterTimeouts(s, TimeOutAll(s, now, order).s, now, Elems(order))
    decreases |order|
  {
    if order == [] {
      assert s.pending == s.pending - Elems(order);
    } else {
      var init, n := order[..|order| - 1], order[|order| - 1];
      TimeOutAllFrame(s, now, init);
      var b := TimeOutAll(s, now, init).s;
      TimeOutOneFrame(b, now, n);
      AfterTimeoutsCompose(s, b, TimeOutOne(b, now, n).s, now, Elems(init), {n});
      assert Elems(order) == Elems(init) + {n} by { assert order == init + [n]; }
    }
  }

  ghost predicate Distinct<T>(q: seq<T>) {
    forall i, j :: 0 <= i < j < |q| ==> q[i] != q[j]
  }

  lemma {:induction false} OfflineAllFrame(s: State, now: I64, ids: seq<Id>)
    requires Distinct(ids)
    ensures var t := OfflineAll(s, now, ids).s;
      && t == s.(view := t.view)
      && t.view.members.Keys == s.view.members.Keys
      && (forall id :: id in s.view.members ==>
            t.view.members[id] == if id in ids then s.view.members[id].GoOffline(now) else s.view.members[id])
    decreases |ids|
  {
    if ids != [] {
      var init, last := ids[..|ids| - 1], ids[|ids| - 1];
      OfflineAllFrame(s, now, init);
      assert ids == init + [last];
      assert last !in init;
    }
  }

  lemma {:induction false} OfflineAllActions(s: State, now: I64, ids: seq<Id>, a: Action)
    requires Distinct(ids) && forall id :: id in ids ==> id in s.view.members
    ensures a in OfflineAll(s, now, ids).actions <==>
              exists id :: id in ids && a == Broadcast(Alive(s.view.members[id].GoOffline(now)))
    decreases |ids|
  {
    if ids != [] {
      var init, last := ids[..|ids| - 1], ids[|ids| - 1];
      OfflineAllActions(s, now, init, a);
      OfflineAllFrame(s, now, init);
      assert ids == init + [last];
      assert last !in init;
      var b := OfflineAll(s, now, init);
      assert OfflineAll(s, now, ids).actions
          == b.actions + [Broadcast(Alive(s.view.members[last].GoOffline(now)))];
    }
  }

  lemma {:induction false} ExpiredAmongFrame(s: State, now: I64, order: seq<Id>)
    requires Distinct(order)
    ensures var x := ExpiredAmong(s, now, order);
      Distinct(x) && forall id :: id in x <==> id in order && Expired(s, now, id)
    decreases |order|
  {
    if order != [] {
      var init, last := order[..|order| - 1], order[|order| - 1];
      ExpiredAmongFrame(s, now, init);
      assert order == init + [last];
      assert last !in init;
      var y := ExpiredAmong(s, now, init);
      assert last !in y;
    }
  }

  /** A tick judges exactly the expired suspects offline ... */
  lemma CheckSuspectsFrame(s: State, now: I64, order: seq<Id>)
    requires Enumerates(order, Suspects(s))
    ensures var t := CheckSuspects(s, now, order).s;
      && t == s.(view := t.view, since := UpdateTimers(s, now))
      && t.view.members.Keys == s.view.members.Keys
      && (forall id :: id in s.view.members ==>
            t.view.members[id] == if Expired(s, now, id) then s.view.members[id].GoOffline(now) else s.view.members[id])
  {
    ExpiredAmongFrame(s, now, order);
    OfflineAllFrame(s.(since := UpdateTimers(s, now)), now, ExpiredAmong(s, now, order));
  }

  /** ... and broadcasts exactly their registers. */
  lemma CheckSuspectsActions(s: State, now: I64, order: seq<Id>, a: Action)
    requires Enumerates(order, Suspects(s))
    ensures a in CheckSuspects(s, now, order).actions <==>
              exists id :: Expired(s, now, id) && a == Broadcast(Alive(s.view.members[id].GoOffline(now)))
  {
    ExpiredAmongFrame(s, now, order);
    OfflineAllActions(s.(since := UpdateTimers(s, now)), now, ExpiredAmong(s, now, order), a);
  }

  /** The best candidate is eligible, and no eligible peer has a larger gap. */
  lemma {:induction false} BestProbeIsOldest(s: State, now: I64, order: seq<Id>)
    ensures var b := BestProbe(s, now, order);
      && (b.candidate.None? ==> b.gap == 0)
      && (b.candidate.Some? ==>
            && b.candidate.value in order && !HasPending(s, b.candidate.value)
            && b.gap == Gap(s, now, b.candidate.value) && b.gap > 0 && b.gap >= s.config.pingInterval)
      && (forall id :: id in order && !HasPending(s, id) && Gap(s, now, id) >= s.config.pingInterval ==>
            Gap(s, now, id) <= b.gap)
    decreases |order|
  {
    if order != [] {
      BestProbeIsOldest(s, now, order[..|order| - 1]);
      assert order == order[..|order| - 1] + [order[|order| - 1]];
    }
  }

  /** The probe-timeout phase of a tick. */
  lemma ProbedFrame(s: State, now: I64, ch: Choices)
    requires ValidChoices(s, now, ch)
    ensures AfterTimeouts(Heartbeat(s, now), Probed(s, now, ch).s, now, TimedOut(s, now))
  {
    var h := Heartbeat(s, now);
    TimeOutAllFrame(h, now, ch.timedOut);
    assert TimedOut(h, now) == TimedOut(s, now);
    assert Elems(ch.timedOut) == TimedOut(s, now);
  }

  /** The probe round touches only the probe bookkeeping, and never targets the local node. */
  lemma ProbeRoundFrame(s: State, now: I64, order: seq<Id>)
    requires Enumerates(order, Probeable(s))
    ensures var t := GenerateProbes(s, now, order).s;
      && t == s.(sequence := t.sequence, pending := t.pending, lastProbe := t.lastProbe)
      && (NoSelfProbe(s) ==> NoSelfProbe(t))
  {
    BestProbeIsOldest(s, now, order);
  }

  /** What any message can touch. */
  lemma MessageFrame(s: State, from: Id, message: Message, now: I64)
    ensures var t := OnMessage(s, from, message, now).s;
      && t == s.(view := t.view, pending := t.pending, failures := t.failures)
      && (message.Ack? ==> t == HandleAck(s, message.n))
      && (!message.Ack? ==> t.pending == s.pending && t.failures == s.failures)
    ensures forall a :: a in OnMessage(s, from, message, now).actions ==>
              a.SendAck? || (a.Broadcast? && a.message.Alive?)
  {
    match message
    case Ping(n) =>
    case Ack(n) =>
    case Suspect(id, incarnation) =>
    case Alive(register) =>
    case Leave(id, incarnation) =>
  }

  /** What a tick can touch, phase by phase. */
  lemma TickFrame(s: State, now: I64, ch: Choices)
    requires ValidChoices(s, now, ch)
    ensures var p, j, t := Probed(s, now, ch).s, Judged(s, now, ch).s, Tick(s, now, ch).s;
      && p == s.(view := p.view, pending := s.pending - TimedOut(s, now), failures := p.failures)
      && j == p.(view := j.view, since := UpdateTimers(p, now))
      && t == j.(sequence := t.sequence, pending := t.pending, lastProbe := t.lastProbe)
  {
    ProbedFrame(s, now, ch);
    CheckSuspectsFrame(Probed(s, now, ch).s, now, ch.suspected);
    ProbeRoundFrame(Judged(s, now, ch).s, now, ch.active);
  }

  lemma StepFrame(s: State, e: Event)
    requires Enabled(s, e)
    ensures Step(s, e).s.local == s.local && Step(s, e).s.config == s.config
  {
    match e
    case TickAt(now, ch) => TickFrame(s, now, ch);
    case Receive(from, message, now) => MessageFrame(s, from, message, now);
    case LeaveLocal(now) =>
    case Annotate(annotations, now) =>
  }

  lemma {:induction false} ConfigFixed(s: State, es: seq<Event>, k: nat)
    requires IsRun(s, es) && k <= |es|
    ensures At(s, es, k).config == s.config && At(s, es, k).local == s.local
  {
    if k > 0 {
      ConfigFixed(s, es, k - 1);
      AtNext(s, es, k - 1);
      StepFrame(At(s, es, k - 1), es[k - 1]);
    }
  }

  // ----- the lifecycle of the local register -----

  /** The local node is present, keyed, and either Active or Leaving; no probe targets it. */
  ghost predicate LocalOk(s: State) {
    && Keyed(s.view.members)
    && s.local in s.view.members
    && (s.view.members[s.local].state.Active? || s.view.members[s.local].state.Leaving?)
    && NoSelfProbe(s)
  }

  function Own(s: State): Register
    requires s.local in s.view.members
  {
    s.view.members[s.local]
  }

  /** No member disappears and no order key goes down. */
  ghost predicate KeysGrow(s: State, t: State) {
    forall id :: id in s.view.members ==>
      id in t.view.members && t.view.members[id].KeyAtLeast(s.view.members[id])
  }

  ghost predicate LocalStep(s: State, t: State, leaving: bool)
    requires s.local in s.view.members
  {
    && LocalOk(t) && t.local == s.local && t.config == s.config
    && KeysGrow(s, t)
    && (Own(s).state.Active? && !leaving ==> Own(t).state.Active?)
    && (Own(s).state.Leaving? || leaving ==> Own(t).state.Leaving? && Own(t).incarnation == Own(s).incarnation)
  }

  lemma KeysGrowTransitive(s: State, t: State, u: State)
    requires KeysGrow(s, t) && KeysGrow(t, u)
    ensures KeysGrow(s, u)
  {
    forall id | id in s.view.members ensures id in u.view.members && u.view.members[id].KeyAtLeast(s.view.members[id]) {
      KeyAtLeastTransitive(u.view.members[id], t.view.members[id], s.view.members[id]);
    }
  }

  lemma HeartbeatLocal(s: State, now: I64)
    requires LocalOk(s)
    ensures LocalStep(s, Heartbeat(s, now), false)
  {
  }

  lemma TimeoutsGrowKeys(s: State, t: State, now: I64, gone: set<U64>)
    requires LocalOk(s) && AfterTimeouts(s, t, now, gone)
    ensures LocalOk(t) && KeysGrow(s, t) && Own(t) == Own(s)
  {
  }

  lemma VerdictsGrowKeys(s: State, now: I64, order: seq<Id>)
    requires LocalOk(s) && Enumerates(order, Suspects(s))
    ensures var t := CheckSuspects(s, now, order).s;
      && t == s.(view := t.view, since := t.since)
      && LocalOk(t) && KeysGrow(s, t) && Own(t) == Own(s)
  {
    CheckSuspectsFrame(s, now, order);
    var t := CheckSuspects(s, now, order).s;
    forall id | id in s.view.members ensures t.view.members[id].KeyAtLeast(s.view.members[id]) {
      TransitionsRaiseKey(s.view.members[id], now, "");
    }
  }

  lemma LocalStepCompose(s: State, t: State, u: State)
    requires LocalOk(s) && LocalStep(s, t, false) && LocalOk(u)
    requires u.local == t.local && u.config == t.config && KeysGrow(t, u) && Own(u) == Own(t)
    ensures LocalStep(s, u, false)
  {
    KeysGrowTransitive(s, t, u);
  }

  lemma TickLocal(s: State, now: I64, ch: Choices)
    requires LocalOk(s) && ValidChoices(s, now, ch)
    ensures LocalStep(s, Tick(s, now, ch).s, false)
  {
    var h, p, j, t := Heartbeat(s, now), Probed(s, now, ch).s, Judged(s, now, ch).s, Tick(s, now, ch).s;
    HeartbeatLocal(s, now);
    ProbedFrame(s, now, ch);
    TimeoutsGrowKeys(h, p, now, TimedOut(s, now));
    LocalStepCompose(s, h, p);
    VerdictsGrowKeys(p, now, ch.suspected);
    LocalStepCompose(s, p, j);
    ProbeRoundFrame(j, now, ch.active);
    assert t.view == j.view;
    LocalStepCompose(s, j, t);
  }

  lemma MergeLocal(s: State, r: Register)
    requires LocalOk(s) && r.id != s.local
    ensures LocalStep(s, s.(view := s.view.MergeRegister(r)), false)
  {
    if r.id in s.view.members {
      assert s.view.members[r.id].Merge(r).KeyAtLeast(s.view.members[r.id]);
    }
  }

  lemma RefuteLocal(s: State, now: I64)
    requires LocalOk(s) && Own(s).state.Active?
    ensures LocalStep(s, RefuteAndBroadcast(s, now).s, false)
  {
    assert Own(s).Refute(now).KeyAtLeast(Own(s));
  }

  lemma UnchangedLocal(s: State, t: State)
    requires LocalOk(s) && NoSelfProbe(t) && t == s.(pending := t.pending, failures := t.failures)
    ensures LocalStep(s, t, false)
  {
  }

  lemma RumorLocal(s: State, message: Message, now: I64)
    requires LocalOk(s)
    requires message.Suspect? || message.Alive?
    requires (if message.Suspect? then message.id else message.register.id) == s.local
    ensures LocalStep(s, OnMessage(s, s.local, message, now).s, false)
  {
    UnchangedLocal(s, s);
    if Own(s).state.Active? { RefuteLocal(s, now); }
  }

  /** The message is a rumour about the local node that is not older than its own register. */
  ghost predicate Threatens(s: State, m: Message)
    requires s.local in s.view.members
  {
    || (m.Suspect? && m.id == s.local && m.incarnation >= Own(s).incarnation)
    || (m.Alive? && m.register.id == s.local && !m.register.state.Active? && !Own(s).Dominates(m.register))
  }

  /**
   A node refutes exactly the rumours that threaten it while it is Active: it
   then takes the next incarnation, stays Active and broadcasts that register.
   */
  lemma RefutesExactly(s: State, from: Id, m: Message, now: I64)
    requires LocalOk(s) && Own(s).incarnation < U64_MAX
    ensures var o := OnMessage(s, from, m, now);
      && s.local in o.s.view.members
      && (Own(o.s).incarnation != Own(s).incarnation <==> Own(s).state.Active? && Threatens(s, m))
      && (Own(s).state.Active? && Threatens(s, m) ==>
            && Own(o.s).incarnation == Own(s).incarnation + 1 && Own(o.s).state.Active?
            && o.actions == [Broadcast(Alive(Own(o.s)))])
  {
    if AboutLocal(s, m) {
      OwnRumorOutcome(s, from, m, now);
    } else {
      OwnUntouched(s, from, m, now);
    }
  }

  predicate AboutLocal(s: State, m: Message) {
    (m.Suspect? && m.id == s.local) || (m.Alive? && m.register.id == s.local)
  }

  lemma OwnUntouched(s: State, from: Id, m: Message, now: I64)
    requires LocalOk(s) && !AboutLocal(s, m)
    ensures var t := OnMessage(s, from, m, now).s; s.local in t.view.members && t.local == s.local && Own(t) == Own(s)
  {
    match m
    case Ping(n) =>
    case Ack(n) =>
    case Suspect(id, incarnation) =>
    case Alive(register) =>
    case Leave(id, incarnation) =>
  }

  lemma OwnRumorOutcome(s: State, from: Id, m: Message, now: I64)
    requires LocalOk(s) && AboutLocal(s, m)
    ensures OnMessage(s, from, m, now) ==
              if Own(s).state.Active? && Threatens(s, m) then RefuteAndBroadcast(s, now) else Outcome(s, [])
  {
  }

  /** One message: local rumours are refuted or ignored, everything else is merged. */
  lemma MessageLocal(s: State, from: Id, message: Message, now: I64)
    requires LocalOk(s)
    ensures LocalStep(s, OnMessage(s, from, message, now).s, false)
  {
    UnchangedLocal(s, s);
    var m := s.view.members;
    match message
    case Ping(n) =>
    case Ack(n) => UnchangedLocal(s, HandleAck(s, n));
    case Suspect(id, incarnation) =>
      if id == s.local { RumorLocal(s, message, now); }
      else if id in m { MergeLocal(s, m[id].(incarnation := incarnation).Suspect(now)); }
    case Alive(register) =>
      if register.id == s.local { RumorLocal(s, message, now); }
      else { MergeLocal(s, register); }
    case Leave(id, incarnation) =>
      if id != s.local && id in m { MergeLocal(s, m[id].(incarnation := incarnation).Leave(now)); }
  }

  lemma DeclareLeaveLocal(s: State, now: I64)
    requires LocalOk(s)
    ensures LocalStep(s, SwimSpec.LeaveLocal(s, now), true)
  {
    TransitionsRaiseKey(Own(s), now, "");
  }

  lemma ReplaceOwn(s: State, r: Register, version: nat)
    requires LocalOk(s) && r.id == s.local && r.KeyAtLeast(Own(s))
    requires r.state == Own(s).state && r.incarnation == Own(s).incarnation
    ensures LocalStep(s, s.(view := View(s.view.members[s.local := r], version)), false)
  {
  }

  lemma AnnotateLocal(s: State, annotations: StrMap, now: I64)
    requires LocalOk(s)
    ensures LocalStep(s, SwimSpec.Annotate(s, annotations, now).s, false)
  {
    UnchangedLocal(s, s);
    var updated := Own(s).(annotations := annotations).BumpHeartbeat(now);
    var merged := Own(s).Merge(updated);
    MergeKey(Own(s), updated);
    assert merged.id == s.local;
    ReplaceOwn(s, merged, s.view.version + 1);
    assert s.view.MergeRegister(updated) == View(s.view.members[s.local := merged], s.view.version + 1);
  }

  /** Every step keeps the local lifecycle and lowers no key. */
  lemma StepLocal(s: State, e: Event)
    requires LocalOk(s) && Enabled(s, e)
    ensures LocalStep(s, Step(s, e).s, e.LeaveLocal?)
  {
    match e
    case TickAt(now, ch) => TickLocal(s, now, ch);
    case Receive(from, message, now) => MessageLocal(s, from, message, now);
    case LeaveLocal(now) => DeclareLeaveLocal(s, now);
    case Annotate(annotations, now) => AnnotateLocal(s, annotations, now);
  }

  lemma {:induction false} RunLocalOk(s: State, es: seq<Event>, k: nat)
    requires LocalOk(s) && IsRun(s, es) && k <= |es|
    ensures LocalOk(At(s, es, k)) && At(s, es, k).local == s.local
  {
    if k > 0 {
      RunLocalOk(s, es, k - 1);
      AtNext(s, es, k - 1);
      StepLocal(At(s, es, k - 1), es[k - 1]);
    }
  }

  lemma RunStepLocal(s: State, es: seq<Event>, k: nat)
    requires IsRun(s, es) && k < |es| && LocalOk(At(s, es, k))
    ensures LocalStep(At(s, es, k), At(s, es, k + 1), es[k].LeaveLocal?)
  {
    AtNext(s, es, k);
    StepLocal(At(s, es, k), es[k]);
  }

  /**
   Over every run, from any point `i` to any later point `k`: keys only grow;
   the local register is Active as long as no leave was declared, and once
   Leaving it stays Leaving at the same incarnation.
   */
  lemma {:induction false} LocalLifecycle(s: State, es: seq<Event>, i: nat, k: nat)
    requires LocalOk(s) && IsRun(s, es) && i <= k <= |es|
    ensures LocalOk(At(s, es, i)) && LocalOk(At(s, es, k))
    ensures KeysGrow(At(s, es, i), At(s, es, k))
    ensures At(s, es, i).local == At(s, es, k).local == s.local
    ensures Own(At(s, es, i)).state.Active? && (forall j :: i <= j < k ==> !es[j].LeaveLocal?) ==>
              Own(At(s, es, k)).state.Active?
    ensures Own(At(s, es, i)).state.Leaving? ==>
              Own(At(s, es, k)).state.Leaving? && Own(At(s, es, k)).incarnation == Own(At(s, es, i)).incarnation
    decreases k
  {
    RunLivesOn(s, es, i, k);
  }

  /** A leave is declared between `i` and `k`. */
  ghost predicate Declared(es: seq<Event>, i: nat, k: nat)
    requires i <= k <= |es|
  {
    exists j :: i <= j < k && es[j].LeaveLocal?
  }

  /** What the local register and all keys keep from one state to a later one. */
  ghost predicate LivesOn(s: State, t: State, declared: bool) {
    && LocalOk(s) && LocalOk(t) && t.local == s.local && KeysGrow(s, t)
    && (Own(s).state.Active? && !declared ==> Own(t).state.Active?)
    && (Own(s).state.Leaving? ==> Own(t).state.Leaving? && Own(t).incarnation == Own(s).incarnation)
  }

  lemma LivesOnStep(s: State, t: State, u: State, declared: bool, leaving: bool)
    requires LivesOn(s, t, declared) && LocalStep(t, u, leaving)
    ensures LivesOn(s, u, declared || leaving)
  {
    KeysGrowTransitive(s, t, u);
  }

  lemma LivesOnStart(s: State)
    requires LocalOk(s)
    ensures LivesOn(s, s, false)
  {
  }

  lemma {:induction false} RunLivesOn(s: State, es: seq<Event>, i: nat, k: nat)
    requires LocalOk(s) && IsRun(s, es) && i <= k <= |es|
    ensures LivesOn(At(s, es, i), At(s, es, k), Declared(es, i, k)) && At(s, es, i).local == s.local
    decreases k, 0
  {
    RunLocalOk(s, es, i);
    if i == k {
      LivesOnStart(At(s, es, i));
    } else {
      NextLivesOn(s, es, i, k - 1);
      assert Declared(es, i, k) <==> Declared(es, i, k - 1) || es[k - 1].LeaveLocal?;
    }
  }

  lemma {:induction false} NextLivesOn(s: State, es: seq<Event>, i: nat, k: nat)
    requires LocalOk(s) && IsRun(s, es) && i <= k < |es|
    ensures LivesOn(At(s, es, i), At(s, es, k + 1), Declared(es, i, k) || es[k].LeaveLocal?)
    decreases k, 1
  {
    RunLivesOn(s, es, i, k);
    RunStepLocal(s, es, k);
    LivesOnStep(At(s, es, i), At(s, es, k), At(s, es, k + 1), Declared(es, i, k), es[k].LeaveLocal?);
  }
}

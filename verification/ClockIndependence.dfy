/**
 Remote wall clocks cannot influence the detector: two runs whose messages
 differ only in `updated_at_ms` stay equal up to that field.
 */
module ClockIndependence {
  import opened Order
  import opened Registers
  import opened Memberships
  import opened SwimSpec
  import opened SwimRuns

  predicate SimRegister(a: Register, b: Register) { b == a.(updatedAt := b.updatedAt) }

  ghost predicate SimMembers(m: Members, n: Members) {
    m.Keys == n.Keys && forall id :: id in m ==> SimRegister(m[id], n[id])
  }

  ghost predicate SimState(s: State, t: State) {
    t == s.(view := t.view) && t.view.version == s.view.version && SimMembers(s.view.members, t.view.members)
  }

  predicate SimMessage(m: Message, n: Message) {
    if m.Alive? then n.Alive? && SimRegister(m.register, n.register) else m == n
  }

  predicate SimAction(a: Action, b: Action) {
    if a.Broadcast? then b.Broadcast? && SimMessage(a.message, b.message) else a == b
  }

  ghost predicate SimActions(a: seq<Action>, b: seq<Action>) {
    |a| == |b| && forall i :: 0 <= i < |a| ==> SimAction(a[i], b[i])
  }

  ghost predicate SimOutcome(o: Outcome, p: Outcome) {
    SimState(o.s, p.s) && SimActions(o.actions, p.actions)
  }

  /** Same event, except for the timestamps inside a received register. */
  predicate SimEvent(e: Event, f: Event) {
    if e.Receive? then f == Receive(e.from, if f.Receive? then f.message else e.message, e.now) && SimMessage(e.message, f.message)
    else e == f
  }

  lemma SimMerge(a: Register, a': Register, b: Register, b': Register)
    requires SimRegister(a, a') && SimRegister(b, b')
    ensures SimRegister(a.Merge(b), a'.Merge(b'))
  {
  }

  lemma SimMergeRegister(s: State, t: State, r: Register, q: Register)
    requires SimState(s, t) && SimRegister(r, q)
    ensures SimState(s.(view := s.view.MergeRegister(r)), t.(view := t.view.MergeRegister(q)))
  {
    if r.id in s.view.members {
      SimMerge(s.view.members[r.id], t.view.members[r.id], r, q);
    }
  }

  lemma SimRefute(s: State, t: State, now: I64)
    requires SimState(s, t)
    ensures SimOutcome(RefuteAndBroadcast(s, now), RefuteAndBroadcast(t, now))
  {
  }

  lemma SimRumor(s: State, t: State, m: Message, n: Message, from: Id, now: I64)
    requires SimState(s, t) && SimMessage(m, n)
    requires (m.Suspect? && m.id == s.local) || (m.Alive? && m.register.id == s.local)
    ensures SimOutcome(OnMessage(s, from, m, now), OnMessage(t, from, n, now))
  {
    SimRefute(s, t, now);
  }

  lemma SimReport(s: State, t: State, id: Id, i: U64, now: I64)
    requires SimState(s, t) && id != s.local
    ensures SimOutcome(HandleSuspect(s, id, i, now), HandleSuspect(t, id, i, now))
    ensures SimState(HandleLeave(s, id, i, now), HandleLeave(t, id, i, now))
  {
    var a, b := s.view.members, t.view.members;
    if id in a {
      SimMergeRegister(s, t, a[id].(incarnation := i).Suspect(now), b[id].(incarnation := i).Suspect(now));
      SimMergeRegister(s, t, a[id].(incarnation := i).Leave(now), b[id].(incarnation := i).Leave(now));
    }
  }

  lemma SimOnMessage(s: State, t: State, from: Id, m: Message, n: Message, now: I64)
    requires SimState(s, t) && SimMessage(m, n)
    ensures SimOutcome(OnMessage(s, from, m, now), OnMessage(t, from, n, now))
  {
    match m
    case Ping(k) =>
    case Ack(k) =>
    case Suspect(id, i) =>
      if id == s.local { SimRumor(s, t, m, n, from, now); } else { SimReport(s, t, id, i, now); }
    case Alive(register) =>
      if register.id == s.local { SimRumor(s, t, m, n, from, now); } else { SimMergeRegister(s, t, register, n.register); }
    case Leave(id, i) =>
      if id != s.local { SimReport(s, t, id, i, now); }
  }

  lemma SimAppend(a: seq<Action>, b: seq<Action>, a': seq<Action>, b': seq<Action>)
    requires SimActions(a, a') && SimActions(b, b')
    ensures SimActions(a + b, a' + b')
  {
  }

  lemma SimMarkSuspected(s: State, t: State, target: Id, now: I64)
    requires SimState(s, t)
    ensures SimOutcome(MarkSuspected(s, target, now), MarkSuspected(t, target, now))
  {
    var a, b := s.view.Suspect(target, now), t.view.Suspect(target, now);
    assert SimMembers(a.members, b.members) && a.version == b.version;
  }

  lemma SimTimeOutOne(s: State, t: State, now: I64, n: U64)
    requires SimState(s, t)
    ensures SimOutcome(TimeOutOne(s, now, n), TimeOutOne(t, now, n))
  {
    if n in s.pending {
      var rest := s.pending - {n};
      SimMarkSuspected(s.(pending := rest), t.(pending := rest), s.pending[n].target, now);
    }
  }

  lemma {:induction false} SimTimeOutAll(s: State, t: State, now: I64, order: seq<U64>)
    requires SimState(s, t)
    ensures SimOutcome(TimeOutAll(s, now, order), TimeOutAll(t, now, order))
    decreases |order|
  {
    if order != [] {
      var init, n := order[..|order| - 1], order[|order| - 1];
      SimTimeOutAll(s, t, now, init);
      var a, b := TimeOutAll(s, now, init), TimeOutAll(t, now, init);
      SimTimeOutOne(a.s, b.s, now, n);
      SimAppend(a.actions, TimeOutOne(a.s, now, n).actions, b.actions, TimeOutOne(b.s, now, n).actions);
    }
  }

  lemma SimSuspects(s: State, t: State, now: I64)
    requires SimState(s, t)
    ensures Suspects(s) == Suspects(t) && UpdateTimers(s, now) == UpdateTimers(t, now)
    ensures Probeable(s) == Probeable(t)
    ensures TimedOut(s, now) == TimedOut(t, now)
  {
  }

  lemma {:induction false} SimExpired(s: State, t: State, now: I64, order: seq<Id>)
    requires SimState(s, t)
    ensures ExpiredAmong(s, now, order) == ExpiredAmong(t, now, order)
    decreases |order|
  {
    if order != [] {
      SimExpired(s, t, now, order[..|order| - 1]);
      SimSuspects(s, t, now);
    }
  }

  lemma SimGoOffline(s: State, t: State, now: I64, id: Id)
    requires SimState(s, t)
    ensures SimState(s.(view := s.view.GoOffline(id, now)), t.(view := t.view.GoOffline(id, now)))
  {
  }

  lemma {:induction false} SimOfflineAll(s: State, t: State, now: I64, ids: seq<Id>)
    requires SimState(s, t)
    ensures SimOutcome(OfflineAll(s, now, ids), OfflineAll(t, now, ids))
    decreases |ids|
  {
    if ids != [] {
      var init, id := ids[..|ids| - 1], ids[|ids| - 1];
      SimOfflineAll(s, t, now, init);
      SimGoOffline(OfflineAll(s, now, init).s, OfflineAll(t, now, init).s, now, id);
    }
  }

  lemma {:induction false} SimBest(s: State, t: State, now: I64, order: seq<Id>)
    requires SimState(s, t)
    ensures BestProbe(s, now, order) == BestProbe(t, now, order)
    decreases |order|
  {
    if order != [] {
      SimBest(s, t, now, order[..|order| - 1]);
      var id := order[|order| - 1];
      assert HasPending(s, id) <==> HasPending(t, id);
    }
  }

  lemma SimHeartbeat(s: State, t: State, now: I64)
    requires SimState(s, t)
    ensures SimState(Heartbeat(s, now), Heartbeat(t, now))
  {
  }

  lemma SimProbed(s: State, t: State, now: I64, ch: Choices)
    requires SimState(s, t)
    ensures SimOutcome(Probed(s, now, ch), Probed(t, now, ch))
  {
    SimHeartbeat(s, t, now);
    SimTimeOutAll(Heartbeat(s, now), Heartbeat(t, now), now, ch.timedOut);
  }

  lemma SimJudged(s: State, t: State, now: I64, ch: Choices)
    requires SimState(s, t)
    ensures SimOutcome(Judged(s, now, ch), Judged(t, now, ch))
  {
    SimProbed(s, t, now, ch);
    var p, q := Probed(s, now, ch).s, Probed(t, now, ch).s;
    SimSuspects(p, q, now);
    SimExpired(p, q, now, ch.suspected);
    var timers := UpdateTimers(p, now);
    SimOfflineAll(p.(since := timers), q.(since := timers), now, ExpiredAmong(p, now, ch.suspected));
  }

  lemma SimTick(s: State, t: State, now: I64, ch: Choices)
    requires SimState(s, t)
    ensures SimOutcome(Tick(s, now, ch), Tick(t, now, ch))
  {
    SimProbed(s, t, now, ch);
    SimJudged(s, t, now, ch);
    var p, q := Probed(s, now, ch), Probed(t, now, ch);
    var j, k := Judged(s, now, ch), Judged(t, now, ch);
    SimBest(j.s, k.s, now, ch.active);
    SimAppend(p.actions, j.actions, q.actions, k.actions);
    SimAppend(p.actions + j.actions, GenerateProbes(j.s, now, ch.active).actions,
              q.actions + k.actions, GenerateProbes(k.s, now, ch.active).actions);
  }

  lemma SimValid(s: State, t: State, now: I64, ch: Choices)
    requires SimState(s, t) && ValidChoices(s, now, ch)
    ensures ValidChoices(t, now, ch)
  {
    SimHeartbeat(s, t, now);
    SimProbed(s, t, now, ch);
    SimJudged(s, t, now, ch);
    SimSuspects(Heartbeat(s, now), Heartbeat(t, now), now);
    SimSuspects(Probed(s, now, ch).s, Probed(t, now, ch).s, now);
    SimSuspects(Judged(s, now, ch).s, Judged(t, now, ch).s, now);
  }

  lemma SimAnnotate(s: State, t: State, annotations: StrMap, now: I64)
    requires SimState(s, t)
    ensures SimOutcome(SwimSpec.Annotate(s, annotations, now), SwimSpec.Annotate(t, annotations, now))
  {
    var a, b := s.view.members, t.view.members;
    if s.local in a {
      SimMergeRegister(s, t, a[s.local].(annotations := annotations).BumpHeartbeat(now),
                       b[s.local].(annotations := annotations).BumpHeartbeat(now));
    }
  }

  lemma SimStep(s: State, t: State, e: Event, f: Event)
    requires SimState(s, t) && SimEvent(e, f) && Enabled(s, e)
    ensures Enabled(t, f)
    ensures SimOutcome(Step(s, e), Step(t, f))
  {
    match e
    case TickAt(now, ch) => SimValid(s, t, now, ch); SimTick(s, t, now, ch);
    case Receive(from, message, now) => SimOnMessage(s, t, from, message, f.message, now);
    case LeaveLocal(now) =>
    case Annotate(annotations, now) => SimAnnotate(s, t, annotations, now);
  }

  lemma {:induction false} SimRun(s: State, t: State, es: seq<Event>, fs: seq<Event>, k: nat)
    requires SimState(s, t) && |es| == |fs| && IsRun(s, es) && k <= |es|
    requires forall i :: 0 <= i < |es| ==> SimEvent(es[i], fs[i])
    ensures SimState(At(s, es, k), At(t, fs, k))
  {
    if k > 0 {
      SimRun(s, t, es, fs, k - 1);
      AtNext(s, es, k - 1);
      AtNext(t, fs, k - 1);
      SimStep(At(s, es, k - 1), At(t, fs, k - 1), es[k - 1], fs[k - 1]);
    }
  }

  /**
   Replacing the timestamps inside any received registers yields another run,
   whose states, verdicts and actions agree with the first up to timestamps.
   */
  lemma ClocksDoNotMatter(s: State, t: State, es: seq<Event>, fs: seq<Event>)
    requires SimState(s, t) && |es| == |fs| && IsRun(s, es)
    requires forall i :: 0 <= i < |es| ==> SimEvent(es[i], fs[i])
    ensures IsRun(t, fs)
    ensures forall k :: 0 <= k <= |es| ==> SimState(At(s, es, k), At(t, fs, k))
    ensures forall k :: 0 <= k < |es| ==>
              SimActions(Step(At(s, es, k), es[k]).actions, Step(At(t, fs, k), fs[k]).actions)
  {
    forall k | 0 <= k <= |es|
      ensures SimState(At(s, es, k), At(t, fs, k))
      ensures k < |es| ==> Enabled(At(t, fs, k), fs[k])
      ensures k < |es| ==> SimActions(Step(At(s, es, k), es[k]).actions, Step(At(t, fs, k), fs[k]).actions)
    {
      SimRun(s, t, es, fs, k);
      if k < |es| { SimStep(At(s, es, k), At(t, fs, k), es[k], fs[k]); }
    }
  }
}

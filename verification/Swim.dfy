/**
 `Swim` itself: a mutable instance whose methods are proved against the
 transition functions of `SwimSpec`. Collections that the original iterates in
 hash order are visited in an arbitrary order, returned as a ghost result.
 */
module SwimInstance {
  import opened Options
  import opened Registers
  import opened Memberships
  import opened SwimSpec

  lemma ExpiredAmongStep(s: State, now: I64, order: seq<Id>, id: Id)
    ensures ExpiredAmong(s, now, order + [id])
         == ExpiredAmong(s, now, order) + if Expired(s, now, id) then [id] else []
  {
    assert (order + [id])[..|order|] == order;
  }

  /** The timers once the members in `ids` have been visited. */
  ghost function Timers(s: State, ids: set<Id>, now: I64): map<Id, I64> {
    map id | id in ids :: if id in s.since then s.since[id] else now
  }

  lemma TimersStep(s: State, ids: set<Id>, id: Id, now: I64)
    requires id in ids ==> id in s.since
    ensures Timers(s, ids + {id}, now)
         == if id in ids then Timers(s, ids, now) else Timers(s, ids, now)[id := if id in s.since then s.since[id] else now]
  {
  }

  /** The loop over the suspects: start missing timers, collect the expired ids. */
  method VisitSuspects(ghost s: State, suspected: set<Id>, kept: map<Id, I64>, config: Config, now: I64)
    returns (timers: map<Id, I64>, expired: seq<Id>, ghost order: seq<Id>)
    requires suspected == Suspects(s) && config == s.config
    requires kept == map id | id in s.since && id in suspected :: s.since[id]
    ensures timers == UpdateTimers(s, now)
    ensures Enumerates(order, suspected)
    ensures expired == ExpiredAmong(s, now, order)
  {
    timers, expired, order := kept, [], [];
    var todo := suspected;
    ghost var seen := kept.Keys;
    while todo != {}
      invariant kept.Keys <= seen <= suspected && suspected - todo <= seen && seen - kept.Keys <= suspected - todo
      invariant timers == Timers(s, seen, now)
      invariant Enumerates(order, suspected - todo) && todo <= suspected
      invariant expired == ExpiredAmong(s, now, order)
      decreases todo
    {
      var id :| id in todo;
      TimersStep(s, seen, id, now);
      ExpiredAmongStep(s, now, order, id);
      todo, seen, order := todo - {id}, seen + {id}, order + [id];
      if id !in timers { timers := timers[id := now]; }
      if SubI(now, timers[id]) >= TimeoutI(config) { expired := expired + [id]; }
    }
    assert seen == suspected;
  }

  lemma BestProbeStep(s: State, now: I64, order: seq<Id>, id: Id)
    ensures BestProbe(s, now, order + [id]) ==
              (var best := BestProbe(s, now, order);
               if !HasPending(s, id) && Gap(s, now, id) >= s.config.pingInterval && Gap(s, now, id) > best.gap
               then Best(Some(id), Gap(s, now, id)) else best)
  {
    assert (order + [id])[..|order|] == order;
  }

  /** The loop over the active peers: keep the first one with the largest gap. */
  method ChooseProbe(ghost s: State, active: set<Id>, pending: map<U64, Pending>, lastProbe: map<Id, U64>, config: Config, now: I64)
    returns (candidate: Option<Id>, ghost order: seq<Id>)
    requires active == Probeable(s) && pending == s.pending && lastProbe == s.lastProbe && config == s.config
    ensures Enumerates(order, active)
    ensures candidate == BestProbe(s, now, order).candidate
  {
    var oldestGap: U64 := 0;
    candidate, order := None, [];
    var todo := active;
    while todo != {}
      invariant todo <= active && Enumerates(order, active - todo)
      invariant Best(candidate, oldestGap) == BestProbe(s, now, order)
      decreases todo
    {
      var target :| target in todo;
      BestProbeStep(s, now, order, target);
      todo, order := todo - {target}, order + [target];
      if !exists n :: n in pending && pending[n].target == target {
        var last := if target in lastProbe then lastProbe[target] else 0;
        var gap := SubU(NowU(now), last);
        if gap >= config.pingInterval && gap > oldestGap {
          oldestGap, candidate := gap, Some(target);
        }
      }
    }
  }

  class Swim {
    const local: Id
    const config: Config
    const membership: Membership
    var failures: map<Id, nat>
    var sequence: U64
    var pending: map<U64, Pending>
    var lastProbe: map<Id, U64>
    var since: map<Id, I64>

    ghost predicate Valid() reads this, membership { membership.Valid() }

    ghost function S(): State reads this, membership {
      State(local, config, membership.V(), failures, sequence, pending, lastProbe, since)
    }

    constructor (local: Id, config: Config, register: Register)
      ensures Valid() && fresh(membership)
      ensures S() == New(local, config, register)
    {
      this.local, this.config := local, config;
      membership := new Membership();
      failures, sequence, pending, lastProbe, since := map[], 0, map[], map[], map[];
      new;
      membership.MergeRegister(register);
    }

    method OnMessage(from: Id, message: Message, now: I64) returns (actions: seq<Action>)
      requires Valid()
      modifies this, membership
      ensures Valid()
      ensures Outcome(S(), actions) == SwimSpec.OnMessage(old(S()), from, message, now)
    {
      actions := [];
      match message
      case Ping(n) => actions := [SendAck(from, n)];
      case Ack(n) => HandleAck(n);
      case Suspect(id, incarnation) => actions := HandleSuspectState(id, incarnation, now);
      case Alive(register) => actions := HandleAliveState(register, now);
      case Leave(id, incarnation) => HandleLeaveState(id, incarnation, now);
    }

    method HandleAck(n: U64)
      requires Valid()
      modifies this
      ensures S() == SwimSpec.HandleAck(old(S()), n)
    {
      if n in pending {
        var target := pending[n].target;
        pending := pending - {n};
        failures := failures - {target};
      }
    }

    method HandleSuspectState(id: Id, incarnation: U64, now: I64) returns (actions: seq<Action>)
      requires Valid()
      modifies this, membership
      ensures Valid()
      ensures Outcome(S(), actions) == HandleSuspect(old(S()), id, incarnation, now)
    {
      actions := [];
      if id == local {
        if id in membership.members && !membership.members[id].state.Leaving?
           && incarnation >= membership.members[id].incarnation {
          actions := RefuteAndBroadcast(now);
        }
        return;
      }
      if id in membership.members {
        var register := membership.members[id];
        if register.incarnation > incarnation { return; }
        register := register.(incarnation := incarnation).Suspect(now);
        membership.MergeRegister(register);
      }
    }

    method HandleAliveState(register: Register, now: I64) returns (actions: seq<Action>)
      requires Valid()
      modifies this, membership
      ensures Valid()
      ensures Outcome(S(), actions) == HandleAlive(old(S()), register, now)
    {
      actions := [];
      if register.id == local {
        actions := RefuteIfDominated(register, now);
      } else {
        membership.MergeRegister(register);
      }
    }

    method RefuteIfDominated(rumor: Register, now: I64) returns (actions: seq<Action>)
      requires Valid()
      modifies this, membership
      ensures Valid()
      ensures Outcome(S(), actions) == SwimSpec.RefuteIfDominated(old(S()), rumor, now)
    {
      actions := [];
      if rumor.state.Active? || local !in membership.members { return; }
      var own := membership.members[local];
      if own.state.Leaving? || own.Dominates(rumor) { return; }
      actions := RefuteAndBroadcast(now);
    }

    method RefuteAndBroadcast(now: I64) returns (actions: seq<Action>)
      requires Valid()
      modifies this, membership
      ensures Valid()
      ensures Outcome(S(), actions) == SwimSpec.RefuteAndBroadcast(old(S()), now)
    {
      var found := membership.Refute(local, now);
      actions := if local in membership.members then [Broadcast(Alive(membership.members[local]))] else [];
    }

    method HandleLeaveState(id: Id, incarnation: U64, now: I64)
      requires Valid()
      modifies this, membership
      ensures Valid()
      ensures S() == HandleLeave(old(S()), id, incarnation, now)
    {
      if id == local || id !in membership.members { return; }
      var register := membership.members[id];
      if register.incarnation > incarnation { return; }
      register := register.(incarnation := incarnation).Leave(now);
      membership.MergeRegister(register);
    }

    method MarkSuspected(target: Id, now: I64) returns (actions: seq<Action>)
      requires Valid()
      modifies this, membership
      ensures Valid()
      ensures Outcome(S(), actions) == SwimSpec.MarkSuspected(old(S()), target, now)
    {
      actions := [];
      failures := failures[target := if target in failures then failures[target] + 1 else 1];
      if failures[target] < config.failureThreshold { return; }
      failures := failures - {target};
      assert failures == old(failures) - {target};
      var changed, incarnation := membership.Suspect(target, now);
      if changed {
        actions := [Broadcast(Suspect(target, incarnation))];
      }
    }

    method CheckTimeouts(now: I64) returns (actions: seq<Action>, ghost order: seq<U64>)
      requires Valid()
      modifies this, membership
      ensures Valid()
      ensures Enumerates(order, TimedOut(old(S()), now))
      ensures Outcome(S(), actions) == TimeOutAll(old(S()), now, order)
    {
      var todo := set n | n in pending && SubU(NowU(now), pending[n].sentAt) >= config.pingTimeout;
      assert todo == TimedOut(old(S()), now);
      actions, order := [], [];
      while todo != {}
        invariant Valid()
        invariant Outcome(S(), actions) == TimeOutAll(old(S()), now, order)
        invariant forall i, j :: 0 <= i < j < |order| ==> order[i] != order[j]
        invariant forall n :: n in TimedOut(old(S()), now) <==> n in order || n in todo
        invariant forall n :: n in order ==> n !in todo
        decreases todo
      {
        var n :| n in todo;
        todo := todo - {n};
        var more := [];
        if n in pending {
          var target := pending[n].target;
          pending := pending - {n};
          more := MarkSuspected(target, now);
        }
        actions := actions + more;
        order := order + [n];
        assert order[..|order| - 1] + [n] == order;
      }
    }

    method CheckSuspectTimeouts(now: I64) returns (actions: seq<Action>, ghost order: seq<Id>)
      requires Valid()
      modifies this, membership
      ensures Valid()
      ensures Enumerates(order, Suspects(old(S())))
      ensures Outcome(S(), actions) == CheckSuspects(old(S()), now, order)
    {
      var expired;
      expired, order := StartTimers(now);
      actions := [];
      ghost var mid := S();
      for k := 0 to |expired|
        invariant Valid()
        invariant Outcome(S(), actions) == OfflineAll(mid, now, expired[..k])
      {
        var id := expired[k];
        assert expired[..k + 1][..k] == expired[..k];
        var found := membership.GoOffline(id, now);
        if found && id in membership.members {
          actions := actions + [Broadcast(Alive(membership.members[id]))];
        }
      }
      assert expired[..|expired|] == expired;
    }

    /** Retain and start the suspicion timers, and collect the expired members in visiting order. */
    method StartTimers(now: I64) returns (expired: seq<Id>, ghost order: seq<Id>)
      requires Valid()
      modifies `since
      ensures S() == old(S()).(since := UpdateTimers(old(S()), now))
      ensures Enumerates(order, Suspects(old(S())))
      ensures expired == ExpiredAmong(old(S()), now, order)
    {
      var suspected := set id | id in membership.members && id != local && membership.members[id].state.Suspected?;
      var kept := map id | id in since && id in suspected :: since[id];
      since, expired, order := VisitSuspects(S(), suspected, kept, config, now);
    }

    method GenerateProbes(now: I64) returns (actions: seq<Action>, ghost order: seq<Id>)
      requires Valid()
      modifies this
      ensures Valid()
      ensures Enumerates(order, Probeable(old(S())))
      ensures Outcome(S(), actions) == SwimSpec.GenerateProbes(old(S()), now, order)
    {
      var active := set id | id in membership.members && id != local && membership.members[id].state.IsActive();
      var candidate;
      candidate, order := ChooseProbe(S(), active, pending, lastProbe, config, now);
      actions := [];
      match candidate
      case None =>
      case Some(target) => actions := SendPingTo(target, now);
    }

    method SendPingTo(target: Id, now: I64) returns (actions: seq<Action>)
      requires Valid()
      modifies this
      ensures Valid()
      ensures Outcome(S(), actions) == SwimSpec.SendPingTo(old(S()), target, now)
    {
      sequence := Wrap(sequence);
      pending := pending[sequence := Pending(target, NowU(now))];
      lastProbe := lastProbe[target := NowU(now)];
      actions := [SendPing(target, sequence)];
    }

    method Tick(now: I64) returns (actions: seq<Action>, ghost ch: Choices)
      requires Valid()
      modifies this, membership
      ensures Valid()
      ensures ValidChoices(old(S()), now, ch)
      ensures Outcome(S(), actions) == SwimSpec.Tick(old(S()), now, ch)
    {
      var found := membership.Heartbeat(local, now);
      var timeouts, o1 := CheckTimeouts(now);
      var verdicts, o2 := CheckSuspectTimeouts(now);
      var probes, o3 := GenerateProbes(now);
      ch := Choices(o1, o2, o3);
      actions := timeouts + verdicts + probes;
    }
  }
}

/** When a suspicion becomes an Offline verdict, in terms of what the ticks observed. */
module SuspicionTimer {
  import opened Options
  import opened Registers
  import opened Memberships
  import opened SwimSpec
  import opened SwimRuns

  // ----- observation histories of one peer -----

  /** What an event tells about one peer: nothing, or whether a tick found it Suspected. */
  datatype Observation = Quiet | Seen(now: I64, suspected: bool)

  /** Index `j` is a tick, and every tick from `j` on found the peer Suspected. */
  ghost predicate Stretch(obs: seq<Observation>, j: int) {
    0 <= j < |obs| && obs[j].Seen? && forall i :: j <= i < |obs| && obs[i].Seen? ==> obs[i].suspected
  }

  ghost predicate Steady(obs: seq<Observation>) {
    forall i, j :: 0 <= i < j < |obs| && obs[i].Seen? && obs[j].Seen? ==> obs[i].now <= obs[j].now
  }

  function Advance(before: Option<I64>, o: Observation): Option<I64> {
    match o
    case Quiet => before
    case Seen(now, suspected) => if !suspected then None else if before.Some? then before else Some(now)
  }

  /** The timer the detector keeps after a history of observations. */
  function Timer(obs: seq<Observation>): Option<I64>
    decreases |obs|
  {
    if obs == [] then None
    else Advance(Timer(obs[..|obs| - 1]), obs[|obs| - 1])
  }

  /** A tick that finds the peer Suspected, or no tick at all, ends no stretch. */
  lemma StretchExtends(init: seq<Observation>, last: Observation)
    requires last.Seen? ==> last.suspected
    ensures forall j :: j < |init| ==> (Stretch(init + [last], j) <==> Stretch(init, j))
  {
    var obs := init + [last];
    forall j | 0 <= j < |init| ensures Stretch(obs, j) <==> Stretch(init, j) {
      assert obs[j] == init[j];
      if Stretch(obs, j) {
        forall i | j <= i < |init| && init[i].Seen? ensures init[i].suspected { assert obs[i] == init[i]; }
      }
    }
  }

  /** The timer holds the time at which the longest current stretch began. */
  lemma {:induction false} TimerIsLongestStretch(obs: seq<Observation>)
    requires Steady(obs)
    ensures Timer(obs).None? ==> forall j :: !Stretch(obs, j)
    ensures Timer(obs).Some? ==> exists j :: Stretch(obs, j) && obs[j].now == Timer(obs).value
    ensures Timer(obs).Some? ==> forall j :: Stretch(obs, j) ==> Timer(obs).value <= obs[j].now
    decreases |obs|
  {
    if obs != [] {
      var init, last := obs[..|obs| - 1], obs[|obs| - 1];
      assert obs == init + [last];
      TimerIsLongestStretch(init);
      if last.Seen? && !last.suspected {
        assert forall j :: !Stretch(obs, j);
      } else {
        StretchExtends(init, last);
        if last.Seen? { assert Stretch(obs, |init|); }
        if Timer(init).Some? {
          var j :| Stretch(init, j) && init[j].now == Timer(init).value;
          assert Stretch(obs, j);
        }
      }
    }
  }

  // ----- the histories a run produces -----

  /** Whether the tick `e` finds `x` Suspected when it inspects the timers. */
  function Observe(s: State, e: Event, x: Id): Observation {
    if e.TickAt? then Seen(e.now, x in Suspects(Probed(s, e.now, e.ch).s)) else Quiet
  }

  function History(s: State, es: seq<Event>, x: Id): (obs: seq<Observation>)
    ensures |obs| == |es|
    ensures forall i :: 0 <= i < |es| ==> obs[i] == Observe(At(s, es, i), es[i], x)
  {
    seq(|es|, i requires 0 <= i < |es| => Observe(At(s, es, i), es[i], x))
  }

  function TimerIn(s: State, x: Id): Option<I64> { if x in s.since then Some(s.since[x]) else None }

  lemma StepTimer(s: State, e: Event, x: Id)
    requires Enabled(s, e)
    ensures TimerIn(Step(s, e).s, x) == Advance(TimerIn(s, x), Observe(s, e, x))
  {
    match e
    case TickAt(now, ch) => TickFrame(s, now, ch);
    case Receive(from, message, now) => MessageFrame(s, from, message, now);
    case LeaveLocal(now) =>
    case Annotate(annotations, now) =>
  }

  lemma RunTimer(s: State, es: seq<Event>, i: nat, x: Id)
    requires IsRun(s, es) && i < |es|
    ensures TimerIn(At(s, es, i + 1), x) == Advance(TimerIn(At(s, es, i), x), History(s, es, x)[i])
  {
    AtNext(s, es, i);
    StepTimer(At(s, es, i), es[i], x);
  }

  lemma TimerStep(obs: seq<Observation>, i: nat)
    requires i < |obs|
    ensures Timer(obs[..i + 1]) == Advance(Timer(obs[..i]), obs[i])
  {
    assert obs[..i + 1][..i] == obs[..i];
  }

  /** `suspected_since_ms` is the timer of the observation history. */
  lemma {:induction false} TimerFollowsHistory(s: State, es: seq<Event>, k: nat, x: Id)
    requires s.since == map[] && IsRun(s, es) && k <= |es|
    ensures TimerIn(At(s, es, k), x) == Timer(History(s, es, x)[..k])
  {
    if k > 0 {
      TimerFollowsHistory(s, es, k - 1, x);
      RunTimer(s, es, k - 1, x);
      TimerStep(History(s, es, x), k - 1);
    }
  }

  ghost predicate SteadyClock(es: seq<Event>) {
    forall i, j :: 0 <= i < j < |es| && es[i].TickAt? && es[j].TickAt? ==> es[i].now <= es[j].now
  }

  /** The tick moves `x` from Suspected to Offline. */
  predicate JudgedOffline(s: State, now: I64, ch: Choices, x: Id) {
    && x in Suspects(Probed(s, now, ch).s)
    && x in Tick(s, now, ch).s.view.members
    && Tick(s, now, ch).s.view.members[x].state.Offline?
  }

  lemma JudgedOfflineIffExpired(s: State, now: I64, ch: Choices, x: Id)
    requires ValidChoices(s, now, ch)
    ensures x in Suspects(Probed(s, now, ch).s) ==> TimerIn(Tick(s, now, ch).s, x).Some?
    ensures JudgedOffline(s, now, ch, x)
        <==> x in Suspects(Probed(s, now, ch).s)
             && now - TimerIn(Tick(s, now, ch).s, x).value >= TimeoutI(s.config)
  {
    TickFrame(s, now, ch);
    CheckSuspectsFrame(Probed(s, now, ch).s, now, ch.suspected);
  }

  lemma RunJudges(s: State, es: seq<Event>, k: nat, x: Id)
    requires s.since == map[] && IsRun(s, es) && k < |es| && es[k].TickAt?
    ensures var obs := History(s, es, x)[..k + 1];
      && obs[k] == Seen(es[k].now, x in Suspects(Probed(At(s, es, k), es[k].now, es[k].ch).s))
      && (obs[k].suspected ==> Timer(obs).Some?)
      && (JudgedOffline(At(s, es, k), es[k].now, es[k].ch, x)
          <==> obs[k].suspected && es[k].now - Timer(obs).value >= TimeoutI(s.config))
  {
    TimerFollowsHistory(s, es, k + 1, x);
    ConfigFixed(s, es, k);
    AtNext(s, es, k);
    JudgedOfflineIffExpired(At(s, es, k), es[k].now, es[k].ch, x);
  }

  lemma HistorySteady(s: State, es: seq<Event>, x: Id, k: nat)
    requires SteadyClock(es) && k <= |es|
    ensures Steady(History(s, es, x)[..k])
  {
    assert forall i :: 0 <= i < k && History(s, es, x)[i].Seen? ==>
      es[i].TickAt? && History(s, es, x)[i].now == es[i].now;
  }

  /** The suspect timeout fits between the two times; one beyond the clock's range is taken for its maximum. */
  predicate Spans(start: I64, end: I64, timeout: U64) {
    end - start >= timeout || end - start >= 0x7FFF_FFFF_FFFF_FFFF
  }

  /**
   With a clock that does not run backwards, a tick judges a peer Offline
   exactly when the peer was found Suspected at every tick of a stretch ending
   at that tick and spanning the suspect timeout.
   */
  lemma OfflineExactlyAfterStretch(s: State, es: seq<Event>, k: nat, x: Id)
    requires s.since == map[] && IsRun(s, es) && SteadyClock(es) && k < |es| && es[k].TickAt?
    ensures JudgedOffline(At(s, es, k), es[k].now, es[k].ch, x) <==>
              exists j :: Stretch(History(s, es, x)[..k + 1], j)
                       && Spans(History(s, es, x)[j].now, es[k].now, s.config.suspectTimeout)
  {
    var obs := History(s, es, x)[..k + 1];
    RunJudges(s, es, k, x);
    HistorySteady(s, es, x, k + 1);
    TimerIsLongestStretch(obs);
    if obs[k].suspected {
      var j :| Stretch(obs, j) && obs[j].now == Timer(obs).value;
      assert Stretch(obs, j) && History(s, es, x)[j] == obs[j];
    } else {
      assert forall j :: !Stretch(obs, j);
    }
  }

  ghost predicate LatestTick(obs: seq<Observation>, j: int) {
    0 <= j < |obs| && obs[j].Seen? && forall i :: j < i < |obs| ==> obs[i].Quiet?
  }

  /** The latest tick of the history, if any, did not find the peer Suspected. */
  ghost predicate LastSeenHealthy(obs: seq<Observation>) {
    forall j :: LatestTick(obs, j) ==> !obs[j].suspected
  }

  /**
   A suspect starts a fresh timer exactly when the latest earlier tick, if any,
   did not find it Suspected.
   */
  lemma FreshTimerExactly(s: State, es: seq<Event>, k: nat, x: Id)
    requires s.since == map[] && IsRun(s, es) && k <= |es|
    ensures TimerIn(At(s, es, k), x).None? <==> LastSeenHealthy(History(s, es, x)[..k])
  {
    TimerFollowsHistory(s, es, k, x);
    NoTimerExactly(History(s, es, x)[..k]);
  }

  lemma {:induction false} NoTimerExactly(obs: seq<Observation>)
    ensures Timer(obs).None? <==> LastSeenHealthy(obs)
    decreases |obs|
  {
    if obs != [] {
      var init, last := obs[..|obs| - 1], obs[|obs| - 1];
      NoTimerExactly(init);
      assert obs == init + [last];
      if last.Quiet? {
        assert forall j :: LatestTick(obs, j) <==> LatestTick(init, j);
      } else {
        assert forall j :: LatestTick(obs, j) <==> j == |init|;
      }
    }
  }

  /**
   A recovery between two ticks is invisible to the timer: a suspect that is
   revived and suspected again before the next tick keeps its old timer.
   */
  lemma RecoveryBetweenTicksKeepsTimer(s: State, x: Id, revived: Register, from: Id, now: I64)
    requires Keyed(s.view.members) && x in Suspects(s) && x in s.since
    requires revived.id == x && revived.state.Active? && revived.incarnation > s.view.members[x].incarnation
    ensures var t := OnMessage(s, from, Alive(revived), now).s;
            var u := OnMessage(t, from, Suspect(x, revived.incarnation), now).s;
            && t.view.members[x].state.Active?
            && x in Suspects(u) && u.view.members[x].incarnation == revived.incarnation
            && u.since == s.since
            && forall later: I64 :: UpdateTimers(u, later)[x] == s.since[x]
  {
    var t := OnMessage(s, from, Alive(revived), now).s;
    assert t.view.members[x] == revived;
    var u := OnMessage(t, from, Suspect(x, revived.incarnation), now).s;
    var r := revived.Suspect(now);
    assert revived.Merge(r) == r;
    assert u.view.members[x] == r;
  }
}

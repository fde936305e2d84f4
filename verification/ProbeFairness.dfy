/** No peer is probed twice while another eligible peer waits. */
module ProbeFairness {
  import opened Options
  import opened Registers
  import opened SwimSpec
  import opened SwimRuns

  // ----- probe histories -----

  /** What an event does to probing: nothing, or one probe round with its target, if any. */
  datatype Round = Quiet | Round(now: I64, target: Option<Id>)

  predicate Pings(r: Round, x: Id) { r.Round? && r.target == Some(x) }

  /** The time recorded for the last ping to `x`. */
  function LastTime(rs: seq<Round>, x: Id): Option<U64>
    decreases |rs|
  {
    if rs == [] then None
    else if Pings(rs[|rs| - 1], x) then Some(NowU(rs[|rs| - 1].now))
    else LastTime(rs[..|rs| - 1], x)
  }

  /** Round times are positive and strictly increasing. */
  ghost predicate Rising(rs: seq<Round>) {
    && (forall i :: 0 <= i < |rs| && rs[i].Round? ==> rs[i].now > 0)
    && (forall i, j :: 0 <= i < j < |rs| && rs[i].Round? && rs[j].Round? ==> rs[i].now < rs[j].now)
  }

  lemma {:induction false} LastTimeIsLastPing(rs: seq<Round>, x: Id) returns (i: int)
    ensures LastTime(rs, x).Some? ==>
              0 <= i < |rs| && Pings(rs[i], x) && LastTime(rs, x).value == NowU(rs[i].now)
    ensures forall j :: 0 <= j < |rs| && Pings(rs[j], x) ==> LastTime(rs, x).Some? && j <= i
    decreases |rs|
  {
    i := |rs| - 1;
    if rs != [] && !Pings(rs[i], x) { i := LastTimeIsLastPing(rs[..i], x); }
  }

  /** If `y` was last pinged no earlier than `x`, it was pinged after every earlier ping to `x`. */
  lemma PingedInBetween(rs: seq<Round>, x: Id, y: Id, i: int)
    requires Rising(rs) && x != y && 0 <= i < |rs| && Pings(rs[i], x)
    requires LastTime(rs, x).Some? ==> LastTime(rs, y).Some? && LastTime(rs, y).value >= LastTime(rs, x).value
    ensures exists j :: i < j < |rs| && Pings(rs[j], y)
  {
    var lx := LastTimeIsLastPing(rs, x);
    var ly := LastTimeIsLastPing(rs, y);
    assert rs[lx].now <= rs[ly].now;
    assert ly > lx;
  }

  // ----- what a tick pings -----

  lemma NoEarlyPing(s: State, now: I64, ch: Choices, a: Action)
    requires ValidChoices(s, now, ch) && a.SendPing?
    ensures a !in Probed(s, now, ch).actions && a !in Judged(s, now, ch).actions
  {
    TimeoutsNeverPing(Heartbeat(s, now), now, ch.timedOut, a);
    CheckSuspectsActions(Probed(s, now, ch).s, now, ch.suspected, a);
  }

  lemma {:induction false} TimeoutsNeverPing(s: State, now: I64, order: seq<U64>, a: Action)
    requires a.SendPing?
    ensures a !in TimeOutAll(s, now, order).actions
    decreases |order|
  {
    if order != [] { TimeoutsNeverPing(s, now, order[..|order| - 1], a); }
  }

  /** A tick pings exactly the candidate of its probe round, and records the time. */
  lemma TickPings(s: State, now: I64, ch: Choices, x: Id)
    requires ValidChoices(s, now, ch)
    ensures (exists n :: SendPing(x, n) in Tick(s, now, ch).actions)
        <==> BestProbe(Judged(s, now, ch).s, now, ch.active).candidate == Some(x)
    ensures Judged(s, now, ch).s.lastProbe == s.lastProbe
    ensures Tick(s, now, ch).s.lastProbe ==
              match BestProbe(Judged(s, now, ch).s, now, ch.active).candidate
              case None => s.lastProbe
              case Some(y) => s.lastProbe[y := NowU(now)]
  {
    TickFrame(s, now, ch);
    var j := Judged(s, now, ch).s;
    var o := GenerateProbes(j, now, ch.active);
    forall n ensures SendPing(x, n) in Tick(s, now, ch).actions <==> SendPing(x, n) in o.actions {
      NoEarlyPing(s, now, ch, SendPing(x, n));
    }
    if BestProbe(j, now, ch.active).candidate == Some(x) {
      assert SendPing(x, Wrap(j.sequence)) in o.actions;
    }
  }

  function RoundOf(s: State, e: Event): Round {
    if e.TickAt? then Round(e.now, BestProbe(Judged(s, e.now, e.ch).s, e.now, e.ch.active).candidate) else Quiet
  }

  function Rounds(s: State, es: seq<Event>): (rs: seq<Round>)
    ensures |rs| == |es|
    ensures forall i :: 0 <= i < |es| ==> rs[i] == RoundOf(At(s, es, i), es[i])
  {
    seq(|es|, i requires 0 <= i < |es| => RoundOf(At(s, es, i), es[i]))
  }

  function Recorded(s: State, x: Id): Option<U64> { if x in s.lastProbe then Some(s.lastProbe[x]) else None }

  lemma StepRecords(s: State, e: Event, x: Id)
    requires Enabled(s, e)
    ensures var r := RoundOf(s, e);
      Recorded(Step(s, e).s, x) == if Pings(r, x) then Some(NowU(r.now)) else Recorded(s, x)
  {
    match e
    case TickAt(now, ch) => TickPings(s, now, ch, x);
    case Receive(from, message, now) => MessageFrame(s, from, message, now);
    case LeaveLocal(now) =>
    case Annotate(annotations, now) =>
  }

  lemma RunRecords(s: State, es: seq<Event>, i: nat, x: Id)
    requires IsRun(s, es) && i < |es|
    ensures Recorded(At(s, es, i + 1), x) ==
              if Pings(Rounds(s, es)[i], x) then Some(NowU(Rounds(s, es)[i].now)) else Recorded(At(s, es, i), x)
  {
    AtNext(s, es, i);
    StepRecords(At(s, es, i), es[i], x);
  }

  /** `last_probe_ms` records the time of the last ping to each peer. */
  lemma {:induction false} LastProbeFollowsRounds(s: State, es: seq<Event>, k: nat, x: Id)
    requires s.lastProbe == map[] && IsRun(s, es) && k <= |es|
    ensures Recorded(At(s, es, k), x) == LastTime(Rounds(s, es)[..k], x)
  {
    if k > 0 {
      LastProbeFollowsRounds(s, es, k - 1, x);
      RunRecords(s, es, k - 1, x);
      LastTimeStep(Rounds(s, es), k - 1, x);
    }
  }

  lemma LastTimeStep(rs: seq<Round>, i: nat, x: Id)
    requires i < |rs|
    ensures LastTime(rs[..i + 1], x) == if Pings(rs[i], x) then Some(NowU(rs[i].now)) else LastTime(rs[..i], x)
  {
    assert rs[..i + 1][..i] == rs[..i];
  }

  /** `y` may be probed by this tick: an active peer without an outstanding probe. */
  predicate Waiting(s: State, now: I64, ch: Choices, y: Id) {
    var j := Judged(s, now, ch).s;
    y in Probeable(j) && !HasPending(j, y)
  }

  /** The chosen peer was probed no later than any peer that waits. */
  lemma ChosenIsOldest(s: State, now: I64, ch: Choices, x: Id, y: Id)
    requires ValidChoices(s, now, ch)
    requires Pings(RoundOf(s, TickAt(now, ch)), x) && Waiting(s, now, ch, y)
    requires LastProbe(s, x) <= NowU(now)
    ensures LastProbe(s, y) >= LastProbe(s, x)
  {
    var j := Judged(s, now, ch).s;
    TickPings(s, now, ch, x);
    BestProbeIsOldest(j, now, ch.active);
    assert y in ch.active;
    assert Gap(j, now, y) <= Gap(j, now, x);
  }

  /** Event `i` sends a ping to `x`. */
  ghost predicate PingsAt(s: State, es: seq<Event>, i: nat, x: Id) {
    i < |es| && es[i].TickAt? && exists n :: SendPing(x, n) in Step(At(s, es, i), es[i]).actions
  }

  lemma PingsAtIsRound(s: State, es: seq<Event>, i: nat, x: Id)
    requires IsRun(s, es) && i < |es|
    ensures PingsAt(s, es, i, x) <==> Pings(Rounds(s, es)[i], x)
  {
    if es[i].TickAt? { TickPings(At(s, es, i), es[i].now, es[i].ch, x); }
  }

  ghost predicate RisingClock(es: seq<Event>) {
    && (forall i :: 0 <= i < |es| && es[i].TickAt? ==> es[i].now > 0)
    && (forall i, j :: 0 <= i < j < |es| && es[i].TickAt? && es[j].TickAt? ==> es[i].now < es[j].now)
  }

  lemma RoundsRise(s: State, es: seq<Event>, k: nat)
    requires RisingClock(es) && k <= |es|
    ensures Rising(Rounds(s, es)[..k])
  {
    assert forall i :: 0 <= i < k && Rounds(s, es)[i].Round? ==> es[i].TickAt? && Rounds(s, es)[i].now == es[i].now;
  }

  lemma OldestInHistory(s: State, es: seq<Event>, k: nat, x: Id, y: Id)
    requires s.lastProbe == map[] && IsRun(s, es) && RisingClock(es)
    requires k < |es| && PingsAt(s, es, k, x) && Waiting(At(s, es, k), es[k].now, es[k].ch, y)
    ensures var rs := Rounds(s, es)[..k];
      LastTime(rs, x).Some? ==> LastTime(rs, y).Some? && LastTime(rs, y).value >= LastTime(rs, x).value
  {
    var rs := Rounds(s, es)[..k];
    LastProbeFollowsRounds(s, es, k, x);
    LastProbeFollowsRounds(s, es, k, y);
    if LastTime(rs, x).Some? {
      var lx := LastTimeIsLastPing(rs, x);
      assert es[lx].TickAt? && es[lx].now == rs[lx].now && es[lx].now < es[k].now;
      PingsAtIsRound(s, es, k, x);
      ChosenIsOldest(At(s, es, k), es[k].now, es[k].ch, x, y);
    }
  }

  lemma FairRounds(s: State, es: seq<Event>, i: nat, k: nat, x: Id, y: Id) returns (j: nat)
    requires s.lastProbe == map[] && IsRun(s, es) && RisingClock(es)
    requires i < k < |es| && Pings(Rounds(s, es)[i], x) && PingsAt(s, es, k, x)
    requires y != x && Waiting(At(s, es, k), es[k].now, es[k].ch, y)
    ensures i < j < k && Pings(Rounds(s, es)[j], y)
  {
    var rs := Rounds(s, es)[..k];
    OldestInHistory(s, es, k, x, y);
    RoundsRise(s, es, k);
    PingedInBetween(rs, x, y, i);
    j :| i < j < |rs| && Pings(rs[j], y);
  }

  /** If `x` is pinged at both `i` and `k`, every other peer waiting at `k` was pinged in between. */
  lemma ProbeFairness(s: State, es: seq<Event>, i: nat, k: nat, x: Id, y: Id)
    requires s.lastProbe == map[] && IsRun(s, es) && RisingClock(es)
    requires i < k && PingsAt(s, es, i, x) && PingsAt(s, es, k, x)
    requires y != x && Waiting(At(s, es, k), es[k].now, es[k].ch, y)
    ensures exists j :: i < j < k && PingsAt(s, es, j, y)
  {
    PingsAtIsRound(s, es, i, x);
    var j := FairRounds(s, es, i, k, x, y);
    PingsAtIsRound(s, es, j, y);
  }
}

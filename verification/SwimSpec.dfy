/**
 The SWIM failure detector as a transition system: what one message or one tick
 does to an instance and which actions it returns. Hash-map iteration orders,
 which the detector does not control, are explicit arguments (`Choices`).
 */
module SwimSpec {
  import opened Options
  import opened Order
  import opened Registers
  import opened Memberships

  type U32 = x: int | 0 <= x <= 0xFFFF_FFFF

  datatype Config = Config(pingInterval: U64, pingTimeout: U64, failureThreshold: U32, suspectTimeout: U64)

  datatype Message =
    | Ping(n: U64)
    | Ack(n: U64)
    | Suspect(id: Id, incarnation: U64)
    | Alive(register: Register)
    | Leave(id: Id, incarnation: U64)

  datatype Action =
    | SendPing(target: Id, n: U64)
    | SendAck(to: Id, n: U64)
    | Broadcast(message: Message)

  datatype Pending = Pending(target: Id, sentAt: U64)

  datatype State = State(
    local: Id,
    config: Config,
    view: View,
    failures: map<Id, nat>,
    sequence: U64,
    pending: map<U64, Pending>,
    lastProbe: map<Id, U64>,
    since: map<Id, I64>
  )

  datatype Outcome = Outcome(s: State, actions: seq<Action>)

  /** The order in which one tick visits each of the hash maps it iterates over. */
  datatype Choices = Choices(timedOut: seq<U64>, suspected: seq<Id>, active: seq<Id>)

  /** `u64::try_from(now_ms).unwrap_or(0)`. */
  function NowU(now: I64): U64 { if now < 0 then 0 else now }

  /** `u64::saturating_sub`. */
  function SubU(a: U64, b: U64): U64 { if a < b then 0 else a - b }

  /** `i64::saturating_sub`. */
  function SubI(a: I64, b: I64): (r: I64) {
    if a - b > I64_MAX then I64_MAX else if a - b < -I64_MAX - 1 then -I64_MAX - 1 else a - b
  }

  /** `i64::try_from(suspect_timeout_ms).unwrap_or(i64::MAX)`. */
  function TimeoutI(c: Config): I64 { if c.suspectTimeout <= I64_MAX then c.suspectTimeout else I64_MAX }

  /** A sequence visiting every element of a set exactly once. */
  ghost predicate Enumerates<T(!new)>(order: seq<T>, items: set<T>) {
    && (forall i, j :: 0 <= i < j < |order| ==> order[i] != order[j])
    && (forall x :: x in order <==> x in items)
  }

  // ----- messages -----

  function New(local: Id, config: Config, register: Register): State {
    State(local, config, View(map[], 0).MergeRegister(register), map[], 0, map[], map[], map[])
  }

  function HandleAck(s: State, n: U64): State {
    if n in s.pending then
      s.(pending := s.pending - {n}, failures := s.failures - {s.pending[n].target})
    else s
  }

  function RefuteAndBroadcast(s: State, now: I64): Outcome {
    var v := s.view.Refute(s.local, now);
    Outcome(s.(view := v), if s.local in v.members then [Broadcast(Alive(v.members[s.local]))] else [])
  }

  function HandleSuspect(s: State, id: Id, incarnation: U64, now: I64): Outcome {
    var m := s.view.members;
    if id == s.local then
      if id in m && !m[id].state.Leaving? && incarnation >= m[id].incarnation
      then RefuteAndBroadcast(s, now) else Outcome(s, [])
    else if id in m && m[id].incarnation <= incarnation then
      Outcome(s.(view := s.view.MergeRegister(m[id].(incarnation := incarnation).Suspect(now))), [])
    else Outcome(s, [])
  }

  function HandleAlive(s: State, register: Register, now: I64): Outcome {
    if register.id == s.local then RefuteIfDominated(s, register, now)
    else Outcome(s.(view := s.view.MergeRegister(register)), [])
  }

  function RefuteIfDominated(s: State, rumor: Register, now: I64): Outcome {
    var m := s.view.members;
    if rumor.state.Active? || s.local !in m || m[s.local].state.Leaving? || m[s.local].Dominates(rumor)
    then Outcome(s, []) else RefuteAndBroadcast(s, now)
  }

  function HandleLeave(s: State, id: Id, incarnation: U64, now: I64): State {
    var m := s.view.members;
    if id != s.local && id in m && m[id].incarnation <= incarnation then
      s.(view := s.view.MergeRegister(m[id].(incarnation := incarnation).Leave(now)))
    else s
  }

  function OnMessage(s: State, from: Id, message: Message, now: I64): Outcome {
    match message
    case Ping(n) => Outcome(s, [SendAck(from, n)])
    case Ack(n) => Outcome(HandleAck(s, n), [])
    case Suspect(id, incarnation) => HandleSuspect(s, id, incarnation, now)
    case Alive(register) => HandleAlive(s, register, now)
    case Leave(id, incarnation) => Outcome(HandleLeave(s, id, incarnation, now), [])
  }

  // ----- ticks -----

  predicate PingExpired(s: State, now: I64, n: U64) {
    n in s.pending && SubU(NowU(now), s.pending[n].sentAt) >= s.config.pingTimeout
  }

  function TimedOut(s: State, now: I64): set<U64> {
    set n | n in s.pending && PingExpired(s, now, n)
  }

  function MarkSuspected(s: State, target: Id, now: I64): Outcome {
    var failures := if target in s.failures then s.failures[target] + 1 else 1;
    if failures < s.config.failureThreshold then Outcome(s.(failures := s.failures[target := failures]), [])
    else
      var m := s.view.members;
      Outcome(s.(failures := s.failures - {target}, view := s.view.Suspect(target, now)),
              if target in m && m[target].state.Active?
              then [Broadcast(Suspect(target, m[target].incarnation))] else [])
  }

  function TimeOutOne(s: State, now: I64, n: U64): Outcome {
    if n in s.pending then MarkSuspected(s.(pending := s.pending - {n}), s.pending[n].target, now)
    else Outcome(s, [])
  }

  function TimeOutAll(s: State, now: I64, order: seq<U64>): Outcome
    decreases |order|
  {
    if order == [] then Outcome(s, [])
    else
      var before := TimeOutAll(s, now, order[..|order| - 1]);
      var last := TimeOutOne(before.s, now, order[|order| - 1]);
      Outcome(last.s, before.actions + last.actions)
  }

  /** The peers whose register is Suspected. */
  function Suspects(s: State): set<Id> {
    set id | id in s.view.members && id != s.local && s.view.members[id].state.Suspected?
  }

  /** Keep the timers of members still suspected and start those newly observed. */
  function UpdateTimers(s: State, now: I64): map<Id, I64> {
    map id | id in Suspects(s) :: if id in s.since then s.since[id] else now
  }

  predicate Expired(s: State, now: I64, id: Id) {
    id in Suspects(s) && SubI(now, UpdateTimers(s, now)[id]) >= TimeoutI(s.config)
  }

  function ExpiredAmong(s: State, now: I64, order: seq<Id>): seq<Id>
    decreases |order|
  {
    if order == [] then []
    else
      var last := order[|order| - 1];
      ExpiredAmong(s, now, order[..|order| - 1]) + if Expired(s, now, last) then [last] else []
  }

  function OfflineAll(s: State, now: I64, ids: seq<Id>): Outcome
    decreases |ids|
  {
    if ids == [] then Outcome(s, [])
    else
      var before := OfflineAll(s, now, ids[..|ids| - 1]);
      var id := ids[|ids| - 1];
      var v := before.s.view.GoOffline(id, now);
      Outcome(before.s.(view := v),
              before.actions + if id in v.members then [Broadcast(Alive(v.members[id]))] else [])
  }

  function CheckSuspects(s: State, now: I64, order: seq<Id>): Outcome {
    OfflineAll(s.(since := UpdateTimers(s, now)), now, ExpiredAmong(s, now, order))
  }

  /** The peers a probe round considers: Active or Suspected, not the local node. */
  function Probeable(s: State): set<Id> {
    set id | id in s.view.members && id != s.local && s.view.members[id].state.IsActive()
  }

  predicate HasPending(s: State, id: Id) {
    exists n :: n in s.pending && s.pending[n].target == id
  }

  function LastProbe(s: State, id: Id): U64 { if id in s.lastProbe then s.lastProbe[id] else 0 }

  function Gap(s: State, now: I64, id: Id): U64 { SubU(NowU(now), LastProbe(s, id)) }

  datatype Best = Best(candidate: Option<Id>, gap: U64)

  /** The running choice of `generate_probes`: first in the order with the largest gap. */
  function BestProbe(s: State, now: I64, order: seq<Id>): Best
    decreases |order|
  {
    if order == [] then Best(None, 0)
    else
      var best := BestProbe(s, now, order[..|order| - 1]);
      var id := order[|order| - 1];
      if !HasPending(s, id) && Gap(s, now, id) >= s.config.pingInterval && Gap(s, now, id) > best.gap
      then Best(Some(id), Gap(s, now, id)) else best
  }

  /** `u64::wrapping_add(1)`. */
  function Wrap(x: U64): U64 { if x == U64_MAX then 0 else x + 1 }

  function SendPingTo(s: State, target: Id, now: I64): Outcome {
    var n := Wrap(s.sequence);
    Outcome(s.(sequence := n,
               pending := s.pending[n := Pending(target, NowU(now))],
               lastProbe := s.lastProbe[target := NowU(now)]),
            [SendPing(target, n)])
  }

  function GenerateProbes(s: State, now: I64, order: seq<Id>): Outcome {
    match BestProbe(s, now, order).candidate
    case None => Outcome(s, [])
    case Some(target) => SendPingTo(s, target, now)
  }

  function Heartbeat(s: State, now: I64): State { s.(view := s.view.Heartbeat(s.local, now)) }

  /** A tick up to the point where suspicion timers are inspected. */
  function Probed(s: State, now: I64, ch: Choices): Outcome { TimeOutAll(Heartbeat(s, now), now, ch.timedOut) }

  /** ... and up to the point where the next probe is chosen. */
  function Judged(s: State, now: I64, ch: Choices): Outcome { CheckSuspects(Probed(s, now, ch).s, now, ch.suspected) }

  function Tick(s: State, now: I64, ch: Choices): Outcome {
    var o3 := GenerateProbes(Judged(s, now, ch).s, now, ch.active);
    Outcome(o3.s, Probed(s, now, ch).actions + Judged(s, now, ch).actions + o3.actions)
  }

  /** The choices visit exactly the collections the tick iterates over. */
  ghost predicate ValidChoices(s: State, now: I64, ch: Choices) {
    && Enumerates(ch.timedOut, TimedOut(Heartbeat(s, now), now))
    && Enumerates(ch.suspected, Suspects(Probed(s, now, ch).s))
    && Enumerates(ch.active, Probeable(Judged(s, now, ch).s))
  }

  // ----- the daemon's own operations on its instance -----

  function LeaveLocal(s: State, now: I64): State { s.(view := s.view.Leave(s.local, now)) }

  /** `update_local_annotations`, given the annotation map it computed. */
  function Annotate(s: State, annotations: StrMap, now: I64): Outcome {
    var m := s.view.members;
    if s.local !in m || annotations == m[s.local].annotations then Outcome(s, [])
    else
      var updated := m[s.local].(annotations := annotations).BumpHeartbeat(now);
      Outcome(s.(view := s.view.MergeRegister(updated)), [Broadcast(Alive(updated))])
  }
}

/**
 Any number of SWIM instances over a network that may drop, duplicate, delay
 and reorder, with crashes and restarts from the persisted incarnation.

 Messages once sent stay in the soup for ever and may be delivered to any node
 any number of times or never, so every loss, duplication and reordering is a
 run of this system.
 */
module Cluster {
  import opened Options
  import opened Order
  import opened Registers
  import opened Memberships
  import opened SwimSpec
  import opened SwimRuns

  /** A running daemon: its detector and the last incarnation it believes persisted. */
  datatype Daemon = Daemon(swim: State, persisted: U64)

  /** A node: its persisted counter (0 when never written) and its daemon, if up. */
  datatype Node = Node(disk: U64, daemon: Option<Daemon>)

  datatype Cluster = Cluster(nodes: map<Id, Node>, soup: set<Message>)

  datatype Move =
    /** Resume from the counter if it can be read, else from 0, and write the new incarnation if that succeeds. */
    | Boot(id: Id, config: Config, address: string, labels: StrMap, annotations: StrMap, now: I64, read: bool, wrote: bool)
    | Crash(id: Id)
    /** One event of a running daemon; a received message must come from the soup. */
    | Run(id: Id, event: Event, wrote: bool)
    /** The daemon's leave operation: tell the others that `peer` leaves. */
    | AnnounceLeave(id: Id, peer: Id, now: I64, wrote: bool)
    /** Serve a held register to whoever asks (fetch, push, full sync). */
    | Serve(id: Id, about: Id, updatedAt: I64)

  function MessageOf(a: Action): Message {
    match a
    case SendPing(_, n) => Ping(n)
    case SendAck(_, n) => Ack(n)
    case Broadcast(m) => m
  }

  function Sent(actions: seq<Action>): set<Message> { set a | a in actions :: MessageOf(a) }

  predicate Up(c: Cluster, id: Id) { id in c.nodes && c.nodes[id].daemon.Some? }

  function SwimOf(c: Cluster, id: Id): State
    requires Up(c, id)
  {
    c.nodes[id].daemon.value.swim
  }

  /** The register a node boots with: the persisted incarnation, rejoined; 0 stands for one missing, unreadable or corrupt. */
  function BootRegister(disk: U64, m: Move): Register
    requires m.Boot?
  {
    Register(m.id, m.address, Active, if m.read then disk else 0, 0, map[], map[], 0)
      .Rejoin(m.address, m.now).(labels := m.labels, annotations := m.annotations)
  }

  /** `persist_local_incarnation` after an operation left the detector in `s`. */
  function Persist(node: Node, s: State, persisted: U64, wrote: bool): Node {
    if s.local !in s.view.members || Own(s).incarnation == persisted || !wrote
    then Node(node.disk, Some(Daemon(s, persisted)))
    else Node(Own(s).incarnation, Some(Daemon(s, Own(s).incarnation)))
  }

  /** The incarnation the leave operation announces for a peer. */
  function KnownIncarnation(s: State, peer: Id): U64 {
    if peer in s.view.members then s.view.members[peer].incarnation else 1
  }

  /** The effect of announcing a leave: the local transition or the peer's rumour. */
  function LeaveEffect(s: State, peer: Id, now: I64): State {
    if peer == s.local then SwimSpec.LeaveLocal(s, now)
    else OnMessage(s, s.local, Leave(peer, KnownIncarnation(s, peer)), now).s
  }

  /** A register as it arrives after the wire conversion. */
  function OnWire(r: Register, updatedAt: I64): Register {
    r.(incarnation := if r.incarnation < 1 then 1 else r.incarnation, updatedAt := updatedAt)
  }

  /** A message that was sent, or a sent register as the wire conversion and the receiver's clock restamp it. */
  ghost predicate Deliverable(c: Cluster, m: Message) {
    m in c.soup || (m.Alive? && exists r :: Alive(r) in c.soup && m.register == OnWire(r, m.register.updatedAt))
  }

  ghost predicate Allowed(c: Cluster, m: Move) {
    && m.id in c.nodes
    && match m
       case Boot(_, _, _, _, _, _, _, _) => c.nodes[m.id].daemon.None?
       case Crash(_) => true
       case Run(id, e, _) =>
         && Up(c, id) && Enabled(SwimOf(c, id), e)
         && (e.Receive? ==> Deliverable(c, e.message))
       case AnnounceLeave(id, _, _, _) => Up(c, id)
       case Serve(id, about, _) => Up(c, id) && about in SwimOf(c, id).view.members
  }

  ghost function Apply(c: Cluster, m: Move): Cluster
    requires Allowed(c, m)
  {
    var node := c.nodes[m.id];
    match m
    case Boot(id, config, _, _, _, _, _, wrote) =>
      var r := BootRegister(node.disk, m);
      c.(nodes := c.nodes[id := Node(if wrote then r.incarnation else node.disk,
                                     Some(Daemon(New(id, config, r), r.incarnation)))])
    case Crash(id) => c.(nodes := c.nodes[id := node.(daemon := None)])
    case Run(id, e, wrote) =>
      var o := Step(SwimOf(c, id), e);
      Cluster(c.nodes[id := Persist(node, o.s, node.daemon.value.persisted, wrote)], c.soup + Sent(o.actions))
    case AnnounceLeave(id, peer, now, wrote) =>
      var s := SwimOf(c, id);
      Cluster(c.nodes[id := Persist(node, LeaveEffect(s, peer, now), node.daemon.value.persisted, wrote)],
              c.soup + {Leave(peer, KnownIncarnation(s, peer))})
    case Serve(id, about, updatedAt) =>
      c.(soup := c.soup + {Alive(OnWire(SwimOf(c, id).view.members[about], updatedAt))})
  }

  /** All nodes down, nothing persisted, nothing sent. */
  ghost predicate Init(c: Cluster) {
    c.soup == {} && forall id :: id in c.nodes ==> c.nodes[id] == Node(0, None)
  }

  // ----- one detector against a bound on every node's incarnation -----

  type Bound = map<Id, U64>

  predicate RegisterWithin(r: Register, d: Bound) {
    r.id in d && 1 <= r.incarnation <= d[r.id]
  }

  ghost predicate StateWithin(s: State, d: Bound) {
    Keyed(s.view.members) && forall id :: id in s.view.members ==> RegisterWithin(s.view.members[id], d)
  }

  /** A leave of an unknown node is announced at incarnation 1, whatever its bound. */
  predicate MessageWithin(m: Message, d: Bound) {
    match m
    case Ping(_) => true
    case Ack(_) => true
    case Suspect(id, i) => id in d ==> i <= d[id]
    case Alive(r) => RegisterWithin(r, d)
    case Leave(id, i) => id in d ==> i <= d[id] || i == 1
  }

  ghost predicate ActionsWithin(actions: seq<Action>, d: Bound) {
    forall a :: a in actions ==> MessageWithin(MessageOf(a), d)
  }

  function Max(a: U64, b: U64): U64 { if a < b then b else a }

  /** The bound after a step of the node: raised to its own incarnation. */
  function Moved(d: Bound, s: State): Bound
    requires s.local in s.view.members && s.local in d
  {
    d[s.local := Max(d[s.local], Own(s).incarnation)]
  }

  lemma MergeWithin(s: State, r: Register, d: Bound)
    requires StateWithin(s, d) && RegisterWithin(r, d)
    ensures StateWithin(s.(view := s.view.MergeRegister(r)), d)
  {
    if r.id in s.view.members { MergeKey(s.view.members[r.id], r); }
  }

  lemma RefuteWithin(s: State, now: I64, d: Bound)
    requires LocalOk(s) && StateWithin(s, d)
    ensures var o := RefuteAndBroadcast(s, now);
      && s.local in o.s.view.members
      && StateWithin(o.s, Moved(d, o.s)) && ActionsWithin(o.actions, Moved(d, o.s))
  {
  }

  /** What a message may do to the bounds. */
  ghost predicate StepWithin(s: State, o: Outcome, d: Bound)
    requires s.local in s.view.members && s.local in d
  {
    && o.s.local == s.local && s.local in o.s.view.members
    && StateWithin(o.s, Moved(d, o.s))
    && ActionsWithin(o.actions, Moved(d, o.s))
  }

  lemma UnmovedWithin(s: State, o: Outcome, d: Bound)
    requires LocalOk(s) && StateWithin(s, d)
    requires o.s.local == s.local && s.local in o.s.view.members && Own(o.s).incarnation == Own(s).incarnation
    requires StateWithin(o.s, d) && ActionsWithin(o.actions, d)
    ensures StepWithin(s, o, d)
  {
    assert Moved(d, o.s) == d;
  }

  lemma OwnRumorWithin(s: State, from: Id, m: Message, now: I64, d: Bound)
    requires LocalOk(s) && StateWithin(s, d)
    requires (m.Suspect? && m.id == s.local) || (m.Alive? && m.register.id == s.local)
    ensures StepWithin(s, OnMessage(s, from, m, now), d)
  {
    UnmovedWithin(s, Outcome(s, []), d);
    RefuteWithin(s, now, d);
  }

  lemma PeerRumorWithin(s: State, id: Id, r: Register, d: Bound)
    requires LocalOk(s) && StateWithin(s, d)
    requires id != s.local && r.id == id && RegisterWithin(r, d)
    ensures StepWithin(s, Outcome(s.(view := s.view.MergeRegister(r)), []), d)
  {
    MergeWithin(s, r, d);
    UnmovedWithin(s, Outcome(s.(view := s.view.MergeRegister(r)), []), d);
  }

  lemma MessageStepWithin(s: State, from: Id, m: Message, now: I64, d: Bound)
    requires LocalOk(s) && StateWithin(s, d) && MessageWithin(m, d)
    ensures StepWithin(s, OnMessage(s, from, m, now), d)
  {
    var o := OnMessage(s, from, m, now);
    var ms := s.view.members;
    match m
    case Ping(n) => UnmovedWithin(s, o, d);
    case Ack(n) => UnmovedWithin(s, o, d);
    case Suspect(id, i) =>
      if id == s.local { OwnRumorWithin(s, from, m, now, d); }
      else if id in ms && ms[id].incarnation <= i { PeerRumorWithin(s, id, ms[id].(incarnation := i).Suspect(now), d); }
      else { UnmovedWithin(s, o, d); }
    case Alive(r) =>
      if r.id == s.local { OwnRumorWithin(s, from, m, now, d); } else { PeerRumorWithin(s, r.id, r, d); }
    case Leave(id, i) =>
      if id != s.local && id in ms && ms[id].incarnation <= i {
        PeerRumorWithin(s, id, ms[id].(incarnation := i).Leave(now), d);
      } else { UnmovedWithin(s, o, d); }
  }

  // ----- ticks leave every incarnation alone -----

  ghost predicate SameIncarnations(s: State, t: State) {
    && t.view.members.Keys == s.view.members.Keys
    && forall id :: id in s.view.members ==>
         t.view.members[id].incarnation == s.view.members[id].incarnation && t.view.members[id].id == s.view.members[id].id
  }

  lemma SameIncarnationsWithin(s: State, t: State, d: Bound)
    requires StateWithin(s, d) && SameIncarnations(s, t)
    ensures StateWithin(t, d)
  {
  }

  lemma {:induction false} TimeoutActionsWithin(s: State, now: I64, order: seq<U64>, d: Bound)
    requires StateWithin(s, d)
    ensures ActionsWithin(TimeOutAll(s, now, order).actions, d)
    decreases |order|
  {
    if order != [] {
      var init, n := order[..|order| - 1], order[|order| - 1];
      TimeoutActionsWithin(s, now, init, d);
      TimeOutAllFrame(s, now, init);
      var b := TimeOutAll(s, now, init).s;
      SameIncarnationsWithin(s, b, d);
      assert ActionsWithin(TimeOutOne(b, now, n).actions, d);
    }
  }

  lemma MaySuspectKeepsIncarnations(s: State, t: State, now: I64)
    requires MaySuspect(s.view.members, t.view.members, now)
    ensures SameIncarnations(s, t)
  {
  }

  lemma ProbedKeepsIncarnations(s: State, now: I64, ch: Choices)
    requires Keyed(s.view.members) && ValidChoices(s, now, ch)
    ensures SameIncarnations(s, Heartbeat(s, now)) && SameIncarnations(s, Probed(s, now, ch).s)
  {
    var h, p := Heartbeat(s, now), Probed(s, now, ch);
    assert SameIncarnations(s, h);
    TimeOutAllFrame(h, now, ch.timedOut);
    MaySuspectKeepsIncarnations(h, p.s, now);
  }

  lemma ProbedWithin(s: State, now: I64, ch: Choices, d: Bound)
    requires StateWithin(s, d) && ValidChoices(s, now, ch)
    ensures var p := Probed(s, now, ch);
      SameIncarnations(s, p.s) && StateWithin(p.s, d) && ActionsWithin(p.actions, d)
  {
    var h, p := Heartbeat(s, now), Probed(s, now, ch);
    ProbedKeepsIncarnations(s, now, ch);
    SameIncarnationsWithin(s, h, d);
    SameIncarnationsWithin(s, p.s, d);
    TimeoutActionsWithin(h, now, ch.timedOut, d);
  }

  lemma TickKeepsIncarnations(s: State, now: I64, ch: Choices)
    requires Keyed(s.view.members) && ValidChoices(s, now, ch)
    ensures SameIncarnations(s, Tick(s, now, ch).s)
  {
    var p := Probed(s, now, ch).s;
    ProbedKeepsIncarnations(s, now, ch);
    CheckSuspectsFrame(p, now, ch.suspected);
    TickFrame(s, now, ch);
    assert Tick(s, now, ch).s.view == Judged(s, now, ch).s.view;
  }

  /** The local incarnation moves only on a message, by one, and with the new register broadcast. */
  lemma EventMoves(s: State, e: Event)
    requires LocalOk(s) && Enabled(s, e)
    ensures var o := Step(s, e);
      && s.local in o.s.view.members && o.s.local == s.local
      && (Own(o.s).incarnation != Own(s).incarnation ==>
            && e.Receive? && Own(s).incarnation < U64_MAX && Own(o.s).incarnation == Own(s).incarnation + 1
            && o.actions == [Broadcast(Alive(Own(o.s)))])
  {
    StepLocal(s, e);
    match e
    case Receive(from, m, now) =>
      if Own(s).incarnation < U64_MAX { RefutesExactly(s, from, m, now); }
      else { LocalStepRaises(s, Step(s, e).s, false); }
    case TickAt(now, ch) => TickKeepsIncarnations(s, now, ch);
    case LeaveLocal(now) =>
    case Annotate(annotations, now) => MergeKey(Own(s), Own(s).(annotations := annotations).BumpHeartbeat(now));
  }

  lemma VerdictsWithin(s: State, now: I64, order: seq<Id>, d: Bound)
    requires StateWithin(s, d) && Enumerates(order, Suspects(s))
    ensures var o := CheckSuspects(s, now, order);
      SameIncarnations(s, o.s) && StateWithin(o.s, d) && ActionsWithin(o.actions, d)
  {
    var o := CheckSuspects(s, now, order);
    CheckSuspectsFrame(s, now, order);
    assert SameIncarnations(s, o.s);
    SameIncarnationsWithin(s, o.s, d);
    forall a | a in o.actions ensures MessageWithin(MessageOf(a), d) {
      CheckSuspectsActions(s, now, order, a);
    }
  }

  lemma TickWithin(s: State, now: I64, ch: Choices, d: Bound)
    requires LocalOk(s) && StateWithin(s, d) && ValidChoices(s, now, ch)
    ensures StepWithin(s, Tick(s, now, ch), d)
  {
    var p, j, o := Probed(s, now, ch), Judged(s, now, ch), Tick(s, now, ch);
    ProbedWithin(s, now, ch, d);
    VerdictsWithin(p.s, now, ch.suspected, d);
    TickFrame(s, now, ch);
    assert o.s.view == j.s.view;
    UnmovedWithin(s, o, d);
  }

  lemma AnnotateWithin(s: State, annotations: StrMap, now: I64, d: Bound)
    requires LocalOk(s) && StateWithin(s, d)
    ensures StepWithin(s, SwimSpec.Annotate(s, annotations, now), d)
  {
    var updated := Own(s).(annotations := annotations).BumpHeartbeat(now);
    MergeWithin(s, updated, d);
    MergeKey(Own(s), updated);
    UnmovedWithin(s, SwimSpec.Annotate(s, annotations, now), d);
  }

  lemma LeaveWithin(s: State, now: I64, d: Bound)
    requires LocalOk(s) && StateWithin(s, d)
    ensures StepWithin(s, Outcome(SwimSpec.LeaveLocal(s, now), []), d)
  {
    UnmovedWithin(s, Outcome(SwimSpec.LeaveLocal(s, now), []), d);
  }

  lemma EventWithin(s: State, e: Event, d: Bound)
    requires LocalOk(s) && StateWithin(s, d) && Enabled(s, e)
    requires e.Receive? ==> MessageWithin(e.message, d)
    ensures StepWithin(s, Step(s, e), d)
  {
    match e
    case Receive(from, m, now) => MessageStepWithin(s, from, m, now, d);
    case TickAt(now, ch) => TickWithin(s, now, ch, d);
    case LeaveLocal(now) => LeaveWithin(s, now, d);
    case Annotate(annotations, now) => AnnotateWithin(s, annotations, now, d);
  }

  // ----- the cluster -----

  /** A node's own incarnation, 0 while it is down. */
  function OwnAt(c: Cluster, id: Id): U64 {
    if Up(c, id) && id in SwimOf(c, id).view.members then SwimOf(c, id).view.members[id].incarnation else 0
  }

  /** The bound raised to whatever incarnations the nodes now run at. */
  function Raised(d: Bound, c: Cluster): Bound {
    map id | id in c.nodes :: Max(if id in d then d[id] else 0, OwnAt(c, id))
  }

  /** A running daemon is well formed and holds nothing above the bound. */
  ghost predicate DaemonOk(c: Cluster, id: Id, d: Bound)
    requires Up(c, id)
  {
    var s := SwimOf(c, id);
    s.local == id && LocalOk(s) && StateWithin(s, d)
  }

  ghost predicate Inv(c: Cluster, d: Bound) {
    && d.Keys == c.nodes.Keys
    && (forall id :: Up(c, id) ==> DaemonOk(c, id, d))
    && (forall m :: m in c.soup ==> MessageWithin(m, d))
  }

  ghost predicate BoundBelow(d: Bound, d': Bound) {
    d.Keys == d'.Keys && forall id :: id in d ==> d[id] <= d'[id]
  }

  lemma WithinMonotone(s: State, d: Bound, d': Bound)
    requires StateWithin(s, d) && BoundBelow(d, d')
    ensures StateWithin(s, d')
  {
  }

  lemma MessageMonotone(m: Message, d: Bound, d': Bound)
    requires MessageWithin(m, d) && BoundBelow(d, d')
    ensures MessageWithin(m, d')
  {
  }

  /** Replacing one node and adding messages, both within the raised bound, keeps the invariant. */
  lemma ReplaceNode(c: Cluster, id: Id, node: Node, sent: set<Message>, d: Bound)
    requires Inv(c, d) && id in c.nodes
    requires var c' := Cluster(c.nodes[id := node], c.soup + sent);
      && (node.daemon.Some? ==> DaemonOk(c', id, Raised(d, c')))
      && forall m :: m in sent ==> MessageWithin(m, Raised(d, c'))
    ensures var c' := Cluster(c.nodes[id := node], c.soup + sent); Inv(c', Raised(d, c'))
  {
    var c' := Cluster(c.nodes[id := node], c.soup + sent);
    var d' := Raised(d, c');
    assert BoundBelow(d, d');
    forall x | Up(c', x) ensures DaemonOk(c', x, d') {
      if x != id {
        assert Up(c, x) && SwimOf(c', x) == SwimOf(c, x);
        WithinMonotone(SwimOf(c, x), d, d');
      }
    }
    forall m | m in c'.soup ensures MessageWithin(m, d') {
      if m in c.soup { MessageMonotone(m, d, d'); }
    }
  }

  lemma BootKeeps(c: Cluster, m: Move, d: Bound)
    requires Inv(c, d) && Allowed(c, m) && m.Boot?
    ensures Inv(Apply(c, m), Raised(d, Apply(c, m)))
  {
    var c' := Apply(c, m);
    var r := BootRegister(c.nodes[m.id].disk, m);
    var s := New(m.id, m.config, r);
    assert s.view.members == map[m.id := r];
    assert OwnAt(c', m.id) == r.incarnation && StateWithin(s, Raised(d, c'));
    assert c.soup + {} == c.soup;
    ReplaceNode(c, m.id, c'.nodes[m.id], {}, d);
  }

  /** An operation of a running daemon that stays within its moved bound keeps the invariant. */
  lemma OperationKeeps(c: Cluster, id: Id, o: Outcome, wrote: bool, sent: set<Message>, d: Bound)
    requires Inv(c, d) && Up(c, id)
    requires id in d && id in SwimOf(c, id).view.members && SwimOf(c, id).local == id
    requires StepWithin(SwimOf(c, id), o, d) && LocalOk(o.s)
    requires forall m :: m in sent ==> MessageWithin(m, Moved(d, o.s))
    ensures var node := Persist(c.nodes[id], o.s, c.nodes[id].daemon.value.persisted, wrote);
            var c' := Cluster(c.nodes[id := node], c.soup + sent);
      Inv(c', Raised(d, c'))
  {
    var node := Persist(c.nodes[id], o.s, c.nodes[id].daemon.value.persisted, wrote);
    var c' := Cluster(c.nodes[id := node], c.soup + sent);
    assert SwimOf(c', id) == o.s;
    assert BoundBelow(Moved(d, o.s), Raised(d, c'));
    WithinMonotone(o.s, Moved(d, o.s), Raised(d, c'));
    forall m | m in sent ensures MessageWithin(m, Raised(d, c')) { MessageMonotone(m, Moved(d, o.s), Raised(d, c')); }
    ReplaceNode(c, id, node, sent, d);
  }

  lemma DeliveredWithin(c: Cluster, m: Move, d: Bound)
    requires Inv(c, d) && Allowed(c, m) && m.Run? && m.event.Receive?
    ensures MessageWithin(m.event.message, d)
  {
    var x := m.event.message;
    if x !in c.soup {
      var r :| Alive(r) in c.soup && x.register == OnWire(r, x.register.updatedAt);
      assert MessageWithin(Alive(r), d);
    }
  }

  lemma RunKeeps(c: Cluster, m: Move, d: Bound)
    requires Inv(c, d) && Allowed(c, m) && m.Run?
    ensures Inv(Apply(c, m), Raised(d, Apply(c, m)))
  {
    var s := SwimOf(c, m.id);
    assert DaemonOk(c, m.id, d);
    if m.event.Receive? { DeliveredWithin(c, m, d); }
    EventWithin(s, m.event, d);
    StepLocal(s, m.event);
    var o := Step(s, m.event);
    OperationKeeps(c, m.id, o, m.wrote, Sent(o.actions), d);
  }

  lemma AnnounceLeaveKeeps(c: Cluster, m: Move, d: Bound)
    requires Inv(c, d) && Allowed(c, m) && m.AnnounceLeave?
    ensures Inv(Apply(c, m), Raised(d, Apply(c, m)))
  {
    var s := SwimOf(c, m.id);
    assert DaemonOk(c, m.id, d);
    var i := KnownIncarnation(s, m.peer);
    var o := Outcome(LeaveEffect(s, m.peer, m.now), []);
    if m.peer == s.local {
      LeaveWithin(s, m.now, d);
      DeclareLeaveLocal(s, m.now);
    } else {
      MessageStepWithin(s, s.local, Leave(m.peer, i), m.now, d);
      MessageLocal(s, s.local, Leave(m.peer, i), m.now);
    }
    OperationKeeps(c, m.id, o, m.wrote, {Leave(m.peer, i)}, d);
  }

  /** Every move keeps all registers and messages within what each node ever ran at. */
  lemma MoveKeeps(c: Cluster, m: Move, d: Bound)
    requires Inv(c, d) && Allowed(c, m)
    ensures Inv(Apply(c, m), Raised(d, Apply(c, m)))
  {
    match m
    case Boot(_, _, _, _, _, _, _, _) => BootKeeps(c, m, d);
    case Run(_, _, _) => RunKeeps(c, m, d);
    case AnnounceLeave(_, _, _, _) => AnnounceLeaveKeeps(c, m, d);
    case Crash(id) =>
      assert c.soup + {} == c.soup;
      ReplaceNode(c, id, c.nodes[id].(daemon := None), {}, d);
    case Serve(id, about, updatedAt) => ServeKeeps(c, id, about, updatedAt, d);
  }

  lemma ServeKeeps(c: Cluster, id: Id, about: Id, updatedAt: I64, d: Bound)
    requires Inv(c, d) && Up(c, id) && about in SwimOf(c, id).view.members
    ensures var c' := Apply(c, Serve(id, about, updatedAt)); Inv(c', Raised(d, c'))
  {
    var r := OnWire(SwimOf(c, id).view.members[about], updatedAt);
    var c' := Apply(c, Serve(id, about, updatedAt));
    assert DaemonOk(c, id, d);
    assert c.nodes[id := c.nodes[id]] == c.nodes;
    assert BoundBelow(d, Raised(d, c'));
    WithinMonotone(SwimOf(c, id), d, Raised(d, c'));
    assert MessageWithin(Alive(r), d);
    MessageMonotone(Alive(r), d, Raised(d, c'));
    ReplaceNode(c, id, c.nodes[id], {Alive(r)}, d);
  }

  // ----- runs -----

  /** `cs` is a run: consecutive clusters related by the moves `ms`. */
  ghost predicate IsClusterRun(cs: seq<Cluster>, ms: seq<Move>) {
    && |cs| == |ms| + 1 && Init(cs[0])
    && forall k :: 0 <= k < |ms| ==> StepsAt(cs, ms, k)
  }

  ghost predicate StepsAt(cs: seq<Cluster>, ms: seq<Move>, k: nat)
    requires |cs| == |ms| + 1 && k < |ms|
  {
    Allowed(cs[k], ms[k]) && cs[k + 1] == Apply(cs[k], ms[k])
  }

  /** The highest incarnation each node ever ran at, up to `cs[k]`. */
  function Peaks(cs: seq<Cluster>, k: nat): Bound
    requires k < |cs|
  {
    Raised(if k == 0 then map[] else Peaks(cs, k - 1), cs[k])
  }

  function Peak(cs: seq<Cluster>, k: nat, x: Id): U64
    requires k < |cs|
  {
    var d := Peaks(cs, k);
    if x in d then d[x] else 0
  }

  lemma {:induction false} RunInv(cs: seq<Cluster>, ms: seq<Move>, k: nat)
    requires IsClusterRun(cs, ms) && k < |cs|
    ensures Inv(cs[k], Peaks(cs, k))
    decreases k, 0
  {
    if k == 0 { InitInv(cs); } else { NextInv(cs, ms, k - 1); }
  }

  lemma {:induction false} NextInv(cs: seq<Cluster>, ms: seq<Move>, k: nat)
    requires IsClusterRun(cs, ms) && k < |ms|
    ensures Inv(cs[k + 1], Peaks(cs, k + 1))
    decreases k, 1
  {
    RunInv(cs, ms, k);
    assert StepsAt(cs, ms, k);
    MoveKeeps(cs[k], ms[k], Peaks(cs, k));
  }

  lemma InitInv(cs: seq<Cluster>)
    requires cs != [] && Init(cs[0])
    ensures Inv(cs[0], Peaks(cs, 0))
  {
  }

  /** `r` is a copy of X's register held by some running node or travelling in some message. */
  ghost predicate CopyOf(c: Cluster, x: Id, r: Register) {
    || (exists id :: Up(c, id) && x in SwimOf(c, id).view.members && SwimOf(c, id).view.members[x] == r)
    || (r.id == x && Alive(r) in c.soup)
  }

  lemma CopiesBounded(c: Cluster, x: Id, r: Register, d: Bound)
    requires Inv(c, d) && x in d && CopyOf(c, x, r)
    ensures r.id == x && 1 <= r.incarnation <= d[x]
  {
    if id :| Up(c, id) && x in SwimOf(c, id).view.members && SwimOf(c, id).view.members[x] == r {
      assert DaemonOk(c, id, d);
      assert RegisterWithin(SwimOf(c, id).view.members[x], d);
    } else {
      assert MessageWithin(Alive(r), d);
    }
  }

  /** Nothing about X, held or in flight, is above `bound`; an unknown node is announced to leave at 1. */
  ghost predicate NothingAbove(c: Cluster, x: Id, bound: U64) {
    && (forall r :: CopyOf(c, x, r) ==> 1 <= r.incarnation <= bound)
    && (forall i: U64 :: Suspect(x, i) in c.soup ==> i <= bound)
    && (forall i: U64 :: Leave(x, i) in c.soup ==> i <= Max(1, bound))
  }

  /**
   The distributed bound, for every run whatever writes fail and whatever
   crashes lose: no register, suspicion or departure of X, held anywhere or
   still in flight, carries an incarnation above the highest X ever ran at.
   */
  lemma PeakBound(cs: seq<Cluster>, ms: seq<Move>, k: nat, x: Id)
    requires IsClusterRun(cs, ms) && k < |cs| && x in cs[k].nodes
    ensures NothingAbove(cs[k], x, Peak(cs, k, x))
  {
    var d := Peaks(cs, k);
    RunInv(cs, ms, k);
    forall r | CopyOf(cs[k], x, r) ensures 1 <= r.incarnation <= d[x] { CopiesBounded(cs[k], x, r, d); }
    forall i: U64 | Suspect(x, i) in cs[k].soup ensures i <= d[x] { assert MessageWithin(Suspect(x, i), d); }
    forall i: U64 | Leave(x, i) in cs[k].soup ensures i <= Max(1, d[x]) { assert MessageWithin(Leave(x, i), d); }
  }

  /** X is up and has never run at a higher incarnation than now. */
  ghost predicate AtPeak(cs: seq<Cluster>, k: nat, x: Id)
    requires k < |cs|
  {
    Up(cs[k], x) && OwnAt(cs[k], x) == Peak(cs, k, x)
  }

  /** A node at its peak is behind nothing said about it anywhere. */
  lemma IncarnationBound(cs: seq<Cluster>, ms: seq<Move>, k: nat, x: Id)
    requires IsClusterRun(cs, ms) && k < |cs| && AtPeak(cs, k, x)
    ensures x in SwimOf(cs[k], x).view.members && SwimOf(cs[k], x).local == x
    ensures forall r :: CopyOf(cs[k], x, r) ==> r.incarnation <= Own(SwimOf(cs[k], x)).incarnation
    ensures forall i: U64 :: Suspect(x, i) in cs[k].soup ==> i <= Own(SwimOf(cs[k], x)).incarnation
    ensures forall i: U64 :: Leave(x, i) in cs[k].soup ==> i <= Own(SwimOf(cs[k], x)).incarnation
  {
    RunInv(cs, ms, k);
    PeakBound(cs, ms, k, x);
    assert DaemonOk(cs[k], x, Peaks(cs, k));
    assert RegisterWithin(Own(SwimOf(cs[k], x)), Peaks(cs, k));
  }

  /**
   Hence each refutation strictly dominates every copy of X's register that
   exists when it happens, although it adds only one to the incarnation.
   */
  lemma RefutationDominates(cs: seq<Cluster>, ms: seq<Move>, k: nat, x: Id, r: Register)
    requires IsClusterRun(cs, ms) && k < |ms| && AtPeak(cs, k, x)
    requires ms[k].Run? && ms[k].id == x && OwnAt(cs[k + 1], x) != OwnAt(cs[k], x)
    requires CopyOf(cs[k], x, r)
    ensures AtPeak(cs, k + 1, x) && x in SwimOf(cs[k + 1], x).view.members
    ensures SwimOf(cs[k + 1], x).view.members[x].Dominates(r)
  {
    IncarnationBound(cs, ms, k, x);
    RunInv(cs, ms, k);
    assert DaemonOk(cs[k], x, Peaks(cs, k)) && StepsAt(cs, ms, k);
    StepLocal(SwimOf(cs[k], x), ms[k].event);
    LocalStepRaises(SwimOf(cs[k], x), SwimOf(cs[k + 1], x), ms[k].event.LeaveLocal?);
  }

  lemma LocalStepRaises(s: State, t: State, leaving: bool)
    requires LocalOk(s) && LocalStep(s, t, leaving)
    ensures Own(s).incarnation <= Own(t).incarnation
  {
  }

  // ----- the persisted counter -----

  /** The outcome of the write a move attempts, if it attempts one. */
  predicate Wrote(m: Move) {
    match m
    case Boot(_, _, _, _, _, _, _, wrote) => wrote
    case Run(_, _, wrote) => wrote
    case AnnounceLeave(_, _, _, wrote) => wrote
    case Crash(_) => true
    case Serve(_, _, _) => true
  }

  /** Daemons are well formed; where all writes succeed (`synced`), they have persisted what they use. */
  ghost predicate Tracked(c: Cluster, synced: set<Id>) {
    forall id :: Up(c, id) ==> NodeTracked(c.nodes[id], id, id in synced)
  }

  ghost predicate NodeTracked(node: Node, id: Id, synced: bool) {
    node.daemon.Some? ==>
      var s := node.daemon.value.swim;
      && s.local == id && LocalOk(s)
      && (synced ==> Own(s).incarnation == node.disk == node.daemon.value.persisted)
  }

  lemma ReplaceKeepsTracked(c: Cluster, id: Id, node: Node, soup: set<Message>, synced: set<Id>)
    requires Tracked(c, synced) && id in c.nodes && NodeTracked(node, id, id in synced)
    ensures Tracked(Cluster(c.nodes[id := node], soup), synced)
  {
    var c' := Cluster(c.nodes[id := node], soup);
    forall x | Up(c', x) ensures NodeTracked(c'.nodes[x], x, x in synced) {
      if x != id { assert Up(c, x) && c'.nodes[x] == c.nodes[x]; }
    }
  }

  lemma OperationKeepsTracked(c: Cluster, id: Id, t: State, wrote: bool, soup: set<Message>, synced: set<Id>)
    requires Tracked(c, synced) && Up(c, id) && LocalOk(t) && t.local == id && (id in synced ==> wrote)
    requires SwimOf(c, id).local == id && LocalOk(SwimOf(c, id))
    requires Own(SwimOf(c, id)).incarnation <= Own(t).incarnation
    ensures Tracked(Cluster(c.nodes[id := Persist(c.nodes[id], t, c.nodes[id].daemon.value.persisted, wrote)], soup), synced)
  {
    ReplaceKeepsTracked(c, id, Persist(c.nodes[id], t, c.nodes[id].daemon.value.persisted, wrote), soup, synced);
  }

  /** The detector state in which a running daemon's move leaves it, before persisting. */
  function After(s: State, m: Move): State {
    match m
    case Run(_, e, _) => Step(s, e).s
    case AnnounceLeave(_, peer, now, _) => LeaveEffect(s, peer, now)
    case _ => s
  }

  /** No operation lowers the local incarnation. */
  lemma OperationRaises(s: State, m: Move)
    requires LocalOk(s) && (m.Run? || m.AnnounceLeave?) && (m.Run? ==> Enabled(s, m.event))
    ensures var t := After(s, m); t.local == s.local && LocalOk(t) && Own(s).incarnation <= Own(t).incarnation
  {
    if m.Run? {
      StepLocal(s, m.event);
      LocalStepRaises(s, After(s, m), m.event.LeaveLocal?);
    } else {
      if m.peer == s.local { DeclareLeaveLocal(s, m.now); }
      else { MessageLocal(s, s.local, Leave(m.peer, KnownIncarnation(s, m.peer)), m.now); }
      LocalStepRaises(s, After(s, m), m.peer == s.local);
    }
  }

  lemma MoveKeepsTracked(c: Cluster, m: Move, synced: set<Id>)
    requires Tracked(c, synced) && Allowed(c, m) && (m.id in synced ==> Wrote(m))
    ensures Tracked(Apply(c, m), synced)
  {
    var c' := Apply(c, m);
    if m.Run? || m.AnnounceLeave? {
      assert NodeTracked(c.nodes[m.id], m.id, m.id in synced);
      OperationRaises(SwimOf(c, m.id), m);
      OperationKeepsTracked(c, m.id, After(SwimOf(c, m.id), m), Wrote(m), c'.soup, synced);
    } else {
      if m.Boot? {
        var r := BootRegister(c.nodes[m.id].disk, m);
        assert New(m.id, m.config, r).view.members == map[m.id := r];
      }
      assert m.Serve? ==> c.nodes[m.id := c.nodes[m.id]] == c.nodes;
      ReplaceKeepsTracked(c, m.id, c'.nodes[m.id], c'.soup, synced);
    }
  }

  lemma {:induction false} RunTracked(cs: seq<Cluster>, ms: seq<Move>, k: nat, synced: set<Id>)
    requires IsClusterRun(cs, ms) && k < |cs|
    requires forall j :: 0 <= j < k && ms[j].id in synced ==> Wrote(ms[j])
    ensures Tracked(cs[k], synced)
  {
    if k > 0 {
      RunTracked(cs, ms, k - 1, synced);
      assert StepsAt(cs, ms, k - 1);
      MoveKeepsTracked(cs[k - 1], ms[k - 1], synced);
    }
  }

  // ----- which incarnations survive a restart -----

  /** The move from `c` to `c'` attempts a write of its node's incarnation, and the write succeeds. */
  predicate Writes(c: Cluster, m: Move, c': Cluster) {
    && Wrote(m)
    && (m.Boot? || ((m.Run? || m.AnnounceLeave?) && Up(c, m.id) && OwnAt(c', m.id) != c.nodes[m.id].daemon.value.persisted))
  }

  /** Move `j` wrote X's incarnation. */
  predicate WriteAt(cs: seq<Cluster>, ms: seq<Move>, j: nat, x: Id)
    requires |cs| == |ms| + 1 && j < |ms|
  {
    ms[j].id == x && Writes(cs[j], ms[j], cs[j + 1])
  }

  /** The latest write of X before `k` that succeeded was at `i` or above. */
  ghost predicate Written(cs: seq<Cluster>, ms: seq<Move>, k: nat, x: Id, i: U64)
    requires |cs| == |ms| + 1 && k <= |ms|
  {
    exists j :: 0 <= j < k && WriteAt(cs, ms, j, x) && OwnAt(cs[j + 1], x) >= i
             && forall l :: j < l < k ==> !WriteAt(cs, ms, l, x)
  }

  /** One move: the counter on disk moves exactly with a successful write, to the incarnation then used. */
  lemma MoveWrites(c: Cluster, m: Move, x: Id)
    requires Tracked(c, {}) && Allowed(c, m) && x in c.nodes
    ensures x in Apply(c, m).nodes
    ensures var c' := Apply(c, m);
      c'.nodes[x].disk == if m.id == x && Writes(c, m, c') then OwnAt(c', x) else c.nodes[x].disk
  {
    if m.id == x && (m.Run? || m.AnnounceLeave?) {
      assert NodeTracked(c.nodes[x], x, false);
      OperationRaises(SwimOf(c, x), m);
    } else if m.id == x && m.Boot? {
      var r := BootRegister(c.nodes[x].disk, m);
      assert New(x, m.config, r).view.members == map[x := r];
    }
  }

  lemma RunWrites(cs: seq<Cluster>, ms: seq<Move>, k: nat, x: Id)
    requires IsClusterRun(cs, ms) && k < |ms| && x in cs[k + 1].nodes
    ensures x in cs[k].nodes
    ensures cs[k + 1].nodes[x].disk == if WriteAt(cs, ms, k, x) then OwnAt(cs[k + 1], x) else cs[k].nodes[x].disk
  {
    assert StepsAt(cs, ms, k);
    RunTracked(cs, ms, k, {});
    MoveWrites(cs[k], ms[k], x);
  }

  lemma WrittenStep(cs: seq<Cluster>, ms: seq<Move>, k: nat, x: Id, i: U64)
    requires |cs| == |ms| + 1 && k < |ms|
    ensures Written(cs, ms, k + 1, x, i) <==>
              if WriteAt(cs, ms, k, x) then OwnAt(cs[k + 1], x) >= i else Written(cs, ms, k, x, i)
  {
    if Written(cs, ms, k, x, i) && !WriteAt(cs, ms, k, x) { WrittenStays(cs, ms, k, x, i); }
    if Written(cs, ms, k + 1, x, i) { WrittenBefore(cs, ms, k, x, i); }
  }

  lemma WrittenStays(cs: seq<Cluster>, ms: seq<Move>, k: nat, x: Id, i: U64)
    requires |cs| == |ms| + 1 && k < |ms| && Written(cs, ms, k, x, i) && !WriteAt(cs, ms, k, x)
    ensures Written(cs, ms, k + 1, x, i)
  {
    var j :| 0 <= j < k && WriteAt(cs, ms, j, x) && OwnAt(cs[j + 1], x) >= i
          && forall l :: j < l < k ==> !WriteAt(cs, ms, l, x);
    assert forall l :: j < l < k + 1 ==> !WriteAt(cs, ms, l, x);
  }

  lemma WrittenBefore(cs: seq<Cluster>, ms: seq<Move>, k: nat, x: Id, i: U64)
    requires |cs| == |ms| + 1 && k < |ms| && Written(cs, ms, k + 1, x, i)
    ensures WriteAt(cs, ms, k, x) ==> OwnAt(cs[k + 1], x) >= i
    ensures !WriteAt(cs, ms, k, x) ==> Written(cs, ms, k, x, i)
  {
    var j :| 0 <= j < k + 1 && WriteAt(cs, ms, j, x) && OwnAt(cs[j + 1], x) >= i
          && forall l :: j < l < k + 1 ==> !WriteAt(cs, ms, l, x);
    if j < k { assert !WriteAt(cs, ms, k, x); }
  }

  /** The counter on disk is at `i` or above exactly when the latest write was. */
  lemma {:induction false} DiskIsWritten(cs: seq<Cluster>, ms: seq<Move>, k: nat, x: Id, i: U64)
    requires IsClusterRun(cs, ms) && k < |cs| && x in cs[k].nodes && i >= 1
    ensures cs[k].nodes[x].disk >= i <==> Written(cs, ms, k, x, i)
  {
    if k > 0 {
      RunWrites(cs, ms, k - 1, x);
      DiskIsWritten(cs, ms, k - 1, x, i);
      WrittenStep(cs, ms, k - 1, x, i);
    }
  }

  lemma PeakStep(cs: seq<Cluster>, ms: seq<Move>, k: nat, x: Id)
    requires IsClusterRun(cs, ms) && k < |ms| && x in cs[k].nodes
    ensures x in cs[k + 1].nodes && Peak(cs, k + 1, x) == Max(Peak(cs, k, x), OwnAt(cs[k + 1], x))
  {
    assert StepsAt(cs, ms, k);
  }

  function DiskOf(c: Cluster, x: Id): U64 { if x in c.nodes then c.nodes[x].disk else 0 }

  /** The counter never runs ahead of what the node ran at. */
  lemma {:induction false} DiskBelowPeak(cs: seq<Cluster>, ms: seq<Move>, k: nat, x: Id)
    requires IsClusterRun(cs, ms) && k < |cs| && x in cs[k].nodes
    ensures cs[k].nodes[x].disk <= Peak(cs, k, x)
  {
    if k > 0 {
      RunWrites(cs, ms, k - 1, x);
      DiskBelowPeak(cs, ms, k - 1, x);
      PeakStep(cs, ms, k - 1, x);
    }
  }

  /** Every copy of X's register, held or in flight, is strictly below `bound`. */
  ghost predicate CopiesBelow(c: Cluster, x: Id, bound: U64) {
    forall r :: CopyOf(c, x, r) ==> r.incarnation < bound
  }

  /** Some copy of X's register is at the highest incarnation X ever ran at. */
  ghost predicate PeakCopied(cs: seq<Cluster>, k: nat, x: Id)
    requires k < |cs|
  {
    exists r :: CopyOf(cs[k], x, r) && r.incarnation == Peak(cs, k, x)
  }

  /** The boot at `k` reads the counter, and the latest write before it was at `i` or above. */
  ghost predicate Recovered(cs: seq<Cluster>, ms: seq<Move>, k: nat, i: U64)
    requires |cs| == |ms| + 1 && k < |ms|
  {
    ms[k].Boot? && ms[k].read && Written(cs, ms, k, ms[k].id, i)
  }

  lemma BootsAt(cs: seq<Cluster>, ms: seq<Move>, k: nat)
    requires IsClusterRun(cs, ms) && k < |ms| && ms[k].Boot?
    ensures ms[k].id in cs[k].nodes && Up(cs[k + 1], ms[k].id)
    ensures OwnAt(cs[k + 1], ms[k].id) == Inc(if ms[k].read then DiskOf(cs[k], ms[k].id) else 0)
  {
    assert StepsAt(cs, ms, k);
    BootsAbove(cs[k], ms[k]);
  }

  lemma BootsAbove(c: Cluster, m: Move)
    requires m.Boot? && Allowed(c, m)
    ensures Up(Apply(c, m), m.id) && OwnAt(Apply(c, m), m.id) == Inc(if m.read then c.nodes[m.id].disk else 0)
  {
    var r := BootRegister(c.nodes[m.id].disk, m);
    assert New(m.id, m.config, r).view.members == map[m.id := r];
  }

  /**
   Whatever reads and writes failed before: a boot comes up above an
   incarnation exactly when it reads the counter and the latest successful
   write was at that incarnation or above. Hence it is above all the node ever
   ran at exactly when that write was at the peak (or the node never ran), and
   above every copy of its register exactly when it was at or above each of
   them. Where a copy at the peak exists the two coincide.
   */
  lemma BootAboveExactly(cs: seq<Cluster>, ms: seq<Move>, k: nat)
    requires IsClusterRun(cs, ms) && k < |ms| && ms[k].Boot? && DiskOf(cs[k], ms[k].id) < U64_MAX
    ensures var x := ms[k].id; var peak, booted := Peak(cs, k, x), OwnAt(cs[k + 1], x);
      && (forall i: U64 :: i >= 1 ==> (booted > i <==> Recovered(cs, ms, k, i)))
      && (booted > peak <==> peak == 0 || Recovered(cs, ms, k, peak))
      && (CopiesBelow(cs[k], x, booted) <==> forall r :: CopyOf(cs[k], x, r) ==> Recovered(cs, ms, k, r.incarnation))
      && (PeakCopied(cs, k, x) ==> (CopiesBelow(cs[k], x, booted) <==> Recovered(cs, ms, k, peak)))
  {
    var x := ms[k].id;
    var peak, booted := Peak(cs, k, x), OwnAt(cs[k + 1], x);
    BootsAt(cs, ms, k);
    forall i: U64 | i >= 1 ensures booted > i <==> Recovered(cs, ms, k, i) { DiskIsWritten(cs, ms, k, x, i); }
    PeakBound(cs, ms, k, x);
    if PeakCopied(cs, k, x) {
      var r :| CopyOf(cs[k], x, r) && r.incarnation == peak;
      if Recovered(cs, ms, k, peak) { assert booted > peak; }
    }
  }

  /** ... and it stands at its peak, so that all bounds above apply, exactly when it recovers all but the last step of it. */
  lemma BootAtPeakExactly(cs: seq<Cluster>, ms: seq<Move>, k: nat)
    requires IsClusterRun(cs, ms) && k < |ms| && ms[k].Boot?
    ensures var peak := Peak(cs, k, ms[k].id);
      AtPeak(cs, k + 1, ms[k].id) <==> peak <= 1 || Recovered(cs, ms, k, peak - 1)
  {
    var peak := Peak(cs, k, ms[k].id);
    BootsAt(cs, ms, k);
    AtPeakAfter(cs, ms, k, ms[k].id);
    if peak > 1 { DiskIsWritten(cs, ms, k, ms[k].id, peak - 1); }
  }

  lemma AtPeakAfter(cs: seq<Cluster>, ms: seq<Move>, k: nat, x: Id)
    requires IsClusterRun(cs, ms) && k < |ms| && x in cs[k].nodes && Up(cs[k + 1], x)
    ensures AtPeak(cs, k + 1, x) <==> OwnAt(cs[k + 1], x) >= Peak(cs, k, x)
  {
    PeakStep(cs, ms, k, x);
  }

  /** Where a copy at the peak exists, a node is behind nothing exactly when it stands at its peak. */
  lemma BoundExactly(cs: seq<Cluster>, ms: seq<Move>, k: nat, x: Id)
    requires IsClusterRun(cs, ms) && k < |cs| && Up(cs[k], x) && PeakCopied(cs, k, x)
    ensures (forall r :: CopyOf(cs[k], x, r) ==> r.incarnation <= OwnAt(cs[k], x)) <==> AtPeak(cs, k, x)
  {
    PeakBound(cs, ms, k, x);
    if AtPeak(cs, k, x) { IncarnationBound(cs, ms, k, x); }
  }

  /** ... and its next refutation is above every copy exactly then. */
  lemma RefutationAboveExactly(cs: seq<Cluster>, ms: seq<Move>, k: nat, x: Id)
    requires IsClusterRun(cs, ms) && k < |ms| && Up(cs[k], x) && PeakCopied(cs, k, x)
    requires ms[k].Run? && ms[k].id == x && OwnAt(cs[k + 1], x) != OwnAt(cs[k], x)
    ensures CopiesBelow(cs[k], x, OwnAt(cs[k + 1], x)) <==> AtPeak(cs, k, x)
  {
    RunTracked(cs, ms, k, {});
    assert NodeTracked(cs[k].nodes[x], x, false) && StepsAt(cs, ms, k);
    EventMoves(SwimOf(cs[k], x), ms[k].event);
    BoundExactly(cs, ms, k, x);
  }

  /** The move neither crashes a daemon whose incarnation is yet unwritten nor boots without reading one that was written. */
  predicate Saved(c: Cluster, m: Move) {
    (m.Crash? ==> OwnAt(c, m.id) <= DiskOf(c, m.id)) && (m.Boot? ==> m.read || DiskOf(c, m.id) == 0)
  }

  /** No crash or boot of X before `k` loses an incarnation; without crashes there is none to lose. */
  ghost predicate AllSaved(cs: seq<Cluster>, ms: seq<Move>, k: nat, x: Id)
    requires |cs| == |ms| + 1 && k <= |ms|
  {
    forall j :: 0 <= j < k && ms[j].id == x ==> Saved(cs[j], ms[j])
  }

  predicate StandsAt(c: Cluster, x: Id, i: U64)
    requires x in c.nodes
  {
    if Up(c, x) then OwnAt(c, x) == i else c.nodes[x].disk == i
  }

  lemma MoveStands(c: Cluster, m: Move, x: Id, peak: U64)
    requires Tracked(c, {}) && Allowed(c, m) && x in c.nodes && c.nodes[x].disk <= peak
    requires StandsAt(c, x, peak) && (m.id == x ==> Saved(c, m))
    ensures x in Apply(c, m).nodes && StandsAt(Apply(c, m), x, Max(peak, OwnAt(Apply(c, m), x)))
  {
    MoveWrites(c, m, x);
    if m.id == x {
      if Up(c, x) { assert NodeTracked(c.nodes[x], x, false); }
      if m.Boot? { BootsAbove(c, m); }
      if m.Run? || m.AnnounceLeave? { OperationRaises(SwimOf(c, x), m); }
    }
  }

  lemma RunStands(cs: seq<Cluster>, ms: seq<Move>, k: nat, x: Id)
    requires IsClusterRun(cs, ms) && k < |ms| && x in cs[k].nodes && (ms[k].id == x ==> Saved(cs[k], ms[k]))
    requires StandsAt(cs[k], x, Peak(cs, k, x))
    ensures x in cs[k + 1].nodes && StandsAt(cs[k + 1], x, Max(Peak(cs, k, x), OwnAt(cs[k + 1], x)))
  {
    assert StepsAt(cs, ms, k);
    RunTracked(cs, ms, k, {});
    DiskBelowPeak(cs, ms, k, x);
    MoveStands(cs[k], ms[k], x, Peak(cs, k, x));
  }

  /** Then X always stands at its peak while up, and has its peak on disk while down. */
  lemma {:induction false} SavedStandsAtPeak(cs: seq<Cluster>, ms: seq<Move>, k: nat, x: Id)
    requires IsClusterRun(cs, ms) && k < |cs| && x in cs[k].nodes && AllSaved(cs, ms, k, x)
    ensures StandsAt(cs[k], x, Peak(cs, k, x))
  {
    if k > 0 {
      RunWrites(cs, ms, k - 1, x);
      SavedStandsAtPeak(cs, ms, k - 1, x);
      RunStands(cs, ms, k - 1, x);
      PeakStep(cs, ms, k - 1, x);
    }
  }

  /** When every write X attempts succeeds and every boot reads the counter, no incarnation is lost. */
  lemma WritesSave(cs: seq<Cluster>, ms: seq<Move>, k: nat, x: Id)
    requires IsClusterRun(cs, ms) && k <= |ms|
    requires forall j :: 0 <= j < k && ms[j].id == x ==> Wrote(ms[j]) && (ms[j].Boot? ==> ms[j].read)
    ensures AllSaved(cs, ms, k, x)
  {
    forall j | 0 <= j < k && ms[j].id == x ensures Saved(cs[j], ms[j]) {
      RunTracked(cs, ms, j, {x});
      if Up(cs[j], x) { assert NodeTracked(cs[j].nodes[x], x, true); }
    }
  }

  /**
   So with nothing lost up to and including a boot below the counter's limit,
   it comes up strictly above every register, suspicion and departure of the
   node ever let out.
   */
  lemma BootDominates(cs: seq<Cluster>, ms: seq<Move>, k: nat, r: Register)
    requires IsClusterRun(cs, ms) && k < |ms| && ms[k].Boot? && AllSaved(cs, ms, k + 1, ms[k].id)
    requires DiskOf(cs[k], ms[k].id) < U64_MAX
    ensures Up(cs[k + 1], ms[k].id) && ms[k].id in SwimOf(cs[k + 1], ms[k].id).view.members
    ensures var booted := SwimOf(cs[k + 1], ms[k].id).view.members[ms[k].id];
      && (CopyOf(cs[k], ms[k].id, r) ==> booted.Dominates(r) && booted.incarnation > r.incarnation)
      && (forall i: U64 :: Suspect(ms[k].id, i) in cs[k].soup ==> i < booted.incarnation)
      && (Peak(cs, k, ms[k].id) >= 1 ==>
            forall i: U64 :: Leave(ms[k].id, i) in cs[k].soup ==> i < booted.incarnation)
  {
    assert Saved(cs[k], ms[k]) && StepsAt(cs, ms, k);
    BootsAt(cs, ms, k);
    SavedStandsAtPeak(cs, ms, k, ms[k].id);
    PeakBound(cs, ms, k, ms[k].id);
  }

  // ----- losing an incarnation -----

  /** Serve the own register, crash and boot again. */
  ghost function Rebooted(up: Cluster, again: Move, updatedAt: I64): Cluster
    requires again.Boot? && Up(up, again.id) && again.id in SwimOf(up, again.id).view.members
  {
    Apply(Apply(Apply(up, Serve(again.id, again.id, updatedAt)), Crash(again.id)), again)
  }

  lemma RebootKeepsCopy(up: Cluster, again: Move, updatedAt: I64)
    requires again.Boot? && Up(up, again.id) && again.id in SwimOf(up, again.id).view.members
    requires SwimOf(up, again.id).view.members[again.id].id == again.id
    ensures var r := OnWire(SwimOf(up, again.id).view.members[again.id], updatedAt);
      CopyOf(Rebooted(up, again, updatedAt), again.id, r)
  {
    var r := OnWire(SwimOf(up, again.id).view.members[again.id], updatedAt);
    assert Alive(r) in Rebooted(up, again, updatedAt).soup;
  }

  /** One failed write at boot is enough: the next boot ties with a register served before the crash. */
  lemma FailedBootWriteReusesIncarnation(c: Cluster, boot: Move, updatedAt: I64)
    requires boot.Boot? && Allowed(c, boot) && !boot.wrote
    ensures var x, up := boot.id, Apply(c, boot);
      && Up(up, x) && x in SwimOf(up, x).view.members
      && var again := Rebooted(up, boot, updatedAt);
         SwimOf(again, x) == SwimOf(up, x) && exists r :: CopyOf(again, x, r) && Alive(r) in again.soup && r.incarnation == OwnAt(again, x)
  {
    var x, up := boot.id, Apply(c, boot);
    var r := BootRegister(c.nodes[x].disk, boot);
    assert New(x, boot.config, r).view.members == map[x := r];
    RebootKeepsCopy(up, boot, updatedAt);
    assert Alive(OnWire(r, updatedAt)) in Rebooted(up, boot, updatedAt).soup;
  }

  /**
   One failed read at boot loses everything: the node comes up at 1 behind a
   copy of its own register, and a successful write makes the loss permanent.
   */
  lemma FailedReadForgets(c: Cluster, boot: Move, again: Move, updatedAt: I64)
    requires boot.Boot? && Allowed(c, boot) && boot.read && c.nodes[boot.id].disk >= 1
    requires again.Boot? && again.id == boot.id && !again.read && again.wrote
    ensures var x, up := boot.id, Apply(c, boot);
      && Up(up, x) && x in SwimOf(up, x).view.members
      && var down := Rebooted(up, again, updatedAt);
         && OwnAt(down, x) == down.nodes[x].disk == 1
         && exists r :: CopyOf(down, x, r) && r.incarnation > OwnAt(down, x)
  {
    var x, up := boot.id, Apply(c, boot);
    var r, q := BootRegister(c.nodes[x].disk, boot), BootRegister(0, again);
    assert New(x, boot.config, r).view.members == map[x := r];
    assert New(x, again.config, q).view.members == map[x := q];
    RebootKeepsCopy(up, again, updatedAt);
    assert OnWire(r, updatedAt).incarnation == r.incarnation >= 2;
  }

  // ----- a refutation reaches the others -----

  /** Y is up throughout `start`..`end`. */
  ghost predicate StaysUp(cs: seq<Cluster>, ms: seq<Move>, y: Id, start: nat, end: nat)
    requires |cs| == |ms| + 1 && start <= end <= |ms|
  {
    Up(cs[start], y) && forall l :: start <= l < end && ms[l].id == y ==> !ms[l].Crash?
  }

  /** One move of the cluster lowers nothing a running node knows. */
  lemma MoveGrowsKeys(c: Cluster, m: Move, y: Id)
    requires Tracked(c, {}) && Allowed(c, m) && Up(c, y) && (m.id == y ==> !m.Crash?)
    ensures Up(Apply(c, m), y) && KeysGrow(SwimOf(c, y), SwimOf(Apply(c, m), y))
  {
    assert NodeTracked(c.nodes[y], y, false);
    if m.id == y && (m.Run? || m.AnnounceLeave?) {
      OperationGrowsKeys(SwimOf(c, y), m);
      assert SwimOf(Apply(c, m), y) == After(SwimOf(c, y), m);
    }
  }

  lemma OperationGrowsKeys(s: State, m: Move)
    requires LocalOk(s) && (m.Run? || m.AnnounceLeave?) && (m.Run? ==> Enabled(s, m.event))
    ensures KeysGrow(s, After(s, m))
  {
    if m.Run? { StepLocal(s, m.event); }
    else if m.peer == s.local { DeclareLeaveLocal(s, m.now); }
    else { MessageLocal(s, s.local, Leave(m.peer, KnownIncarnation(s, m.peer)), m.now); }
  }

  lemma RunGrowsKeys(cs: seq<Cluster>, ms: seq<Move>, k: nat, y: Id)
    requires IsClusterRun(cs, ms) && k < |ms| && Up(cs[k], y) && (ms[k].id == y ==> !ms[k].Crash?)
    ensures Up(cs[k + 1], y) && KeysGrow(SwimOf(cs[k], y), SwimOf(cs[k + 1], y))
  {
    assert StepsAt(cs, ms, k);
    RunTracked(cs, ms, k, {});
    MoveGrowsKeys(cs[k], ms[k], y);
  }

  lemma {:induction false} KnowledgeGrows(cs: seq<Cluster>, ms: seq<Move>, y: Id, start: nat, end: nat)
    requires IsClusterRun(cs, ms) && start <= end <= |ms| && StaysUp(cs, ms, y, start, end)
    ensures Up(cs[end], y) && KeysGrow(SwimOf(cs[start], y), SwimOf(cs[end], y))
    decreases end
  {
    if end > start {
      KnowledgeGrows(cs, ms, y, start, end - 1);
      RunGrowsKeys(cs, ms, end - 1, y);
      KeysGrowTransitive(SwimOf(cs[start], y), SwimOf(cs[end - 1], y), SwimOf(cs[end], y));
    }
  }

  /** Receiving a register of another node leaves it held at that key or above. */
  lemma AliveIsHeld(s: State, from: Id, r: Register, now: I64)
    requires r.id != s.local
    ensures var t := OnMessage(s, from, Alive(r), now).s; r.id in t.view.members && t.view.members[r.id].KeyAtLeast(r)
  {
    if r.id in s.view.members { MergeKey(s.view.members[r.id], r); }
  }

  /**
   End to end: a refutation of X at move `j` is on the network at once; when Y
   has received it at move `k`, then as long as Y stays up it holds X at the
   refuting incarnation or above, so no suspicion from before survives there.
   */
  lemma RefutationReaches(cs: seq<Cluster>, ms: seq<Move>, j: nat, x: Id, p: Register, k: nat, y: Id, l: nat, updatedAt: I64)
    requires IsClusterRun(cs, ms) && j < k < l <= |ms| && x != y
    requires Refutes(cs, ms, j, x, p)
    requires Up(cs[k], y) && ms[k].Run? && ms[k].id == y && ms[k].event.Receive?
    requires ms[k].event.message == Alive(p.(updatedAt := updatedAt))
    requires StaysUp(cs, ms, y, k + 1, l)
    ensures Alive(p) in cs[j + 1].soup
    ensures Up(cs[l], y) && x in SwimOf(cs[l], y).view.members
    ensures SwimOf(cs[l], y).view.members[x].KeyAtLeast(p)
    ensures SwimOf(cs[l], y).view.members[x].incarnation >= p.incarnation == OwnAt(cs[j], x) + 1
  {
    RefutationIsSent(cs, ms, j, x, p);
    ReceivedIsHeld(cs, ms, k, y, p.(updatedAt := updatedAt));
    KnowledgeGrows(cs, ms, y, k + 1, l);
    KeyAtLeastTransitive(SwimOf(cs[l], y).view.members[x], SwimOf(cs[k + 1], y).view.members[x], p);
  }

  /** X's own incarnation moves at move `j`, to the register `p`. */
  ghost predicate Refutes(cs: seq<Cluster>, ms: seq<Move>, j: nat, x: Id, p: Register)
    requires |cs| == |ms| + 1 && j < |ms|
  {
    && Up(cs[j], x) && ms[j].Run? && ms[j].id == x && OwnAt(cs[j + 1], x) != OwnAt(cs[j], x)
    && Up(cs[j + 1], x) && x in SwimOf(cs[j + 1], x).view.members && SwimOf(cs[j + 1], x).view.members[x] == p
  }

  lemma ReceivedIsHeld(cs: seq<Cluster>, ms: seq<Move>, k: nat, y: Id, r: Register)
    requires IsClusterRun(cs, ms) && k < |ms| && r.id != y
    requires Up(cs[k], y) && ms[k].Run? && ms[k].id == y && ms[k].event.Receive? && ms[k].event.message == Alive(r)
    ensures Up(cs[k + 1], y) && r.id in SwimOf(cs[k + 1], y).view.members
    ensures SwimOf(cs[k + 1], y).view.members[r.id].KeyAtLeast(r)
  {
    RunTracked(cs, ms, k, {});
    assert NodeTracked(cs[k].nodes[y], y, false) && StepsAt(cs, ms, k);
    AliveIsHeld(SwimOf(cs[k], y), ms[k].event.from, r, ms[k].event.now);
    assert SwimOf(cs[k + 1], y) == Step(SwimOf(cs[k], y), ms[k].event).s;
  }

  lemma RefutationIsSent(cs: seq<Cluster>, ms: seq<Move>, j: nat, x: Id, p: Register)
    requires IsClusterRun(cs, ms) && j < |ms| && Refutes(cs, ms, j, x, p)
    ensures p.id == x && p.incarnation == OwnAt(cs[j], x) + 1 && Alive(p) in cs[j + 1].soup
  {
    RunTracked(cs, ms, j, {});
    assert NodeTracked(cs[j].nodes[x], x, false) && StepsAt(cs, ms, j);
    var s := SwimOf(cs[j], x);
    var o := Step(s, ms[j].event);
    assert SwimOf(cs[j + 1], x) == o.s;
    EventMoves(s, ms[j].event);
    StepLocal(s, ms[j].event);
    assert o.actions[0] in o.actions && MessageOf(o.actions[0]) == Alive(p);
  }
}

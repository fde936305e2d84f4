/**
 What single announcements and ticks visibly do to a register: rumours about a
 peer, a departure, the node's own heartbeat and annotations, the next probe.
 */
module Announcements {
  import opened Order
  import opened Registers
  import opened Memberships
  import opened SwimSpec
  import opened SwimRuns
  import opened FailureDetection
  import opened ProbeFairness
  import opened Cluster
  import opened Services

  /** Nothing but the register of `id` changes, and nothing is sent. */
  ghost predicate OnlyAbout(s: State, o: Outcome, id: Id) {
    && o.actions == [] && o.s == s.(view := o.s.view) && o.s.view.members.Keys == s.view.members.Keys
    && forall y :: y in s.view.members && y != id ==> o.s.view.members[y] == s.view.members[y]
  }

  /** The new register names the same node with the same address, labels and annotations. */
  predicate SameIdentity(r: Register, q: Register) {
    r.id == q.id && r.address == q.address && r.labels == q.labels && r.annotations == q.annotations
  }

  /**
   A suspicion of a peer: an older one is ignored; one at the held incarnation
   or above lifts the peer to that incarnation, and turns it Suspected only
   from Active. In particular a newer suspicion of an Offline peer keeps it Offline.
   */
  lemma SuspicionOfPeer(s: State, from: Id, id: Id, i: U64, now: I64)
    requires Keyed(s.view.members) && id != s.local
    ensures var o := OnMessage(s, from, Suspect(id, i), now);
      && OnlyAbout(s, o, id)
      && (id in s.view.members ==>
            var m, r := s.view.members[id], o.s.view.members[id];
            && SameIdentity(r, m)
            && (i < m.incarnation ==> r == m)
            && (i >= m.incarnation ==>
                  && r.incarnation == i
                  && r.state == (if m.state.Active? then Suspected else m.state)
                  && r.heartbeat == (if m.state.Active? then Inc(m.heartbeat) else m.heartbeat)))
  {
    if id in s.view.members && i >= s.view.members[id].incarnation { SuspectMerged(s.view.members[id], i, now); }
  }

  lemma SuspectMerged(m: Register, i: U64, now: I64)
    requires i >= m.incarnation
    ensures var r := m.Merge(m.(incarnation := i).Suspect(now));
      && SameIdentity(r, m) && r.incarnation == i
      && r.state == (if m.state.Active? then Suspected else m.state)
      && r.heartbeat == (if m.state.Active? then Inc(m.heartbeat) else m.heartbeat)
  {
  }

  lemma LeaveMerged(m: Register, i: U64, now: I64)
    requires i >= m.incarnation
    ensures var r := m.Merge(m.(incarnation := i).Leave(now));
      && SameIdentity(r, m) && r.incarnation == i
      && r.state == (if i == m.incarnation && m.state.Offline? then Offline else Leaving)
  {
  }

  /**
   The departure of a peer: an older one is ignored; one at the held
   incarnation marks it Leaving unless it is Offline, a newer one always does.
   */
  lemma DepartureOfPeer(s: State, from: Id, id: Id, i: U64, now: I64)
    requires Keyed(s.view.members) && id != s.local
    ensures var o := OnMessage(s, from, SwimSpec.Leave(id, i), now);
      && OnlyAbout(s, o, id)
      && (id in s.view.members ==>
            var m, r := s.view.members[id], o.s.view.members[id];
            && SameIdentity(r, m)
            && (i < m.incarnation ==> r == m)
            && (i >= m.incarnation ==>
                  r.incarnation == i && r.state == (if i == m.incarnation && m.state.Offline? then Offline else Leaving)))
  {
    if id in s.view.members && i >= s.view.members[id].incarnation { LeaveMerged(s.view.members[id], i, now); }
  }

  /** Rumours about an unknown peer change nothing. */
  lemma UnknownPeerIgnored(s: State, from: Id, id: Id, i: U64, now: I64)
    requires id != s.local && id !in s.view.members
    ensures OnMessage(s, from, Suspect(id, i), now) == Outcome(s, [])
    ensures OnMessage(s, from, SwimSpec.Leave(id, i), now) == Outcome(s, [])
  {
  }

  /**
   The leave operation takes effect where it is called and wherever the peer is
   known no better: both then hold the peer Leaving, or Offline if they already
   did, at the incarnation the announcer knew.
   */
  lemma LeaveTakesEffect(s: State, t: State, peer: Id, now: I64, later: I64)
    requires Keyed(s.view.members) && Keyed(t.view.members) && peer != s.local && peer != t.local
    requires peer in s.view.members && peer in t.view.members
    requires t.view.members[peer].incarnation <= s.view.members[peer].incarnation
    ensures var known := s.view.members[peer].incarnation;
            var mine := LeaveEffect(s, peer, now).view.members;
            var theirs := OnMessage(t, s.local, SwimSpec.Leave(peer, KnownIncarnation(s, peer)), later).s.view.members;
      && peer in mine && mine[peer].incarnation == known && (mine[peer].state.Leaving? || mine[peer].state.Offline?)
      && peer in theirs && theirs[peer].incarnation == known && (theirs[peer].state.Leaving? || theirs[peer].state.Offline?)
  {
    DepartureOfPeer(s, s.local, peer, s.view.members[peer].incarnation, now);
    DepartureOfPeer(t, s.local, peer, s.view.members[peer].incarnation, later);
  }

  // ----- the local node -----

  /** Every tick is one heartbeat of the local register, and nothing else happens to it. */
  lemma TickBeats(s: State, now: I64, ch: Choices)
    requires LocalOk(s) && ValidChoices(s, now, ch)
    ensures var t := Tick(s, now, ch).s;
      && t.local == s.local && s.local in t.view.members
      && Own(t) == Own(s).(heartbeat := Inc(Own(s).heartbeat), updatedAt := now)
  {
    var h, p := Heartbeat(s, now), Probed(s, now, ch).s;
    HeartbeatLocal(s, now);
    ProbedFrame(s, now, ch);
    TimeoutsGrowKeys(h, p, now, TimedOut(s, now));
    VerdictsGrowKeys(p, now, ch.suspected);
    TickFrame(s, now, ch);
  }

  /**
   New annotations are announced with the register that carries them. They are
   also what the node holds afterwards, exactly unless its heartbeat counter is
   exhausted and the old annotations win the tie.
   */
  lemma AnnotationsExactly(s: State, annotations: StrMap, now: I64)
    requires LocalOk(s)
    ensures var o := SwimSpec.Annotate(s, annotations, now);
      && (annotations == Own(s).annotations ==> o == Outcome(s, []))
      && s.local in o.s.view.members
      && (annotations != Own(s).annotations ==>
            && o.actions == [Broadcast(Alive(Own(s).(annotations := annotations, heartbeat := Inc(Own(s).heartbeat), updatedAt := now)))]
            && (Own(o.s).annotations == annotations
                <==> Own(s).heartbeat < U64_MAX || MapLe(Own(s).annotations, annotations))
            && (Own(s).heartbeat < U64_MAX ==> o.actions == [Broadcast(Alive(Own(o.s)))]))
  {
    if annotations != Own(s).annotations { AnnotatedMerged(Own(s), annotations, now); }
  }

  lemma AnnotatedMerged(m: Register, annotations: StrMap, now: I64)
    requires (m.state.Active? || m.state.Leaving?) && annotations != m.annotations
    ensures var q := m.(annotations := annotations).BumpHeartbeat(now);
      && q == m.(annotations := annotations, heartbeat := Inc(m.heartbeat), updatedAt := now)
      && (m.heartbeat < U64_MAX ==> m.Merge(q) == q)
      && (m.Merge(q).annotations == annotations <==> m.heartbeat < U64_MAX || MapLe(m.annotations, annotations))
  {
    MapLeTotal(m.annotations, annotations);
    if MapLe(m.annotations, annotations) && MapLe(annotations, m.annotations) {
      MapLeAntisymmetric(m.annotations, annotations);
    }
  }

  /** The key belongs to the extensions. */
  predicate Owned(key: string) { |key| >= 4 && key[..4] == "ext." }

  /** The update replaces the owned keys and no others; doing it again changes nothing. */
  lemma ExtensionsExactly(current: StrMap, ext: StrMap)
    ensures var r := WithExtensions(current, ext);
      && (forall k :: Owned(k) ==> (k in r <==> k in ext) && (k in r ==> r[k] == ext[k]))
      && (forall k :: !Owned(k) ==> (k in r <==> k in current) && (k in r ==> r[k] == current[k]))
      && WithExtensions(r, ext) == r
  {
    var r := WithExtensions(current, ext);
    forall k: string ensures IsExtensionKey(k) <==> Owned(k) {}
    forall k ensures (k in WithExtensions(r, ext) <==> k in r) && (k in r ==> WithExtensions(r, ext)[k] == r[k]) {
      assert IsExtensionKey(k) <==> Owned(k);
    }
  }

  // ----- the next probe -----

  /** A peer due for a probe in state `j`: live, not the local node, none outstanding, and long enough unprobed. */
  ghost predicate Due(j: State, now: I64, y: Id) {
    && y in j.view.members && y != j.local && (j.view.members[y].state.Active? || j.view.members[y].state.Suspected?)
    && (forall n :: n in j.pending ==> j.pending[n].target != y)
    && var idle := Elapsed(now, if y in j.lastProbe then j.lastProbe[y] else 0);
       idle > 0 && idle >= j.config.pingInterval
  }

  /** A tick probes somebody exactly when somebody is due once its verdicts are in, and then somebody who is. */
  lemma ProbesWheneverDue(s: State, now: I64, ch: Choices)
    requires ValidChoices(s, now, ch)
    ensures var j, actions := Judged(s, now, ch).s, Tick(s, now, ch).actions;
      && ((exists x, n :: SendPing(x, n) in actions) <==> exists y :: Due(j, now, y))
      && (forall x, n :: SendPing(x, n) in actions ==> Due(j, now, x))
  {
    var j, actions := Judged(s, now, ch).s, Tick(s, now, ch).actions;
    var b := BestProbe(j, now, ch.active);
    BestProbeIsOldest(j, now, ch.active);
    forall y ensures Due(j, now, y) <==> y in ch.active && !HasPending(j, y) && Gap(j, now, y) > 0 && Gap(j, now, y) >= j.config.pingInterval {
    }
    forall x, n | SendPing(x, n) in actions ensures Due(j, now, x) { TickPings(s, now, ch, x); }
    if y :| Due(j, now, y) {
      assert b.candidate.Some?;
      TickPings(s, now, ch, b.candidate.value);
    }
  }
}

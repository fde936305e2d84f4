/**
 One complete anti-entropy exchange between two replicas: diff, fetch, push and
 merge on both sides, and what it converges.
 */
module Exchange {
  import opened Order
  import opened Registers
  import opened Memberships
  import opened SwimSpec
  import opened SwimRuns
  import opened Merkle
  import opened MerkleTrees
  import opened MerkleDiffs
  import opened MerkleSessions
  import opened DiffTheorems
  import opened WireReplies
  import opened RegisterStreams
  import opened Cluster
  import opened ClockIndependence
  import opened Services

  /** Registers as they arrive at the other side. */
  function OnWireAll(rs: seq<Register>): seq<Register> {
    seq(|rs|, i requires 0 <= i < |rs| => OnWire(rs[i], 0))
  }

  // ----- a batch with one register per id merges each id once -----

  ghost predicate OnePerId(rs: seq<Register>) {
    forall i, j :: 0 <= i < j < |rs| ==> rs[i].id != rs[j].id
  }

  /** The register for `x` after merging `r` into what was held. */
  function MergedInto(m: Members, x: Id, r: Register): Register {
    if x in m then m[x].Merge(r) else r
  }

  lemma SyncOne(s: State, r: Register, now: I64, x: Id)
    requires x != s.local
    ensures var t := OnMessage(s, s.local, Alive(r), now).s;
      && t.local == s.local
      && (r.id != x ==> (x in t.view.members <==> x in s.view.members))
      && (r.id != x && x in s.view.members ==> t.view.members[x] == s.view.members[x])
      && (r.id == x ==> x in t.view.members && t.view.members[x] == MergedInto(s.view.members, x, r))
  {
  }

  lemma {:induction false} SyncKeepsLocal(s: State, rs: seq<Register>, now: I64)
    ensures SyncAll(s, rs, now).s.local == s.local
    decreases |rs|
  {
    if rs != [] {
      SyncKeepsLocal(s, rs[..|rs| - 1], now);
      MessageFrame(SyncAll(s, rs[..|rs| - 1], now).s, s.local, Alive(rs[|rs| - 1].(updatedAt := now)), now);
    }
  }

  lemma {:induction false} SyncAllOther(s: State, rs: seq<Register>, now: I64, x: Id)
    requires x != s.local && forall r :: r in rs ==> r.id != x
    ensures var t := SyncAll(s, rs, now).s;
      && (x in t.view.members <==> x in s.view.members)
      && (x in s.view.members ==> t.view.members[x] == s.view.members[x])
    decreases |rs|
  {
    if rs != [] {
      var init, last := rs[..|rs| - 1], rs[|rs| - 1];
      SyncAllOther(s, init, now, x);
      SyncKeepsLocal(s, init, now);
      SyncOne(SyncAll(s, init, now).s, last.(updatedAt := now), now, x);
    }
  }

  lemma {:induction false} SyncAllOnce(s: State, rs: seq<Register>, now: I64, x: Id, i: nat)
    requires x != s.local && OnePerId(rs) && i < |rs| && rs[i].id == x
    ensures var t := SyncAll(s, rs, now).s;
      x in t.view.members && t.view.members[x] == MergedInto(s.view.members, x, rs[i].(updatedAt := now))
    decreases |rs|
  {
    var init, last := rs[..|rs| - 1], rs[|rs| - 1];
    SyncKeepsLocal(s, init, now);
    var b := SyncAll(s, init, now).s;
    SyncOne(b, last.(updatedAt := now), now, x);
    if i == |rs| - 1 {
      SyncAllOther(s, init, now, x);
    } else {
      SyncAllOnce(s, init, now, x, i);
    }
  }

  // ----- fetching by id -----

  lemma {:induction false} FetchedExactly(m: Members, ids: seq<Id>)
    requires Keyed(m) && StrictlySorted(ids)
    ensures OnePerId(Fetched(m, ids))
    ensures forall r :: r in Fetched(m, ids) <==> r.id in ids && r.id in m && m[r.id] == r
    decreases |ids|
  {
    if ids != [] {
      var init, last := ids[..|ids| - 1], ids[|ids| - 1];
      FetchedExactly(m, init);
      assert ids == init + [last];
      assert last !in init;
      var f := Fetched(m, init);
      assert forall i :: 0 <= i < |f| ==> f[i] in f;
    }
  }

  /** What one side holds for `x` after merging the batch fetched from the other for `ids`. */
  lemma SyncFetched(s: State, other: Members, ids: seq<Id>, now: I64, x: Id)
    requires Keyed(other) && StrictlySorted(ids) && x != s.local && forall y :: y in ids ==> y in other
    ensures var t := SyncAll(s, OnWireAll(Fetched(other, ids)), now).s.view.members;
      && (x in ids ==> x in t && t[x] == MergedInto(s.view.members, x, OnWire(other[x], 0).(updatedAt := now)))
      && (x !in ids ==> (x in t <==> x in s.view.members) && (x in t ==> t[x] == s.view.members[x]))
  {
    FetchedExactly(other, ids);
    var f := Fetched(other, ids);
    var w := OnWireAll(f);
    assert forall i :: 0 <= i < |w| ==> w[i].id == f[i].id;
    if x in ids {
      assert other[x] in f;
      var i :| 0 <= i < |f| && f[i] == other[x];
      SyncAllOnce(s, w, now, x, i);
    } else {
      assert forall r :: r in w ==> r.id != x by {
        forall r | r in w ensures r.id != x {
          var i :| 0 <= i < |w| && w[i] == r;
          assert f[i] in f;
        }
      }
      SyncAllOther(s, w, now, x);
    }
  }

  // ----- both sides merge the same information -----

  lemma SimSameHash(hs: Hasher, a: Register, b: Register)
    requires SimRegister(a, b)
    ensures RegisterHash(hs, a) == RegisterHash(hs, b)
  {
    assert RegisterStream(a) == RegisterStream(b);
  }

  /** Merging in either direction gives the same register up to the local timestamps. */
  lemma CrossMerge(hs: Hasher, a: Register, b: Register, s: I64, t: I64)
    requires a.id == b.id
    ensures SimRegister(a.Merge(b.(updatedAt := s)), b.Merge(a.(updatedAt := t)))
    ensures RegisterHash(hs, a.Merge(b.(updatedAt := s))) == RegisterHash(hs, b.Merge(a.(updatedAt := t)))
  {
    SimMerge(a, a, b, b.(updatedAt := s));
    SimMerge(b, b, a, a.(updatedAt := t));
    MergeSemilattice(a, b, a);
    SimSameHash(hs, a.Merge(b.(updatedAt := s)), b.Merge(a.(updatedAt := t)));
  }

  /** No two byte streams share a digest. */
  ghost predicate Injective(hs: Hasher) {
    forall u, v :: hs.digest(u) == hs.digest(v) ==> u == v
  }

  /** All registers carry an incarnation of at least 1, as every register a daemon holds does. */
  ghost predicate Positive(m: Members) {
    forall id :: id in m ==> m[id].incarnation >= 1
  }

  /** Both replicas hold the same for `x`: nothing, or registers with equal hashes. */
  ghost predicate Agree(hs: Hasher, a: Members, b: Members, x: Id) {
    (x in a <==> x in b) && (x in a && x in b ==> RegisterHash(hs, a[x]) == RegisterHash(hs, b[x]))
  }

  /** The two replicas after each merged what the exact diff told it to fetch. */
  ghost function PullSide(s: State, other: State, hs: Hasher, now: I64): State {
    var diff := ExactDiff(LeavesOf(hs, s.view.members), LeavesOf(hs, other.view.members));
    SyncAll(s, OnWireAll(Fetched(other.view.members, diff.needFromRemote)), now).s
  }

  /** ... and the actions it returns. */
  ghost function PullActions(s: State, other: State, hs: Hasher, now: I64): seq<Action> {
    var diff := ExactDiff(LeavesOf(hs, s.view.members), LeavesOf(hs, other.view.members));
    SyncAll(s, OnWireAll(Fetched(other.view.members, diff.needFromRemote)), now).actions
  }

  /** `t` holds for `x` what `m` becomes after pulling `x` from `other` if the diff asks for it. */
  ghost predicate PulledFrom(hs: Hasher, m: Members, other: Members, t: Members, x: Id, now: I64) {
    if x in Missing(LeavesOf(hs, other), LeavesOf(hs, m))
    then x in t && t[x] == MergedInto(m, x, OnWire(other[x], 0).(updatedAt := now))
    else (x in t <==> x in m) && (x in t ==> t[x] == m[x])
  }

  lemma PullSideExactly(s: State, other: State, hs: Hasher, now: I64, x: Id)
    requires Keyed(other.view.members) && x != s.local
    ensures PulledFrom(hs, s.view.members, other.view.members, PullSide(s, other, hs, now).view.members, x, now)
  {
    var ids := SortedSeq(Missing(LeavesOf(hs, other.view.members), LeavesOf(hs, s.view.members)));
    assert forall y :: y in ids <==> y in Elems(ids);
    SyncFetched(s, other.view.members, ids, now, x);
  }

  /**
   What the two replicas share about `x` after the exchange: nothing held, or
   registers equal in every field but the timestamp, or registers that were
   held before, hashed alike and were left alone.
   */
  ghost predicate Shares(hs: Hasher, a: Members, b: Members, a': Members, b': Members, x: Id) {
    && (x in a' <==> x in b')
    && (x in a' && x in b' ==>
          || SimRegister(a'[x], b'[x])
          || (x in a && x in b && a'[x] == a[x] && b'[x] == b[x] && RegisterHash(hs, a[x]) == RegisterHash(hs, b[x])))
  }

  lemma SharesAgree(hs: Hasher, a: Members, b: Members, a': Members, b': Members, x: Id)
    requires Shares(hs, a, b, a', b', x)
    ensures Agree(hs, a', b', x)
  {
    if x in a' && SimRegister(a'[x], b'[x]) { SimSameHash(hs, a'[x], b'[x]); }
  }

  lemma PulledBothWaysShare(hs: Hasher, a: Members, b: Members, a': Members, b': Members, x: Id, nowA: I64, nowB: I64)
    requires Keyed(a) && Keyed(b) && (x in a ==> a[x].incarnation >= 1) && (x in b ==> b[x].incarnation >= 1)
    requires PulledFrom(hs, a, b, a', x, nowA) && PulledFrom(hs, b, a, b', x, nowB)
    ensures Shares(hs, a, b, a', b', x)
  {
    if x in a && x in b && RegisterHash(hs, a[x]) != RegisterHash(hs, b[x]) {
      CrossMerge(hs, a[x], b[x], nowA, nowB);
    }
  }

  /**
   After one exchange with no concurrent change, both replicas agree on every
   id other than their own two, whatever they held for it before.
   */
  lemma ExchangeConverges(a: State, b: State, hs: Hasher, nowA: I64, nowB: I64, x: Id)
    requires Keyed(a.view.members) && Keyed(b.view.members)
    requires x in a.view.members ==> a.view.members[x].incarnation >= 1
    requires x in b.view.members ==> b.view.members[x].incarnation >= 1
    requires x != a.local && x != b.local
    ensures var a', b' := PullSide(a, b, hs, nowA).view.members, PullSide(b, a, hs, nowB).view.members;
      Agree(hs, a', b', x) && Shares(hs, a.view.members, b.view.members, a', b', x)
  {
    var a', b' := PullSide(a, b, hs, nowA).view.members, PullSide(b, a, hs, nowB).view.members;
    PullSideExactly(a, b, hs, nowA, x);
    PullSideExactly(b, a, hs, nowB, x);
    PulledBothWaysShare(hs, a.view.members, b.view.members, a', b', x, nowA, nowB);
    SharesAgree(hs, a.view.members, b.view.members, a', b', x);
  }

  /**
   The fields both replicas share afterwards, under a digest without collisions
   and for registers clear of the separators: id, address, state, incarnation
   and the labels followed by the annotations; and the two maps themselves when
   they hold equally many labels.
   */
  lemma ExchangeSharesFields(a: State, b: State, hs: Hasher, nowA: I64, nowB: I64, x: Id)
    requires Keyed(a.view.members) && Keyed(b.view.members) && Injective(hs)
    requires x in a.view.members ==> a.view.members[x].incarnation >= 1 && Plain(a.view.members[x])
    requires x in b.view.members ==> b.view.members[x].incarnation >= 1 && Plain(b.view.members[x])
    requires x != a.local && x != b.local && (x in a.view.members || x in b.view.members)
    ensures var a', b' := PullSide(a, b, hs, nowA).view.members, PullSide(b, a, hs, nowB).view.members;
      && x in a' && x in b' && SameHashed(a'[x], b'[x])
      && (|a'[x].labels| == |b'[x].labels| ==> a'[x].labels == b'[x].labels && a'[x].annotations == b'[x].annotations)
  {
    var a', b' := PullSide(a, b, hs, nowA).view.members, PullSide(b, a, hs, nowB).view.members;
    PullSideExactly(a, b, hs, nowA, x);
    PullSideExactly(b, a, hs, nowB, x);
    ExchangeConverges(a, b, hs, nowA, nowB, x);
    if !SimRegister(a'[x], b'[x]) { StreamsExactly(a'[x], b'[x]); }
    SameLabelsExactly(a'[x], b'[x]);
  }

  // ----- why incarnations must be positive -----

  /** The wire conversion rewrites exactly the registers with incarnation 0. */
  lemma WireRewritesExactlyZero(r: Register, updatedAt: I64)
    ensures RegisterStream(OnWire(r, updatedAt)) == RegisterStream(r) <==> r.incarnation >= 1
  {
    if r.incarnation == 0 {
      var p := |"L" + r.id + "\0" + r.address + "\0"| + 8;
      assert BigEndian(0, 8)[7] == Byte(0) && BigEndian(1, 8)[7] == Byte(1);
      assert RegisterStream(r)[p] == Byte(0);
      assert RegisterStream(OnWire(r, updatedAt))[p] == Byte(1);
    }
  }

  /** The fields a tie leaves: the larger address, labels and annotations. */
  function Larger(r: Register, q: Register): Register {
    r.(address := if StrLe(q.address, r.address) then r.address else q.address,
       labels := if MapLe(q.labels, r.labels) then r.labels else q.labels,
       annotations := if MapLe(q.annotations, r.annotations) then r.annotations else q.annotations)
  }

  /** A register `q` sent at incarnation 0, arriving as 1, changes no hashed field of `r` held at 1. */
  predicate Absorbs(r: Register, q: Register) {
    || q.state.Rank() < r.state.Rank() || (q.state == r.state && q.heartbeat < r.heartbeat)
    || (q.state == r.state && q.heartbeat == r.heartbeat && RegisterStream(Larger(r, q)) == RegisterStream(r))
    || ((q.state.Rank() > r.state.Rank() || (q.state == r.state && q.heartbeat > r.heartbeat))
        && RegisterStream(OnWire(q, 0)) == RegisterStream(r))
  }

  /**
   Whether one exchange reconciles two registers for the same id. An incarnation
   of 0 arrives as 1: below 2 it may tie with, or leapfrog, the register held.
   */
  predicate Reconciles(r: Register, q: Register) {
    || RegisterStream(r) == RegisterStream(q)
    || (r.incarnation >= 1 && q.incarnation >= 1)
    || r.incarnation >= 2 || q.incarnation >= 2
    || (r.incarnation == 1 && q.incarnation == 0 && Absorbs(r, q))
    || (r.incarnation == 0 && q.incarnation == 1 && Absorbs(q, r))
    || (r.incarnation == q.incarnation == 0 && RegisterStream(OnWire(r, 0)) == RegisterStream(OnWire(q, 0)))
  }

  ghost predicate ReconciledFor(m: Members, n: Members, x: Id) {
    && (x in m && x in n ==> Reconciles(m[x], n[x]))
    && (x in m && x !in n ==> m[x].incarnation >= 1)
    && (x in n && x !in m ==> n[x].incarnation >= 1)
  }

  /** The receiver's clock does not show in the hashed fields. */
  lemma SimAbsorb(r: Register, q: Register, s: I64)
    ensures RegisterStream(r.Merge(OnWire(q, 0).(updatedAt := s))) == RegisterStream(r.Merge(OnWire(q, 0)))
  {
    SimMerge(r, r, OnWire(q, 0), OnWire(q, 0).(updatedAt := s));
  }

  lemma ReconcilesExactly(hs: Hasher, r: Register, q: Register, s: I64, t: I64)
    requires r.id == q.id && RegisterHash(hs, r) != RegisterHash(hs, q)
    ensures var x, y := r.Merge(OnWire(q, 0).(updatedAt := s)), q.Merge(OnWire(r, 0).(updatedAt := t));
      && (Reconciles(r, q) ==> RegisterHash(hs, x) == RegisterHash(hs, y))
      && (Injective(hs) && RegisterHash(hs, x) == RegisterHash(hs, y) ==> Reconciles(r, q))
  {
    SimAbsorb(r, q, s);
    SimAbsorb(q, r, t);
    if r.incarnation >= 1 && q.incarnation >= 1 {
      CrossMerge(hs, r, q, s, t);
    }
    if r.incarnation == 1 && q.incarnation == 0 { AbsorbsIsMerge(r, q); }
    if r.incarnation == 0 && q.incarnation == 1 { AbsorbsIsMerge(q, r); }
  }

  lemma AbsorbsIsMerge(r: Register, q: Register)
    requires r.incarnation == 1 && q.incarnation == 0
    ensures Absorbs(r, q) <==> RegisterStream(r.Merge(OnWire(q, 0))) == RegisterStream(r)
  {
    if OnWire(q, 0).SameKey(r) { TieMerges(r, OnWire(q, 0)); }
  }

  lemma TieMerges(r: Register, w: Register)
    requires w.SameKey(r)
    ensures RegisterStream(r.Merge(w)) == RegisterStream(Larger(r, w))
  {
    LexTotal(CharLe, r.address, w.address);
    if StrLe(r.address, w.address) && StrLe(w.address, r.address) { LexAntisymmetric(CharLe, r.address, w.address); }
    var m, l := r.Merge(w), Larger(r, w);
    assert m.id == l.id && m.address == l.address && m.state == l.state && m.incarnation == l.incarnation;
    assert m.labels == l.labels && m.annotations == l.annotations;
  }

  /** For registers clear of the separators, the same condition read off the fields. */
  predicate ReconcilesByFields(r: Register, q: Register) {
    || SameHashed(r, q)
    || (r.incarnation >= 1 && q.incarnation >= 1)
    || r.incarnation >= 2 || q.incarnation >= 2
    || (r.incarnation == 1 && q.incarnation == 0 && AbsorbsByFields(r, q))
    || (r.incarnation == 0 && q.incarnation == 1 && AbsorbsByFields(q, r))
  }

  predicate AbsorbsByFields(r: Register, q: Register) {
    || q.state.Rank() < r.state.Rank() || (q.state == r.state && q.heartbeat < r.heartbeat)
    || (q.state == r.state && q.heartbeat == r.heartbeat && StrLe(q.address, r.address)
        && AllEntries(Larger(r, q)) == AllEntries(r))
    || (q.state == r.state && q.heartbeat > r.heartbeat && q.address == r.address && AllEntries(q) == AllEntries(r))
  }

  lemma ReconcilesReadOff(r: Register, q: Register)
    requires r.id == q.id && Plain(r) && Plain(q)
    ensures Reconciles(r, q) <==> ReconcilesByFields(r, q)
  {
    StreamsExactly(r, q);
    StreamsExactly(OnWire(r, 0), OnWire(q, 0));
    if r.incarnation == 1 && q.incarnation == 0 { AbsorbsReadOff(r, q); }
    if r.incarnation == 0 && q.incarnation == 1 { AbsorbsReadOff(q, r); }
  }

  lemma AbsorbsReadOff(r: Register, q: Register)
    requires r.id == q.id && Plain(r) && Plain(q) && r.incarnation == 1 && q.incarnation == 0
    ensures Absorbs(r, q) <==> AbsorbsByFields(r, q)
  {
    LargerReadOff(r, q);
    StreamsExactly(OnWire(q, 0), r);
  }

  lemma LargerReadOff(r: Register, q: Register)
    requires r.id == q.id && Plain(r) && Plain(q)
    ensures RegisterStream(Larger(r, q)) == RegisterStream(r)
        <==> StrLe(q.address, r.address) && AllEntries(Larger(r, q)) == AllEntries(r)
  {
    StreamsExactly(Larger(r, q), r);
    LexTotal(CharLe, r.address, r.address);
  }

  /**
   Exactly when one exchange brings the two replicas together on `x`, whatever
   the incarnations; only the converse needs a digest without collisions.
   */
  lemma ExchangeExactly(a: State, b: State, hs: Hasher, nowA: I64, nowB: I64, x: Id)
    requires Keyed(a.view.members) && Keyed(b.view.members)
    requires x != a.local && x != b.local
    ensures var agree := Agree(hs, PullSide(a, b, hs, nowA).view.members, PullSide(b, a, hs, nowB).view.members, x);
      && (ReconciledFor(a.view.members, b.view.members, x) ==> agree)
      && (Injective(hs) && agree ==> ReconciledFor(a.view.members, b.view.members, x))
  {
    PullSideExactly(a, b, hs, nowA, x);
    PullSideExactly(b, a, hs, nowB, x);
    var m, n := a.view.members, b.view.members;
    if x in m && x in n {
      if RegisterHash(hs, m[x]) != RegisterHash(hs, n[x]) { ReconcilesExactly(hs, m[x], n[x], nowA, nowB); }
    } else if x in m {
      WireRewritesExactlyZero(m[x], nowB);
      assert OnWire(m[x], 0).(updatedAt := nowB) == OnWire(m[x], nowB);
    } else if x in n {
      WireRewritesExactlyZero(n[x], nowA);
      assert OnWire(n[x], 0).(updatedAt := nowA) == OnWire(n[x], nowA);
    }
  }

  /** In every reachable cluster, running daemons hold only positive incarnations. */
  lemma ReachablePositive(cs: seq<Cluster>, ms: seq<Move>, k: nat, id: Id)
    requires IsClusterRun(cs, ms) && k < |cs| && Up(cs[k], id)
    ensures Keyed(SwimOf(cs[k], id).view.members) && Positive(SwimOf(cs[k], id).view.members)
  {
    RunInv(cs, ms, k);
    assert DaemonOk(cs[k], id, Peaks(cs, k));
  }

  // ----- what an exchange does to the two participants' own registers -----

  /** A rumour that an Active node must answer: it is not Active itself, and not below the node's own register. */
  predicate Threat(own: Register, rumor: Register) {
    own.state.Active? && !rumor.state.Active? && !own.Dominates(rumor)
  }

  /** The own register after answering: one incarnation and one heartbeat higher, otherwise the same. */
  function Answered(own: Register, now: I64): Register {
    own.(incarnation := Inc(own.incarnation), heartbeat := Inc(own.heartbeat), updatedAt := now)
  }

  /** The own register was answered for with a broadcast of exactly it, or left alone in silence. */
  ghost predicate AnsweredIf(threatened: bool, s: State, t: State, now: I64, actions: seq<Action>)
    requires s.local in s.view.members
  {
    && t.local == s.local && s.local in t.view.members
    && (threatened ==> Own(t) == Answered(Own(s), now) && actions == [Broadcast(Alive(Own(t)))])
    && (!threatened ==> Own(t) == Own(s) && actions == [])
  }

  lemma OneRegister(s: State, r: Register, now: I64)
    requires LocalOk(s)
    ensures var o := OnMessage(s, s.local, Alive(r), now);
      LocalOk(o.s) && AnsweredIf(r.id == s.local && Threat(Own(s), r), s, o.s, now, o.actions)
  {
    MessageLocal(s, s.local, Alive(r), now);
    if r.id == s.local { OwnRumorOutcome(s, s.local, Alive(r), now); } else { OwnUntouched(s, s.local, Alive(r), now); }
  }

  /** A batch with one register per id: the own register is answered for exactly when the batch threatens it. */
  lemma {:induction false} BatchSettlesOwn(s: State, rs: seq<Register>, now: I64)
    requires LocalOk(s) && OnePerId(rs)
    ensures var o := SyncAll(s, rs, now);
      LocalOk(o.s) && AnsweredIf(exists r :: r in rs && r.id == s.local && Threat(Own(s), r), s, o.s, now, o.actions)
    decreases |rs|
  {
    if rs != [] {
      var init, last := rs[..|rs| - 1], rs[|rs| - 1].(updatedAt := now);
      var b := SyncAll(s, init, now);
      BatchSettlesOwn(s, init, now);
      OneRegister(b.s, last, now);
      BatchThreat(rs, s.local, Own(s), now);
      AnsweredThen(s, b, OnMessage(b.s, s.local, Alive(last), now), now,
                   exists r :: r in init && r.id == s.local && Threat(Own(s), r), last.id == s.local && Threat(Own(b.s), last));
    }
  }

  /** Of a batch with one register per id, the threat is the last register or among the others. */
  lemma BatchThreat(rs: seq<Register>, x: Id, own: Register, now: I64)
    requires rs != [] && OnePerId(rs)
    ensures var init, last := rs[..|rs| - 1], rs[|rs| - 1].(updatedAt := now);
      && ((exists r :: r in rs && r.id == x && Threat(own, r)) <==>
            (exists r :: r in init && r.id == x && Threat(own, r)) || (last.id == x && Threat(own, last)))
      && (last.id == x ==> forall r :: r in init ==> r.id != x)
  {
    var init, last := rs[..|rs| - 1], rs[|rs| - 1];
    assert rs == init + [last];
    assert forall r :: r in rs <==> r in init || r == last;
    assert Threat(own, last) <==> Threat(own, last.(updatedAt := now));
  }

  /** Two steps of which at most one is answered. */
  lemma AnsweredThen(s: State, b: Outcome, o: Outcome, now: I64, first: bool, second: bool)
    requires s.local in s.view.members && AnsweredIf(first, s, b.s, now, b.actions)
    requires AnsweredIf(second, b.s, o.s, now, o.actions) && (!first || !second)
    ensures AnsweredIf(first || second, s, o.s, now, b.actions + o.actions)
  {
  }

  /** The peer holds the node's own register with another hash, and as it arrives it is a threat. */
  predicate ThreatenedBy(hs: Hasher, s: State, other: Members)
    requires s.local in s.view.members
  {
    && s.local in other && RegisterHash(hs, other[s.local]) != RegisterHash(hs, Own(s))
    && Threat(Own(s), OnWire(other[s.local], 0))
  }

  /**
   What one exchange owes a participant about itself: a threatening copy held by
   the peer is answered once and broadcast; otherwise nothing happens to it.
   */
  ghost predicate OwnSettled(hs: Hasher, s: State, other: State, t: State, now: I64, actions: seq<Action>)
    requires s.local in s.view.members
  {
    AnsweredIf(ThreatenedBy(hs, s, other.view.members), s, t, now, actions)
  }

  lemma PullSettlesOwn(s: State, other: State, hs: Hasher, now: I64)
    requires LocalOk(s) && Keyed(other.view.members)
    ensures OwnSettled(hs, s, other, PullSide(s, other, hs, now), now, PullActions(s, other, hs, now))
  {
    var ids := SortedSeq(Missing(LeavesOf(hs, other.view.members), LeavesOf(hs, s.view.members)));
    BatchOnePerId(other.view.members, ids);
    BatchSettlesOwn(s, OnWireAll(Fetched(other.view.members, ids)), now);
    OwnInBatch(other.view.members, ids, s.local, Own(s));
    OwnMissing(s, other.view.members, hs, ids);
  }

  lemma OwnMissing(s: State, m: Members, hs: Hasher, ids: seq<Id>)
    requires s.local in s.view.members && ids == SortedSeq(Missing(LeavesOf(hs, m), LeavesOf(hs, s.view.members)))
    ensures s.local in ids <==> s.local in m && RegisterHash(hs, m[s.local]) != RegisterHash(hs, Own(s))
  {
    assert s.local in ids <==> s.local in Elems(ids);
  }

  lemma BatchOnePerId(m: Members, ids: seq<Id>)
    requires Keyed(m) && StrictlySorted(ids)
    ensures OnePerId(OnWireAll(Fetched(m, ids)))
  {
    FetchedExactly(m, ids);
    var f, w := Fetched(m, ids), OnWireAll(Fetched(m, ids));
    assert forall i :: 0 <= i < |w| ==> w[i].id == f[i].id;
  }

  /** The batch fetched for `ids` threatens `own` exactly when it contains a threatening copy. */
  lemma OwnInBatch(m: Members, ids: seq<Id>, x: Id, own: Register)
    requires Keyed(m) && StrictlySorted(ids)
    ensures (exists r :: r in OnWireAll(Fetched(m, ids)) && r.id == x && Threat(own, r))
        <==> x in ids && x in m && Threat(own, OnWire(m[x], 0))
  {
    var f := Fetched(m, ids);
    var w := OnWireAll(f);
    FetchedExactly(m, ids);
    if r :| r in w && r.id == x && Threat(own, r) {
      var i :| 0 <= i < |w| && w[i] == r;
      assert f[i] in f && f[i].id == x;
    }
    if x in ids && x in m {
      assert m[x] in f;
      var i :| 0 <= i < |f| && f[i] == m[x];
      assert w[i] == OnWire(m[x], 0);
    }
  }

  lemma EqualLeavesSettled(hs: Hasher, s: State, other: State, now: I64)
    requires LocalOk(s) && LeavesOf(hs, s.view.members) == LeavesOf(hs, other.view.members)
    ensures OwnSettled(hs, s, other, s, now, [])
  {
    var x := s.local;
    var ls, lo := LeavesOf(hs, s.view.members), LeavesOf(hs, other.view.members);
    assert x in ls && ls[x] == RegisterHash(hs, Own(s));
    if x in other.view.members { assert lo[x] == RegisterHash(hs, other.view.members[x]); }
  }

  /**
   Without collisions, separators and zero incarnations the hash needs no
   mention: an Active node whose peer holds it in another state and not below
   its own register ends Active exactly one incarnation higher and broadcasts
   that; which is above the peer's old copy exactly if that was not ahead.
   */
  lemma ExchangeRefutes(hs: Hasher, s: State, other: State, t: State, now: I64, actions: seq<Action>)
    requires LocalOk(s) && OwnSettled(hs, s, other, t, now, actions) && Injective(hs)
    requires s.local in other.view.members && other.view.members[s.local].id == s.local
    requires Plain(Own(s)) && Plain(other.view.members[s.local]) && other.view.members[s.local].incarnation >= 1
    requires Threat(Own(s), other.view.members[s.local]) && Own(s).incarnation < U64_MAX && Own(s).id == s.local
    ensures Own(t).state.Active? && Own(t).incarnation == Own(s).incarnation + 1
    ensures actions == [Broadcast(Alive(Own(t)))]
    ensures Own(t).Dominates(other.view.members[s.local])
        <==> other.view.members[s.local].incarnation <= Own(s).incarnation
  {
    StreamsExactly(Own(s), other.view.members[s.local]);
  }

  // ----- the exchange as the daemon drives it -----

  /** Fetch from the peer, push to the peer, and merge on both sides; the actions are those each side then dispatches. */
  method Transfer(a: MembershipService, b: MembershipService, diff: DiffResult, nowA: I64, nowB: I64, wroteA: bool, wroteB: bool)
    returns (actionsA: seq<Action>, actionsB: seq<Action>)
    requires a != b && a.swim != b.swim && a.swim.membership != b.swim.membership
    requires a.Valid() && b.Valid() && a.hs == b.hs
    requires diff == ExactDiff(a.Leaves(), b.Leaves())
    modifies a, a.swim, a.swim.membership, b, b.swim, b.swim.membership
    ensures a.Valid() && b.Valid()
    ensures a.S() == PullSide(old(a.S()), old(b.S()), a.hs, nowA)
    ensures b.S() == PullSide(old(b.S()), old(a.S()), a.hs, nowB)
    ensures actionsA == PullActions(old(a.S()), old(b.S()), a.hs, nowA)
    ensures actionsB == PullActions(old(b.S()), old(a.S()), a.hs, nowB)
  {
    ghost var sa, sb := a.S(), b.S();
    ExactDiffMirrors(a.Leaves(), b.Leaves());
    var fetched := b.FetchRegisters(diff.needFromRemote);
    var pushed := a.FetchRegisters(diff.needFromLocal);
    actionsB := b.SyncNodes(OnWireAll(pushed), nowB, wroteB);
    assert a.Valid() && a.S() == sa;
    actionsA := a.SyncNodes(OnWireAll(fetched), nowA, wroteA);
    assert b.Valid();
  }

  /** What one exchange owes two replicas that held `m` and `n`: agreement on every third node it can reconcile. */
  ghost predicate AllAgree(hs: Hasher, a: State, b: State, m: Members, n: Members) {
    forall x :: x != a.local && x != b.local && ReconciledFor(m, n, x) ==> Agree(hs, a.view.members, b.view.members, x)
  }

  /** ... and shared fields of every third node when incarnations were positive. */
  ghost predicate AllShare(hs: Hasher, a: State, b: State, m: Members, n: Members) {
    Positive(m) && Positive(n) ==> forall x :: x != a.local && x != b.local ==>
      Agree(hs, a.view.members, b.view.members, x) && Shares(hs, m, n, a.view.members, b.view.members, x)
  }

  lemma ExchangeConvergesAll(a: State, b: State, hs: Hasher, nowA: I64, nowB: I64)
    requires Keyed(a.view.members) && Keyed(b.view.members)
    ensures AllAgree(hs, PullSide(a, b, hs, nowA), PullSide(b, a, hs, nowB), a.view.members, b.view.members)
    ensures AllShare(hs, PullSide(a, b, hs, nowA), PullSide(b, a, hs, nowB), a.view.members, b.view.members)
  {
    var m, n := a.view.members, b.view.members;
    var a', b' := PullSide(a, b, hs, nowA), PullSide(b, a, hs, nowB);
    PullKeepsLocal(a, b, hs, nowA);
    PullKeepsLocal(b, a, hs, nowB);
    forall x | x != a.local && x != b.local && ReconciledFor(m, n, x) ensures Agree(hs, a'.view.members, b'.view.members, x) {
      ExchangeExactly(a, b, hs, nowA, nowB, x);
    }
    if Positive(m) && Positive(n) {
      forall x | x != a.local && x != b.local
        ensures Agree(hs, a'.view.members, b'.view.members, x) && Shares(hs, m, n, a'.view.members, b'.view.members, x)
      {
        ExchangeConverges(a, b, hs, nowA, nowB, x);
      }
    }
  }

  lemma PullKeepsLocal(s: State, other: State, hs: Hasher, now: I64)
    ensures PullSide(s, other, hs, now).local == s.local
  {
    var diff := ExactDiff(LeavesOf(hs, s.view.members), LeavesOf(hs, other.view.members));
    SyncKeepsLocal(s, OnWireAll(Fetched(other.view.members, diff.needFromRemote)), now);
  }

  /** Replicas with equal leaf maps agree already. */
  lemma EqualLeavesAgree(hs: Hasher, a: State, b: State)
    requires LeavesOf(hs, a.view.members) == LeavesOf(hs, b.view.members)
    ensures AllAgree(hs, a, b, a.view.members, b.view.members) && AllShare(hs, a, b, a.view.members, b.view.members)
  {
    var m, n := a.view.members, b.view.members;
    var la, lb := LeavesOf(hs, m), LeavesOf(hs, n);
    forall x ensures Agree(hs, m, n, x) && Shares(hs, m, n, m, n, x) {
      assert x in m <==> x in la;
      assert x in n <==> x in lb;
      assert x in la ==> la[x] == lb[x];
    }
  }

  /** Equal roots are reported exactly when the two maps of register hashes are equal. */
  method CompareRoots(a: MembershipService, b: MembershipService) returns (same: bool)
    requires a != b && a.Valid() && b.Valid() && a.hs == b.hs && a.D == b.D && Ideal(a.hs)
    modifies a`cachedVersion, a`cachedTree, b`cachedVersion, b`cachedTree
    ensures a.Valid() && b.Valid() && a.S() == old(a.S()) && b.S() == old(b.S())
    ensures same <==> a.Leaves() == b.Leaves()
  {
    var remote := b.MerkleRoot();
    var local := a.MerkleRoot();
    EqualRootsExactly(a.hs, a.D, a.Leaves(), b.Leaves());
    same := remote == local;
  }

  /** `merkle_diff_with_peer` between two services. */
  method DiffWithPeer(a: MembershipService, b: MembershipService, S: nat) returns (diff: DiffResult)
    requires a != b && a.Valid() && b.Valid() && a.hs == b.hs && a.D == b.D && S <= a.D && Ideal(a.hs)
    modifies a`cachedVersion, a`cachedTree, b`cachedVersion, b`cachedTree
    ensures a.Valid() && b.Valid() && a.S() == old(a.S()) && b.S() == old(b.S())
    ensures diff == ExactDiff(a.Leaves(), b.Leaves())
  {
    var local := a.MerkleTree();
    var l := Local(local, a.D, S, a.hs.empty);
    var session := new MerkleDiff(l);
    var topRefs := TopRefs(S);
    var top, t := Request(b, topRefs);
    var leafRefs := session.PlanLeafRefs(top);
    var bottom: seq<RemoteNode> := [];
    if leafRefs != [] {
      ghost var u;
      bottom, u := Request(b, leafRefs);
      RepresentsUnique(t, u, b.hs, b.D, b.Leaves());
    }
    SessionSorted(l, a.hs, a.Leaves());
    diff := session.Finish(bottom);
    HonestSession(l, t, a.hs, a.Leaves(), b.Leaves(), session.divergent, session.needFromLocal, topRefs, leafRefs, diff);
  }

  /** One request for Merkle nodes: the peer's answer goes over the wire and is converted on arrival. */
  method Request(b: MembershipService, refs: seq<NodeRef>) returns (reply: seq<RemoteNode>, ghost t: Tree)
    requires b.Valid()
    modifies b`cachedVersion, b`cachedTree
    ensures b.Valid() && Represents(t, b.hs, b.D, b.Leaves())
    ensures reply == AnswerRefs(t, b.D, refs)
  {
    var answer;
    answer, t := b.MerkleNodes(ByteRefs(refs));
    reply := RemoteNodes(ToWireAll(answer), b.D);
    WireRoundTrip(t, b.D, refs);
  }

  /**
   `sync_with_peer` between two running services: compare roots, run the diff,
   fetch, push and merge. Afterwards both agree on every other node's register,
   except where an incarnation of 0 stood in the way.
   */
  method SyncWithPeer(a: MembershipService, b: MembershipService, S: nat, nowA: I64, nowB: I64, wroteA: bool, wroteB: bool)
    returns (actionsA: seq<Action>, actionsB: seq<Action>)
    requires a != b && a.swim != b.swim && a.swim.membership != b.swim.membership
    requires a.Valid() && b.Valid() && a.hs == b.hs && a.D == b.D && S <= a.D && Ideal(a.hs)
    modifies a, a.swim, a.swim.membership, b, b.swim, b.swim.membership
    ensures a.Valid() && b.Valid()
    ensures AllAgree(a.hs, a.S(), b.S(), old(a.S().view.members), old(b.S().view.members))
    ensures AllShare(a.hs, a.S(), b.S(), old(a.S().view.members), old(b.S().view.members))
    ensures LocalOk(old(a.S())) ==> OwnSettled(a.hs, old(a.S()), old(b.S()), a.S(), nowA, actionsA)
    ensures LocalOk(old(b.S())) ==> OwnSettled(a.hs, old(b.S()), old(a.S()), b.S(), nowB, actionsB)
  {
    var same := CompareRoots(a, b);
    if same {
      EqualLeavesAgree(a.hs, a.S(), b.S());
      actionsA, actionsB := [], [];
      if LocalOk(a.S()) { EqualLeavesSettled(a.hs, a.S(), b.S(), nowA); }
      if LocalOk(b.S()) { EqualLeavesSettled(a.hs, b.S(), a.S(), nowB); }
    } else {
      var diff := DiffWithPeer(a, b, S);
      ExchangeConvergesAll(a.S(), b.S(), a.hs, nowA, nowB);
      if LocalOk(a.S()) { PullSettlesOwn(a.S(), b.S(), a.hs, nowA); }
      if LocalOk(b.S()) { PullSettlesOwn(b.S(), a.S(), a.hs, nowB); }
      actionsA, actionsB := Transfer(a, b, diff, nowA, nowB, wroteA, wroteB);
    }
  }
}

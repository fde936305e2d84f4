/**
 The daemon's membership service: one detector, a Merkle tree cached under the
 membership version, and the persisted incarnation. The cached tree is always
 the tree a fresh build would give.
 */
module Services {
  import opened Options
  import opened Order
  import opened Registers
  import opened Memberships
  import opened SwimSpec
  import opened SwimRuns
  import opened SwimInstance
  import opened Merkle
  import opened MerkleTrees
  import opened MerkleDiffs
  import opened Cluster

  // ----- the version counter tracks every hashed field -----

  /** The version never goes back, and while it stands still no leaf changes. */
  ghost predicate Tracks(hs: Hasher, v: View, w: View) {
    && v.version <= w.version
    && (v.version == w.version ==> LeavesOf(hs, v.members) == LeavesOf(hs, w.members))
  }

  lemma TracksTransitive(hs: Hasher, u: View, v: View, w: View)
    requires Tracks(hs, u, v) && Tracks(hs, v, w)
    ensures Tracks(hs, u, w)
  {
  }

  /** A heartbeat that flips no state changes no hashed field. */
  lemma HeartbeatTracks(hs: Hasher, v: View, id: Id, now: I64)
    ensures Tracks(hs, v, v.Heartbeat(id, now))
  {
    if id in v.members {
      var r := v.members[id];
      if r.BumpHeartbeat(now).state == r.state {
        assert RegisterStream(r.BumpHeartbeat(now)) == RegisterStream(r);
      }
    }
  }

  lemma TimeoutTracks(hs: Hasher, s: State, now: I64, n: U64)
    ensures Tracks(hs, s.view, TimeOutOne(s, now, n).s.view)
  {
    var v := TimeOutOne(s, now, n).s.view;
    assert v == s.view || v.version == s.view.version + 1;
  }

  lemma {:induction false} TimeoutsTrack(hs: Hasher, s: State, now: I64, order: seq<U64>)
    ensures Tracks(hs, s.view, TimeOutAll(s, now, order).s.view)
    decreases |order|
  {
    if order != [] {
      var b := TimeOutAll(s, now, order[..|order| - 1]).s;
      TimeoutsTrack(hs, s, now, order[..|order| - 1]);
      TimeoutTracks(hs, b, now, order[|order| - 1]);
      TracksTransitive(hs, s.view, b.view, TimeOutOne(b, now, order[|order| - 1]).s.view);
    }
  }

  lemma {:induction false} VerdictsTrack(hs: Hasher, s: State, now: I64, ids: seq<Id>)
    ensures Tracks(hs, s.view, OfflineAll(s, now, ids).s.view)
    decreases |ids|
  {
    if ids != [] { VerdictsTrack(hs, s, now, ids[..|ids| - 1]); }
  }

  lemma TickTracks(hs: Hasher, s: State, now: I64, ch: Choices)
    requires ValidChoices(s, now, ch)
    ensures Tracks(hs, s.view, Tick(s, now, ch).s.view)
  {
    var h, p, j := Heartbeat(s, now), Probed(s, now, ch).s, Judged(s, now, ch).s;
    HeartbeatTracks(hs, s.view, s.local, now);
    TimeoutsTrack(hs, h, now, ch.timedOut);
    VerdictsTrack(hs, p.(since := UpdateTimers(p, now)), now, ExpiredAmong(p, now, ch.suspected));
    TickFrame(s, now, ch);
    TracksTransitive(hs, s.view, h.view, p.view);
    TracksTransitive(hs, s.view, p.view, j.view);
  }

  lemma MessageTracks(hs: Hasher, s: State, from: Id, m: Message, now: I64)
    ensures Tracks(hs, s.view, OnMessage(s, from, m, now).s.view)
  {
    var v := OnMessage(s, from, m, now).s.view;
    assert v == s.view || v.version == s.view.version + 1;
  }

  /** Every step of an instance: a changed hashed field raises the version. */
  lemma StepTracks(hs: Hasher, s: State, e: Event)
    requires Enabled(s, e)
    ensures Tracks(hs, s.view, Step(s, e).s.view)
  {
    match e
    case TickAt(now, ch) => TickTracks(hs, s, now, ch);
    case Receive(from, m, now) => MessageTracks(hs, s, from, m, now);
    case LeaveLocal(now) =>
    case Annotate(annotations, now) =>
  }

  /** Over every run: as long as the version reads the same, a tree built earlier is still current. */
  lemma {:induction false} VersionDeterminesLeaves(hs: Hasher, s: State, es: seq<Event>, i: nat, k: nat)
    requires IsRun(s, es) && i <= k <= |es|
    ensures Tracks(hs, At(s, es, i).view, At(s, es, k).view)
    decreases k
  {
    if i < k {
      VersionDeterminesLeaves(hs, s, es, i, k - 1);
      AtNext(s, es, k - 1);
      StepTracks(hs, At(s, es, k - 1), es[k - 1]);
      TracksTransitive(hs, At(s, es, i).view, At(s, es, k - 1).view, At(s, es, k).view);
    }
  }

  // ----- merging a batch of registers -----

  /** `sync_nodes`: each register arrives as an Alive message stamped with the local clock. */
  function SyncAll(s: State, rs: seq<Register>, now: I64): Outcome
    decreases |rs|
  {
    if rs == [] then Outcome(s, [])
    else
      var before := SyncAll(s, rs[..|rs| - 1], now);
      var o := OnMessage(before.s, s.local, Alive(rs[|rs| - 1].(updatedAt := now)), now);
      Outcome(o.s, before.actions + o.actions)
  }

  predicate IsExtensionKey(key: string) { "ext." <= key }

  /** Replace exactly the extension-owned annotations. */
  function WithExtensions(current: StrMap, ext: StrMap): StrMap {
    (map k | k in current && !IsExtensionKey(k) :: current[k]) + (map k | k in ext && IsExtensionKey(k) :: ext[k])
  }

  class MembershipService {
    const swim: Swim
    const hs: Hasher
    /** The depth of the tree; depths are bytes. */
    const D: nat
    var cachedVersion: nat
    var cachedTree: Tree
    const hasMeta: bool
    var disk: U64
    var persisted: U64

    /** The detector is well formed and the cache, if current, holds the tree of the current membership. */
    ghost predicate Valid() reads this, swim, swim.membership {
      && swim.Valid() && BucketsFit(hs, D) && D <= 255
      && cachedVersion <= swim.membership.version
      && (cachedVersion == swim.membership.version ==> Represents(cachedTree, hs, D, Leaves()))
    }

    ghost function Leaves(): Leaves reads this, swim, swim.membership { LeavesOf(hs, swim.membership.members) }

    ghost function S(): State reads this, swim, swim.membership { swim.S() }

    /** The node as the cluster model sees it. */
    ghost function N(): Node reads this, swim, swim.membership { Node(disk, Some(Daemon(S(), persisted))) }

    /** ... and after persisting the current incarnation, from the counters as they were before. */
    ghost function PersistedFrom(disk: U64, persisted: U64, wrote: bool): Node reads this, swim, swim.membership {
      if hasMeta then Persist(Node(disk, None), S(), persisted, wrote) else Node(disk, Some(Daemon(S(), persisted)))
    }

    ghost predicate CacheUntouched(version: nat, tree: Tree) reads this { cachedVersion == version && cachedTree == tree }

    constructor (local: Id, config: Config, register: Register, hs: Hasher, D: nat, hasMeta: bool, disk: U64)
      requires BucketsFit(hs, D) && D <= 255
      ensures Valid() && fresh(swim) && fresh(swim.membership)
      ensures S() == New(local, config, register) && this.hs == hs && this.D == D
      ensures this.hasMeta == hasMeta && this.disk == disk
      ensures persisted == if local == register.id then register.incarnation else 1
    {
      this.swim := new Swim(local, config, register);
      this.hs, this.D, this.hasMeta, this.disk := hs, D, hasMeta, disk;
      new;
      cachedVersion := swim.membership.version;
      cachedTree := FromMembership(hs, D, swim.membership.members);
      persisted := if local in swim.membership.members then swim.membership.members[local].incarnation else 1;
    }

    /** The cached tree, rebuilt only when the version advanced: always the tree of the current membership. */
    method MerkleTree() returns (t: Tree)
      requires Valid()
      modifies `cachedVersion, `cachedTree
      ensures Valid()
      ensures Represents(t, hs, D, Leaves())
    {
      if cachedVersion != swim.membership.version {
        cachedTree := FromMembership(hs, D, swim.membership.members);
        cachedVersion := swim.membership.version;
      }
      t := cachedTree;
    }

    /** Served tree and fresh rebuild coincide. */
    method ServedEqualsRebuilt() returns (served: Tree, rebuilt: Tree)
      requires Valid()
      modifies `cachedVersion, `cachedTree
      ensures Valid() && served == rebuilt
    {
      served := MerkleTree();
      rebuilt := FromMembership(hs, D, swim.membership.members);
      RepresentsUnique(served, rebuilt, hs, D, Leaves());
    }

    method MerkleRoot() returns (root: Hash)
      requires Valid()
      modifies `cachedVersion, `cachedTree
      ensures Valid()
      ensures root == NodeHash(hs, D, Leaves(), 0, 0)
    {
      var t := MerkleTree();
      FlatIndexInRange(D, 0, 0);
      root := t.nodes[1];
      assert t.nodes[FlatIndex(0, 0)] == NodeHash(hs, D, Leaves(), 0, 0);
    }

    /** Write the local incarnation when it moved; `wrote` is the outcome of the write, if one is attempted. */
    method PersistLocalIncarnation(wrote: bool)
      requires Valid()
      modifies `disk, `persisted
      ensures Valid()
      ensures N() == PersistedFrom(old(disk), old(persisted), wrote)
    {
      if !hasMeta || swim.local !in swim.membership.members { return; }
      var incarnation := swim.membership.members[swim.local].incarnation;
      if incarnation == persisted { return; }
      if wrote {
        disk := incarnation;
        persisted := incarnation;
      }
    }

    method OnProbe(from: Id, message: Message, now: I64, wrote: bool) returns (actions: seq<Action>)
      requires Valid()
      modifies this, swim, swim.membership
      ensures Valid() && CacheUntouched(old(cachedVersion), old(cachedTree))
      ensures Outcome(S(), actions) == OnMessage(old(S()), from, message, now)
      ensures N() == PersistedFrom(old(disk), old(persisted), wrote)
    {
      MessageTracks(hs, S(), from, message, now);
      actions := swim.OnMessage(from, message, now);
      PersistLocalIncarnation(wrote);
    }

    method Register(register: Register, now: I64, wrote: bool) returns (actions: seq<Action>)
      requires Valid()
      modifies this, swim, swim.membership
      ensures Valid() && CacheUntouched(old(cachedVersion), old(cachedTree))
      ensures Outcome(S(), actions) == OnMessage(old(S()), swim.local, Alive(register.(updatedAt := now)), now)
      ensures N() == PersistedFrom(old(disk), old(persisted), wrote)
    {
      actions := OnProbe(swim.local, Alive(register.(updatedAt := now)), now, wrote);
    }

    method Tick(now: I64, wrote: bool) returns (actions: seq<Action>, ghost ch: Choices)
      requires Valid()
      modifies this, swim, swim.membership
      ensures Valid() && CacheUntouched(old(cachedVersion), old(cachedTree))
      ensures ValidChoices(old(S()), now, ch) && Outcome(S(), actions) == SwimSpec.Tick(old(S()), now, ch)
      ensures N() == PersistedFrom(old(disk), old(persisted), wrote)
    {
      actions, ch := swim.Tick(now);
      TickTracks(hs, old(S()), now, ch);
      PersistLocalIncarnation(wrote);
    }

    method Leave(id: Id, now: I64, wrote: bool) returns (actions: seq<Action>)
      requires Valid()
      modifies this, swim, swim.membership
      ensures Valid() && CacheUntouched(old(cachedVersion), old(cachedTree))
      ensures S() == LeaveEffect(old(S()), id, now)
      ensures actions == [Broadcast(SwimSpec.Leave(id, KnownIncarnation(old(S()), id)))]
      ensures id in old(S()).view.members ==>
                actions == [Broadcast(SwimSpec.Leave(id, old(S()).view.members[id].incarnation))]
      ensures N() == PersistedFrom(old(disk), old(persisted), wrote)
    {
      var incarnation := if id in swim.membership.members then swim.membership.members[id].incarnation else 1;
      if id == swim.local {
        var found := swim.membership.Leave(id, now);
      } else {
        MessageTracks(hs, S(), swim.local, SwimSpec.Leave(id, incarnation), now);
        var ignored := swim.OnMessage(swim.local, SwimSpec.Leave(id, incarnation), now);
      }
      PersistLocalIncarnation(wrote);
      actions := [Broadcast(SwimSpec.Leave(id, incarnation))];
    }

    method UpdateLocalAnnotations(ext: StrMap, now: I64, wrote: bool) returns (actions: seq<Action>)
      requires Valid()
      modifies this, swim, swim.membership
      ensures Valid() && CacheUntouched(old(cachedVersion), old(cachedTree))
      ensures swim.local !in old(S()).view.members ==> S() == old(S()) && actions == []
      ensures swim.local in old(S()).view.members ==>
                Outcome(S(), actions) == SwimSpec.Annotate(old(S()), WithExtensions(Own(old(S())).annotations, ext), now)
      ensures if swim.local in old(S()).view.members && WithExtensions(Own(old(S())).annotations, ext) != Own(old(S())).annotations
              then N() == PersistedFrom(old(disk), old(persisted), wrote)
              else N() == old(N())
    {
      actions := [];
      if swim.local !in swim.membership.members { return; }
      var current := swim.membership.members[swim.local];
      var annotations := WithExtensions(current.annotations, ext);
      if annotations == current.annotations { return; }
      var updated := current.(annotations := annotations).BumpHeartbeat(now);
      swim.membership.MergeRegister(updated);
      PersistLocalIncarnation(wrote);
      actions := [Broadcast(Alive(updated))];
    }

    method SyncNodes(registers: seq<Register>, now: I64, wrote: bool) returns (actions: seq<Action>)
      requires Valid()
      modifies this, swim, swim.membership
      ensures Valid() && CacheUntouched(old(cachedVersion), old(cachedTree))
      ensures Outcome(S(), actions) == SyncAll(old(S()), registers, now)
      ensures N() == PersistedFrom(old(disk), old(persisted), wrote)
    {
      actions := [];
      for k := 0 to |registers|
        invariant Valid() && CacheUntouched(old(cachedVersion), old(cachedTree))
        invariant Outcome(S(), actions) == SyncAll(old(S()), registers[..k], now)
        invariant disk == old(disk) && persisted == old(persisted)
      {
        assert registers[..k + 1][..k] == registers[..k];
        MessageTracks(hs, S(), swim.local, Alive(registers[k].(updatedAt := now)), now);
        var more := swim.OnMessage(swim.local, Alive(registers[k].(updatedAt := now)), now);
        actions := actions + more;
      }
      assert registers[..|registers|] == registers;
      PersistLocalIncarnation(wrote);
    }

    /** The registers held for the requested ids, in request order. */
    method FetchRegisters(ids: seq<Id>) returns (rs: seq<Register>)
      requires Valid()
      ensures rs == Fetched(S().view.members, ids)
    {
      rs := [];
      for k := 0 to |ids|
        invariant rs == Fetched(swim.membership.members, ids[..k])
      {
        assert ids[..k + 1][..k] == ids[..k];
        if ids[k] in swim.membership.members { rs := rs + [swim.membership.members[ids[k]]]; }
      }
      assert ids[..|ids|] == ids;
    }

    method MerkleNodes(refs: seq<NodeRef>) returns (reply: seq<RemoteNode>, ghost t: Tree)
      requires Valid()
      modifies `cachedVersion, `cachedTree
      ensures Valid() && Represents(t, hs, D, Leaves())
      ensures reply == AnswerRefs(t, D, refs)
    {
      var tree := MerkleTree();
      t := tree;
      reply := AnswerRefs(tree, D, refs);
    }
  }

  function Fetched(m: Members, ids: seq<Id>): seq<Register>
    decreases |ids|
  {
    if ids == [] then []
    else
      var id := ids[|ids| - 1];
      Fetched(m, ids[..|ids| - 1]) + if id in m then [m[id]] else []
  }
}

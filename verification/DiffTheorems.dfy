/**
 The conclusions of a diff session compared with the plain difference of the
 two maps from node id to register hash.
 */
module DiffTheorems {
  import opened Options
  import opened Order
  import opened Registers
  import opened Merkle
  import opened MerkleTrees
  import opened MerkleDiffs
  import opened MerkleSessions

  /** The session of a node whose membership has the leaves `ll`. */
  ghost predicate SessionOf(l: Local, hs: Hasher, ll: Leaves) {
    l.Ok() && l.empty == hs.empty && Ideal(hs) && BucketsFit(hs, l.D) && Represents(l.tree, hs, l.D, ll)
  }

  /** Some leaf puts `id` on the pull list. */
  ghost predicate Pulled(l: Local, top: seq<RemoteNode>, bottom: seq<RemoteNode>, id: Id)
    requires l.Ok()
  {
    exists k: nat :: k < Pow2(l.D) && Ancestor(l.D, l.S, k) < Pow2(l.S)
      && l.Inspects(top, Ancestor(l.D, l.S, k)) && l.LeafPulls(bottom, k, id)
  }

  /** A whole subtree or some leaf puts `id` on the push list. */
  ghost predicate Pushed(l: Local, top: seq<RemoteNode>, bottom: seq<RemoteNode>, id: Id)
    requires l.Ok()
  {
    || (exists i :: 0 <= i < Pow2(l.S) && l.PushesAll(top, i) && id in CollectIds(l.tree, l.D, l.S, i))
    || (exists k: nat :: k < Pow2(l.D) && Ancestor(l.D, l.S, k) < Pow2(l.S)
          && l.Inspects(top, Ancestor(l.D, l.S, k)) && l.LeafPushes(bottom, k, id))
  }

  /** A reply made of results of the peer's tree, possibly with nodes or leaf entries missing. */
  ghost predicate Truthful(reply: seq<RemoteNode>, hs: Hasher, D: nat, lr: Leaves) {
    forall n :: n in reply ==>
      && IsNode(D, n.depth, n.index)
      && n.hash == NodeHash(hs, D, lr, n.depth, n.index)
      && (n.entries.Some? ==> DistinctIds(n.entries.value))
      && (n.entries.Some? && n.depth == D ==> forall e :: e in n.entries.value ==> e in Bucket(hs, lr, n.index))
  }

  lemma TruthfulLookup(reply: seq<RemoteNode>, hs: Hasher, D: nat, lr: Leaves, depth: nat, index: nat)
    requires Truthful(reply, hs, D, lr) && depth <= D
    ensures HashAt(reply, depth, index).Some? ==> HashAt(reply, depth, index).value == NodeHash(hs, D, lr, depth, index)
    ensures EntriesAt(reply, D, index).Some? ==>
              DistinctIds(EntriesAt(reply, D, index).value)
              && forall e :: e in EntriesAt(reply, D, index).value ==> e in Bucket(hs, lr, index)
  {
    LookupSound(reply, depth, index);
    LookupSound(reply, D, index);
  }

  /** The local hashes of a session, in terms of the reference tree. */
  lemma LocalHashes(l: Local, hs: Hasher, ll: Leaves, depth: nat, index: nat)
    requires SessionOf(l, hs, ll) && IsNode(l.D, depth, index)
    ensures NodeAt(l.tree, l.D, depth, index) == NodeHash(hs, l.D, ll, depth, index)
  {
    assert l.tree.nodes[FlatIndex(depth, index)] == NodeHash(hs, l.D, ll, depth, index);
  }

  lemma EmptyBucket(hs: Hasher, k: nat)
    ensures Bucket(hs, map[], k) == []
  {
    var none: Leaves := map[];
    assert IdsIn(hs, none, k) == {};
    assert |Bucket(hs, none, k)| == 0;
  }

  /** Where bucket `k` differs, the hashes on the path above it differ. */
  lemma DifferenceShows(hs: Hasher, D: nat, a: Leaves, b: Leaves, depth: nat, k: nat)
    requires Ideal(hs) && depth <= D && Bucket(hs, a, k) != Bucket(hs, b, k)
    ensures NodeHash(hs, D, a, depth, Ancestor(D, depth, k)) != NodeHash(hs, D, b, depth, Ancestor(D, depth, k))
  {
    EqualHashesExactly(hs, D, a, b, depth, Ancestor(D, depth, k));
    assert Under(D, depth, Ancestor(D, depth, k), k);
  }

  /** A node above a non-empty bucket does not carry the empty-subtree hash. */
  lemma NonEmptyShows(hs: Hasher, D: nat, a: Leaves, depth: nat, k: nat)
    requires Ideal(hs) && depth <= D && Bucket(hs, a, k) != []
    ensures NodeHash(hs, D, a, depth, Ancestor(D, depth, k)) != EmptyHash(hs, D, depth)
  {
    EmptyBucket(hs, k);
    DifferenceShows(hs, D, a, map[], depth, k);
    EmptyHashIsEmptySubtree(hs, D, depth, Ancestor(D, depth, k));
  }

  /** A missing id lives in a bucket that differs, and holds the entry the other side lacks. */
  lemma MissingShows(hs: Hasher, a: Leaves, b: Leaves, id: Id)
    requires id in Missing(a, b)
    ensures Entry(id, a[id]) in Bucket(hs, a, hs.bucket(id))
    ensures Entry(id, a[id]) !in Bucket(hs, b, hs.bucket(id))
    ensures Unmatched(Bucket(hs, a, hs.bucket(id)), Bucket(hs, b, hs.bucket(id)), id)
  {
    BucketMembers(hs, a, id);
    assert forall e :: e in Bucket(hs, b, hs.bucket(id)) ==> e.id in b && e.hash == b[e.id];
  }

  lemma BucketEntry(hs: Hasher, a: Leaves, k: nat, e: Entry)
    ensures e in Bucket(hs, a, k) <==> e.id in a && hs.bucket(e.id) == k && e.hash == a[e.id]
  {
    if e.id in a && hs.bucket(e.id) == k { BucketMembers(hs, a, e.id); }
  }

  lemma BucketIds(hs: Hasher, a: Leaves, k: nat, id: Id)
    ensures id in Ids(Bucket(hs, a, k)) <==> id in a && hs.bucket(id) == k
  {
    var b := Bucket(hs, a, k);
    if id in a && hs.bucket(id) == k {
      BucketMembers(hs, a, id);
      var i :| 0 <= i < |b| && b[i] == Entry(id, a[id]);
      assert Ids(b)[i] == id;
    }
  }

  /**
   Whatever nodes or leaf entries a truthful reply omits, no id the peer lacks
   or holds differently is left off the push list.
   */
  lemma NothingToPushIsMissed(l: Local, hs: Hasher, ll: Leaves, lr: Leaves, top: seq<RemoteNode>, bottom: seq<RemoteNode>, id: Id)
    requires SessionOf(l, hs, ll) && Truthful(top, hs, l.D, lr) && Truthful(bottom, hs, l.D, lr)
    requires id in Missing(ll, lr)
    ensures Pushed(l, top, bottom, id)
  {
    var k := hs.bucket(id);
    var i := Ancestor(l.D, l.S, k);
    AncestorInRange(l.D, l.S, k);
    MissingShows(hs, ll, lr, id);
    DifferenceShows(hs, l.D, ll, lr, l.S, k);
    NonEmptyShows(hs, l.D, ll, l.S, k);
    TruthfulLookup(top, hs, l.D, lr, l.S, i);
    LocalHashes(l, hs, ll, l.S, i);
    assert l.Differs(top, i);
    if l.PushesAll(top, i) {
      CollectIdsExactly(l.tree, hs, l.D, ll, l.S, i, id);
    } else {
      DifferenceShows(hs, l.D, ll, lr, l.D, k);
      NonEmptyShows(hs, l.D, ll, l.D, k);
      TruthfulLookup(bottom, hs, l.D, lr, l.D, k);
      LocalHashes(l, hs, ll, l.D, k);
      assert l.tree.buckets[k] == Bucket(hs, ll, k);
      BucketIds(hs, ll, k, id);
      if EntriesAt(bottom, l.D, k).Some? { DistinctIsExact(l.tree.buckets[k], EntriesAt(bottom, l.D, k).value, id); }
      assert l.LeafPushes(bottom, k, id);
    }
  }

  /** ... and nothing outside the exact pull set gets on the pull list. */
  lemma NothingWrongIsPulled(l: Local, hs: Hasher, ll: Leaves, lr: Leaves, top: seq<RemoteNode>, bottom: seq<RemoteNode>, id: Id)
    requires SessionOf(l, hs, ll) && Truthful(bottom, hs, l.D, lr)
    requires Pulled(l, top, bottom, id)
    ensures id in Missing(lr, ll)
  {
    var k: nat :| k < Pow2(l.D) && Ancestor(l.D, l.S, k) < Pow2(l.S)
      && l.Inspects(top, Ancestor(l.D, l.S, k)) && l.LeafPulls(bottom, k, id);
    TruthfulLookup(bottom, hs, l.D, lr, l.D, k);
    var es := EntriesAt(bottom, l.D, k).value;
    DistinctIsExact(l.tree.buckets[k], es, id);
    var e :| e in es && e.id == id && e !in l.tree.buckets[k];
    assert l.tree.buckets[k] == Bucket(hs, ll, k);
    BucketEntry(hs, lr, k, e);
    BucketEntry(hs, ll, k, e);
  }

  // ----- complete replies -----

  /** The reply covers the split level with the peer's hashes. */
  ghost predicate CompleteTop(top: seq<RemoteNode>, hs: Hasher, D: nat, S: nat, lr: Leaves)
    requires S <= D
  {
    forall i: nat :: i < Pow2(S) ==> HashAt(top, S, i) == Some(NodeHash(hs, D, lr, S, i))
  }

  /** The reply covers the inspected leaves with the peer's hashes and full buckets. */
  ghost predicate CompleteBottom(l: Local, top: seq<RemoteNode>, bottom: seq<RemoteNode>, hs: Hasher, lr: Leaves)
    requires l.Ok()
  {
    forall k: nat :: k < Pow2(l.D) && Ancestor(l.D, l.S, k) < Pow2(l.S) && l.Inspects(top, Ancestor(l.D, l.S, k)) ==>
      && HashAt(bottom, l.D, k) == Some(NodeHash(hs, l.D, lr, l.D, k))
      && EntriesAt(bottom, l.D, k) == Some(Bucket(hs, lr, k))
  }

  lemma PullIsComplete(l: Local, hs: Hasher, ll: Leaves, lr: Leaves, top: seq<RemoteNode>, bottom: seq<RemoteNode>, id: Id)
    requires SessionOf(l, hs, ll) && CompleteTop(top, hs, l.D, l.S, lr) && CompleteBottom(l, top, bottom, hs, lr)
    requires id in Missing(lr, ll)
    ensures Pulled(l, top, bottom, id)
  {
    var k := hs.bucket(id);
    var i := Ancestor(l.D, l.S, k);
    AncestorInRange(l.D, l.S, k);
    MissingShows(hs, lr, ll, id);
    DifferenceShows(hs, l.D, lr, ll, l.S, k);
    DifferenceShows(hs, l.D, lr, ll, l.D, k);
    NonEmptyShows(hs, l.D, lr, l.S, k);
    LocalHashes(l, hs, ll, l.S, i);
    LocalHashes(l, hs, ll, l.D, k);
    assert l.Inspects(top, i);
    assert l.tree.buckets[k] == Bucket(hs, ll, k);
    assert l.LeafPulls(bottom, k, id);
  }

  lemma WholePushIsExact(l: Local, hs: Hasher, ll: Leaves, lr: Leaves, top: seq<RemoteNode>, i: nat, id: Id)
    requires SessionOf(l, hs, ll) && CompleteTop(top, hs, l.D, l.S, lr)
    requires i < Pow2(l.S) && l.PushesAll(top, i) && id in CollectIds(l.tree, l.D, l.S, i)
    ensures id in Missing(ll, lr)
  {
    CollectIdsExactly(l.tree, hs, l.D, ll, l.S, i, id);
    var k := hs.bucket(id);
    if id in lr {
      BucketMembers(hs, lr, id);
      NonEmptyShows(hs, l.D, lr, l.S, k);
    }
  }

  lemma PushIsExact(l: Local, hs: Hasher, ll: Leaves, lr: Leaves, top: seq<RemoteNode>, bottom: seq<RemoteNode>, id: Id)
    requires SessionOf(l, hs, ll) && CompleteTop(top, hs, l.D, l.S, lr) && CompleteBottom(l, top, bottom, hs, lr)
    requires Pushed(l, top, bottom, id)
    ensures id in Missing(ll, lr)
  {
    if i :| 0 <= i < Pow2(l.S) && l.PushesAll(top, i) && id in CollectIds(l.tree, l.D, l.S, i) {
      WholePushIsExact(l, hs, ll, lr, top, i, id);
    } else {
      var k: nat :| k < Pow2(l.D) && Ancestor(l.D, l.S, k) < Pow2(l.S)
        && l.Inspects(top, Ancestor(l.D, l.S, k)) && l.LeafPushes(bottom, k, id);
      BucketDistinct(hs, lr, k);
      DistinctIsExact(l.tree.buckets[k], Bucket(hs, lr, k), id);
      var e :| e in l.tree.buckets[k] && e.id == id && e !in Bucket(hs, lr, k);
      assert l.tree.buckets[k] == Bucket(hs, ll, k);
      BucketEntry(hs, ll, k, e);
      BucketEntry(hs, lr, k, e);
    }
  }

  // ----- the whole session against an honest peer -----

  lemma {:induction false} AnswersTruthful(t: Tree, hs: Hasher, D: nat, lr: Leaves, refs: seq<NodeRef>)
    requires Represents(t, hs, D, lr)
    ensures Truthful(AnswerRefs(t, D, refs), hs, D, lr)
  {
    forall n | n in AnswerRefs(t, D, refs)
      ensures IsNode(D, n.depth, n.index) && n.hash == NodeHash(hs, D, lr, n.depth, n.index)
      ensures n.entries.Some? ==> n.depth == D && n.entries.value == Bucket(hs, lr, n.index) && DistinctIds(n.entries.value)
    {
      AnswerRefsExactly(t, D, refs, n);
      assert t.nodes[FlatIndex(n.depth, n.index)] == NodeHash(hs, D, lr, n.depth, n.index);
      BucketDistinct(hs, lr, n.index);
    }
  }

  lemma BucketDistinct(hs: Hasher, lm: Leaves, k: nat)
    ensures SortedById(Bucket(hs, lm, k)) && DistinctIds(Bucket(hs, lm, k))
  {
  }

  lemma AnswersCover(t: Tree, hs: Hasher, D: nat, lr: Leaves, refs: seq<NodeRef>, depth: nat, index: nat)
    requires Represents(t, hs, D, lr) && IsNode(D, depth, index) && NodeRef(depth, index) in refs
    ensures HashAt(AnswerRefs(t, D, refs), depth, index) == Some(NodeHash(hs, D, lr, depth, index))
    ensures depth == D ==> EntriesAt(AnswerRefs(t, D, refs), D, index) == Some(Bucket(hs, lr, index))
  {
    var reply := AnswerRefs(t, D, refs);
    var n := AnswerRef(t, D, NodeRef(depth, index))[0];
    AnswerRefsExactly(t, D, refs, n);
    LookupSound(reply, depth, index);
    AnswersTruthful(t, hs, D, lr, refs);
    if depth == D {
      var e := EntriesAt(reply, D, index);
      var m :| m in reply && m.depth == D && m.index == index && m.entries == e;
      AnswerRefsExactly(t, D, refs, m);
    }
  }

  lemma SessionSorted(l: Local, hs: Hasher, ll: Leaves)
    requires SessionOf(l, hs, ll)
    ensures SortedBuckets(l.tree)
  {
    forall k | 0 <= k < |l.tree.buckets| ensures SortedById(l.tree.buckets[k]) && DistinctIds(l.tree.buckets[k]) {
      BucketDistinct(hs, ll, k);
    }
  }

  /** What the session object concludes, in terms of `Pulled` and `Pushed`. */
  lemma ConclusionsMatch(l: Local, top: seq<RemoteNode>, bottom: seq<RemoteNode>, divergent: seq<nat>, push: seq<Id>, id: Id)
    requires l.Ok() && Planned(l, top, Pow2(l.S), divergent, push)
    ensures (exists k :: InspectedLeaf(l, divergent, k) && l.LeafPulls(bottom, k, id)) <==> Pulled(l, top, bottom, id)
    ensures id in push || (exists k :: InspectedLeaf(l, divergent, k) && l.LeafPushes(bottom, k, id))
        <==> Pushed(l, top, bottom, id)
  {
    forall k: nat
      ensures InspectedLeaf(l, divergent, k) <==>
                k < Pow2(l.D) && Ancestor(l.D, l.S, k) < Pow2(l.S) && l.Inspects(top, Ancestor(l.D, l.S, k))
    {
      AncestorBounds(l.D, l.S, k);
    }
  }

  /**
   A session fed any truthful replies, however incomplete, returns sorted lists
   without repetition: everything the peer needs is pushed and nothing is
   pulled that is not needed.
   */
  method ConcludeFromTruthful(l: Local, top: seq<RemoteNode>, bottom: seq<RemoteNode>, ghost hs: Hasher, ghost ll: Leaves, ghost lr: Leaves)
    returns (r: DiffResult)
    requires SessionOf(l, hs, ll) && Truthful(top, hs, l.D, lr) && Truthful(bottom, hs, l.D, lr)
    ensures StrictlySorted(r.needFromRemote) && StrictlySorted(r.needFromLocal)
    ensures Missing(ll, lr) <= Elems(r.needFromLocal)
    ensures Elems(r.needFromRemote) <= Missing(lr, ll)
  {
    var session := new MerkleDiff(l);
    SessionSorted(l, hs, ll);
    var refs := session.PlanLeafRefs(top);
    r := session.Finish(bottom);
    forall id
      ensures id in Missing(ll, lr) ==> id in r.needFromLocal
      ensures id in r.needFromRemote ==> id in Missing(lr, ll)
    {
      ConclusionsMatch(l, top, bottom, session.divergent, session.needFromLocal, id);
      if id in Missing(ll, lr) { NothingToPushIsMissed(l, hs, ll, lr, top, bottom, id); }
      if id in r.needFromRemote { NothingWrongIsPulled(l, hs, ll, lr, top, bottom, id); }
    }
  }

  /** The exact diff, seen from the side holding `mine`. */
  function ExactDiff(mine: Leaves, theirs: Leaves): DiffResult {
    DiffResult(SortedSeq(Missing(theirs, mine)), SortedSeq(Missing(mine, theirs)))
  }

  /** Swapping the sides swaps the two lists. */
  lemma ExactDiffMirrors(a: Leaves, b: Leaves)
    ensures ExactDiff(b, a) == DiffResult(ExactDiff(a, b).needFromLocal, ExactDiff(a, b).needFromRemote)
  {
  }

  lemma HonestRepliesComplete(l: Local, peer: Tree, hs: Hasher, lr: Leaves, divergent: seq<nat>, push: seq<Id>,
                              topRefs: seq<NodeRef>, leafRefs: seq<NodeRef>)
    requires l.Ok() && Represents(peer, hs, l.D, lr)
    requires forall r :: r in topRefs <==> IsNode(l.S, r.depth, r.index)
    requires Planned(l, AnswerRefs(peer, l.D, topRefs), Pow2(l.S), divergent, push) && LeafRefs(l, divergent, leafRefs)
    ensures CompleteTop(AnswerRefs(peer, l.D, topRefs), hs, l.D, l.S, lr)
    ensures CompleteBottom(l, AnswerRefs(peer, l.D, topRefs), AnswerRefs(peer, l.D, leafRefs), hs, lr)
  {
    var top, bottom := AnswerRefs(peer, l.D, topRefs), AnswerRefs(peer, l.D, leafRefs);
    forall i: nat | i < Pow2(l.S) ensures HashAt(top, l.S, i) == Some(NodeHash(hs, l.D, lr, l.S, i)) {
      assert NodeRef(l.S, i) in topRefs;
      AnswersCover(peer, hs, l.D, lr, topRefs, l.S, i);
    }
    forall k: nat | k < Pow2(l.D) && Ancestor(l.D, l.S, k) < Pow2(l.S) && l.Inspects(top, Ancestor(l.D, l.S, k))
      ensures HashAt(bottom, l.D, k) == Some(NodeHash(hs, l.D, lr, l.D, k))
      ensures EntriesAt(bottom, l.D, k) == Some(Bucket(hs, lr, k))
    {
      assert InspectedLeaf(l, divergent, k);
      assert NodeRef(l.D, k) in leafRefs;
      AnswersCover(peer, hs, l.D, lr, leafRefs, l.D, k);
    }
  }

  /** `r` is what a session concludes after the plan `(divergent, push)` from the round-two reply. */
  ghost predicate Concludes(l: Local, bottom: seq<RemoteNode>, divergent: seq<nat>, push: seq<Id>, r: DiffResult)
    requires l.Ok()
  {
    && StrictlySorted(r.needFromRemote) && StrictlySorted(r.needFromLocal)
    && (forall id :: id in r.needFromRemote <==> exists k :: InspectedLeaf(l, divergent, k) && l.LeafPulls(bottom, k, id))
    && (forall id :: id in r.needFromLocal <==>
          id in push || exists k :: InspectedLeaf(l, divergent, k) && l.LeafPushes(bottom, k, id))
  }

  /** Both rounds answered from one tree of the peer: the conclusions are exact. */
  lemma HonestSession(l: Local, peer: Tree, hs: Hasher, ll: Leaves, lr: Leaves, divergent: seq<nat>, push: seq<Id>,
                      topRefs: seq<NodeRef>, leafRefs: seq<NodeRef>, r: DiffResult)
    requires SessionOf(l, hs, ll) && Represents(peer, hs, l.D, lr)
    requires forall f :: f in topRefs <==> IsNode(l.S, f.depth, f.index)
    requires Planned(l, AnswerRefs(peer, l.D, topRefs), Pow2(l.S), divergent, push) && LeafRefs(l, divergent, leafRefs)
    requires Concludes(l, AnswerRefs(peer, l.D, leafRefs), divergent, push, r)
    ensures r == ExactDiff(ll, lr)
  {
    HonestRepliesComplete(l, peer, hs, lr, divergent, push, topRefs, leafRefs);
    AnswersTruthful(peer, hs, l.D, lr, topRefs);
    AnswersTruthful(peer, hs, l.D, lr, leafRefs);
    ExactConclusions(l, hs, ll, lr, AnswerRefs(peer, l.D, topRefs), AnswerRefs(peer, l.D, leafRefs), divergent, push, r);
  }

  /**
   The full two-round session against a peer that answers from its own tree
   returns exactly the difference of the two maps, sorted, on both lists.
   */
  method RunDiff(local: Tree, peer: Tree, D: nat, S: nat, empty: Hash, ghost hs: Hasher, ghost ll: Leaves, ghost lr: Leaves)
    returns (r: DiffResult)
    requires S <= D && empty == hs.empty && Ideal(hs) && BucketsFit(hs, D)
    requires Represents(local, hs, D, ll) && Represents(peer, hs, D, lr)
    ensures r == ExactDiff(ll, lr)
  {
    var l := Local(local, D, S, empty);
    var session := new MerkleDiff(l);
    SessionSorted(l, hs, ll);
    var topRefs := TopRefs(S);
    var top := AnswerRefs(peer, D, topRefs);
    var leafRefs := session.PlanLeafRefs(top);
    var bottom := if leafRefs == [] then [] else AnswerRefs(peer, D, leafRefs);
    assert bottom == AnswerRefs(peer, D, leafRefs);
    r := session.Finish(bottom);
    HonestSession(l, peer, hs, ll, lr, session.divergent, session.needFromLocal, topRefs, leafRefs, r);
  }

  /** The session at the depths the daemon uses. */
  method RunDaemonDiff(local: Tree, peer: Tree, empty: Hash, ghost hs: Hasher, ghost ll: Leaves, ghost lr: Leaves)
    returns (r: DiffResult)
    requires empty == hs.empty && Ideal(hs) && BucketsFit(hs, MERKLE_TREE_DEPTH)
    requires Represents(local, hs, MERKLE_TREE_DEPTH, ll) && Represents(peer, hs, MERKLE_TREE_DEPTH, lr)
    ensures r == ExactDiff(ll, lr)
  {
    r := RunDiff(local, peer, MERKLE_TREE_DEPTH, SPLIT_DEPTH, empty, hs, ll, lr);
  }

  lemma ExactConclusions(l: Local, hs: Hasher, ll: Leaves, lr: Leaves, top: seq<RemoteNode>, bottom: seq<RemoteNode>,
                         divergent: seq<nat>, push: seq<Id>, r: DiffResult)
    requires SessionOf(l, hs, ll) && Truthful(top, hs, l.D, lr) && Truthful(bottom, hs, l.D, lr)
    requires CompleteTop(top, hs, l.D, l.S, lr) && CompleteBottom(l, top, bottom, hs, lr)
    requires Planned(l, top, Pow2(l.S), divergent, push) && Concludes(l, bottom, divergent, push, r)
    ensures r == ExactDiff(ll, lr)
  {
    forall id
      ensures id in Elems(r.needFromRemote) <==> id in Missing(lr, ll)
      ensures id in Elems(r.needFromLocal) <==> id in Missing(ll, lr)
    {
      ConclusionsMatch(l, top, bottom, divergent, push, id);
      if id in Missing(lr, ll) { PullIsComplete(l, hs, ll, lr, top, bottom, id); }
      if Pulled(l, top, bottom, id) { NothingWrongIsPulled(l, hs, ll, lr, top, bottom, id); }
      if id in Missing(ll, lr) { NothingToPushIsMissed(l, hs, ll, lr, top, bottom, id); }
      if Pushed(l, top, bottom, id) { PushIsExact(l, hs, ll, lr, top, bottom, id); }
    }
    SortedUnique(r.needFromRemote, SortedSeq(Missing(lr, ll)));
    SortedUnique(r.needFromLocal, SortedSeq(Missing(ll, lr)));
  }
}

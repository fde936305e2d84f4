/**
 `MerkleDiff`: the diff session object, which turns any two replies into a
 request for leaves and two sorted lists of ids.
 */
module MerkleSessions {
  import opened Options
  import opened Order
  import opened Registers
  import opened Merkle
  import opened MerkleTrees
  import opened MerkleDiffs

  /** The local buckets are sorted by node id without repetition. */
  ghost predicate SortedBuckets(t: Tree) {
    forall k :: 0 <= k < |t.buckets| ==> SortedById(t.buckets[k]) && DistinctIds(t.buckets[k])
  }

  lemma {:induction false} AncestorBounds(D: nat, depth: nat, k: nat)
    requires depth <= D
    ensures Ancestor(D, depth, k) < Pow2(depth) <==> k < Pow2(D)
    decreases D - depth
  {
    if depth < D { AncestorBounds(D, depth + 1, k); }
  }

  /** The `HashMap` collected from a reply. */
  method ReplyHashes(reply: seq<RemoteNode>) returns (m: map<(nat, nat), Hash>)
    ensures forall d: nat, i: nat :: HashAt(reply, d, i) == if (d, i) in m then Some(m[(d, i)]) else None
  {
    m := map[];
    for k := 0 to |reply|
      invariant forall d: nat, i: nat :: HashAt(reply[..k], d, i) == if (d, i) in m then Some(m[(d, i)]) else None
    {
      assert reply[..k + 1][..k] == reply[..k];
      m := m[(reply[k].depth, reply[k].index) := reply[k].hash];
    }
    assert reply[..|reply|] == reply;
  }

  method ReplyLeaves(reply: seq<RemoteNode>, D: nat)
    returns (hashes: map<nat, Hash>, entries: map<nat, seq<Entry>>)
    ensures forall i: nat :: HashAt(reply, D, i) == if i in hashes then Some(hashes[i]) else None
    ensures forall i: nat :: EntriesAt(reply, D, i) == if i in entries then Some(entries[i]) else None
  {
    hashes, entries := map[], map[];
    for k := 0 to |reply|
      invariant forall i: nat :: HashAt(reply[..k], D, i) == if i in hashes then Some(hashes[i]) else None
      invariant forall i: nat :: EntriesAt(reply[..k], D, i) == if i in entries then Some(entries[i]) else None
    {
      assert reply[..k + 1][..k] == reply[..k];
      var node := reply[k];
      if node.depth == D {
        hashes := hashes[node.index := node.hash];
        if node.entries.Some? { entries := entries[node.index := node.entries.value]; }
      }
    }
    assert reply[..|reply|] == reply;
  }

  /** Round-one references: every node down to the split depth. */
  method TopRefs(S: nat) returns (refs: seq<NodeRef>)
    ensures forall r :: r in refs <==> IsNode(S, r.depth, r.index)
    ensures |refs| == Pow2(S + 1) - 1
  {
    refs := [];
    for depth := 0 to S + 1
      invariant forall r :: r in refs <==> r.depth < depth && r.index < Pow2(r.depth)
      invariant |refs| == Pow2(depth) - 1
    {
      for index := 0 to Pow2(depth)
        invariant forall r :: r in refs <==> (r.depth < depth && r.index < Pow2(r.depth)) || (r.depth == depth && r.index < index)
        invariant |refs| == Pow2(depth) - 1 + index
      {
        refs := refs + [NodeRef(depth, index)];
      }
    }
  }

  /** The leaf references below one subtree at the split depth. */
  method LeafRefsUnder(D: nat, S: nat, index: nat) returns (refs: seq<NodeRef>)
    requires S <= D
    ensures forall r :: r in refs <==> r.depth == D && Under(D, S, index, r.index)
  {
    var width := Pow2(D - S);
    refs := [];
    for leaf := 0 to width
      invariant forall r :: r in refs <==> r.depth == D && index * width <= r.index < index * width + leaf
    {
      refs := refs + [NodeRef(D, index * width + leaf)];
    }
    assert (index + 1) * width == index * width + width;
    forall r ensures r in refs <==> r.depth == D && Under(D, S, index, r.index) {
      AncestorOfShifted(D, S, index, r.index);
    }
  }

  class MerkleDiff {
    const l: Local
    var needFromLocal: seq<Id>
    var divergent: seq<nat>

    constructor (l: Local)
      ensures this.l == l && needFromLocal == [] && divergent == []
    {
      this.l := l;
      needFromLocal, divergent := [], [];
    }

    /** Consume the round-one reply: prune, push whole subtrees, or plan a leaf-level comparison. */
    method PlanLeafRefs(top: seq<RemoteNode>) returns (refs: seq<NodeRef>)
      requires l.Ok() && needFromLocal == [] && divergent == []
      modifies this
      ensures Planned(l, top, Pow2(l.S), divergent, needFromLocal)
      ensures LeafRefs(l, divergent, refs)
    {
      var hashes := ReplyHashes(top);
      refs := [];
      for index := 0 to Pow2(l.S)
        invariant Planned(l, top, index, divergent, needFromLocal)
        invariant LeafRefs(l, divergent, refs)
      {
        var remote := if (l.S, index) in hashes then hashes[(l.S, index)] else l.EmptySplit();
        assert remote == Or(HashAt(top, l.S, index), l.EmptySplit());
        if l.SplitHash(index) == remote {
          PlanStep(l, top, index, divergent, needFromLocal);
        } else if remote == l.EmptySplit() {
          var ids := CollectIds(l.tree, l.D, l.S, index);
          PlanStep(l, top, index, divergent, needFromLocal);
          needFromLocal := needFromLocal + ids;
        } else {
          PlanStep(l, top, index, divergent, needFromLocal);
          var more := LeafRefsUnder(l.D, l.S, index);
          LeafRefsStep(l, divergent, refs, index, more);
          divergent := divergent + [index];
          refs := refs + more;
        }
      }
    }

    /** Consume the round-two reply and conclude. */
    method Finish(bottom: seq<RemoteNode>) returns (r: DiffResult)
      requires l.Ok() && SortedBuckets(l.tree)
      ensures StrictlySorted(r.needFromRemote) && StrictlySorted(r.needFromLocal)
      ensures forall id :: id in r.needFromRemote <==>
                exists k :: InspectedLeaf(l, divergent, k) && l.LeafPulls(bottom, k, id)
      ensures forall id :: id in r.needFromLocal <==>
                id in needFromLocal || exists k :: InspectedLeaf(l, divergent, k) && l.LeafPushes(bottom, k, id)
    {
      var hashes, entries := ReplyLeaves(bottom, l.D);
      var pull, push := [], [];
      for j := 0 to |divergent|
        invariant forall id :: id in pull <==>
                    exists k :: InspectedLeaf(l, divergent[..j], k) && l.LeafPulls(bottom, k, id)
        invariant forall id :: id in push <==>
                    exists k :: InspectedLeaf(l, divergent[..j], k) && l.LeafPushes(bottom, k, id)
      {
        var p, q := DiffSubtree(l, bottom, hashes, entries, divergent[j]);
        InspectedStep(l, divergent, j);
        pull, push := pull + p, push + q;
      }
      assert divergent[..|divergent|] == divergent;
      var remote := SortDedup(pull);
      var local := SortDedup(needFromLocal + push);
      r := DiffResult(remote, local);
      assert forall id :: id in remote <==> id in Elems(remote);
      assert forall id :: id in local <==> id in Elems(local);
    }
  }

  lemma PlanStep(l: Local, top: seq<RemoteNode>, index: nat, divergent: seq<nat>, push: seq<Id>)
    requires l.Ok() && index < Pow2(l.S) && Planned(l, top, index, divergent, push)
    ensures l.Inspects(top, index) ==> Planned(l, top, index + 1, divergent + [index], push)
    ensures l.PushesAll(top, index) ==>
              Planned(l, top, index + 1, divergent, push + CollectIds(l.tree, l.D, l.S, index))
    ensures !l.Differs(top, index) ==> Planned(l, top, index + 1, divergent, push)
  {
    forall id
      ensures (exists i :: 0 <= i < index + 1 && l.PushesAll(top, i) && id in CollectIds(l.tree, l.D, l.S, i))
         <==> (exists i :: 0 <= i < index && l.PushesAll(top, i) && id in CollectIds(l.tree, l.D, l.S, i))
              || (l.PushesAll(top, index) && id in CollectIds(l.tree, l.D, l.S, index))
    {
    }
  }

  lemma LeafRefsStep(l: Local, divergent: seq<nat>, refs: seq<NodeRef>, index: nat, more: seq<NodeRef>)
    requires l.Ok() && index < Pow2(l.S) && LeafRefs(l, divergent, refs)
    requires forall r :: r in more <==> r.depth == l.D && Under(l.D, l.S, index, r.index)
    ensures LeafRefs(l, divergent + [index], refs + more)
  {
    forall r
      ensures r in refs + more <==> r.depth == l.D && InspectedLeaf(l, divergent + [index], r.index)
    {
      AncestorBounds(l.D, l.S, r.index);
    }
  }

  lemma InspectedStep(l: Local, divergent: seq<nat>, j: nat)
    requires l.Ok() && j < |divergent|
    ensures forall k: nat :: InspectedLeaf(l, divergent[..j + 1], k) <==>
              InspectedLeaf(l, divergent[..j], k) || (k < Pow2(l.D) && Under(l.D, l.S, divergent[j], k))
  {
    assert divergent[..j + 1] == divergent[..j] + [divergent[j]];
  }

  /** Compare the leaves below one inspected subtree. */
  method DiffSubtree(l: Local, ghost bottom: seq<RemoteNode>, hashes: map<nat, Hash>, entries: map<nat, seq<Entry>>, split: nat)
    returns (pull: seq<Id>, push: seq<Id>)
    requires l.Ok() && SortedBuckets(l.tree)
    requires forall i: nat :: HashAt(bottom, l.D, i) == if i in hashes then Some(hashes[i]) else None
    requires forall i: nat :: EntriesAt(bottom, l.D, i) == if i in entries then Some(entries[i]) else None
    ensures forall id :: id in pull <==>
              exists k: nat :: k < Pow2(l.D) && Under(l.D, l.S, split, k) && l.LeafPulls(bottom, k, id)
    ensures forall id :: id in push <==>
              exists k: nat :: k < Pow2(l.D) && Under(l.D, l.S, split, k) && l.LeafPushes(bottom, k, id)
  {
    var width := Pow2(l.D - l.S);
    var base := split * width;
    assert (split + 1) * width == base + width;
    pull, push := [], [];
    for leaf := 0 to width
      invariant forall id :: id in pull <==>
                  exists k: nat :: k < Pow2(l.D) && base <= k < base + leaf && l.LeafPulls(bottom, k, id)
      invariant forall id :: id in push <==>
                  exists k: nat :: k < Pow2(l.D) && base <= k < base + leaf && l.LeafPushes(bottom, k, id)
    {
      var index := base + leaf;
      if index < Pow2(l.D) {
        var p, q := DiffLeaf(l, bottom, hashes, entries, index);
        pull, push := pull + p, push + q;
      }
    }
    forall k: nat ensures Under(l.D, l.S, split, k) <==> base <= k < base + width {
      AncestorOfShifted(l.D, l.S, split, k);
    }
  }

  method DiffLeaf(l: Local, ghost bottom: seq<RemoteNode>, hashes: map<nat, Hash>, entries: map<nat, seq<Entry>>, index: nat)
    returns (pull: seq<Id>, push: seq<Id>)
    requires l.Ok() && SortedBuckets(l.tree) && index < Pow2(l.D)
    requires HashAt(bottom, l.D, index) == if index in hashes then Some(hashes[index]) else None
    requires EntriesAt(bottom, l.D, index) == if index in entries then Some(entries[index]) else None
    ensures forall id :: id in pull <==> l.LeafPulls(bottom, index, id)
    ensures forall id :: id in push <==> l.LeafPushes(bottom, index, id)
  {
    pull, push := [], [];
    var remote := if index in hashes then hashes[index] else l.empty;
    if l.LeafHash(index) == remote { return; }
    if index in entries {
      pull, push := DiffLeafBuckets(l.tree.buckets[index], entries[index]);
    } else {
      push := Ids(l.tree.buckets[index]);
    }
  }
}

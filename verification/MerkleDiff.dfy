/**
 The parts of the two-round Merkle diff, for any tree depth D and split depth
 S <= D: the walk over two leaf buckets, looking up and answering node
 references, and what each node of a reply decides.
 */
module MerkleDiffs {
  import opened Options
  import opened Order
  import opened Registers
  import opened Merkle
  import opened MerkleTrees

  const SPLIT_DEPTH: nat := 8

  datatype NodeRef = NodeRef(depth: nat, index: nat)

  datatype RemoteNode = RemoteNode(depth: nat, index: nat, hash: Hash, entries: Option<seq<Entry>>)

  datatype DiffResult = DiffResult(needFromRemote: seq<Id>, needFromLocal: seq<Id>)

  // ----- the specification: a difference of two maps -----

  /** What `a` holds that `b` lacks or holds with a different hash. */
  function Missing(a: Leaves, b: Leaves): set<Id> {
    set id | id in a && (id !in b || b[id] != a[id])
  }

  // ----- reconciling two buckets -----

  /** `id` has an entry in `a` that `b` does not contain. */
  ghost predicate Unmatched(a: seq<Entry>, b: seq<Entry>, id: Id) {
    exists e :: e in a && e.id == id && e !in b
  }

  /** `id` occurs more than once in `b`. */
  predicate Repeated(b: seq<Entry>, id: Id) { |OfId(b, id)| >= 2 }

  /** `id` has an entry in `a` that is not the first `b` has for it. */
  ghost predicate Outdated(a: seq<Entry>, b: seq<Entry>, id: Id) {
    exists e :: e in a && e.id == id && (OfId(b, id) == [] || OfId(b, id)[0] != e)
  }

  // ----- a sorted bucket, position by position -----

  /** Position `l` holds the first entry of its id. */
  predicate FirstAt(b: seq<Entry>, l: nat)
    requires l < |b|
  {
    l == 0 || b[l - 1].id != b[l].id
  }

  /** In a sorted bucket, equal ids are adjacent. */
  lemma Adjacent(b: seq<Entry>, m: nat, l: nat)
    requires SortedById(b) && m < l < |b| && b[m].id == b[l].id
    ensures !FirstAt(b, l)
  {
    if m < l - 1 { LexAntisymmetric(CharLe, b[l - 1].id, b[l].id); }
  }

  lemma FirstOfId(b: seq<Entry>, l: nat)
    requires SortedById(b) && l < |b| && FirstAt(b, l)
    ensures OfId(b, b[l].id) != [] && OfId(b, b[l].id)[0] == b[l]
    ensures Repeated(b, b[l].id) <==> exists m :: l < m < |b| && b[m].id == b[l].id
  {
    OfIdFromFirst(b, l, b[l].id);
    RestHasId(b, l, b[l].id);
  }

  lemma OfIdFromFirst(b: seq<Entry>, l: nat, id: Id)
    requires SortedById(b) && l < |b| && FirstAt(b, l) && b[l].id == id
    ensures OfId(b, id) == [b[l]] + OfId(b[l + 1..], id)
  {
    var before, after := b[..l], b[l + 1..];
    assert b == before + [b[l]] + after;
    OfIdAround(before, b[l], after, id);
    NoneBefore(b, l);
    OfIdAbsent(before, id);
  }

  lemma NoneBefore(b: seq<Entry>, l: nat)
    requires SortedById(b) && l < |b| && FirstAt(b, l)
    ensures forall m :: 0 <= m < l ==> b[m].id != b[l].id
  {
    forall m | 0 <= m < l ensures b[m].id != b[l].id {
      if b[m].id == b[l].id { Adjacent(b, m, l); }
    }
  }

  lemma RestHasId(b: seq<Entry>, l: nat, id: Id)
    requires l < |b|
    ensures OfId(b[l + 1..], id) != [] <==> exists m :: l < m < |b| && b[m].id == id
  {
    OfIdPresent(b[l + 1..], id);
    if m :| l < m < |b| && b[m].id == id { assert b[l + 1..][m - l - 1].id == id; }
  }

  lemma {:induction false} OfIdPresent(b: seq<Entry>, id: Id)
    ensures OfId(b, id) != [] <==> exists m :: 0 <= m < |b| && b[m].id == id
    decreases |b|
  {
    if b != [] {
      OfIdPresent(b[..|b| - 1], id);
      if m :| 0 <= m < |b| && b[m].id == id { assert m < |b| - 1 ==> b[..|b| - 1][m].id == id; }
    }
  }

  /** Every id of a sorted bucket has a first position. */
  lemma {:induction false} FirstExists(b: seq<Entry>, m: nat) returns (l: nat)
    requires SortedById(b) && m < |b|
    ensures l <= m && b[l].id == b[m].id && FirstAt(b, l)
  {
    l := m;
    if !FirstAt(b, m) { l := FirstExists(b, m - 1); }
  }

  // ----- the walk -----

  /** Position `l` of the sorted remote bucket goes on the pull list. */
  predicate PullsAt(a: seq<Entry>, b: seq<Entry>, l: nat)
    requires l < |b|
  {
    b[l] !in a || !FirstAt(b, l)
  }

  /** Position `k` of the local bucket goes on the push list. */
  ghost predicate PushesAt(a: seq<Entry>, b: seq<Entry>, k: nat)
    requires k < |a|
  {
    forall l :: 0 <= l < |b| && b[l] == a[k] ==> !FirstAt(b, l)
  }

  /** The walk has passed `i` local and `j` remote positions and collected the two lists. */
  ghost predicate Walked(a: seq<Entry>, b: seq<Entry>, i: nat, j: nat, pull: seq<Id>, push: seq<Id>) {
    && i <= |a| && j <= |b|
    && (forall k, l :: i <= k < |a| && 0 <= l < j ==> a[k].id != b[l].id)
    && (forall k, l :: 0 <= k < i && j <= l < |b| && a[k].id == b[l].id ==> !FirstAt(b, l))
    && (forall id :: id in pull <==> exists l :: 0 <= l < j && b[l].id == id && PullsAt(a, b, l))
    && (forall id :: id in push <==> exists k :: 0 <= k < i && a[k].id == id && PushesAt(a, b, k))
  }

  lemma WalkBoth(a: seq<Entry>, b: seq<Entry>, i: nat, j: nat, pull: seq<Id>, push: seq<Id>)
    requires SortedById(a) && DistinctIds(a) && SortedById(b) && Walked(a, b, i, j, pull, push)
    requires i < |a| && j < |b| && a[i].id == b[j].id
    ensures var more := if a[i].hash != b[j].hash then [a[i].id] else [];
      Walked(a, b, i + 1, j + 1, pull + more, push + more)
  {
    assert FirstAt(b, j);
    assert b[j] in a <==> b[j] == a[i];
    assert PullsAt(a, b, j) <==> a[i].hash != b[j].hash;
    forall l | 0 <= l < |b| && l != j && b[l].id == a[i].id ensures !FirstAt(b, l) {
      if l > j { Adjacent(b, j, l); }
    }
    assert PushesAt(a, b, i) <==> a[i].hash != b[j].hash;
  }

  lemma WalkLocal(a: seq<Entry>, b: seq<Entry>, i: nat, j: nat, pull: seq<Id>, push: seq<Id>)
    requires SortedById(b) && Walked(a, b, i, j, pull, push)
    requires i < |a| && (j < |b| ==> StrLt(a[i].id, b[j].id))
    ensures Walked(a, b, i + 1, j, pull, push + [a[i].id])
  {
    forall l | 0 <= l < |b| ensures b[l].id != a[i].id {
      if l >= j && b[l].id == a[i].id { LexAntisymmetric(CharLe, a[i].id, b[j].id); }
    }
    assert PushesAt(a, b, i);
  }

  lemma WalkRemote(a: seq<Entry>, b: seq<Entry>, i: nat, j: nat, pull: seq<Id>, push: seq<Id>)
    requires SortedById(a) && Walked(a, b, i, j, pull, push)
    requires j < |b| && (i < |a| ==> StrLt(b[j].id, a[i].id))
    ensures Walked(a, b, i, j + 1, pull + [b[j].id], push)
  {
    forall k | i <= k < |a| ensures a[k].id != b[j].id {
      if a[k].id == b[j].id { LexAntisymmetric(CharLe, b[j].id, a[i].id); }
    }
    assert PullsAt(a, b, j);
  }

  /** When both sides are exhausted, the lists say what they should of the buckets. */
  lemma WalkEnds(a: seq<Entry>, b: seq<Entry>, pull: seq<Id>, push: seq<Id>, id: Id)
    requires SortedById(b) && Walked(a, b, |a|, |b|, pull, push)
    ensures id in pull <==> Unmatched(b, a, id) || Repeated(b, id)
    ensures id in push <==> Outdated(a, b, id)
  {
    OfIdPresent(b, id);
    if m :| 0 <= m < |b| && b[m].id == id {
      var l := FirstExists(b, m);
      FirstOfId(b, l);
      FirstIsUnique(b, l);
      forall k | 0 <= k < |a| && a[k].id == id ensures PushesAt(a, b, k) <==> a[k] != b[l] {
      }
    }
  }

  lemma FirstIsUnique(b: seq<Entry>, l: nat)
    requires SortedById(b) && l < |b| && FirstAt(b, l)
    ensures forall m :: 0 <= m < |b| && b[m].id == b[l].id && m != l ==> !FirstAt(b, m) && l < m
  {
    forall m | 0 <= m < |b| && b[m].id == b[l].id && m != l ensures !FirstAt(b, m) && l < m {
      if m < l { Adjacent(b, m, l); } else { Adjacent(b, l, m); }
    }
  }

  /**
   `diff_leaf_buckets`: the two-pointer walk. Ids only on one side go to the
   side lacking them, ids with different hashes go to both. Of an id the remote
   bucket repeats, only its first entry is compared, and the id is pulled anyway.
   */
  method DiffLeafBuckets(local: seq<Entry>, remote: seq<Entry>) returns (pull: seq<Id>, push: seq<Id>)
    requires SortedById(local) && DistinctIds(local)
    ensures forall id :: id in pull <==> Unmatched(remote, local, id) || Repeated(remote, id)
    ensures forall id :: id in push <==> Outdated(local, remote, id)
  {
    var sorted := SortEntries(remote);
    pull, push := [], [];
    var i, j := 0, 0;
    while i < |local| && j < |sorted|
      invariant Walked(local, sorted, i, j, pull, push)
      decreases |local| - i + |sorted| - j
    {
      LexTotal(CharLe, local[i].id, sorted[j].id);
      if local[i].id == sorted[j].id {
        WalkBoth(local, sorted, i, j, pull, push);
        var more := if local[i].hash != sorted[j].hash then [local[i].id] else [];
        pull, push := pull + more, push + more;
        i, j := i + 1, j + 1;
      } else if StrLt(local[i].id, sorted[j].id) {
        WalkLocal(local, sorted, i, j, pull, push);
        push := push + [local[i].id];
        i := i + 1;
      } else {
        WalkRemote(local, sorted, i, j, pull, push);
        pull := pull + [sorted[j].id];
        j := j + 1;
      }
    }
    while i < |local|
      invariant Walked(local, sorted, i, j, pull, push) && (i < |local| ==> j == |sorted|)
    {
      WalkLocal(local, sorted, i, j, pull, push);
      push := push + [local[i].id];
      i := i + 1;
    }
    while j < |sorted|
      invariant Walked(local, sorted, i, j, pull, push) && i == |local|
    {
      WalkRemote(local, sorted, i, j, pull, push);
      pull := pull + [sorted[j].id];
      j := j + 1;
    }
    forall id
      ensures id in pull <==> Unmatched(remote, local, id) || Repeated(remote, id)
      ensures id in push <==> Outdated(local, remote, id)
    {
      WalkEnds(local, sorted, pull, push, id);
      assert OfId(sorted, id) == OfId(remote, id);
    }
  }

  /** Without repeated ids both lists are plain differences. */
  lemma {:induction false} DistinctIsExact(a: seq<Entry>, b: seq<Entry>, id: Id)
    requires DistinctIds(b)
    ensures !Repeated(b, id)
    ensures Outdated(a, b, id) <==> Unmatched(a, b, id)
  {
    OnlyEntry(b, id);
    forall e: Entry | e.id == id ensures e in b <==> OfId(b, id) != [] && OfId(b, id)[0] == e {
    }
  }

  lemma {:induction false} OnlyEntry(b: seq<Entry>, id: Id)
    requires DistinctIds(b)
    ensures |OfId(b, id)| <= 1
    ensures forall e: Entry :: e.id == id ==> (e in b <==> e in OfId(b, id))
    decreases |b|
  {
    if b != [] {
      var rest, last := b[..|b| - 1], b[|b| - 1];
      assert b == rest + [last];
      OnlyEntry(rest, id);
      if last.id == id { OfIdAbsent(rest, id); }
    }
  }

  /** A bucket that lists a matching entry twice: the id is pulled although nothing differs. */
  lemma RepeatedMatchIsPulled(e: Entry)
    ensures Repeated([e, e], e.id) && !Unmatched([e, e], [e], e.id) && !Outdated([e], [e, e], e.id)
  {
    assert [e, e] == [e] + [e];
    OfIdAppend([e], [e], e.id);
    assert OfId([e], e.id) == [e] by { assert [e][..0] == []; }
  }

  function Ids(b: seq<Entry>): seq<Id> { seq(|b|, i requires 0 <= i < |b| => b[i].id) }

  // ----- replies -----

  /** The hash a reply gives for a node: the last result for it counts. */
  function HashAt(reply: seq<RemoteNode>, depth: nat, index: nat): Option<Hash>
    decreases |reply|
  {
    if reply == [] then None
    else
      var n := reply[|reply| - 1];
      if n.depth == depth && n.index == index then Some(n.hash) else HashAt(reply[..|reply| - 1], depth, index)
  }

  /** The entries a reply gives for a leaf: the last result that carries entries counts. */
  function EntriesAt(reply: seq<RemoteNode>, depth: nat, index: nat): Option<seq<Entry>>
    decreases |reply|
  {
    if reply == [] then None
    else
      var n := reply[|reply| - 1];
      if n.depth == depth && n.index == index && n.entries.Some? then n.entries
      else EntriesAt(reply[..|reply| - 1], depth, index)
  }

  function Or(o: Option<Hash>, h: Hash): Hash { if o.Some? then o.value else h }

  /** Whatever a lookup returns comes from some result of the reply. */
  lemma {:induction false} LookupSound(reply: seq<RemoteNode>, depth: nat, index: nat)
    ensures HashAt(reply, depth, index).Some? ==>
              exists n :: n in reply && n.depth == depth && n.index == index && n.hash == HashAt(reply, depth, index).value
    ensures EntriesAt(reply, depth, index).Some? ==>
              exists n :: n in reply && n.depth == depth && n.index == index && n.entries == EntriesAt(reply, depth, index)
    ensures HashAt(reply, depth, index).None? ==> forall n :: n in reply ==> n.depth != depth || n.index != index
    ensures EntriesAt(reply, depth, index).None? ==>
              forall n :: n in reply ==> n.depth != depth || n.index != index || n.entries.None?
    decreases |reply|
  {
    if reply != [] {
      LookupSound(reply[..|reply| - 1], depth, index);
      assert reply == reply[..|reply| - 1] + [reply[|reply| - 1]];
    }
  }

  // ----- the serving side -----

  function AnswerRef(t: Tree, D: nat, r: NodeRef): seq<RemoteNode>
    requires |t.nodes| == Pow2(D + 1) && |t.buckets| == Pow2(D)
  {
    if !IsNode(D, r.depth, r.index) then []
    else [RemoteNode(r.depth, r.index, NodeAt(t, D, r.depth, r.index),
                     if r.depth == D then Some(t.buckets[r.index]) else None)]
  }

  /** `answer_refs`: invalid refs are skipped, leaf refs carry their bucket. */
  function AnswerRefs(t: Tree, D: nat, refs: seq<NodeRef>): seq<RemoteNode>
    requires |t.nodes| == Pow2(D + 1) && |t.buckets| == Pow2(D)
  {
    if refs == [] then [] else AnswerRef(t, D, refs[0]) + AnswerRefs(t, D, refs[1..])
  }

  lemma {:induction false} AnswerRefsExactly(t: Tree, D: nat, refs: seq<NodeRef>, n: RemoteNode)
    requires |t.nodes| == Pow2(D + 1) && |t.buckets| == Pow2(D)
    ensures n in AnswerRefs(t, D, refs) <==>
              NodeRef(n.depth, n.index) in refs && AnswerRef(t, D, NodeRef(n.depth, n.index)) == [n]
    decreases |refs|
  {
    if refs != [] {
      AnswerRefsExactly(t, D, refs[1..], n);
      assert refs == [refs[0]] + refs[1..];
    }
  }

  // ----- what one session decides, given the two replies -----

  /** The session's parameters: local tree, depth and split, and the hash of an empty leaf. */
  datatype Local = Local(tree: Tree, D: nat, S: nat, empty: Hash) {
    predicate Ok() {
      S <= D && |tree.nodes| == Pow2(D + 1) && |tree.buckets| == Pow2(D) && |tree.emptyHashes| == D + 1
    }

    function EmptySplit(): Hash
      requires Ok()
    {
      tree.emptyHashes[S]
    }

    function SplitHash(index: nat): Hash
      requires Ok() && index < Pow2(S)
    {
      Pow2Monotone(S, D);
      NodeAt(tree, D, S, index)
    }

    function LeafHash(k: nat): Hash
      requires Ok() && k < Pow2(D)
    {
      NodeAt(tree, D, D, k)
    }

    predicate Differs(top: seq<RemoteNode>, index: nat)
      requires Ok() && index < Pow2(S)
    {
      SplitHash(index) != Or(HashAt(top, S, index), EmptySplit())
    }

    /** The peer is taken to hold nothing under this subtree. */
    predicate PushesAll(top: seq<RemoteNode>, index: nat)
      requires Ok() && index < Pow2(S)
    {
      Differs(top, index) && Or(HashAt(top, S, index), EmptySplit()) == EmptySplit()
    }

    /** The subtree must be inspected leaf by leaf. */
    predicate Inspects(top: seq<RemoteNode>, index: nat)
      requires Ok() && index < Pow2(S)
    {
      Differs(top, index) && Or(HashAt(top, S, index), EmptySplit()) != EmptySplit()
    }

    predicate LeafDiffers(bottom: seq<RemoteNode>, k: nat)
      requires Ok() && k < Pow2(D)
    {
      LeafHash(k) != Or(HashAt(bottom, D, k), empty)
    }

    /** Ids that leaf `k` adds to the push list. */
    ghost predicate LeafPushes(bottom: seq<RemoteNode>, k: nat, id: Id)
      requires Ok() && k < Pow2(D)
    {
      LeafDiffers(bottom, k) &&
      match EntriesAt(bottom, D, k)
      case None => id in Ids(tree.buckets[k])
      case Some(es) => Outdated(tree.buckets[k], es, id)
    }

    /** Ids that leaf `k` adds to the pull list. */
    ghost predicate LeafPulls(bottom: seq<RemoteNode>, k: nat, id: Id)
      requires Ok() && k < Pow2(D)
    {
      LeafDiffers(bottom, k) && EntriesAt(bottom, D, k).Some?
      && var es := EntriesAt(bottom, D, k).value; Unmatched(es, tree.buckets[k], id) || Repeated(es, id)
    }
  }

  /** Leaf `k` belongs to one of the inspected subtrees. */
  ghost predicate InspectedLeaf(l: Local, divergent: seq<nat>, k: nat)
    requires l.Ok()
  {
    k < Pow2(l.D) && Ancestor(l.D, l.S, k) in divergent
  }

  /** What round one leaves behind. */
  ghost predicate Planned(l: Local, top: seq<RemoteNode>, upto: nat, divergent: seq<nat>, push: seq<Id>)
    requires l.Ok() && upto <= Pow2(l.S)
  {
    && (forall i :: i in divergent <==> 0 <= i < upto && l.Inspects(top, i))
    && (forall id :: id in push <==>
          exists i :: 0 <= i < upto && l.PushesAll(top, i) && id in CollectIds(l.tree, l.D, l.S, i))
  }

  /** The leaf refs requested in round two. */
  ghost predicate LeafRefs(l: Local, divergent: seq<nat>, refs: seq<NodeRef>)
    requires l.Ok()
  {
    forall r :: r in refs <==> r.depth == l.D && InspectedLeaf(l, divergent, r.index)
  }
}

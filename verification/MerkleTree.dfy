/**
 `MerkleTree`: the flat-array build that pre-fills empty subtrees and skips
 them, proved to hold the reference hash at every node, and its queries.
 */
module MerkleTrees {
  import opened Order
  import opened Registers
  import opened Memberships
  import opened Merkle

  /** The built tree: flat node vector, leaf buckets, empty-subtree hash per depth. */
  datatype Tree = Tree(nodes: seq<Hash>, buckets: seq<seq<Entry>>, emptyHashes: seq<Hash>)

  /** `flat_index`: the root lives at 1, level d at [2^d, 2^(d+1)). */
  function FlatIndex(depth: nat, index: nat): nat { Pow2(depth) + index }

  predicate IsNode(D: nat, depth: nat, index: nat) { depth <= D && index < Pow2(depth) }

  lemma {:induction false} Pow2Monotone(a: nat, b: nat)
    requires a <= b
    ensures Pow2(a) <= Pow2(b)
    decreases b - a
  {
    if a < b { Pow2Monotone(a + 1, b); }
  }

  lemma FlatIndexInRange(D: nat, depth: nat, index: nat)
    requires IsNode(D, depth, index)
    ensures 1 <= FlatIndex(depth, index) < Pow2(depth + 1) <= Pow2(D + 1)
  {
    Pow2Monotone(depth + 1, D + 1);
  }

  lemma FlatIndexInjective(D: nat, d: nat, i: nat, e: nat, j: nat)
    requires IsNode(D, d, i) && IsNode(D, e, j)
    requires FlatIndex(d, i) == FlatIndex(e, j)
    ensures d == e && i == j
  {
    if d < e { Pow2Monotone(d + 1, e); } else if e < d { Pow2Monotone(e + 1, d); }
  }

  /** Every flat index from 1 on is that of exactly one node. */
  lemma {:induction false} FlatIndexOnto(D: nat, f: nat) returns (d: nat, i: nat)
    requires 1 <= f < Pow2(D + 1)
    ensures IsNode(D, d, i) && FlatIndex(d, i) == f
  {
    if f >= Pow2(D) {
      d, i := D, f - Pow2(D);
    } else {
      d, i := FlatIndexOnto(D - 1, f);
    }
  }

  /** The tree holds the reference hash at every node, and the sorted buckets. */
  ghost predicate Represents(t: Tree, hs: Hasher, D: nat, lm: Leaves) {
    && |t.nodes| == Pow2(D + 1) && |t.buckets| == Pow2(D) && |t.emptyHashes| == D + 1
    && t.nodes[0] == hs.empty
    && (forall d: nat, i: nat {:trigger FlatIndex(d, i)} :: IsNode(D, d, i) ==>
          FlatIndex(d, i) < |t.nodes| && t.nodes[FlatIndex(d, i)] == NodeHash(hs, D, lm, d, i))
    && (forall k :: 0 <= k < Pow2(D) ==> t.buckets[k] == Bucket(hs, lm, k))
    && (forall d :: 0 <= d <= D ==> t.emptyHashes[d] == EmptyHash(hs, D, d))
  }

  /** Only one tree represents given leaves. */
  lemma RepresentsUnique(t: Tree, u: Tree, hs: Hasher, D: nat, lm: Leaves)
    requires Represents(t, hs, D, lm) && Represents(u, hs, D, lm)
    ensures t == u
  {
    forall f | 0 <= f < Pow2(D + 1) ensures t.nodes[f] == u.nodes[f] {
      if f > 0 {
        var d, i := FlatIndexOnto(D, f);
        assert t.nodes[FlatIndex(d, i)] == u.nodes[FlatIndex(d, i)];
      }
    }
  }

  // ----- queries -----

  function NodeAt(t: Tree, D: nat, depth: nat, index: nat): (h: Hash)
    requires IsNode(D, depth, index) && |t.nodes| == Pow2(D + 1)
  {
    FlatIndexInRange(D, depth, index);
    t.nodes[FlatIndex(depth, index)]
  }

  /** All node ids below `(depth, index)`. */
  function CollectIds(t: Tree, D: nat, depth: nat, index: nat): seq<Id>
    requires |t.buckets| == Pow2(D)
    decreases if depth > D then 0 else D - depth
  {
    if depth > D then []
    else if depth == D then
      if index < Pow2(D) then seq(|t.buckets[index]|, i requires 0 <= i < |t.buckets[index]| => t.buckets[index][i].id) else []
    else CollectIds(t, D, depth + 1, 2 * index) + CollectIds(t, D, depth + 1, 2 * index + 1)
  }

  ghost predicate HasBuckets(t: Tree, hs: Hasher, D: nat, lm: Leaves) {
    |t.buckets| == Pow2(D) && forall k :: 0 <= k < Pow2(D) ==> t.buckets[k] == Bucket(hs, lm, k)
  }

  lemma LeafIds(t: Tree, hs: Hasher, D: nat, lm: Leaves, k: nat, id: Id)
    requires HasBuckets(t, hs, D, lm) && k < Pow2(D)
    ensures id in CollectIds(t, D, D, k) <==> id in lm && hs.bucket(id) == k
  {
    var b := Bucket(hs, lm, k);
    if id in lm && hs.bucket(id) == k {
      BucketMembers(hs, lm, id);
      var i :| 0 <= i < |b| && b[i] == Entry(id, lm[id]);
      assert CollectIds(t, D, D, k)[i] == id;
    }
  }

  /** The collected ids are exactly the members whose bucket lies under the node. */
  lemma {:induction false} CollectIdsExactly(t: Tree, hs: Hasher, D: nat, lm: Leaves, depth: nat, index: nat, id: Id)
    requires HasBuckets(t, hs, D, lm) && IsNode(D, depth, index)
    ensures id in CollectIds(t, D, depth, index) <==> id in lm && Under(D, depth, index, hs.bucket(id))
    decreases D - depth
  {
    if depth == D {
      LeafIds(t, hs, D, lm, index, id);
    } else {
      var l, r := CollectIds(t, D, depth + 1, 2 * index), CollectIds(t, D, depth + 1, 2 * index + 1);
      CollectIdsExactly(t, hs, D, lm, depth + 1, 2 * index, id);
      CollectIdsExactly(t, hs, D, lm, depth + 1, 2 * index + 1, id);
      assert CollectIds(t, D, depth, index) == l + r;
      UnderChildren(D, depth, index, hs.bucket(id));
    }
  }

  // ----- the build -----

  /** The canonical hash of an empty subtree per depth: computed bottom-up, then reversed. */
  method BuildEmptyHashes(hs: Hasher, D: nat) returns (e: seq<Hash>)
    ensures |e| == D + 1 && forall d :: 0 <= d <= D ==> e[d] == EmptyHash(hs, D, d)
  {
    var current := hs.empty;
    e := [current];
    for k := 0 to D
      invariant |e| == k + 1 && current == EmptyHash(hs, D, D - k)
      invariant forall j :: 0 <= j <= k ==> e[j] == EmptyHash(hs, D, D - k + j)
    {
      current := hs.inner(current, current);
      e := [current] + e;
    }
  }

  /** Node `(d, i)` of the vector. */
  ghost predicate Holds(nodes: seq<Hash>, d: nat, i: nat, h: Hash) {
    FlatIndex(d, i) < |nodes| && nodes[FlatIndex(d, i)] == h
  }

  /** Write one node; no other node is affected. */
  method SetNode(nodes: array<Hash>, D: nat, depth: nat, index: nat, h: Hash)
    requires nodes.Length == Pow2(D + 1) && IsNode(D, depth, index)
    modifies nodes
    ensures Holds(nodes[..], depth, index, h)
    ensures forall d: nat, i: nat {:trigger FlatIndex(d, i)} :: IsNode(D, d, i) && (d != depth || i != index) ==>
              FlatIndex(d, i) < nodes.Length && nodes[FlatIndex(d, i)] == old(nodes[FlatIndex(d, i)])
    ensures nodes[0] == old(nodes[0])
  {
    FlatIndexInRange(D, depth, index);
    nodes[FlatIndex(depth, index)] := h;
    forall d: nat, i: nat | IsNode(D, d, i) && (d != depth || i != index)
      ensures FlatIndex(d, i) < nodes.Length && nodes[FlatIndex(d, i)] == old(nodes[FlatIndex(d, i)])
    {
      FlatIndexInRange(D, d, i);
      if FlatIndex(d, i) == FlatIndex(depth, index) { FlatIndexInjective(D, d, i, depth, index); }
    }
  }

  /** All inner levels hold the empty-subtree hash and the leaves the empty hash. */
  method PrefillEmpty(nodes: array<Hash>, D: nat, hs: Hasher, e: seq<Hash>)
    requires nodes.Length == Pow2(D + 1) && forall f :: 0 <= f < nodes.Length ==> nodes[f] == hs.empty
    requires |e| == D + 1 && forall d :: 0 <= d <= D ==> e[d] == EmptyHash(hs, D, d)
    modifies nodes
    ensures nodes[0] == hs.empty
    ensures forall d: nat, i: nat :: IsNode(D, d, i) ==> Holds(nodes[..], d, i, EmptyHash(hs, D, d))
  {
    forall i: nat | IsNode(D, D, i) ensures Holds(nodes[..], D, i, EmptyHash(hs, D, D)) {
      FlatIndexInRange(D, D, i);
    }
    for depth := 0 to D
      invariant nodes[0] == hs.empty
      invariant forall d: nat, i: nat :: IsNode(D, d, i) && (d < depth || d == D) ==> Holds(nodes[..], d, i, EmptyHash(hs, D, d))
    {
      for index := 0 to Pow2(depth)
        invariant nodes[0] == hs.empty
        invariant forall d: nat, i: nat :: IsNode(D, d, i) && (d < depth || d == D || (d == depth && i < index)) ==>
                    Holds(nodes[..], d, i, EmptyHash(hs, D, d))
      {
        SetNode(nodes, D, depth, index, e[depth]);
      }
    }
  }

  /** Hash bottom-up, skipping every node whose children are both empty. */
  method HashInner(nodes: array<Hash>, D: nat, hs: Hasher, e: seq<Hash>, ghost lm: Leaves)
    requires nodes.Length == Pow2(D + 1)
    requires |e| == D + 1 && forall d :: 0 <= d <= D ==> e[d] == EmptyHash(hs, D, d)
    requires forall i: nat :: IsNode(D, D, i) ==> Holds(nodes[..], D, i, NodeHash(hs, D, lm, D, i))
    requires forall d: nat, i: nat :: IsNode(D, d, i) && d < D ==> Holds(nodes[..], d, i, EmptyHash(hs, D, d))
    modifies nodes
    ensures nodes[0] == old(nodes[0])
    ensures forall d: nat, i: nat :: IsNode(D, d, i) ==> Holds(nodes[..], d, i, NodeHash(hs, D, lm, d, i))
  {
    for depth := D downto 0
      invariant nodes[0] == old(nodes[0])
      invariant forall d: nat, i: nat :: IsNode(D, d, i) && d >= depth ==> Holds(nodes[..], d, i, NodeHash(hs, D, lm, d, i))
      invariant forall d: nat, i: nat :: IsNode(D, d, i) && d < depth ==> Holds(nodes[..], d, i, EmptyHash(hs, D, d))
    {
      for i := 0 to Pow2(depth)
        invariant nodes[0] == old(nodes[0])
        invariant forall d: nat, j: nat :: IsNode(D, d, j) && (d > depth || (d == depth && j < i)) ==>
                    Holds(nodes[..], d, j, NodeHash(hs, D, lm, d, j))
        invariant forall d: nat, j: nat :: IsNode(D, d, j) && (d < depth || (d == depth && j >= i)) ==>
                    Holds(nodes[..], d, j, EmptyHash(hs, D, d))
      {
        HashOne(nodes, D, hs, e, lm, depth, i);
      }
    }
  }

  method HashOne(nodes: array<Hash>, D: nat, hs: Hasher, e: seq<Hash>, ghost lm: Leaves, depth: nat, i: nat)
    requires nodes.Length == Pow2(D + 1) && depth < D && IsNode(D, depth, i)
    requires |e| == D + 1 && forall d :: 0 <= d <= D ==> e[d] == EmptyHash(hs, D, d)
    requires Holds(nodes[..], depth, i, EmptyHash(hs, D, depth))
    requires Holds(nodes[..], depth + 1, 2 * i, NodeHash(hs, D, lm, depth + 1, 2 * i))
    requires Holds(nodes[..], depth + 1, 2 * i + 1, NodeHash(hs, D, lm, depth + 1, 2 * i + 1))
    modifies nodes
    ensures nodes[0] == old(nodes[0])
    ensures Holds(nodes[..], depth, i, NodeHash(hs, D, lm, depth, i))
    ensures forall d: nat, j: nat {:trigger FlatIndex(d, j)} :: IsNode(D, d, j) && (d != depth || j != i) ==>
              FlatIndex(d, j) < nodes.Length && nodes[FlatIndex(d, j)] == old(nodes[FlatIndex(d, j)])
  {
    var left, right := nodes[FlatIndex(depth + 1, 2 * i)], nodes[FlatIndex(depth + 1, 2 * i + 1)];
    if left == e[depth + 1] && right == e[depth + 1] {
      forall d: nat, j: nat | IsNode(D, d, j) ensures FlatIndex(d, j) < nodes.Length { FlatIndexInRange(D, d, j); }
      return;
    }
    SetNode(nodes, D, depth, i, hs.inner(left, right));
  }

  // ----- leaf buckets -----

  predicate SortedById(b: seq<Entry>) {
    forall i, j :: 0 <= i < j < |b| ==> StrLe(b[i].id, b[j].id)
  }

  predicate DistinctIds(b: seq<Entry>) {
    forall i, j :: 0 <= i < j < |b| ==> b[i].id != b[j].id
  }

  /** The entries carrying `id`, in order. */
  function OfId(b: seq<Entry>, id: Id): seq<Entry>
    decreases |b|
  {
    if b == [] then []
    else OfId(b[..|b| - 1], id) + if b[|b| - 1].id == id then [b[|b| - 1]] else []
  }

  lemma {:induction false} OfIdAppend(a: seq<Entry>, b: seq<Entry>, id: Id)
    ensures OfId(a + b, id) == OfId(a, id) + OfId(b, id)
    decreases |b|
  {
    if b == [] {
      assert a + b == a;
    } else {
      OfIdAppend(a, b[..|b| - 1], id);
      assert (a + b)[..|a + b| - 1] == a + b[..|b| - 1];
    }
  }

  lemma OfIdAround(a: seq<Entry>, x: Entry, b: seq<Entry>, id: Id)
    ensures OfId(a + [x] + b, id) == OfId(a, id) + (if x.id == id then [x] else []) + OfId(b, id)
  {
    OfIdAppend(a + [x], b, id);
    assert (a + [x])[..|a|] == a;
  }

  lemma {:induction false} OfIdAbsent(b: seq<Entry>, id: Id)
    requires forall k :: 0 <= k < |b| ==> b[k].id != id
    ensures OfId(b, id) == []
    decreases |b|
  {
    if b != [] { OfIdAbsent(b[..|b| - 1], id); }
  }

  /** `r` is `b` sorted by node id, entries with one id in their old order. */
  ghost predicate SortsTo(b: seq<Entry>, r: seq<Entry>) {
    && SortedById(r) && multiset(r) == multiset(b)
    && (forall e :: e in r <==> e in b)
    && (DistinctIds(b) ==> DistinctIds(r))
    && (forall id :: OfId(r, id) == OfId(b, id))
  }

  /** `sort_by` on the node id: a stable sort. */
  method SortEntries(b: seq<Entry>) returns (r: seq<Entry>)
    ensures SortsTo(b, r)
  {
    r := [];
    for k := 0 to |b|
      invariant SortsTo(b[..k], r)
    {
      var r' := InsertEntry(r, b[k]);
      assert b[..k + 1] == b[..k] + [b[k]];
      InsertSorts(b[..k], b[k], r, r');
      r := r';
    }
    assert b[..|b|] == b;
  }

  lemma InsertSorts(b: seq<Entry>, x: Entry, r: seq<Entry>, r': seq<Entry>)
    requires SortsTo(b, r) && SortedById(r') && multiset(r') == multiset(r) + multiset{x}
    requires forall e :: e in r' <==> e in r || e == x
    requires DistinctIds(r) && (forall e :: e in r ==> e.id != x.id) ==> DistinctIds(r')
    requires forall id :: OfId(r', id) == OfId(r, id) + if id == x.id then [x] else []
    ensures SortsTo(b + [x], r')
  {
    assert (b + [x])[..|b|] == b;
    if DistinctIds(b + [x]) { DistinctInit(b, x); }
  }

  lemma DistinctInit(b: seq<Entry>, x: Entry)
    requires DistinctIds(b + [x])
    ensures DistinctIds(b) && forall e :: e in b ==> e.id != x.id
  {
    var c := b + [x];
    assert forall i :: 0 <= i < |b| ==> c[i] == b[i];
    forall e | e in b ensures e.id != x.id {
      var i :| 0 <= i < |b| && b[i] == e;
      assert c[i].id != c[|b|].id;
    }
  }

  method InsertEntry(s: seq<Entry>, x: Entry) returns (r: seq<Entry>)
    requires SortedById(s)
    ensures SortedById(r) && multiset(r) == multiset(s) + multiset{x}
    ensures forall e :: e in r <==> e in s || e == x
    ensures DistinctIds(s) && (forall e :: e in s ==> e.id != x.id) ==> DistinctIds(r)
    ensures forall id :: OfId(r, id) == OfId(s, id) + if id == x.id then [x] else []
  {
    var i := 0;
    while i < |s| && StrLe(s[i].id, x.id)
      invariant 0 <= i <= |s|
      invariant forall k :: 0 <= k < i ==> StrLe(s[k].id, x.id)
    {
      i := i + 1;
    }
    forall k | i <= k < |s| ensures StrLt(x.id, s[k].id) {
      LexTotal(CharLe, x.id, s[i].id);
      if k > i { StrLtThenLe(x.id, s[i].id, s[k].id); }
    }
    r := s[..i] + [x] + s[i..];
    InsertedEntry(s, x, i);
    forall id ensures OfId(r, id) == OfId(s, id) + if id == x.id then [x] else [] { InsertedStable(s, x, i, id); }
  }

  lemma InsertedStable(s: seq<Entry>, x: Entry, i: nat, id: Id)
    requires i <= |s| && forall k :: i <= k < |s| ==> x.id != s[k].id
    ensures OfId(s[..i] + [x] + s[i..], id) == OfId(s, id) + if id == x.id then [x] else []
  {
    OfIdAround(s[..i], x, s[i..], id);
    OfIdAppend(s[..i], s[i..], id);
    assert s[..i] + s[i..] == s;
    if id == x.id { OfIdAbsent(s[i..], id); }
  }

  lemma InsertedEntry(s: seq<Entry>, x: Entry, i: nat)
    requires SortedById(s) && i <= |s|
    requires forall k :: 0 <= k < i ==> StrLe(s[k].id, x.id)
    requires forall k :: i <= k < |s| ==> StrLe(x.id, s[k].id)
    ensures var r := s[..i] + [x] + s[i..];
      && SortedById(r) && multiset(r) == multiset(s) + multiset{x}
      && (forall e :: e in r <==> e in s || e == x)
      && (DistinctIds(s) && (forall e :: e in s ==> e.id != x.id) ==> DistinctIds(r))
  {
    InsertedSorted(s, x, i);
    InsertedDistinct(s, x, i);
    assert s == s[..i] + s[i..];
  }

  lemma InsertedSorted(s: seq<Entry>, x: Entry, i: nat)
    requires SortedById(s) && i <= |s|
    requires forall k :: 0 <= k < i ==> StrLe(s[k].id, x.id)
    requires forall k :: i <= k < |s| ==> StrLe(x.id, s[k].id)
    ensures SortedById(s[..i] + [x] + s[i..])
  {
    var r := s[..i] + [x] + s[i..];
    assert forall k :: 0 <= k < |r| ==> r[k] == if k < i then s[k] else if k == i then x else s[k - 1];
  }

  lemma InsertedDistinct(s: seq<Entry>, x: Entry, i: nat)
    requires i <= |s|
    ensures DistinctIds(s) && (forall e :: e in s ==> e.id != x.id) ==> DistinctIds(s[..i] + [x] + s[i..])
  {
    var r := s[..i] + [x] + s[i..];
    assert forall k :: 0 <= k < |r| ==> r[k] == if k < i then s[k] else if k == i then x else s[k - 1];
    assert forall k :: 0 <= k < |s| ==> s[k] in s;
  }

  /** `b` holds, in any order, the entries of bucket `k` whose id is in `ids`. */
  ghost predicate HoldsEntries(b: seq<Entry>, hs: Hasher, lm: Leaves, ids: set<Id>, k: nat) {
    && DistinctIds(b)
    && forall e :: e in b <==> e.id in ids && e.id in lm && hs.bucket(e.id) == k && e.hash == lm[e.id]
  }

  /** The sorted entries of a bucket are unique. */
  lemma SortedIsBucket(b: seq<Entry>, hs: Hasher, lm: Leaves, k: nat)
    requires SortedById(b) && HoldsEntries(b, hs, lm, lm.Keys, k)
    ensures b == Bucket(hs, lm, k)
  {
    var ids := seq(|b|, i requires 0 <= i < |b| => b[i].id);
    assert StrictlySorted(ids);
    assert forall i :: 0 <= i < |ids| ==> b[i] in b && ids[i] in IdsIn(hs, lm, k);
    forall id ensures id in Elems(ids) <==> id in IdsIn(hs, lm, k) {
      if id in IdsIn(hs, lm, k) {
        assert Entry(id, lm[id]) in b;
        var i :| 0 <= i < |b| && b[i] == Entry(id, lm[id]);
        assert ids[i] == id;
      }
    }
    SortedUnique(ids, SortedSeq(IdsIn(hs, lm, k)));
    assert forall i :: 0 <= i < |b| ==> b[i] in b && b[i] == Bucket(hs, lm, k)[i];
  }

  /** Distribute the registers over the buckets, in whatever order the map yields them. */
  method FillBuckets(hs: Hasher, D: nat, members: Members) returns (buckets: seq<seq<Entry>>)
    requires Keyed(members) && BucketsFit(hs, D)
    ensures |buckets| == Pow2(D)
    ensures forall k :: 0 <= k < Pow2(D) ==> HoldsEntries(buckets[k], hs, LeavesOf(hs, members), members.Keys, k)
  {
    ghost var lm := LeavesOf(hs, members);
    buckets := seq(Pow2(D), _ => []);
    var todo := members.Keys;
    ghost var done: set<Id> := {};
    while todo != {}
      invariant |buckets| == Pow2(D) && todo + done == members.Keys && todo !! done
      invariant forall k :: 0 <= k < Pow2(D) ==> HoldsEntries(buckets[k], hs, lm, done, k)
      decreases todo
    {
      var id :| id in todo;
      var register := members[id];
      var k := hs.bucket(register.id);
      var e := Entry(register.id, RegisterHash(hs, register));
      PushOne(buckets, hs, lm, done, e);
      buckets := buckets[k := buckets[k] + [e]];
      todo, done := todo - {id}, done + {id};
    }
  }

  lemma PushOne(buckets: seq<seq<Entry>>, hs: Hasher, lm: Leaves, done: set<Id>, e: Entry)
    requires forall k :: 0 <= k < |buckets| ==> HoldsEntries(buckets[k], hs, lm, done, k)
    requires e.id !in done && e.id in lm && e.hash == lm[e.id] && hs.bucket(e.id) < |buckets|
    ensures var k := hs.bucket(e.id); var after := buckets[k := buckets[k] + [e]];
      forall j :: 0 <= j < |buckets| ==> HoldsEntries(after[j], hs, lm, done + {e.id}, j)
  {
    var k := hs.bucket(e.id);
    var after := buckets[k := buckets[k] + [e]];
    forall j | 0 <= j < |buckets| ensures HoldsEntries(after[j], hs, lm, done + {e.id}, j) {
      if j == k { PushEntry(buckets[k], hs, lm, done, k, e); } else { SkipEntry(buckets[j], hs, lm, done, j, e.id); }
    }
  }

  lemma PushEntry(b: seq<Entry>, hs: Hasher, lm: Leaves, ids: set<Id>, k: nat, e: Entry)
    requires HoldsEntries(b, hs, lm, ids, k)
    requires e.id !in ids && e.id in lm && hs.bucket(e.id) == k && e.hash == lm[e.id]
    ensures HoldsEntries(b + [e], hs, lm, ids + {e.id}, k)
  {
    assert forall i :: 0 <= i < |b| ==> b[i] in b;
  }

  lemma SkipEntry(b: seq<Entry>, hs: Hasher, lm: Leaves, ids: set<Id>, k: nat, id: Id)
    requires HoldsEntries(b, hs, lm, ids, k) && hs.bucket(id) != k
    ensures HoldsEntries(b, hs, lm, ids + {id}, k)
  {
  }

  /**
   The flat-array build. The tree it returns holds the reference hash of every
   node, for any hash functions.
   */
  method FromMembership(hs: Hasher, D: nat, members: Members) returns (t: Tree)
    requires Keyed(members) && BucketsFit(hs, D)
    ensures Represents(t, hs, D, LeavesOf(hs, members))
  {
    ghost var lm := LeavesOf(hs, members);
    var e := BuildEmptyHashes(hs, D);
    var nodes := new Hash[Pow2(D + 1)](_ => hs.empty);
    PrefillEmpty(nodes, D, hs, e);
    var unsorted := FillBuckets(hs, D, members);
    var buckets := HashLeaves(nodes, D, hs, unsorted, lm);
    HashInner(nodes, D, hs, e, lm);
    t := Tree(nodes[..], buckets, e);
    forall d: nat, i: nat | IsNode(D, d, i)
      ensures FlatIndex(d, i) < |t.nodes| && t.nodes[FlatIndex(d, i)] == NodeHash(hs, D, lm, d, i)
    {
      assert Holds(nodes[..], d, i, NodeHash(hs, D, lm, d, i));
    }
  }

  /** Sort the non-empty buckets and hash them into the leaf level; empty leaves keep the pre-filled hash. */
  method HashLeaves(nodes: array<Hash>, D: nat, hs: Hasher, unsorted: seq<seq<Entry>>, ghost lm: Leaves)
    returns (buckets: seq<seq<Entry>>)
    requires nodes.Length == Pow2(D + 1) && |unsorted| == Pow2(D)
    requires forall k :: 0 <= k < Pow2(D) ==> HoldsEntries(unsorted[k], hs, lm, lm.Keys, k)
    requires forall d: nat, i: nat :: IsNode(D, d, i) ==> Holds(nodes[..], d, i, EmptyHash(hs, D, d))
    modifies nodes
    ensures nodes[0] == old(nodes[0])
    ensures |buckets| == Pow2(D) && forall k :: 0 <= k < Pow2(D) ==> buckets[k] == Bucket(hs, lm, k)
    ensures forall i: nat :: IsNode(D, D, i) ==> Holds(nodes[..], D, i, NodeHash(hs, D, lm, D, i))
    ensures forall d: nat, i: nat :: IsNode(D, d, i) && d < D ==> Holds(nodes[..], d, i, EmptyHash(hs, D, d))
  {
    buckets := unsorted;
    for k := 0 to Pow2(D)
      invariant nodes[0] == old(nodes[0]) && |buckets| == Pow2(D)
      invariant forall j :: 0 <= j < k ==> buckets[j] == Bucket(hs, lm, j)
      invariant forall j :: k <= j < Pow2(D) ==> buckets[j] == unsorted[j]
      invariant forall i: nat :: IsNode(D, D, i) && i < k ==> Holds(nodes[..], D, i, NodeHash(hs, D, lm, D, i))
      invariant forall i: nat :: IsNode(D, D, i) && i >= k ==> Holds(nodes[..], D, i, EmptyHash(hs, D, D))
      invariant forall d: nat, i: nat :: IsNode(D, d, i) && d < D ==> Holds(nodes[..], d, i, EmptyHash(hs, D, d))
    {
      if buckets[k] == [] {
        SortedIsBucket([], hs, lm, k);
      } else {
        var sorted := SortEntries(buckets[k]);
        SortedIsBucket(sorted, hs, lm, k);
        assert buckets[k][0] in sorted;
        buckets := buckets[k := sorted];
        SetNode(nodes, D, D, k, hs.leaf(sorted));
      }
    }
  }
}

/**
 The fixed-depth Merkle tree over the membership, for any depth D: the byte
 stream a register hashes to, the plain recursive tree as reference, and what
 equal hashes mean.

 Nothing is assumed about the hash functions except where `Ideal` is required.
 */
module Merkle {
  import opened Order
  import opened Registers
  import opened Memberships

  const MERKLE_TREE_DEPTH: nat := 16

  function Pow2(n: nat): (r: nat)
    ensures r >= 1
  {
    if n == 0 then 1 else 2 * Pow2(n - 1)
  }

  /** Digests; the constructors double as an ideal (collision-free) hash. */
  datatype Hash =
    | EmptyDigest
    | LeafDigest(entries: seq<Entry>)
    | InnerDigest(left: Hash, right: Hash)
    | RegisterDigest(stream: string)

  datatype Entry = Entry(id: Id, hash: Hash)

  /** The hash functions the tree is built with; `bucket` gives the leaf index of a node id. */
  datatype Hasher = Hasher(
    empty: Hash,
    leaf: seq<Entry> -> Hash,
    inner: (Hash, Hash) -> Hash,
    digest: string -> Hash,
    bucket: Id -> nat
  )

  /** Leaf, inner and empty hashes are injective and mutually disjoint. */
  ghost predicate Ideal(hs: Hasher) {
    && (forall a, b :: hs.leaf(a) == hs.leaf(b) ==> a == b)
    && (forall a, b, c, d :: hs.inner(a, b) == hs.inner(c, d) ==> a == c && b == d)
    && (forall a :: hs.leaf(a) != hs.empty)
    && (forall a, b :: hs.inner(a, b) != hs.empty)
  }

  /** The digest constructors form an ideal hasher, so `Ideal` can be met. */
  lemma DigestsAreIdeal(bucket: Id -> nat)
    ensures Ideal(Hasher(EmptyDigest, es => LeafDigest(es), (l, r) => InnerDigest(l, r), s => RegisterDigest(s), bucket))
  {
  }

  ghost predicate BucketsFit(hs: Hasher, D: nat) {
    forall id :: hs.bucket(id) < Pow2(D)
  }

  // ----- the register hash -----

  function Byte(x: int): char
    requires 0 <= x < 256
  {
    x as char
  }

  /** `u64::to_be_bytes`. */
  function BigEndian(x: int, n: nat): (s: string)
    requires x >= 0
    ensures |s| == n
  {
    if n == 0 then "" else BigEndian(x / 256, n - 1) + [Byte(x % 256)]
  }

  function EntryLines(s: seq<Pair>): string
  {
    if s == [] then "" else s[0].0 + "=" + s[0].1 + "\n" + EntryLines(s[1..])
  }

  /** The byte stream `hash_register` feeds to the digest: heartbeat and timestamp are left out. */
  function RegisterStream(r: Register): string {
    "L" + r.id + "\0" + r.address + "\0" + [Byte(r.state.Rank())] + BigEndian(r.incarnation, 8)
    + EntryLines(Entries(r.labels)) + EntryLines(Entries(r.annotations))
  }

  function RegisterHash(hs: Hasher, r: Register): Hash { hs.digest(RegisterStream(r)) }

  lemma VolatileFieldsUnhashed(hs: Hasher, r: Register, heartbeat: U64, updatedAt: I64)
    ensures RegisterHash(hs, r.(heartbeat := heartbeat, updatedAt := updatedAt)) == RegisterHash(hs, r)
  {
  }

  /**
   The stream does not separate labels from annotations: moving a whole label
   map to the annotations leaves the hash unchanged under every digest, so
   anti-entropy cannot see that difference.
   */
  lemma LabelsAndAnnotationsCollide(hs: Hasher, r: Register, m: StrMap)
    ensures RegisterHash(hs, r.(labels := m, annotations := map[]))
         == RegisterHash(hs, r.(labels := map[], annotations := m))
  {
    var none: StrMap := map[];
    assert |Entries(none)| == |SortedSeq(none.Keys)| == 0;
    var head := "L" + r.id + "\0" + r.address + "\0" + [Byte(r.state.Rank())] + BigEndian(r.incarnation, 8);
    var lines := EntryLines(Entries(m));
    assert head + lines + "" == head + "" + lines;
  }

  // ----- the reference tree -----

  /** What the tree is over: each node id with its register hash. */
  type Leaves = map<Id, Hash>

  function LeavesOf(hs: Hasher, m: Members): Leaves { map id | id in m :: RegisterHash(hs, m[id]) }

  function IdsIn(hs: Hasher, lm: Leaves, k: nat): set<Id> { set id | id in lm && hs.bucket(id) == k }

  /** The entries of leaf bucket `k`, sorted by node id. */
  function Bucket(hs: Hasher, lm: Leaves, k: nat): (b: seq<Entry>)
    ensures |b| == |SortedSeq(IdsIn(hs, lm, k))|
    ensures forall i :: 0 <= i < |b| ==>
      b[i].id == SortedSeq(IdsIn(hs, lm, k))[i] && b[i].id in lm && hs.bucket(b[i].id) == k && b[i].hash == lm[b[i].id]
  {
    var ids := SortedSeq(IdsIn(hs, lm, k));
    assert forall i :: 0 <= i < |ids| ==> ids[i] in Elems(ids);
    seq(|ids|, i requires 0 <= i < |ids| => Entry(ids[i], lm[ids[i]]))
  }

  function BucketHash(hs: Hasher, b: seq<Entry>): Hash {
    if b == [] then hs.empty else hs.leaf(b)
  }

  /** The hash of node `(depth, index)`, every node hashed. */
  function NodeHash(hs: Hasher, D: nat, lm: Leaves, depth: nat, index: nat): Hash
    requires depth <= D
    decreases D - depth
  {
    if depth == D then BucketHash(hs, Bucket(hs, lm, index))
    else hs.inner(NodeHash(hs, D, lm, depth + 1, 2 * index), NodeHash(hs, D, lm, depth + 1, 2 * index + 1))
  }

  /** The hash of an empty subtree rooted at `depth`. */
  function EmptyHash(hs: Hasher, D: nat, depth: nat): Hash
    requires depth <= D
    decreases D - depth
  {
    if depth == D then hs.empty
    else hs.inner(EmptyHash(hs, D, depth + 1), EmptyHash(hs, D, depth + 1))
  }

  /** The index of the node at `depth` above leaf `k`. */
  function Ancestor(D: nat, depth: nat, k: nat): nat
    requires depth <= D
    decreases D - depth
  {
    if depth == D then k else Ancestor(D, depth + 1, k) / 2
  }

  /** Leaf `k` lies under node `(depth, index)`. */
  predicate Under(D: nat, depth: nat, index: nat, k: nat)
    requires depth <= D
  {
    Ancestor(D, depth, k) == index
  }

  lemma UnderChildren(D: nat, depth: nat, index: nat, k: nat)
    requires depth < D
    ensures Under(D, depth, index, k) <==>
              Under(D, depth + 1, 2 * index, k) || Under(D, depth + 1, 2 * index + 1, k)
  {
  }

  lemma {:induction false} AncestorInRange(D: nat, depth: nat, k: nat)
    requires depth <= D && k < Pow2(D)
    ensures Ancestor(D, depth, k) < Pow2(depth)
    decreases D - depth
  {
    if depth < D { AncestorInRange(D, depth + 1, k); }
  }

  /** The leaves under a node are the shifted index with any low bits. */
  lemma {:induction false} AncestorOfShifted(D: nat, depth: nat, index: nat, k: nat)
    requires depth <= D
    ensures Under(D, depth, index, k) <==> index * Pow2(D - depth) <= k < (index + 1) * Pow2(D - depth)
    decreases D - depth
  {
    if depth < D {
      UnderChildren(D, depth, index, k);
      AncestorOfShifted(D, depth + 1, 2 * index, k);
      AncestorOfShifted(D, depth + 1, 2 * index + 1, k);
      Halves(index, Pow2(D - depth - 1), k);
    }
  }

  lemma Halves(i: nat, p: nat, k: nat)
    ensures i * (2 * p) <= k < (i + 1) * (2 * p) <==>
              (2 * i) * p <= k < (2 * i + 1) * p || (2 * i + 1) * p <= k < (2 * i + 1 + 1) * p
  {
    var a := i * p;
    assert i * (2 * p) == 2 * a && (2 * i) * p == 2 * a;
    assert (2 * i + 1) * p == 2 * a + p && (2 * i + 1 + 1) * p == 2 * a + 2 * p && (i + 1) * (2 * p) == 2 * a + 2 * p;
  }

  /** The leaves below two nodes hold the same entries. */
  ghost predicate SameBelow(hs: Hasher, D: nat, a: Leaves, b: Leaves, depth: nat, index: nat)
    requires depth <= D
  {
    forall k :: Under(D, depth, index, k) ==> Bucket(hs, a, k) == Bucket(hs, b, k)
  }

  lemma SameBelowChildren(hs: Hasher, D: nat, a: Leaves, b: Leaves, depth: nat, index: nat)
    requires depth < D
    ensures SameBelow(hs, D, a, b, depth, index) <==>
              SameBelow(hs, D, a, b, depth + 1, 2 * index) && SameBelow(hs, D, a, b, depth + 1, 2 * index + 1)
  {
    forall k: nat
      ensures Under(D, depth, index, k) <==>
                Under(D, depth + 1, 2 * index, k) || Under(D, depth + 1, 2 * index + 1, k)
    {
      UnderChildren(D, depth, index, k);
    }
  }

  /** Under an ideal hash, equal node hashes mean equal leaf buckets below, and conversely. */
  lemma {:induction false} EqualHashesExactly(hs: Hasher, D: nat, a: Leaves, b: Leaves, depth: nat, index: nat)
    requires Ideal(hs) && depth <= D
    ensures NodeHash(hs, D, a, depth, index) == NodeHash(hs, D, b, depth, index)
        <==> SameBelow(hs, D, a, b, depth, index)
    decreases D - depth
  {
    if depth == D {
      assert forall k: nat :: Under(D, D, index, k) <==> k == index;
    } else {
      EqualHashesExactly(hs, D, a, b, depth + 1, 2 * index);
      EqualHashesExactly(hs, D, a, b, depth + 1, 2 * index + 1);
      SameBelowChildren(hs, D, a, b, depth, index);
    }
  }

  lemma BucketMembers(hs: Hasher, lm: Leaves, id: Id)
    ensures id in lm <==> exists e :: e in Bucket(hs, lm, hs.bucket(id)) && e.id == id
    ensures id in lm ==> Entry(id, lm[id]) in Bucket(hs, lm, hs.bucket(id))
  {
    var k := hs.bucket(id);
    var ids, b := SortedSeq(IdsIn(hs, lm, k)), Bucket(hs, lm, k);
    if id in lm {
      assert id in Elems(ids);
      var i :| 0 <= i < |ids| && ids[i] == id;
      assert b[i] == Entry(id, lm[id]);
    }
  }

  lemma SameBucketSameEntry(hs: Hasher, a: Leaves, b: Leaves, id: Id)
    requires Bucket(hs, a, hs.bucket(id)) == Bucket(hs, b, hs.bucket(id))
    ensures id in a <==> id in b
    ensures id in a ==> a[id] == b[id]
  {
    BucketMembers(hs, a, id);
    BucketMembers(hs, b, id);
  }

  /** Equal roots mean equal maps from node id to register hash. */
  lemma EqualRootsExactly(hs: Hasher, D: nat, a: Leaves, b: Leaves)
    requires Ideal(hs) && BucketsFit(hs, D)
    ensures NodeHash(hs, D, a, 0, 0) == NodeHash(hs, D, b, 0, 0) <==> a == b
  {
    EqualHashesExactly(hs, D, a, b, 0, 0);
    if SameBelow(hs, D, a, b, 0, 0) {
      forall id
        ensures id in a <==> id in b
        ensures id in a && id in b ==> a[id] == b[id]
      {
        AncestorInRange(D, 0, hs.bucket(id));
        SameBucketSameEntry(hs, a, b, id);
      }
      assert a.Keys == b.Keys;
    }
  }

  /** The empty-subtree hash is the hash of a subtree without entries. */
  lemma {:induction false} EmptyHashIsEmptySubtree(hs: Hasher, D: nat, depth: nat, index: nat)
    requires depth <= D
    ensures EmptyHash(hs, D, depth) == NodeHash(hs, D, map[], depth, index)
    decreases D - depth
  {
    if depth == D {
      var none: Leaves := map[];
      assert IdsIn(hs, none, index) == {};
      assert |Bucket(hs, none, index)| == 0;
    } else {
      EmptyHashIsEmptySubtree(hs, D, depth + 1, 2 * index);
      EmptyHashIsEmptySubtree(hs, D, depth + 1, 2 * index + 1);
    }
  }
}

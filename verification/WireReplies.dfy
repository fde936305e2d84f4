/**
 Replies over the wire: malformed results and entries are dropped on arrival,
 so a damaged reply is still a truthful one with parts missing.
 */
module WireReplies {
  import opened Options
  import opened Registers
  import opened Merkle
  import opened MerkleTrees
  import opened MerkleDiffs
  import opened DiffTheorems

  /** A leaf entry; `hash` is None when it is not 32 bytes long. */
  datatype WireEntry = WireEntry(id: Id, hash: Option<Hash>)

  /** A node result; the ref may be missing and the hash may have the wrong length. */
  datatype WireResult = WireResult(node: Option<NodeRef>, hash: Option<Hash>, entries: seq<WireEntry>)

  function GoodEntries(es: seq<WireEntry>): seq<Entry>
  {
    if es == [] then []
    else (if es[0].hash.Some? then [Entry(es[0].id, es[0].hash.value)] else []) + GoodEntries(es[1..])
  }

  /** One result: dropped when the ref is missing, the depth does not fit a byte, or the hash is malformed. */
  function FromWire(w: WireResult, D: nat): seq<RemoteNode> {
    if w.node.None? || w.node.value.depth > 255 || w.hash.None? then []
    else [RemoteNode(w.node.value.depth, w.node.value.index, w.hash.value,
                     if w.node.value.depth == D then Some(GoodEntries(w.entries)) else None)]
  }

  /** `remote_nodes`. */
  function RemoteNodes(ws: seq<WireResult>, D: nat): seq<RemoteNode> {
    if ws == [] then [] else FromWire(ws[0], D) + RemoteNodes(ws[1..], D)
  }

  function WireEntries(es: seq<Entry>): seq<WireEntry> {
    seq(|es|, i requires 0 <= i < |es| => WireEntry(es[i].id, Some(es[i].hash)))
  }

  /** The serving side of the conversion. */
  function ToWire(n: RemoteNode): WireResult {
    WireResult(Some(NodeRef(n.depth, n.index)), Some(n.hash), if n.entries.None? then [] else WireEntries(n.entries.value))
  }

  lemma {:induction false} GoodEntriesOfAll(es: seq<Entry>, ws: seq<WireEntry>)
    requires |ws| == |es| && forall i :: 0 <= i < |es| ==> ws[i] == WireEntry(es[i].id, Some(es[i].hash))
    ensures GoodEntries(ws) == es
    decreases |es|
  {
    if es != [] {
      GoodEntriesOfAll(es[1..], ws[1..]);
      assert es == [es[0]] + es[1..];
    }
  }

  /** One result of an honest peer arrives unchanged. */
  lemma ResultRoundTrip(t: Tree, D: nat, r: NodeRef)
    requires D <= 255 && |t.nodes| == Pow2(D + 1) && |t.buckets| == Pow2(D) && IsNode(D, r.depth, r.index)
    ensures FromWire(ToWire(AnswerRef(t, D, r)[0]), D) == AnswerRef(t, D, r)
  {
    var n := AnswerRef(t, D, r)[0];
    if n.entries.Some? { GoodEntriesOfAll(n.entries.value, ToWire(n).entries); }
  }

  /** The refs the serving side keeps: those whose depth fits a byte. */
  function ByteRefs(refs: seq<NodeRef>): seq<NodeRef> {
    if refs == [] then [] else (if refs[0].depth <= 255 then [refs[0]] else []) + ByteRefs(refs[1..])
  }

  function ToWireAll(reply: seq<RemoteNode>): seq<WireResult> {
    if reply == [] then [] else [ToWire(reply[0])] + ToWireAll(reply[1..])
  }

  /** A whole request to an honest peer: what it serves arrives as its tree answers, nothing lost or altered. */
  lemma {:induction false} WireRoundTrip(t: Tree, D: nat, refs: seq<NodeRef>)
    requires D <= 255 && |t.nodes| == Pow2(D + 1) && |t.buckets| == Pow2(D)
    ensures RemoteNodes(ToWireAll(AnswerRefs(t, D, ByteRefs(refs))), D) == AnswerRefs(t, D, refs)
    decreases |refs|
  {
    if refs != [] {
      var rest := AnswerRefs(t, D, ByteRefs(refs[1..]));
      WireRoundTrip(t, D, refs[1..]);
      if refs[0].depth <= 255 {
        assert ByteRefs(refs) == [refs[0]] + ByteRefs(refs[1..]);
        assert ByteRefs(refs)[1..] == ByteRefs(refs[1..]);
      } else {
        assert ByteRefs(refs) == ByteRefs(refs[1..]);
      }
      if IsNode(D, refs[0].depth, refs[0].index) {
        ResultRoundTrip(t, D, refs[0]);
        var n := AnswerRef(t, D, refs[0])[0];
        assert ([n] + rest)[1..] == rest;
        assert ToWireAll([n] + rest) == [ToWire(n)] + ToWireAll(rest);
        assert ([ToWire(n)] + ToWireAll(rest))[1..] == ToWireAll(rest);
      } else {
        assert AnswerRef(t, D, refs[0]) + rest == rest;
      }
    }
  }

  /** `w` is the result `n` with its ref, its hash, or any of its entries lost or damaged. */
  ghost predicate DamagedCopy(n: RemoteNode, w: WireResult) {
    && (w.node.Some? ==> w.node.value == NodeRef(n.depth, n.index))
    && (w.hash.Some? ==> w.hash.value == n.hash)
    && (forall i, j :: 0 <= i < j < |w.entries| ==> w.entries[i].id != w.entries[j].id)
    && (forall e :: e in w.entries && e.hash.Some? ==> n.entries.Some? && Entry(e.id, e.hash.value) in n.entries.value)
  }

  lemma {:induction false} GoodEntriesExactly(es: seq<WireEntry>)
    requires forall i, j :: 0 <= i < j < |es| ==> es[i].id != es[j].id
    ensures DistinctIds(GoodEntries(es))
    ensures forall e :: e in GoodEntries(es) <==> WireEntry(e.id, Some(e.hash)) in es
    decreases |es|
  {
    if es != [] {
      GoodEntriesExactly(es[1..]);
      assert es == [es[0]] + es[1..];
      var rest := GoodEntries(es[1..]);
      forall i | 0 <= i < |rest| ensures rest[i].id != es[0].id {
        assert rest[i] in rest;
        var j :| 0 <= j < |es[1..]| && es[1..][j] == WireEntry(rest[i].id, Some(rest[i].hash));
        assert es[j + 1].id != es[0].id;
      }
    }
  }

  lemma {:induction false} RemoteNodesFrom(ws: seq<WireResult>, D: nat, n: RemoteNode)
    requires n in RemoteNodes(ws, D)
    ensures exists w :: w in ws && FromWire(w, D) == [n]
    decreases |ws|
  {
    if n in FromWire(ws[0], D) {
      assert ws[0] in ws && FromWire(ws[0], D) == [n];
    } else {
      RemoteNodesFrom(ws[1..], D, n);
      var w :| w in ws[1..] && FromWire(w, D) == [n];
      assert w in ws;
    }
  }

  /**
   However results are lost, damaged or reordered on the way, the reply that
   reaches the session is truthful, so the guarantees for truthful replies hold.
   */
  lemma DamagedRepliesStayTruthful(served: seq<RemoteNode>, ws: seq<WireResult>, hs: Hasher, D: nat, lr: Leaves)
    requires Truthful(served, hs, D, lr)
    requires forall w :: w in ws ==> exists n :: n in served && DamagedCopy(n, w)
    ensures Truthful(RemoteNodes(ws, D), hs, D, lr)
  {
    forall m | m in RemoteNodes(ws, D)
      ensures IsNode(D, m.depth, m.index) && m.hash == NodeHash(hs, D, lr, m.depth, m.index)
      ensures m.entries.Some? ==> DistinctIds(m.entries.value)
      ensures m.entries.Some? && m.depth == D ==> forall e :: e in m.entries.value ==> e in Bucket(hs, lr, m.index)
    {
      RemoteNodesFrom(ws, D, m);
      var w :| w in ws && FromWire(w, D) == [m];
      var n :| n in served && DamagedCopy(n, w);
      GoodEntriesExactly(w.entries);
    }
  }
}

/**
 The link-state database and its breadth-first next hop, proved for arbitrary
 edge lists: repeated edges, self edges and dangling edges included.
 */
module Routing {
  import opened Options

  type NodeId = nat

  const MAX_LINK_STATE_EDGES: nat := 256

  /** A signed advertisement: the key it names and whether its signature verifies under that key. */
  datatype Record = Record(node: NodeId, edges: seq<NodeId>, sequence: nat, key: nat, signatureValid: bool)

  type Links = map<NodeId, Record>

  // ----- the database -----

  datatype RoutingError = TooManyEdges | UnauthorizedKey | InvalidSignature

  /** `verify_with`: sortedness and distinctness of the edges are not checked. */
  function Verify(r: Record, authorizedKey: nat): Option<RoutingError> {
    if |r.edges| > MAX_LINK_STATE_EDGES then Some(TooManyEdges)
    else if r.key != authorizedKey then Some(UnauthorizedKey)
    else if !r.signatureValid then Some(InvalidSignature)
    else None
  }

  datatype InsertResult = Inserted(advanced: bool) | Rejected(error: RoutingError)

  class LinkStateDb {
    var records: Links

    ghost predicate Valid() reads this { forall n :: n in records ==> records[n].node == n }

    constructor ()
      ensures Valid() && records == map[]
    {
      records := map[];
    }

    /** A verified record with a higher sequence replaces the one held; anything else changes nothing. */
    method Insert(r: Record, authorizedKey: nat) returns (result: InsertResult)
      requires Valid()
      modifies this
      ensures Valid()
      ensures result == Rejected(TooManyEdges) <==> |r.edges| > 256
      ensures result == Rejected(UnauthorizedKey) <==> |r.edges| <= 256 && r.key != authorizedKey
      ensures result == Rejected(InvalidSignature) <==> |r.edges| <= 256 && r.key == authorizedKey && !r.signatureValid
      ensures result.Inserted? ==>
                result == Inserted(r.node !in old(records) || old(records)[r.node].sequence < r.sequence)
      ensures records == if result == Inserted(true) then old(records)[r.node := r] else old(records)
      ensures forall n :: n in old(records) ==> n in records && records[n].sequence >= old(records)[n].sequence
    {
      var error := Verify(r, authorizedKey);
      if error.Some? { return Rejected(error.value); }
      if r.node in records && r.sequence <= records[r.node].sequence { return Inserted(false); }
      records := records[r.node := r];
      result := Inserted(true);
    }
  }

  function Edges(db: Links, n: NodeId): seq<NodeId> { if n in db then db[n].edges else [] }

  // ----- paths -----

  ghost predicate IsPath(db: Links, p: seq<NodeId>) {
    p != [] && forall i :: 0 <= i < |p| - 1 ==> p[i + 1] in Edges(db, p[i])
  }

  ghost predicate PathFromTo(db: Links, a: NodeId, b: NodeId, p: seq<NodeId>) {
    IsPath(db, p) && p[0] == a && p[|p| - 1] == b
  }

  /** No path from a to b has fewer than `n` hops. */
  ghost predicate AtLeast(db: Links, a: NodeId, b: NodeId, n: nat) {
    forall p :: PathFromTo(db, a, b, p) ==> |p| - 1 >= n
  }

  ghost predicate ShortestPath(db: Links, a: NodeId, b: NodeId, p: seq<NodeId>) {
    PathFromTo(db, a, b, p) && AtLeast(db, a, b, |p| - 1)
  }

  ghost predicate Reachable(db: Links, a: NodeId, b: NodeId) {
    exists p :: PathFromTo(db, a, b, p)
  }

  /** What `next_hop` promises: the first hop of a shortest path, or None exactly when there is no path. */
  ghost predicate IsNextHop(db: Links, local: NodeId, dest: NodeId, r: Option<NodeId>) {
    if local == dest then r == Some(dest)
    else
      && (r.None? <==> !Reachable(db, local, dest))
      && (r.Some? ==> exists p :: ShortestPath(db, local, dest, p) && |p| >= 2 && p[1] == r.value)
  }

  // ----- the search tree -----

  /** `parent` is a tree of edges rooted at `local` with the depths `dist`. */
  ghost predicate SearchTree(db: Links, local: NodeId, parent: map<NodeId, NodeId>, dist: map<NodeId, nat>) {
    && local in dist && dist[local] == 0 && local !in parent
    && dist.Keys == parent.Keys + {local}
    && forall v {:trigger parent[v]} :: v in parent ==>
         parent[v] in dist && dist[v] == dist[parent[v]] + 1 && v in Edges(db, parent[v])
  }

  /** The queue holds nodes of depth d, then nodes of depth d + 1. */
  ghost predicate Frontier(queue: seq<NodeId>, dist: map<NodeId, nat>, d: nat) {
    && (forall i :: 0 <= i < |queue| ==> queue[i] in dist && d <= dist[queue[i]] <= d + 1)
    && (forall i, j :: 0 <= i < j < |queue| ==> dist[queue[i]] <= dist[queue[j]])
  }

  /** All edges of `v` lead to discovered nodes at most one deeper. */
  ghost predicate Expanded(db: Links, dist: map<NodeId, nat>, v: NodeId) {
    v in dist && forall w :: w in Edges(db, v) ==> w in dist && dist[w] <= dist[v] + 1
  }

  /** Every discovered node outside `open` is expanded and no deeper than d. */
  ghost predicate Explored(db: Links, dist: map<NodeId, nat>, open: set<NodeId>, d: nat) {
    forall v {:trigger Expanded(db, dist, v)} :: v in dist && v !in open ==> dist[v] <= d && Expanded(db, dist, v)
  }

  /** Paths no longer than the open depth end in discovered nodes, at most as deep as the path is long. */
  lemma {:induction false} ShortPathsDiscovered(db: Links, local: NodeId, dist: map<NodeId, nat>, open: set<NodeId>, d: nat, p: seq<NodeId>)
    requires local in dist && dist[local] == 0
    requires forall v :: v in open ==> v in dist && dist[v] >= d
    requires Explored(db, dist, open, d)
    requires IsPath(db, p) && p[0] == local && |p| - 1 <= d
    ensures p[|p| - 1] in dist && dist[p[|p| - 1]] <= |p| - 1
    decreases |p|
  {
    if |p| > 1 {
      var q := p[..|p| - 1];
      ShortPathsDiscovered(db, local, dist, open, d, q);
      var u := q[|q| - 1];
      assert u !in open && Expanded(db, dist, u);
      assert p[|p| - 1] in Edges(db, u);
    }
  }

  lemma NotDiscoveredIsFar(db: Links, local: NodeId, dest: NodeId, dist: map<NodeId, nat>, open: set<NodeId>, d: nat)
    requires local in dist && dist[local] == 0 && dest !in dist
    requires forall v :: v in open ==> v in dist && dist[v] >= d
    requires Explored(db, dist, open, d)
    ensures AtLeast(db, local, dest, d + 1)
  {
    forall p | PathFromTo(db, local, dest, p) ensures |p| - 1 >= d + 1 {
      if |p| - 1 <= d { ShortPathsDiscovered(db, local, dist, open, d, p); }
    }
  }

  /** With nothing left open, everything reachable has been discovered. */
  lemma {:induction false} ClosedContainsPaths(db: Links, local: NodeId, dist: map<NodeId, nat>, d: nat, p: seq<NodeId>)
    requires local in dist && Explored(db, dist, {}, d)
    requires IsPath(db, p) && p[0] == local
    ensures p[|p| - 1] in dist
    decreases |p|
  {
    if |p| > 1 {
      var q := p[..|p| - 1];
      ClosedContainsPaths(db, local, dist, d, q);
      assert Expanded(db, dist, q[|q| - 1]);
      assert p[|p| - 1] in Edges(db, q[|q| - 1]);
    }
  }

  // ----- the search -----

  ghost function Elements(q: seq<NodeId>): set<NodeId> { set x | x in q }

  /** The first `i` edges of `u` lead to discovered nodes at most one deeper than d. */
  ghost predicate EdgesSeen(db: Links, u: NodeId, i: nat, dist: map<NodeId, nat>, d: nat) {
    i <= |Edges(db, u)| && forall k :: 0 <= k < i ==> Edges(db, u)[k] in dist && dist[Edges(db, u)[k]] <= d + 1
  }

  /** Everything that is known while the edges of `u` are being scanned. */
  ghost predicate Scanning(db: Links, local: NodeId, u: NodeId, i: nat, parent: map<NodeId, NodeId>, queue: seq<NodeId>,
                           dist: map<NodeId, nat>, d: nat) {
    && SearchTree(db, local, parent, dist)
    && u in dist && dist[u] == d
    && Frontier(queue, dist, d)
    && Explored(db, dist, Elements(queue) + {u}, d)
    && EdgesSeen(db, u, i, dist, d)
  }

  lemma FrontierGrows(queue: seq<NodeId>, dist: map<NodeId, nat>, d: nat, e: NodeId)
    requires Frontier(queue, dist, d) && e !in dist
    ensures Frontier(queue + [e], dist[e := d + 1], d)
  {
    var q := queue + [e];
    assert forall i :: 0 <= i < |queue| ==> q[i] == queue[i] && queue[i] != e;
  }

  lemma ExploredGrows(db: Links, dist: map<NodeId, nat>, open: set<NodeId>, d: nat, e: NodeId)
    requires Explored(db, dist, open, d) && e !in dist
    ensures Explored(db, dist[e := d + 1], open + {e}, d)
  {
    var dist' := dist[e := d + 1];
    forall v | v in dist' && v !in open + {e} ensures dist'[v] <= d && Expanded(db, dist', v) {
      assert Expanded(db, dist, v);
    }
  }

  lemma EdgesSeenGrows(db: Links, u: NodeId, i: nat, dist: map<NodeId, nat>, d: nat, e: NodeId)
    requires EdgesSeen(db, u, i, dist, d) && i < |Edges(db, u)| && Edges(db, u)[i] == e
    ensures e !in dist ==> EdgesSeen(db, u, i + 1, dist[e := d + 1], d)
    ensures e in dist && dist[e] <= d + 1 ==> EdgesSeen(db, u, i + 1, dist, d)
  {
  }

  /** Discovered nodes are at most one deeper than the node being scanned. */
  lemma DepthBound(db: Links, queue: seq<NodeId>, dist: map<NodeId, nat>, u: NodeId, d: nat, e: NodeId)
    requires Frontier(queue, dist, d) && u in dist && dist[u] == d && Explored(db, dist, Elements(queue) + {u}, d) && e in dist
    ensures dist[e] <= d + 1
  {
    if e in queue {
      var k :| 0 <= k < |queue| && queue[k] == e;
    } else if e != u {
      assert e !in Elements(queue) + {u};
      assert Expanded(db, dist, e);
    }
  }

  lemma TreeGrows(db: Links, local: NodeId, u: NodeId, e: NodeId, parent: map<NodeId, NodeId>, dist: map<NodeId, nat>)
    requires SearchTree(db, local, parent, dist) && u in dist && e in Edges(db, u) && e !in dist
    ensures SearchTree(db, local, parent[e := u], dist[e := dist[u] + 1])
  {
  }

  lemma DiscoverKeepsScanning(db: Links, local: NodeId, u: NodeId, i: nat, parent: map<NodeId, NodeId>, queue: seq<NodeId>,
                              dist: map<NodeId, nat>, d: nat)
    requires Scanning(db, local, u, i, parent, queue, dist, d) && i < |Edges(db, u)| && Edges(db, u)[i] !in dist
    ensures var e := Edges(db, u)[i];
      Scanning(db, local, u, i + 1, parent[e := u], queue + [e], dist[e := d + 1], d)
  {
    var e := Edges(db, u)[i];
    TreeGrows(db, local, u, e, parent, dist);
    FrontierGrows(queue, dist, d, e);
    ExploredGrows(db, dist, Elements(queue) + {u}, d, e);
    EdgesSeenGrows(db, u, i, dist, d, e);
    assert Elements(queue + [e]) + {u} == Elements(queue) + {u} + {e};
  }

  lemma SkipKeepsScanning(db: Links, local: NodeId, u: NodeId, i: nat, parent: map<NodeId, NodeId>, queue: seq<NodeId>,
                          dist: map<NodeId, nat>, d: nat)
    requires Scanning(db, local, u, i, parent, queue, dist, d) && i < |Edges(db, u)| && Edges(db, u)[i] in dist
    ensures Scanning(db, local, u, i + 1, parent, queue, dist, d)
  {
    DepthBound(db, queue, dist, u, d, Edges(db, u)[i]);
    EdgesSeenGrows(db, u, i, dist, d, Edges(db, u)[i]);
  }

  /** Look at one edge: a node not seen before is recorded and queued. */
  method ScanEdge(db: Links, ghost local: NodeId, u: NodeId, e: NodeId, ghost i: nat, visited0: set<NodeId>,
                  parent0: map<NodeId, NodeId>, queue0: seq<NodeId>, ghost dist0: map<NodeId, nat>, ghost d: nat)
    returns (visited: set<NodeId>, parent: map<NodeId, NodeId>, queue: seq<NodeId>, ghost dist: map<NodeId, nat>)
    requires Scanning(db, local, u, i, parent0, queue0, dist0, d) && i < |Edges(db, u)| && e == Edges(db, u)[i]
    requires visited0 == dist0.Keys
    ensures Scanning(db, local, u, i + 1, parent, queue, dist, d)
    ensures visited == dist.Keys == visited0 + {e}
    ensures e !in visited0 ==> e in parent && dist[e] == d + 1
    ensures e in visited0 ==> queue == queue0
  {
    if e in visited0 {
      SkipKeepsScanning(db, local, u, i, parent0, queue0, dist0, d);
      visited, parent, queue, dist := visited0, parent0, queue0, dist0;
    } else {
      DiscoverKeepsScanning(db, local, u, i, parent0, queue0, dist0, d);
      visited, parent, queue, dist := visited0 + {e}, parent0[e := u], queue0 + [e], dist0[e := d + 1];
    }
  }

  /** Scan the edges of `u`: discover unseen nodes, stop at the destination. */
  method ScanEdges(db: Links, ghost local: NodeId, dest: NodeId, u: NodeId, visited0: set<NodeId>, parent0: map<NodeId, NodeId>,
                   queue0: seq<NodeId>, ghost dist0: map<NodeId, nat>, ghost d: nat)
    returns (found: bool, visited: set<NodeId>, parent: map<NodeId, NodeId>, queue: seq<NodeId>,
             ghost dist: map<NodeId, nat>, ghost k: nat)
    requires visited0 == dist0.Keys && dest !in visited0
    requires Scanning(db, local, u, 0, parent0, queue0, dist0, d)
    ensures Scanning(db, local, u, k, parent, queue, dist, d) && visited == dist.Keys
    ensures found ==> dest in parent && dest in dist && dist[dest] == d + 1
    ensures !found ==> k == |Edges(db, u)| && dest !in visited
    ensures visited0 <= visited <= visited0 + Elements(Edges(db, u)) && (visited == visited0 ==> queue == queue0)
  {
    visited, parent, queue, dist, k := visited0, parent0, queue0, dist0, 0;
    var edges := Edges(db, u);
    var i := 0;
    while i < |edges|
      invariant i == k <= |edges| && visited == dist.Keys && dest !in visited
      invariant Scanning(db, local, u, k, parent, queue, dist, d)
      invariant visited0 <= visited <= visited0 + Elements(edges) && (visited == visited0 ==> queue == queue0)
    {
      found := edges[i] == dest;
      visited, parent, queue, dist := ScanEdge(db, local, u, edges[i], k, visited, parent, queue, dist, d);
      i, k := i + 1, k + 1;
      if found { return; }
    }
    found := false;
  }

  /** A path followed by a path from its last node. */
  lemma Prepend(db: Links, a: NodeId, p: seq<NodeId>)
    requires IsPath(db, p) && p[0] in Edges(db, a)
    ensures IsPath(db, [a] + p)
  {
    var q := [a] + p;
    forall i | 0 <= i < |q| - 1 ensures q[i + 1] in Edges(db, q[i]) {
      if i > 0 { assert p[i] in Edges(db, p[i - 1]); }
    }
  }

  /**
   Follow the parents from the destination back to the node just after `local`.
   The parent of every node on the way exists, so the walk never falls through.
   */
  method WalkBack(db: Links, local: NodeId, dest: NodeId, parent: map<NodeId, NodeId>, ghost dist: map<NodeId, nat>)
    returns (hop: NodeId, ghost p: seq<NodeId>)
    requires SearchTree(db, local, parent, dist) && dest in parent
    ensures PathFromTo(db, local, dest, p) && |p| - 1 == dist[dest] && |p| >= 2 && p[1] == hop
  {
    hop := dest;
    p := [dest];
    while parent[hop] != local
      invariant hop in parent
      invariant PathFromTo(db, hop, dest, p) && |p| - 1 == dist[dest] - dist[hop]
      decreases dist[hop]
    {
      Prepend(db, parent[hop], p);
      hop, p := parent[hop], [parent[hop]] + p;
    }
    Prepend(db, local, p);
    p := [local] + p;
  }

  /** Everything a search from `local` can ever discover. */
  ghost function Universe(db: Links, local: NodeId): set<NodeId> {
    {local} + set n, e | n in db && e in db[n].edges :: e
  }

  /** A node whose edges have all been seen need not stay open. */
  lemma ScanEnds(db: Links, u: NodeId, dist: map<NodeId, nat>, open: set<NodeId>, d: nat)
    requires u in dist && dist[u] == d
    requires Explored(db, dist, open + {u}, d) && EdgesSeen(db, u, |Edges(db, u)|, dist, d)
    ensures Explored(db, dist, open, d)
  {
    AllEdgesSeen(db, u, dist, d);
    forall v | v in dist && v !in open ensures dist[v] <= d && Expanded(db, dist, v) {
      assert Expanded(db, dist, v);
    }
  }

  lemma AllEdgesSeen(db: Links, u: NodeId, dist: map<NodeId, nat>, d: nat)
    requires u in dist && dist[u] == d && EdgesSeen(db, u, |Edges(db, u)|, dist, d)
    ensures Expanded(db, dist, u)
  {
    forall w | w in Edges(db, u) ensures w in dist && dist[w] <= dist[u] + 1 {
      var k :| 0 <= k < |Edges(db, u)| && Edges(db, u)[k] == w;
    }
  }

  lemma PopStarts(db: Links, local: NodeId, parent: map<NodeId, NodeId>, queue: seq<NodeId>, dist: map<NodeId, nat>, d: nat)
    requires SearchTree(db, local, parent, dist) && queue != []
    requires Frontier(queue, dist, d) && Explored(db, dist, Elements(queue), d)
    ensures Scanning(db, local, queue[0], 0, parent, queue[1..], dist, dist[queue[0]])
  {
    PopFrontier(queue, dist, d);
    assert queue == [queue[0]] + queue[1..];
    assert Elements(queue) == Elements(queue[1..]) + {queue[0]};
    ExploredDeeper(db, dist, Elements(queue), d, dist[queue[0]]);
  }

  lemma PopFrontier(queue: seq<NodeId>, dist: map<NodeId, nat>, d: nat)
    requires Frontier(queue, dist, d) && queue != []
    ensures queue[0] in dist && d <= dist[queue[0]] && Frontier(queue[1..], dist, dist[queue[0]])
  {
    var rest := queue[1..];
    assert forall i :: 0 <= i < |rest| ==> rest[i] == queue[i + 1];
  }

  lemma ExploredDeeper(db: Links, dist: map<NodeId, nat>, open: set<NodeId>, d: nat, e: nat)
    requires Explored(db, dist, open, d) && d <= e
    ensures Explored(db, dist, open, e)
  {
    forall v | v in dist && v !in open ensures dist[v] <= e && Expanded(db, dist, v) { assert Expanded(db, dist, v); }
  }

  /** The state between two iterations of the search. */
  ghost predicate Searching(db: Links, local: NodeId, dest: NodeId, visited: set<NodeId>, parent: map<NodeId, NodeId>,
                            queue: seq<NodeId>, dist: map<NodeId, nat>, d: nat) {
    && visited == dist.Keys && dest !in visited && visited <= Universe(db, local)
    && SearchTree(db, local, parent, dist)
    && Frontier(queue, dist, d) && Explored(db, dist, Elements(queue), d)
  }

  lemma EdgesInUniverse(db: Links, local: NodeId, u: NodeId)
    ensures Elements(Edges(db, u)) <= Universe(db, local)
  {
  }

  lemma OpenIsDeep(queue: seq<NodeId>, dist: map<NodeId, nat>, u: NodeId, d: nat)
    requires Frontier(queue, dist, d) && u in dist && dist[u] == d
    ensures forall v :: v in Elements(queue) + {u} ==> v in dist && dist[v] >= d
  {
  }

  lemma SearchStarts(db: Links, local: NodeId, dest: NodeId)
    requires local != dest
    ensures Searching(db, local, dest, {local}, map[], [local], map[local := 0], 0)
  {
    assert Elements([local]) == {local};
  }

  lemma SubsetSize(a: set<NodeId>, b: set<NodeId>)
    requires a <= b
    ensures |a| <= |b| && (|a| == |b| ==> a == b)
  {
    assert b == a + (b - a);
  }

  /** Pop one node and scan it: either the destination is found at its shortest distance, or the search goes on. */
  method Visit(db: Links, local: NodeId, dest: NodeId, visited0: set<NodeId>, parent0: map<NodeId, NodeId>,
               queue0: seq<NodeId>, ghost dist0: map<NodeId, nat>, ghost d0: nat)
    returns (found: bool, visited: set<NodeId>, parent: map<NodeId, NodeId>, queue: seq<NodeId>,
             ghost dist: map<NodeId, nat>, ghost d: nat)
    requires Searching(db, local, dest, visited0, parent0, queue0, dist0, d0) && queue0 != []
    ensures found ==> SearchTree(db, local, parent, dist) && dest in parent && AtLeast(db, local, dest, dist[dest])
    ensures !found ==> Searching(db, local, dest, visited, parent, queue, dist, d)
    ensures !found ==> |visited0| <= |visited| <= |Universe(db, local)| && (|visited| == |visited0| ==> |queue| < |queue0|)
  {
    var u := queue0[0];
    PopStarts(db, local, parent0, queue0, dist0, d0);
    d := dist0[u];
    OpenIsDeep(queue0[1..], dist0, u, d);
    NotDiscoveredIsFar(db, local, dest, dist0, Elements(queue0[1..]) + {u}, d);
    EdgesInUniverse(db, local, u);
    ghost var k;
    found, visited, parent, queue, dist, k := ScanEdges(db, local, dest, u, visited0, parent0, queue0[1..], dist0, d);
    if !found {
      ScanEnds(db, u, dist, Elements(queue), d);
      SubsetSize(visited0, visited);
      SubsetSize(visited, Universe(db, local));
    }
  }

  lemma ExhaustedMeansUnreachable(db: Links, local: NodeId, dest: NodeId, dist: map<NodeId, nat>, d: nat)
    requires local in dist && dest !in dist && Explored(db, dist, {}, d)
    ensures !Reachable(db, local, dest)
  {
    forall p | PathFromTo(db, local, dest, p) ensures false {
      ClosedContainsPaths(db, local, dist, d, p);
    }
  }

  /** `LinkStateDb::next_hop`. */
  method NextHop(db: Links, local: NodeId, dest: NodeId) returns (r: Option<NodeId>)
    ensures IsNextHop(db, local, dest, r)
  {
    if local == dest { return Some(dest); }
    var visited, parent, queue := {local}, map[], [local];
    ghost var dist: map<NodeId, nat>, d: nat := map[local := 0], 0;
    SearchStarts(db, local, dest);
    while queue != []
      invariant Searching(db, local, dest, visited, parent, queue, dist, d)
      decreases |Universe(db, local)| - |visited|, |queue|
    {
      var found;
      found, visited, parent, queue, dist, d := Visit(db, local, dest, visited, parent, queue, dist, d);
      if found {
        var hop, p := WalkBack(db, local, dest, parent, dist);
        assert ShortestPath(db, local, dest, p);
        return Some(hop);
      }
    }
    assert Elements(queue) == {};
    ExhaustedMeansUnreachable(db, local, dest, dist, d);
    r := None;
  }
}

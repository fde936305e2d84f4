/**
 The membership CRDT: a map from node id to register, plus the local version
 counter that invalidates structures derived from it.
 */
module Memberships {
  import opened Order
  import opened Registers

  type Members = map<Id, Register>

  /** Every register is stored under its own node id. */
  ghost predicate Keyed(m: Members) {
    forall id :: id in m ==> m[id].id == id
  }

  function MergeInto(m: Members, r: Register): (m': Members)
    ensures Keyed(m) ==> Keyed(m')
  {
    if r.id in m then m[r.id := m[r.id].Merge(r)] else m[r.id := r]
  }

  function MergeAllInto(m: Members, rs: seq<Register>): (m': Members)
    ensures Keyed(m) ==> Keyed(m')
    decreases |rs|
  {
    if rs == [] then m else MergeInto(MergeAllInto(m, rs[..|rs| - 1]), rs[|rs| - 1])
  }

  // ----- convergence -----

  /** `r` is among the registers about `id` that were offered. */
  ghost predicate Offered(m: Members, rs: set<Register>, id: Id, r: Register) {
    r.id == id && (r in rs || (id in m && m[id] == r))
  }

  ghost predicate UpperBound(m: Members, rs: set<Register>, id: Id, u: Register) {
    forall r :: Offered(m, rs, id, r) ==> Below(r, u)
  }

  ghost predicate LeastUpperBound(m: Members, rs: set<Register>, id: Id, u: Register) {
    && u.id == id
    && UpperBound(m, rs, id, u)
    && forall v: Register :: v.id == id && UpperBound(m, rs, id, v) ==> Below(u, v)
  }

  lemma MergeRegisterIsJoin(m: Members, rs: set<Register>, id: Id, u: Register, r: Register)
    requires LeastUpperBound(m, rs, id, u)
    requires r.id == id
    ensures LeastUpperBound(m, rs + {r}, id, u.Merge(r))
  {
    MergeAbove(u, r);
    forall q | Offered(m, rs + {r}, id, q) ensures Below(q, u.Merge(r)) {
      if q != r {
        assert Offered(m, rs, id, q);
        BelowTransitive(q, u, u.Merge(r));
      }
    }
    forall v: Register | v.id == id && UpperBound(m, rs + {r}, id, v) ensures Below(u.Merge(r), v) {
      assert Offered(m, rs + {r}, id, r);
      assert UpperBound(m, rs, id, v) by {
        forall q | Offered(m, rs, id, q) ensures Below(q, v) { assert Offered(m, rs + {r}, id, q); }
      }
      MergeLeast(u, r, v);
    }
  }

  lemma JoinIgnoresOthers(m: Members, rs: set<Register>, id: Id, u: Register, r: Register)
    requires LeastUpperBound(m, rs, id, u) && r.id != id
    ensures LeastUpperBound(m, rs + {r}, id, u)
  {
    assert forall q :: Offered(m, rs + {r}, id, q) <==> Offered(m, rs, id, q);
    forall v: Register ensures UpperBound(m, rs + {r}, id, v) <==> UpperBound(m, rs, id, v) {
    }
  }

  lemma JoinOfOne(m: Members, rs: set<Register>, id: Id, r: Register)
    requires Offered(m, rs, id, r) && forall q :: Offered(m, rs, id, q) ==> q == r
    ensures LeastUpperBound(m, rs, id, r)
  {
    BelowReflexive(r);
  }

  /** Merging a sequence of registers leaves exactly the ids held before and those offered. */
  lemma {:induction false} MergeAllKeys(m: Members, rs: seq<Register>, id: Id)
    ensures id in MergeAllInto(m, rs) <==> id in m || exists r :: r in rs && r.id == id
    decreases |rs|
  {
    if rs != [] {
      MergeAllKeys(m, rs[..|rs| - 1], id);
      assert rs == rs[..|rs| - 1] + [rs[|rs| - 1]];
    }
  }

  /** ... and under each id the least upper bound of everything offered. */
  lemma {:induction false} MergeAllIsJoin(m: Members, rs: seq<Register>, id: Id)
    requires Keyed(m) && id in MergeAllInto(m, rs)
    ensures LeastUpperBound(m, Elems(rs), id, MergeAllInto(m, rs)[id])
    decreases |rs|
  {
    if rs == [] {
      JoinOfOne(m, {}, id, m[id]);
    } else {
      var init, last := rs[..|rs| - 1], rs[|rs| - 1];
      assert Elems(rs) == Elems(init) + {last} by { assert rs == init + [last]; }
      var before := MergeAllInto(m, init);
      if id in before {
        MergeAllIsJoin(m, init, id);
        if last.id == id {
          MergeRegisterIsJoin(m, Elems(init), id, before[id], last);
        } else {
          JoinIgnoresOthers(m, Elems(init), id, before[id], last);
        }
      } else {
        MergeAllKeys(m, init, id);
        JoinOfOne(m, Elems(rs), id, last);
      }
    }
  }

  lemma LeastUpperBoundUnique(m: Members, rs: set<Register>, id: Id, u: Register, v: Register)
    requires LeastUpperBound(m, rs, id, u) && LeastUpperBound(m, rs, id, v)
    ensures u == v
  {
    BelowAntisymmetric(u, v);
  }

  /** Order and multiplicity of the merged registers are irrelevant; only their set matters. */
  lemma MergeOrderIrrelevant(m: Members, rs: seq<Register>, ts: seq<Register>)
    requires Keyed(m)
    requires Elems(rs) == Elems(ts)
    ensures MergeAllInto(m, rs) == MergeAllInto(m, ts)
  {
    var a, b := MergeAllInto(m, rs), MergeAllInto(m, ts);
    assert forall r :: r in rs <==> r in Elems(rs);
    assert forall r :: r in ts <==> r in Elems(ts);
    forall id
      ensures id in a <==> id in b
      ensures id in a && id in b ==> a[id] == b[id]
    {
      MergeAllKeys(m, rs, id);
      MergeAllKeys(m, ts, id);
      if id in a && id in b {
        MergeAllIsJoin(m, rs, id);
        MergeAllIsJoin(m, ts, id);
        LeastUpperBoundUnique(m, Elems(rs), id, a[id], b[id]);
      }
    }
    assert a.Keys == b.Keys;
  }

  // ----- the mutable structure -----

  /** The membership as a value: the replicated map and the version counter. */
  datatype View = View(members: Members, version: nat) {
    function MergeRegister(r: Register): View {
      View(MergeInto(members, r), version + 1)
    }

    function MergeAll(rs: seq<Register>): View
      decreases |rs|
    {
      if rs == [] then this else MergeAll(rs[..|rs| - 1]).MergeRegister(rs[|rs| - 1])
    }

    function Heartbeat(id: Id, now: I64): View {
      if id !in members then this
      else
        var r := members[id].BumpHeartbeat(now);
        View(members[id := r], if r.state != members[id].state then version + 1 else version)
    }

    function Suspect(id: Id, now: I64): View {
      if id in members && members[id].state.Active? then
        View(members[id := members[id].Suspect(now)], version + 1)
      else this
    }

    function GoOffline(id: Id, now: I64): View {
      if id in members then View(members[id := members[id].GoOffline(now)], version + 1) else this
    }

    function Leave(id: Id, now: I64): View {
      if id in members then View(members[id := members[id].Leave(now)], version + 1) else this
    }

    function Refute(id: Id, now: I64): View {
      if id in members then View(members[id := members[id].Refute(now)], version + 1) else this
    }
  }

  lemma {:induction false} ViewMergeAll(v: View, rs: seq<Register>)
    ensures v.MergeAll(rs).members == MergeAllInto(v.members, rs)
    ensures v.MergeAll(rs).version == v.version + |rs|
    decreases |rs|
  {
    if rs != [] { ViewMergeAll(v, rs[..|rs| - 1]); }
  }

  /** `Membership`: updated in place; every method is tied to its effect on the view. */
  class Membership {
    var members: Members
    var version: nat

    ghost predicate Valid() reads this { Keyed(members) }

    ghost function V(): View reads this { View(members, version) }

    constructor ()
      ensures Valid() && V() == View(map[], 0)
    {
      members, version := map[], 0;
    }

    method MergeRegister(r: Register)
      requires Valid()
      modifies this
      ensures Valid()
      ensures V() == old(V()).MergeRegister(r)
    {
      if r.id in members {
        members := members[r.id := members[r.id].Merge(r)];
      } else {
        members := members[r.id := r];
      }
      version := version + 1;
    }

    /**
     Merge another membership, visiting its registers in no particular order:
     the result is what any enumeration of those registers gives.
     */
    method Merge(other: Membership)
      requires Valid() && other.Valid() && other != this
      modifies this
      ensures Valid()
      ensures forall rs :: Elems(rs) == other.members.Values ==> members == MergeAllInto(old(members), rs)
      ensures version == old(version) + |other.members|
    {
      var todo := other.members.Keys;
      ghost var done: seq<Register> := [];
      while todo != {}
        invariant Valid() && todo <= other.members.Keys
        invariant members == MergeAllInto(old(members), done)
        invariant version + |todo| == old(version) + |other.members|
        invariant forall r :: r in done ==> r in other.members.Values
        invariant forall id :: id in other.members.Keys - todo ==> other.members[id] in done
        decreases todo
      {
        var id :| id in todo;
        MergeRegister(other.members[id]);
        done := done + [other.members[id]];
        assert done[..|done| - 1] + [other.members[id]] == done;
        todo := todo - {id};
      }
      assert Elems(done) == other.members.Values;
      forall rs | Elems(rs) == other.members.Values ensures members == MergeAllInto(old(members), rs) {
        MergeOrderIrrelevant(old(members), done, rs);
      }
    }

    method Heartbeat(id: Id, now: I64) returns (found: bool)
      requires Valid()
      modifies this
      ensures Valid() && found == (id in old(members))
      ensures V() == old(V()).Heartbeat(id, now)
    {
      found := id in members;
      if found {
        var before := members[id].state;
        members := members[id := members[id].BumpHeartbeat(now)];
        if members[id].state != before {
          version := version + 1;
        }
      }
    }

    /** Returns the incarnation exactly when the member moved from Active to Suspected. */
    method Suspect(id: Id, now: I64) returns (changed: bool, incarnation: U64)
      requires Valid()
      modifies this
      ensures Valid()
      ensures V() == old(V()).Suspect(id, now)
      ensures changed <==> id in old(members) && old(members)[id].state.Active?
      ensures changed ==> incarnation == old(members)[id].incarnation
    {
      changed, incarnation := false, 0;
      if id in members {
        var previous := members[id].state;
        var r := members[id].Suspect(now);
        members := members[id := r];
        if previous.Active? && r.state.Suspected? {
          version := version + 1;
          changed, incarnation := true, r.incarnation;
        }
        assert !changed ==> members == old(members);
      }
    }

    method GoOffline(id: Id, now: I64) returns (found: bool)
      requires Valid()
      modifies this
      ensures Valid() && found == (id in old(members))
      ensures V() == old(V()).GoOffline(id, now)
    {
      found := id in members;
      if found {
        members, version := members[id := members[id].GoOffline(now)], version + 1;
      }
    }

    method Leave(id: Id, now: I64) returns (found: bool)
      requires Valid()
      modifies this
      ensures Valid() && found == (id in old(members))
      ensures V() == old(V()).Leave(id, now)
    {
      found := id in members;
      if found {
        members, version := members[id := members[id].Leave(now)], version + 1;
      }
    }

    method Refute(id: Id, now: I64) returns (found: bool)
      requires Valid()
      modifies this
      ensures Valid() && found == (id in old(members))
      ensures V() == old(V()).Refute(id, now)
    {
      found := id in members;
      if found {
        members, version := members[id := members[id].Refute(now)], version + 1;
      }
    }
  }
}

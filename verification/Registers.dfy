/**
 The replicated unit of cluster membership: one register per node, its
 transitions, and the merge that makes registers a join semilattice.
 */
module Registers {
  import opened Order

  const U64_MAX: nat := 0xFFFF_FFFF_FFFF_FFFF
  const I64_MAX: int := 0x7FFF_FFFF_FFFF_FFFF

  type U64 = x: int | 0 <= x <= U64_MAX
  type I64 = x: int | -I64_MAX - 1 <= x <= I64_MAX

  type Id = string

  /** `u64::saturating_add(1)`. */
  function Inc(x: U64): (r: U64)
    ensures x < U64_MAX ==> r == x + 1
    ensures x == U64_MAX ==> r == U64_MAX
  {
    if x < U64_MAX then x + 1 else x
  }

  datatype MemberState = Active | Suspected | Leaving | Offline {
    predicate IsActive() { Active? || Suspected? }

    function Rank(): nat {
      match this
      case Active => 0
      case Suspected => 1
      case Leaving => 2
      case Offline => 3
    }
  }

  datatype Register = Register(
    id: Id,
    address: string,
    state: MemberState,
    incarnation: U64,
    heartbeat: U64,
    labels: StrMap,
    annotations: StrMap,
    updatedAt: I64
  ) {
    /** Strictly larger `(incarnation, state rank, heartbeat)`. */
    predicate Dominates(other: Register) {
      || incarnation > other.incarnation
      || (incarnation == other.incarnation && state.Rank() > other.state.Rank())
      || (incarnation == other.incarnation && state == other.state && heartbeat > other.heartbeat)
    }

    predicate SameKey(other: Register) {
      incarnation == other.incarnation && state == other.state && heartbeat == other.heartbeat
    }

    predicate KeyAtLeast(other: Register) {
      Dominates(other) || SameKey(other)
    }

    function Merge(other: Register): Register {
      if other.Dominates(this) then other
      else if Dominates(other) then this
      else this.(address := if StrLt(address, other.address) then other.address else address,
                 labels := if MapLe(other.labels, labels) then labels else other.labels,
                 annotations := if MapLe(other.annotations, annotations) then annotations else other.annotations,
                 updatedAt := if updatedAt < other.updatedAt then other.updatedAt else updatedAt)
    }

    function BumpHeartbeat(now: I64): Register {
      this.(heartbeat := Inc(heartbeat),
            state := if state.IsActive() then Active else state,
            updatedAt := now)
    }

    function Suspect(now: I64): Register {
      if state.Active? then this.(state := Suspected, heartbeat := Inc(heartbeat), updatedAt := now) else this
    }

    function Leave(now: I64): Register {
      this.(state := Leaving, heartbeat := Inc(heartbeat), updatedAt := now)
    }

    function GoOffline(now: I64): Register {
      this.(state := Offline, heartbeat := Inc(heartbeat), updatedAt := now)
    }

    /** The restart path: next incarnation, fresh heartbeat, Active. */
    function Rejoin(newAddress: string, now: I64): Register {
      this.(incarnation := Inc(incarnation), heartbeat := 0, address := newAddress, state := Active, updatedAt := now)
    }

    function Refute(now: I64): Register {
      this.(incarnation := Inc(incarnation), heartbeat := Inc(heartbeat), state := Active, updatedAt := now)
    }
  }

  lemma KeyAtLeastTransitive(a: Register, b: Register, c: Register)
    requires a.KeyAtLeast(b) && b.KeyAtLeast(c)
    ensures a.KeyAtLeast(c)
  {
  }

  /** No transition lowers the order key, except reviving a Suspected or terminal register in place. */
  lemma TransitionsRaiseKey(r: Register, now: I64, address: string)
    ensures r.Suspect(now).KeyAtLeast(r)
    ensures r.GoOffline(now).KeyAtLeast(r)
    ensures r.Leave(now).KeyAtLeast(r) <==> !(r.state.Offline?)
    ensures r.BumpHeartbeat(now).KeyAtLeast(r) <==> !r.state.Suspected?
    ensures r.Refute(now).KeyAtLeast(r) <==> r.incarnation < U64_MAX || r.state.Active?
    ensures r.Rejoin(address, now).KeyAtLeast(r) <==> r.incarnation < U64_MAX || (r.state.Active? && r.heartbeat == 0)
  {
  }

  /** A merge keeps at least both keys, and one of the two (incarnation, state) pairs. */
  lemma MergeKey(a: Register, b: Register)
    ensures a.Merge(b).KeyAtLeast(a) && a.Merge(b).KeyAtLeast(b)
    ensures (a.Merge(b).incarnation == a.incarnation && a.Merge(b).state == a.state)
         || (a.Merge(b).incarnation == b.incarnation && a.Merge(b).state == b.state)
  {
  }

  /** The information order on the registers of one node. */
  predicate Below(a: Register, b: Register) {
    && a.id == b.id
    && (|| b.Dominates(a)
        || (&& a.SameKey(b)
            && StrLe(a.address, b.address)
            && MapLe(a.labels, b.labels)
            && MapLe(a.annotations, b.annotations)
            && a.updatedAt <= b.updatedAt))
  }

  lemma BelowReflexive(a: Register)
    ensures Below(a, a)
  {
    LexTotal(CharLe, a.address, a.address);
    MapLeTotal(a.labels, a.labels);
    MapLeTotal(a.annotations, a.annotations);
  }

  lemma BelowAntisymmetric(a: Register, b: Register)
    requires Below(a, b) && Below(b, a)
    ensures a == b
  {
    assert a.SameKey(b);
    LexAntisymmetric(CharLe, a.address, b.address);
    MapLeAntisymmetric(a.labels, b.labels);
    MapLeAntisymmetric(a.annotations, b.annotations);
  }

  lemma BelowTransitive(a: Register, b: Register, c: Register)
    requires Below(a, b) && Below(b, c)
    ensures Below(a, c)
  {
    if a.SameKey(b) && b.SameKey(c) {
      LexTransitive(CharLe, a.address, b.address, c.address);
      MapLeTransitive(a.labels, b.labels, c.labels);
      MapLeTransitive(a.annotations, b.annotations, c.annotations);
    }
  }

  /** Merge is an upper bound of both registers. */
  lemma MergeAbove(a: Register, b: Register)
    requires a.id == b.id
    ensures a.Merge(b).id == a.id
    ensures Below(a, a.Merge(b)) && Below(b, a.Merge(b))
  {
    BelowReflexive(a);
    BelowReflexive(b);
    LexTotal(CharLe, a.address, b.address);
    MapLeTotal(a.labels, b.labels);
    MapLeTotal(a.annotations, b.annotations);
  }

  /** ... and the least one, so it is the join of the information order. */
  lemma MergeLeast(a: Register, b: Register, c: Register)
    requires Below(a, c) && Below(b, c)
    ensures Below(a.Merge(b), c)
  {
  }

  /** Invariant I1: merge is commutative, associative and idempotent, ties included. */
  lemma MergeSemilattice(a: Register, b: Register, c: Register)
    requires a.id == b.id == c.id
    ensures a.Merge(b) == b.Merge(a)
    ensures a.Merge(a) == a
    ensures a.Merge(b).Merge(c) == a.Merge(b.Merge(c))
  {
    MergeAbove(a, b);
    MergeAbove(b, a);
    MergeLeast(a, b, b.Merge(a));
    MergeLeast(b, a, a.Merge(b));
    BelowAntisymmetric(a.Merge(b), b.Merge(a));
    MergeAbove(a, a);
    BelowReflexive(a);
    MergeLeast(a, a, a);
    BelowAntisymmetric(a, a.Merge(a));
    MergeAssociative(a, b, c);
  }

  lemma MergeAssociative(a: Register, b: Register, c: Register)
    requires a.id == b.id == c.id
    ensures a.Merge(b).Merge(c) == a.Merge(b.Merge(c))
  {
    var ab, bc := a.Merge(b), b.Merge(c);
    MergeAbove(a, b);
    MergeAbove(b, c);
    var l, r := ab.Merge(c), a.Merge(bc);
    MergeAbove(ab, c);
    MergeAbove(a, bc);
    BelowTransitive(a, ab, l);
    BelowTransitive(b, ab, l);
    BelowTransitive(b, bc, r);
    BelowTransitive(c, bc, r);
    MergeLeast(b, c, l);
    MergeLeast(a, bc, l);
    MergeLeast(a, b, r);
    MergeLeast(ab, c, r);
    BelowAntisymmetric(l, r);
  }
}

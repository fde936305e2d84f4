/**
 Which registers hash alike: the byte stream `hash_register` feeds to the
 digest, read back field by field.
 */
module RegisterStreams {
  import opened Order
  import opened Registers
  import opened Merkle

  /** Keys end at the first '=', values at the first newline. */
  predicate PlainMap(m: StrMap) {
    forall k :: k in m ==> '=' !in k && '\n' !in m[k]
  }

  /** The fields after the id keep clear of the separators that follow them in the stream. */
  predicate Plain(r: Register) {
    '\0' !in r.address && PlainMap(r.labels) && PlainMap(r.annotations)
  }

  /** The label lines followed by the annotation lines, as the stream lists them. */
  function AllEntries(r: Register): seq<Pair> { Entries(r.labels) + Entries(r.annotations) }

  // ----- reading one field -----

  lemma CutAtFirst(c: char, p: string, s: string, q: string, t: string)
    requires c !in p && c !in q && p + [c] + s == q + [c] + t
    ensures p == q && s == t
  {
    var u := p + [c] + s;
    assert u[|p|] == c && u[|q|] == c;
    assert p == u[..|p|] == q;
    assert s == u[|p| + 1..] == t;
  }

  function Pow256(n: nat): nat { if n == 0 then 1 else 256 * Pow256(n - 1) }

  lemma {:induction false} BigEndianInjective(x: nat, y: nat, n: nat)
    requires x < Pow256(n) && y < Pow256(n) && BigEndian(x, n) == BigEndian(y, n)
    ensures x == y
  {
    if n > 0 {
      var s, t := BigEndian(x, n), BigEndian(y, n);
      assert s[n - 1] == Byte(x % 256) && t[n - 1] == Byte(y % 256);
      assert BigEndian(x / 256, n - 1) == s[..n - 1] == BigEndian(y / 256, n - 1);
      BigEndianInjective(x / 256, y / 256, n - 1);
    }
  }

  lemma U64Fits(x: U64)
    ensures x < Pow256(8)
  {
    assert Pow256(4) == 0x1_0000_0000;
    assert Pow256(8) == 256 * (256 * (256 * (256 * Pow256(4))));
  }

  // ----- reading the entry lines -----

  predicate PlainPairs(s: seq<Pair>) {
    forall i :: 0 <= i < |s| ==> '=' !in s[i].0 && '\n' !in s[i].1
  }

  lemma FirstLine(s: seq<Pair>)
    requires s != []
    ensures EntryLines(s) == s[0].0 + ['='] + (s[0].1 + ['\n'] + EntryLines(s[1..]))
  {
  }

  lemma {:induction false} LinesInjective(s: seq<Pair>, t: seq<Pair>)
    requires PlainPairs(s) && PlainPairs(t) && EntryLines(s) == EntryLines(t)
    ensures s == t
    decreases |s|
  {
    if s != [] { FirstLine(s); }
    if t != [] { FirstLine(t); }
    if s != [] && t != [] {
      var u, v := s[0].1 + ['\n'] + EntryLines(s[1..]), t[0].1 + ['\n'] + EntryLines(t[1..]);
      CutAtFirst('=', s[0].0, u, t[0].0, v);
      CutAtFirst('\n', s[0].1, EntryLines(s[1..]), t[0].1, EntryLines(t[1..]));
      LinesInjective(s[1..], t[1..]);
      assert s == [s[0]] + s[1..] && t == [t[0]] + t[1..];
    }
  }

  lemma {:induction false} LinesAppend(s: seq<Pair>, t: seq<Pair>)
    ensures EntryLines(s + t) == EntryLines(s) + EntryLines(t)
    decreases |s|
  {
    if s == [] {
      assert s + t == t;
    } else {
      LinesAppend(s[1..], t);
      assert (s + t)[1..] == s[1..] + t;
      FirstLine(s);
      FirstLine(s + t);
    }
  }

  lemma PlainEntries(r: Register)
    requires PlainMap(r.labels) && PlainMap(r.annotations)
    ensures PlainPairs(AllEntries(r))
  {
  }

  // ----- reading a whole register -----

  /** The stream after the id: address, state, incarnation, entries. */
  function Rest(r: Register): string {
    r.address + ['\0'] + Tail(r)
  }

  lemma StreamShape(r: Register)
    ensures RegisterStream(r) == "L" + (r.id + ['\0'] + Rest(r))
  {
    LinesAppend(Entries(r.labels), Entries(r.annotations));
    Reassociate("L", r.id, "\0", r.address, "\0", [Byte(r.state.Rank())], BigEndian(r.incarnation, 8),
                EntryLines(Entries(r.labels)), EntryLines(Entries(r.annotations)));
  }

  lemma Reassociate(a: string, b: string, c: string, d: string, e: string, f: string, g: string, h: string, i: string)
    ensures a + b + c + d + e + f + g + h + i == a + (b + c + (d + e + (f + g + (h + i))))
  {
  }

  /** Everything the stream tells apart. */
  predicate SameHashed(a: Register, b: Register) {
    && a.id == b.id && a.address == b.address && a.state == b.state && a.incarnation == b.incarnation
    && AllEntries(a) == AllEntries(b)
  }

  /** The stream after the address. */
  function Tail(r: Register): string {
    [Byte(r.state.Rank())] + BigEndian(r.incarnation, 8) + EntryLines(AllEntries(r))
  }

  lemma TailParts(r: Register)
    ensures |Tail(r)| >= 9
    ensures Tail(r)[0] == Byte(r.state.Rank())
    ensures Tail(r)[1..9] == BigEndian(r.incarnation, 8)
    ensures Tail(r)[9..] == EntryLines(AllEntries(r))
  {
  }

  lemma TailExactly(a: Register, b: Register)
    requires Plain(a) && Plain(b) && Tail(a) == Tail(b)
    ensures a.state == b.state && a.incarnation == b.incarnation && AllEntries(a) == AllEntries(b)
  {
    TailParts(a);
    TailParts(b);
    U64Fits(a.incarnation);
    U64Fits(b.incarnation);
    BigEndianInjective(a.incarnation, b.incarnation, 8);
    PlainEntries(a);
    PlainEntries(b);
    LinesInjective(AllEntries(a), AllEntries(b));
  }

  lemma RestExactly(a: Register, b: Register)
    requires Plain(a) && Plain(b) && Rest(a) == Rest(b)
    ensures a.address == b.address && a.state == b.state && a.incarnation == b.incarnation && AllEntries(a) == AllEntries(b)
  {
    CutAtFirst('\0', a.address, Tail(a), b.address, Tail(b));
    TailExactly(a, b);
  }

  /**
   Exactly which registers the hash cannot tell apart: those equal in id,
   address, state and incarnation whose labels followed by annotations list the
   same entries. For registers of one node the id may hold anything.
   */
  lemma StreamsExactly(a: Register, b: Register)
    requires a.id == b.id || ('\0' !in a.id && '\0' !in b.id)
    requires Plain(a) && Plain(b)
    ensures RegisterStream(a) == RegisterStream(b) <==> SameHashed(a, b)
  {
    StreamShape(a);
    StreamShape(b);
    if RegisterStream(a) == RegisterStream(b) {
      var ta, tb := a.id + ['\0'] + Rest(a), b.id + ['\0'] + Rest(b);
      assert ta == RegisterStream(a)[1..] == RegisterStream(b)[1..] == tb;
      if a.id == b.id {
        assert Rest(a) == ta[|a.id| + 1..] == tb[|b.id| + 1..] == Rest(b);
      } else {
        CutAtFirst('\0', a.id, Rest(a), b.id, Rest(b));
      }
      RestExactly(a, b);
    }
  }

  lemma OneEntry(k: string, v: string)
    ensures Entries(map[k := v]) == [(k, v)]
  {
    var m: StrMap := map[k := v];
    EntriesSize(m);
    assert m.Keys == {k};
    assert Entries(m)[0].0 in m;
  }

  /** Without that care the stream can be split in several ways: two different label maps, one stream. */
  lemma SeparatorsCollide(r: Register)
    ensures RegisterStream(r.(labels := map["a=b" := "c"])) == RegisterStream(r.(labels := map["a" := "b=c"]))
    ensures !SameHashed(r.(labels := map["a=b" := "c"]), r.(labels := map["a" := "b=c"]))
  {
    OneEntry("a=b", "c");
    OneEntry("a", "b=c");
    FirstLine([("a=b", "c")]);
    FirstLine([("a", "b=c")]);
    assert EntryLines([("a=b", "c")]) == "a=b=c\n" == EntryLines([("a", "b=c")]);
    assert (([("a=b", "c")] + Entries(r.annotations))[0]) != (([("a", "b=c")] + Entries(r.annotations))[0]);
  }

  lemma {:induction false} SortedSize(s: seq<string>)
    requires StrictlySorted(s)
    ensures |s| == |Elems(s)|
    decreases |s|
  {
    if s != [] {
      TailElems(s);
      SortedSize(s[1..]);
    }
  }

  lemma EntriesSize(m: StrMap)
    ensures |Entries(m)| == |m|
  {
    SortedSize(SortedSeq(m.Keys));
    assert Elems(SortedSeq(m.Keys)) == m.Keys;
  }

  /** Of two registers that hash alike, the maps are equal too exactly when both have the same number of labels. */
  lemma SameLabelsExactly(a: Register, b: Register)
    requires SameHashed(a, b)
    ensures a.labels == b.labels && a.annotations == b.annotations <==> |a.labels| == |b.labels|
  {
    EntriesSize(a.labels);
    EntriesSize(b.labels);
    if |a.labels| == |b.labels| {
      var n := |a.labels|;
      assert Entries(a.labels) == AllEntries(a)[..n] == AllEntries(b)[..n] == Entries(b.labels);
      assert Entries(a.annotations) == AllEntries(a)[n..] == AllEntries(b)[n..] == Entries(b.annotations);
      EntriesInjective(a.labels, b.labels);
      EntriesInjective(a.annotations, b.annotations);
    }
  }
}

/**
 Total orders used by the membership crate: Rust's ordering of strings, of
 `(String, String)` pairs and of vectors of such pairs, all lexicographic, and
 the canonical sorted enumeration of a finite set of ids.
 */
module Order {

  ghost predicate TotalOrder<T(!new)>(le: (T, T) -> bool) {
    && (forall x, y :: le(x, y) || le(y, x))
    && (forall x, y :: le(x, y) && le(y, x) ==> x == y)
    && (forall x, y, z :: le(x, y) && le(y, z) ==> le(x, z))
  }

  /** Lexicographic order on sequences; a proper prefix comes first. */
  predicate Lex<T(==)>(le: (T, T) -> bool, a: seq<T>, b: seq<T>) {
    if a == [] then true
    else if b == [] then false
    else if a[0] == b[0] then Lex(le, a[1..], b[1..])
    else le(a[0], b[0])
  }

  lemma {:induction false} LexTotal<T(!new)>(le: (T, T) -> bool, a: seq<T>, b: seq<T>)
    requires TotalOrder(le)
    ensures Lex(le, a, b) || Lex(le, b, a)
  {
    if a != [] && b != [] && a[0] == b[0] {
      LexTotal(le, a[1..], b[1..]);
    }
  }

  lemma {:induction false} LexAntisymmetric<T(!new)>(le: (T, T) -> bool, a: seq<T>, b: seq<T>)
    requires TotalOrder(le)
    requires Lex(le, a, b) && Lex(le, b, a)
    ensures a == b
  {
    if a != [] && b != [] {
      assert a[0] == b[0];
      LexAntisymmetric(le, a[1..], b[1..]);
      assert a == [a[0]] + a[1..] && b == [b[0]] + b[1..];
    }
  }

  lemma {:induction false} LexTransitive<T(!new)>(le: (T, T) -> bool, a: seq<T>, b: seq<T>, c: seq<T>)
    requires TotalOrder(le)
    requires Lex(le, a, b) && Lex(le, b, c)
    ensures Lex(le, a, c)
  {
    if a != [] {
      if a[0] == b[0] && b[0] == c[0] {
        LexTransitive(le, a[1..], b[1..], c[1..]);
      }
    }
  }

  // ----- strings -----

  predicate CharLe(x: char, y: char) { x <= y }

  /** Rust's `str` order (code points compare like their UTF-8 encodings). */
  predicate StrLe(a: string, b: string) { Lex(CharLe, a, b) }

  predicate StrLt(a: string, b: string) { StrLe(a, b) && a != b }

  lemma StrLeTotalOrder()
    ensures TotalOrder(StrLe)
  {
    forall a: string, b: string
      ensures StrLe(a, b) || StrLe(b, a)
      ensures StrLe(a, b) && StrLe(b, a) ==> a == b
    {
      LexTotal(CharLe, a, b);
      if StrLe(a, b) && StrLe(b, a) { LexAntisymmetric(CharLe, a, b); }
    }
    forall a: string, b: string, c: string | StrLe(a, b) && StrLe(b, c) ensures StrLe(a, c) {
      LexTransitive(CharLe, a, b, c);
    }
  }

  // ----- pairs, and maps compared through their sorted entries -----

  type Pair = (string, string)

  predicate PairLe(p: Pair, q: Pair) {
    if p.0 == q.0 then StrLe(p.1, q.1) else StrLe(p.0, q.0)
  }

  lemma PairLeTotalOrder()
    ensures TotalOrder(PairLe)
  {
    StrLeTotalOrder();
  }

  // ----- sorted enumeration of a finite set of strings -----

  predicate StrictlySorted(s: seq<string>) {
    forall i, j :: 0 <= i < j < |s| ==> StrLt(s[i], s[j])
  }

  function Elems<T>(s: seq<T>): set<T> { set x | x in s }

  predicate IsLeast(x: string, ids: set<string>) {
    x in ids && forall y :: y in ids ==> StrLe(x, y)
  }

  lemma {:induction false} LeastExists(ids: set<string>) returns (x: string)
    requires ids != {}
    ensures IsLeast(x, ids)
  {
    var c :| c in ids;
    var rest := ids - {c};
    LexTotal(CharLe, c, c);
    assert forall y :: y in ids ==> y == c || y in rest;
    if rest == {} {
      return c;
    }
    var z := LeastExists(rest);
    LexTotal(CharLe, c, z);
    if StrLe(c, z) {
      forall y | y in rest ensures StrLe(c, y) { LexTransitive(CharLe, c, z, y); }
      x := c;
    } else {
      x := z;
    }
  }

  /** The ids of a set in increasing order. */
  function SortedSeq(ids: set<string>): (s: seq<string>)
    ensures StrictlySorted(s)
    ensures Elems(s) == ids
  {
    if ids == {} then []
    else
      LeastUnique(ids);
      var least :| least in ids && IsLeast(least, ids);
      PrependLeast(least, ids, SortedSeq(ids - {least}));
      [least] + SortedSeq(ids - {least})
  }

  lemma LeastUnique(ids: set<string>)
    requires ids != {}
    ensures exists x :: x in ids && IsLeast(x, ids)
    ensures forall x, y :: IsLeast(x, ids) && IsLeast(y, ids) ==> x == y
  {
    var z := LeastExists(ids);
    forall x, y | IsLeast(x, ids) && IsLeast(y, ids) ensures x == y { LexAntisymmetric(CharLe, x, y); }
  }

  lemma PrependLeast(x: string, ids: set<string>, rest: seq<string>)
    requires IsLeast(x, ids) && StrictlySorted(rest) && Elems(rest) == ids - {x}
    ensures StrictlySorted([x] + rest) && Elems([x] + rest) == ids
  {
    assert forall i :: 0 <= i < |rest| ==> rest[i] in Elems(rest);
    assert forall y :: y in [x] + rest <==> y == x || y in Elems(rest);
  }

  lemma {:induction false} SortedUnique(s: seq<string>, t: seq<string>)
    requires StrictlySorted(s) && StrictlySorted(t)
    requires Elems(s) == Elems(t)
    ensures s == t
  {
    StrLeTotalOrder();
    assert s == [] <==> Elems(s) == {} by { assert s != [] ==> s[0] in Elems(s); }
    assert t == [] <==> Elems(t) == {} by { assert t != [] ==> t[0] in Elems(t); }
    if s != [] {
      assert s[0] in Elems(t);
      assert t[0] in Elems(s);
      HeadIsLeast(s, t[0]);
      HeadIsLeast(t, s[0]);
      assert s[0] == t[0];
      TailElems(s);
      TailElems(t);
      SortedUnique(s[1..], t[1..]);
      assert s == [s[0]] + s[1..] && t == [t[0]] + t[1..];
    }
  }

  lemma HeadIsLeast(s: seq<string>, x: string)
    requires StrictlySorted(s) && x in s
    ensures StrLe(s[0], x)
  {
    StrLeTotalOrder();
    var i :| 0 <= i < |s| && s[i] == x;
    if i > 0 { assert StrLt(s[0], s[i]); }
  }

  lemma TailElems(s: seq<string>)
    requires StrictlySorted(s) && s != []
    ensures Elems(s[1..]) == Elems(s) - {s[0]}
  {
    assert s == [s[0]] + s[1..];
    forall x | x in s[1..] ensures x != s[0] {
      var i :| 0 <= i < |s[1..]| && s[1..][i] == x;
      assert StrLt(s[0], s[i + 1]);
    }
  }

  /**
   `Vec::sort` followed by `Vec::dedup`: the strictly increasing enumeration of
   the elements, whatever their order and multiplicity were.
   */
  method SortDedup(s: seq<string>) returns (r: seq<string>)
    ensures r == SortedSeq(Elems(s))
  {
    r := [];
    for k := 0 to |s|
      invariant StrictlySorted(r)
      invariant Elems(r) == Elems(s[..k])
    {
      r := InsertSorted(r, s[k]);
      assert s[..k + 1] == s[..k] + [s[k]];
    }
    assert s[..|s|] == s;
    SortedUnique(r, SortedSeq(Elems(s)));
  }

  method InsertSorted(s: seq<string>, x: string) returns (r: seq<string>)
    requires StrictlySorted(s)
    ensures StrictlySorted(r)
    ensures Elems(r) == Elems(s) + {x}
  {
    var i := 0;
    while i < |s| && StrLt(s[i], x)
      invariant 0 <= i <= |s|
      invariant forall k :: 0 <= k < i ==> StrLt(s[k], x)
    {
      i := i + 1;
    }
    if i < |s| && s[i] == x {
      r := s;
      assert x in Elems(s);
    } else {
      forall k | i <= k < |s| ensures StrLt(x, s[k]) {
        LexTotal(CharLe, x, s[i]);
        if k > i {
          StrLtTransitive(x, s[i], s[k]);
        }
      }
      r := InsertAt(s, x, i);
    }
  }

  function InsertAt(s: seq<string>, x: string, i: nat): (r: seq<string>)
    requires i <= |s| && StrictlySorted(s)
    requires forall k :: 0 <= k < i ==> StrLt(s[k], x)
    requires forall k :: i <= k < |s| ==> StrLt(x, s[k])
    ensures StrictlySorted(r) && Elems(r) == Elems(s) + {x}
  {
    assert s == s[..i] + s[i..];
    s[..i] + [x] + s[i..]
  }

  lemma StrLtTransitive(a: string, b: string, c: string)
    requires StrLt(a, b) && StrLt(b, c)
    ensures StrLt(a, c)
  {
    LexTransitive(CharLe, a, b, c);
    if a == c { LexAntisymmetric(CharLe, a, b); }
  }

  lemma StrLtThenLe(a: string, b: string, c: string)
    requires StrLt(a, b) && StrLe(b, c)
    ensures StrLt(a, c)
  {
    LexTransitive(CharLe, a, b, c);
    if a == c { LexAntisymmetric(CharLe, a, b); }
  }

  // ----- maps compared through their key-sorted entries -----

  type StrMap = map<string, string>

  /** The entries of a map in key order, as `canonical_map_cmp` sorts them. */
  function Entries(m: StrMap): (s: seq<Pair>)
    ensures |s| == |SortedSeq(m.Keys)|
    ensures forall i :: 0 <= i < |s| ==> s[i].0 == SortedSeq(m.Keys)[i]
    ensures forall i :: 0 <= i < |s| ==> s[i].0 in m && s[i].1 == m[s[i].0]
  {
    var keys := SortedSeq(m.Keys);
    assert forall i :: 0 <= i < |keys| ==> keys[i] in Elems(keys);
    seq(|keys|, i requires 0 <= i < |keys| => (keys[i], m[keys[i]]))
  }

  lemma EntriesInjective(a: StrMap, b: StrMap)
    requires Entries(a) == Entries(b)
    ensures a == b
  {
    var ka, kb := SortedSeq(a.Keys), SortedSeq(b.Keys);
    assert |ka| == |Entries(a)| && |kb| == |Entries(b)|;
    assert forall i :: 0 <= i < |ka| ==> ka[i] == Entries(a)[i].0 == kb[i];
    assert ka == kb;
    assert a.Keys == Elems(ka) == Elems(kb) == b.Keys;
    forall k | k in a ensures a[k] == b[k] {
      assert k in Elems(ka);
      var i :| 0 <= i < |ka| && ka[i] == k;
      assert Entries(a)[i].1 == Entries(b)[i].1;
    }
  }

  /** `canonical_map_cmp(a, b) != Greater`. */
  predicate MapLe(a: StrMap, b: StrMap) {
    Lex(PairLe, Entries(a), Entries(b))
  }

  lemma MapLeTotal(a: StrMap, b: StrMap)
    ensures MapLe(a, b) || MapLe(b, a)
  {
    PairLeTotalOrder();
    LexTotal(PairLe, Entries(a), Entries(b));
  }

  lemma MapLeAntisymmetric(a: StrMap, b: StrMap)
    requires MapLe(a, b) && MapLe(b, a)
    ensures a == b
  {
    PairLeTotalOrder();
    LexAntisymmetric(PairLe, Entries(a), Entries(b));
    EntriesInjective(a, b);
  }

  lemma MapLeTransitive(a: StrMap, b: StrMap, c: StrMap)
    requires MapLe(a, b) && MapLe(b, c)
    ensures MapLe(a, c)
  {
    PairLeTotalOrder();
    LexTransitive(PairLe, Entries(a), Entries(b), Entries(c));
  }
}

/** Enumerations of finite sets, and the two ways of putting byte slices in order. */
module Order {
  import opened Bytes

  // ---- enumerations ----

  ghost predicate Distinct<K>(o: seq<K>) {
    forall i, j :: 0 <= i < j < |o| ==> o[i] != o[j]
  }

  /** `o` lists every element of `s` once. */
  ghost predicate Enumerates<K>(o: seq<K>, s: set<K>) {
    Distinct(o) && (forall x :: x in s ==> x in o) && (forall x :: x in o ==> x in s)
  }

  lemma {:induction false} EnumerationLength<K>(o: seq<K>, s: set<K>)
    requires Enumerates(o, s)
    ensures |o| == |s|
    decreases |o|
  {
    if o == [] {
      assert s == {};
    } else {
      EnumerationTail(o, s);
      EnumerationLength(o[1..], s - {o[0]});
    }
  }

  lemma EnumerationTail<K>(o: seq<K>, s: set<K>)
    requires Enumerates(o, s) && o != []
    ensures Enumerates(o[1..], s - {o[0]})
  {
    assert forall x :: x in o ==> x == o[0] || x in o[1..];
  }

  /** What a map assigns to the keys of a list, in the order of the list. */
  function Pick<K>(o: seq<K>, m: map<K, bytes>): (slices: seq<bytes>)
    requires forall x :: x in o ==> x in m
    ensures |slices| == |o| && forall i :: 0 <= i < |o| ==> slices[i] == m[o[i]]
  {
    seq(|o|, i requires 0 <= i < |o| => m[o[i]])
  }

  // ---- ordering keys by what they encode to ----

  ghost predicate IsLeast<K>(ek: map<K, bytes>, k: K) {
    k in ek && forall j :: j in ek ==> !Less(ek[j], ek[k])
  }

  lemma {:induction false} FindLeast<K>(ek: map<K, bytes>) returns (k: K)
    requires |ek| > 0
    ensures IsLeast(ek, k)
    decreases |ek|
  {
    k :| k in ek;
    LessIrreflexive(ek[k]);
    if |ek| > 1 {
      var rest := ek - {k};
      assert rest.Keys == ek.Keys - {k};
      var m := FindLeast(rest);
      assert forall j :: j in ek ==> j == k || j in rest;
      if Less(ek[m], ek[k]) {
        LessAsymmetric(ek[m], ek[k]);
        k := m;
      } else {
        forall j | j in rest ensures !Less(ek[j], ek[k]) {
          if Less(ek[j], ek[k]) { LessTotal(ek[m], ek[k]); if Less(ek[k], ek[m]) { LessTransitive(ek[j], ek[k], ek[m]); } }
        }
      }
    } else {
      assert forall j :: j in ek ==> j == k by {
        assert |ek.Keys - {k}| == 0;
        assert forall j :: j in ek && j != k ==> j in ek.Keys - {k};
      }
    }
  }

  lemma LeastExists<K>(ek: map<K, bytes>)
    requires |ek| > 0
    ensures exists k :: IsLeast(ek, k)
  {
    var k := FindLeast(ek);
  }

  ghost predicate Ordered<K>(o: seq<K>, ek: map<K, bytes>)
    requires forall x :: x in o ==> x in ek
  {
    forall i, j :: 0 <= i < j < |o| ==> !Less(ek[o[j]], ek[o[i]])
  }

  lemma LeastFirst<K>(ek: map<K, bytes>, k: K, o: seq<K>)
    requires IsLeast(ek, k)
    requires Enumerates(o, (ek - {k}).Keys) && Ordered(o, ek - {k})
    ensures Enumerates([k] + o, ek.Keys) && Ordered([k] + o, ek)
  {
    var p := [k] + o;
    assert (ek - {k}).Keys == ek.Keys - {k};
    forall x | x in ek ensures x in p {
      if x == k { assert p[0] == x; } else { assert x in o; }
    }
  }

  /** The keys of `ek` by increasing value. */
  ghost function OrderBy<K(!new)>(ek: map<K, bytes>): (o: seq<K>)
    ensures Enumerates(o, ek.Keys)
    ensures Ordered(o, ek)
    decreases |ek|
  {
    if |ek| == 0 then
      assert ek.Keys == {}; []
    else
      LeastExists(ek);
      var k :| IsLeast(ek, k);
      var o := OrderBy(ek - {k});
      LeastFirst(ek, k, o);
      [k] + o
  }

  ghost predicate Increasing<K>(o: seq<K>, ek: map<K, bytes>)
    requires forall x :: x in o ==> x in ek
  {
    forall i, j :: 0 <= i < j < |o| ==> Less(ek[o[i]], ek[o[j]])
  }

  /** A strictly increasing enumeration is the ordering. */
  lemma {:induction false} OrderByUnique<K(!new)>(ek: map<K, bytes>, o: seq<K>)
    requires Enumerates(o, ek.Keys) && Increasing(o, ek)
    ensures OrderBy(ek) == o
    decreases |o|
  {
    hide OrderBy, Increasing, Enumerates, Ordered, Less;
    EnumerationLength(o, ek.Keys);
    EnumerationLength(OrderBy(ek), ek.Keys);
    if o == [] {
      assert OrderBy(ek) == [];
    } else {
      SameHead(ek, o, OrderBy(ek));
      OrderByTail(ek);
      IncreasingTail(ek, o);
      OrderByUnique(ek - {o[0]}, o[1..]);
      assert OrderBy(ek) == [o[0]] + OrderBy(ek)[1..];
    }
  }

  lemma IncreasingTail<K>(ek: map<K, bytes>, o: seq<K>)
    requires Enumerates(o, ek.Keys) && Increasing(o, ek) && o != []
    ensures Enumerates(o[1..], (ek - {o[0]}).Keys) && Increasing(o[1..], ek - {o[0]})
  {
    assert (ek - {o[0]}).Keys == ek.Keys - {o[0]};
    EnumerationTail(o, ek.Keys);
  }

  lemma SameHead<K>(ek: map<K, bytes>, o: seq<K>, p: seq<K>)
    requires Enumerates(o, ek.Keys) && Increasing(o, ek) && o != []
    requires Enumerates(p, ek.Keys) && p != []
    requires Ordered(p, ek)
    ensures o[0] == p[0]
  {
    assert p[0] in o && o[0] in p;
    var i :| 0 <= i < |o| && o[i] == p[0];
    var j :| 0 <= j < |p| && p[j] == o[0];
  }

  lemma OrderByTail<K(!new)>(ek: map<K, bytes>)
    requires |ek| > 0
    ensures OrderBy(ek) != [] && OrderBy(ek)[1..] == OrderBy(ek - {OrderBy(ek)[0]})
  {
  }

  // ---- sorting slices (std::sort with std::lexicographical_compare) ----

  ghost predicate Sorted(s: seq<bytes>) {
    forall i, j :: 0 <= i < j < |s| ==> !Less(s[j], s[i])
  }

  function Insert(x: bytes, s: seq<bytes>): (r: seq<bytes>)
    ensures multiset(r) == multiset(s) + multiset{x}
    ensures Sorted(s) ==> Sorted(r)
  {
    if s == [] then [x]
    else if !Less(s[0], x) then
      InsertFront(x, s); [x] + s
    else
      InsertLater(x, s, Insert(x, s[1..]));
      [s[0]] + Insert(x, s[1..])
  }

  lemma InsertFront(x: bytes, s: seq<bytes>)
    requires s != [] && !Less(s[0], x)
    ensures Sorted(s) ==> Sorted([x] + s)
  {
    if Sorted(s) {
      forall j | 0 <= j < |s| ensures !Less(s[j], x) {
        if Less(s[j], x) {
          LessTotal(x, s[0]);
          if Less(x, s[0]) { LessTransitive(s[j], x, s[0]); }
        }
      }
    }
  }

  lemma InsertLater(x: bytes, s: seq<bytes>, r: seq<bytes>)
    requires s != [] && Less(s[0], x)
    requires multiset(r) == multiset(s[1..]) + multiset{x} && (Sorted(s[1..]) ==> Sorted(r))
    ensures multiset([s[0]] + r) == multiset(s) + multiset{x}
    ensures Sorted(s) ==> Sorted([s[0]] + r)
  {
    assert s == [s[0]] + s[1..];
    LessAsymmetric(s[0], x);
    if Sorted(s) {
      forall j | 0 <= j < |r| ensures !Less(r[j], s[0]) {
        assert r[j] in multiset(r);
        assert r[j] == x || r[j] in multiset(s[1..]);
        if r[j] != x { assert r[j] in s[1..]; }
      }
    }
  }

  function SortSlices(s: seq<bytes>): (r: seq<bytes>)
    ensures multiset(r) == multiset(s) && Sorted(r)
  {
    if s == [] then [] else
      assert s == [s[0]] + s[1..];
      Insert(s[0], SortSlices(s[1..]))
  }

  /** A list has only one sorted arrangement. */
  lemma {:induction false} SortedUnique(a: seq<bytes>, b: seq<bytes>)
    requires Sorted(a) && Sorted(b) && multiset(a) == multiset(b)
    ensures a == b
  {
    hide Less;
    assert |a| == |multiset(a)| == |b|;
    if a != [] {
      SortedHead(a, b);
      SortedHead(b, a);
      LessTotal(a[0], b[0]);
      assert a == [a[0]] + a[1..] && b == [b[0]] + b[1..];
      assert multiset(a[1..]) == multiset(a) - multiset{a[0]};
      assert multiset(b[1..]) == multiset(b) - multiset{b[0]};
      SortedUnique(a[1..], b[1..]);
    }
  }

  lemma SortedHead(a: seq<bytes>, b: seq<bytes>)
    requires Sorted(a) && a != [] && b != [] && multiset(a) == multiset(b)
    ensures !Less(b[0], a[0])
  {
    assert b[0] in multiset(a);
    var j :| 0 <= j < |a| && a[j] == b[0];
    LessIrreflexive(a[0]);
  }

  /** Two enumerations of one set pick the same slices, up to order. */
  lemma {:induction false} PickPermutes<K>(o: seq<K>, p: seq<K>, s: set<K>, m: map<K, bytes>)
    requires Enumerates(o, s) && Enumerates(p, s) && s <= m.Keys
    ensures multiset(Pick(o, m)) == multiset(Pick(p, m))
    decreases |o|
  {
    hide Pick, Enumerates;
    EnumeratesWithin(o, s);
    EnumeratesWithin(p, s);
    EnumerationLength(o, s);
    EnumerationLength(p, s);
    if o != [] {
      var x := o[0];
      var j := Locate(o, p, s);
      EnumerationTail(o, s);
      EnumerationWithout(p, s, j);
      PickPermutes(o[1..], p[..j] + p[j + 1..], s - {x}, m);
      PickWithout(p, j, m);
      PickWithout(o, 0, m);
      assert o[..0] + o[1..] == o[1..];
    }
  }

  lemma EnumeratesWithin<K>(o: seq<K>, s: set<K>)
    requires Enumerates(o, s)
    ensures forall x :: x in o ==> x in s
  {
  }

  /** Where the head of one enumeration stands in another. */
  lemma Locate<K>(o: seq<K>, p: seq<K>, s: set<K>) returns (j: nat)
    requires Enumerates(o, s) && Enumerates(p, s) && o != []
    ensures j < |p| && p[j] == o[0]
  {
    assert o[0] in o;
    assert o[0] in s;
    j :| 0 <= j < |p| && p[j] == o[0];
  }

  lemma PickWithout<K>(p: seq<K>, j: nat, m: map<K, bytes>)
    requires j < |p| && forall x :: x in p ==> x in m
    ensures forall x :: x in p[..j] + p[j + 1..] ==> x in m
    ensures multiset(Pick(p, m)) == multiset(Pick(p[..j] + p[j + 1..], m)) + multiset{m[p[j]]}
  {
    var a, b := Pick(p[..j], m), Pick(p[j + 1..], m);
    assert Pick(p, m) == a + [m[p[j]]] + b;
    assert Pick(p[..j] + p[j + 1..], m) == a + b;
  }

  lemma EnumerationWithout<K>(p: seq<K>, s: set<K>, j: nat)
    requires Enumerates(p, s) && j < |p|
    ensures Enumerates(p[..j] + p[j + 1..], s - {p[j]})
  {
    var p' := p[..j] + p[j + 1..];
    forall x | x in s && x != p[j] ensures x in p' {
      var i :| 0 <= i < |p| && p[i] == x;
      assert p'[if i < j then i else i - 1] == x;
    }
    forall a, b | 0 <= a < b < |p'| ensures p'[a] != p'[b] {
      assert p'[a] == p[if a < j then a else a + 1];
      assert p'[b] == p[if b < j then b else b + 1];
    }
    forall x | x in p' ensures x in s && x != p[j] {
      var i :| 0 <= i < |p'| && p'[i] == x;
      assert x == p[if i < j then i else i + 1];
    }
  }
}

/** Two values of one type never have encodings of which one begins the other. */
module PrefixFree {
  import opened Bytes
  import opened Order
  import opened Leb128
  import opened Values

  lemma Regroup(a: bytes, b: bytes, r: bytes)
    ensures (a + b) + r == a + (b + r)
  {
  }

  lemma LEUnique(w: nat, m: nat, r: bytes, n: nat, s: bytes)
    requires m < Pow256(w) && n < Pow256(w)
    requires ToLE(w, m) + r == ToLE(w, n) + s
    ensures m == n && r == s
  {
    var bs := ToLE(w, m) + r;
    assert bs[..w] == ToLE(w, m) && bs[w..] == r;
    assert bs == ToLE(w, n) + s;
    assert bs[..w] == ToLE(w, n) && bs[w..] == s;
    FromToLE(w, m);
    FromToLE(w, n);
  }

  lemma StrUnique(c: bytes, r: bytes, d: bytes, s: bytes)
    requires (Uleb(|c|) + c) + r == (Uleb(|d|) + d) + s
    ensures c == d && r == s
  {
    Regroup(Uleb(|c|), c, r);
    Regroup(Uleb(|d|), d, s);
    UlebUnique(|c|, c + r, |d|, d + s);
    assert (c + r)[..|c|] == c && (c + r)[|c|..] == r;
    assert (d + s)[..|d|] == d && (d + s)[|d|..] == s;
  }

  /**
    * Unique parsing: if an encoding followed by anything equals another encoding of the
    * same type followed by anything, the values and the followers are the same. No bound
    * on lengths, depth or string contents is needed.
    */
  lemma {:induction false} Unique(g: Grammar, t: Type, v: Value, r: bytes, w: Value, s: bytes)
    requires WellTyped(g, t, v) && WellTyped(g, t, w)
    requires Enc(v) + r == Enc(w) + s
    ensures v == w && r == s
    decreases v, 1, 0
  {
    match t
    case TUnit => assert [] + r == r && [] + s == s;
    case TBool =>
      assert (Enc(v) + r)[0] == Enc(v)[0] && (Enc(w) + s)[0] == Enc(w)[0];
      assert (Enc(v) + r)[1..] == r && (Enc(w) + s)[1..] == s;
    case TUInt(width) => LEUnique(width.Size(), v.n, r, w.n, s);
    case TStr => StrUnique(v.chars, r, w.chars, s);
    case TOption(e) => UniqueOption(g, e, v, r, w, s);
    case TPair(a, b) =>
      Regroup(Enc(v.fst), Enc(v.snd), r);
      Regroup(Enc(w.fst), Enc(w.snd), s);
      Unique(g, a, v.fst, Enc(v.snd) + r, w.fst, Enc(w.snd) + s);
      Unique(g, b, v.snd, r, w.snd, s);
    case TVec(e) =>
      Regroup(Uleb(|v.items|), EncItems(v.items), r);
      Regroup(Uleb(|w.items|), EncItems(w.items), s);
      UlebUnique(|v.items|, EncItems(v.items) + r, |w.items|, EncItems(w.items) + s);
      UniqueItems(g, e, v.items, r, w.items, s);
    case TArr(e, n) => UniqueItems(g, e, v.items, r, w.items, s);
    case TMap(_, _) => UniqueMap(g, t, v, r, w, s);
    case TEnum(cases) =>
      Regroup(Uleb(v.index), Enc(v.payload), r);
      Regroup(Uleb(w.index), Enc(w.payload), s);
      UlebUnique(v.index, Enc(v.payload) + r, w.index, Enc(w.payload) + s);
      Unique(g, cases[v.index], v.payload, r, w.payload, s);
    case TStruct(body) => Unique(g, body, v.body, r, w.body, s);
    case TRef(name) => Unique(g, BodyOf(g, name), v.body, r, w.body, s);
  }

  lemma {:induction false} UniqueOption(g: Grammar, e: Type, v: Value, r: bytes, w: Value, s: bytes)
    requires WellTyped(g, TOption(e), v) && WellTyped(g, TOption(e), w)
    requires Enc(v) + r == Enc(w) + s
    ensures v == w && r == s
    decreases v, 0, 0
  {
    hide Enc;
    var x, y := if v.Some? then v.item else Unit, if w.Some? then w.item else Unit;
    EncOption(x);
    EncOption(y);
    assert (Enc(v) + r)[0] == Enc(v)[0] && (Enc(w) + s)[0] == Enc(w)[0];
    if v.None? {
      assert (Enc(v) + r)[1..] == r && (Enc(w) + s)[1..] == s;
    } else {
      assert (Enc(v) + r)[1..] == Enc(x) + r && (Enc(w) + s)[1..] == Enc(y) + s;
      Unique(g, e, x, r, y, s);
    }
  }

  lemma {:induction false} UniqueItems(g: Grammar, e: Type, xs: seq<Value>, r: bytes, ys: seq<Value>, s: bytes)
    requires forall i :: 0 <= i < |xs| ==> WellTyped(g, e, xs[i])
    requires forall i :: 0 <= i < |ys| ==> WellTyped(g, e, ys[i])
    requires |xs| == |ys| && EncItems(xs) + r == EncItems(ys) + s
    ensures xs == ys && r == s
    decreases xs, 1, 0
  {
    if xs == [] {
      assert [] + r == r && [] + s == s;
    } else {
      Regroup(Enc(xs[0]), EncItems(xs[1..]), r);
      Regroup(Enc(ys[0]), EncItems(ys[1..]), s);
      Unique(g, e, xs[0], EncItems(xs[1..]) + r, ys[0], EncItems(ys[1..]) + s);
      UniqueItems(g, e, xs[1..], r, ys[1..], s);
      assert xs == [xs[0]] + xs[1..] && ys == [ys[0]] + ys[1..];
    }
  }

  lemma {:induction false} UniqueMap(g: Grammar, t: Type, v: Value, r: bytes, w: Value, s: bytes)
    requires t.TMap? && WellTyped(g, t, v) && WellTyped(g, t, w)
    requires Enc(v) + r == Enc(w) + s
    ensures v == w && r == s
    decreases v, 0, |v.entries| + 1
  {
    var m, n := v.entries, w.entries;
    var o, p := CanonicalKeys(m), CanonicalKeys(n);
    EncMapThen(m, r);
    EncMapThen(n, s);
    UlebUnique(|m|, EncEntries(m, o) + r, |n|, EncEntries(n, p) + s);
    UniqueEntries(g, t, v, o, r, w, p, s);
    SameMap(m, n, o);
  }

  lemma SameMap(m: map<Value, Value>, n: map<Value, Value>, o: seq<Value>)
    requires Enumerates(o, m.Keys) && Enumerates(o, n.Keys)
    requires forall k :: k in o ==> m[k] == n[k]
    ensures m == n
  {
    assert forall k :: k in m <==> k in o;
    assert forall k :: k in n <==> k in o;
  }

  lemma EncMapThen(m: map<Value, Value>, r: bytes)
    ensures Enc(Map(m)) + r == Uleb(|m|) + (EncEntries(m, CanonicalKeys(m)) + r)
  {
    EncMap(m);
    Regroup(Uleb(|m|), EncEntries(m, CanonicalKeys(m)), r);
  }

  /** Entries listed in any order, of the same number, are parsed in only one way. */
  lemma {:induction false} UniqueEntries(g: Grammar, t: Type, v: Value, o: seq<Value>, r: bytes,
                                         w: Value, p: seq<Value>, s: bytes)
    requires t.TMap? && v.Map? && w.Map? && WellTyped(g, t, v) && WellTyped(g, t, w)
    requires (forall k :: k in o ==> k in v.entries) && (forall k :: k in p ==> k in w.entries)
    requires |o| == |p| && EncEntries(v.entries, o) + r == EncEntries(w.entries, p) + s
    ensures o == p && r == s
    ensures forall k :: k in o ==> v.entries[k] == w.entries[k]
    decreases v, 0, |o|
  {
    hide Enc, EncEntries, WellTyped;
    var m, n := v.entries, w.entries;
    if o == [] {
      EncNoEntries(m, o);
      EncNoEntries(n, p);
      assert [] + r == r && [] + s == s;
    } else {
      EntryHead(g, t, v, o, r);
      EntryHead(g, t, w, p, s);
      var a, b := EncEntries(m, o[1..]) + r, EncEntries(n, p[1..]) + s;
      Unique(g, t.key, o[0], Enc(m[o[0]]) + a, p[0], Enc(n[p[0]]) + b);
      Unique(g, t.val, m[o[0]], a, n[p[0]], b);
      UniqueEntries(g, t, v, o[1..], r, w, p[1..], s);
      SameKeys(m, o, n, p);
    }
  }

  lemma SameKeys(m: map<Value, Value>, o: seq<Value>, n: map<Value, Value>, p: seq<Value>)
    requires o != [] && p != [] && o[0] == p[0] && o[1..] == p[1..]
    requires (forall k :: k in o ==> k in m) && (forall k :: k in p ==> k in n)
    requires m[o[0]] == n[o[0]] && forall k :: k in o[1..] ==> m[k] == n[k]
    ensures o == p && forall k :: k in o ==> m[k] == n[k]
  {
    assert o == [o[0]] + o[1..] && p == [p[0]] + p[1..];
  }

  /** The first entry of a list, of its types, and what follows it. */
  lemma EntryHead(g: Grammar, t: Type, v: Value, o: seq<Value>, r: bytes)
    requires t.TMap? && WellTyped(g, t, v) && o != [] && forall k :: k in o ==> k in v.entries
    ensures o[0] in v.entries && WellTyped(g, t.key, o[0]) && WellTyped(g, t.val, v.entries[o[0]])
    ensures EncEntries(v.entries, o) + r
            == Enc(o[0]) + (Enc(v.entries[o[0]]) + (EncEntries(v.entries, o[1..]) + r))
  {
    hide Enc, EncEntries;
    var m := v.entries;
    assert o[0] in m;
    EncEntriesStep(m, o);
    Regroup(Enc(o[0]), Enc(m[o[0]]) + EncEntries(m, o[1..]), r);
    Regroup(Enc(m[o[0]]), EncEntries(m, o[1..]), r);
  }

  /** Different values of one type: neither encoding begins the other. */
  lemma NeitherBegins(g: Grammar, t: Type, v: Value, w: Value)
    requires WellTyped(g, t, v) && WellTyped(g, t, w) && v != w
    ensures !(Enc(v) <= Enc(w)) && !(Enc(w) <= Enc(v))
  {
    hide Enc, WellTyped;
    if Enc(v) <= Enc(w) {
      Unique(g, t, v, Enc(w)[|Enc(v)|..], w, []);
    }
    if Enc(w) <= Enc(v) {
      Unique(g, t, w, Enc(v)[|Enc(w)|..], v, []);
    }
  }

  /** In canonical order the encoded keys of a map strictly increase. */
  lemma CanonicalKeysIncrease(g: Grammar, t: Type, m: map<Value, Value>)
    requires t.TMap? && WellTyped(g, t, Map(m))
    ensures Increasing(CanonicalKeys(m), KeyBytes(m))
  {
    var o := CanonicalKeys(m);
    forall i, j | 0 <= i < j < |o| ensures Less(KeyBytes(m)[o[i]], KeyBytes(m)[o[j]]) {
      assert o[i] in m && o[j] in m;
      NeitherBegins(g, t.key, o[i], o[j]);
      LessTotal(Enc(o[i]), Enc(o[j]));
    }
  }

  /**
    * Sorting the whole entries of a map, listed in any order, gives the entries in the
    * order of their encoded keys.
    */
  lemma SortedEntries(g: Grammar, t: Type, m: map<Value, Value>, o: seq<Value>)
    requires t.TMap? && WellTyped(g, t, Map(m)) && Enumerates(o, m.Keys)
    ensures SortSlices(Pick(o, EntryBytes(m))) == Pick(CanonicalKeys(m), EntryBytes(m))
  {
    var p := CanonicalKeys(m);
    var slices := Pick(p, EntryBytes(m));
    CanonicalKeysIncrease(g, t, m);
    forall i, j | 0 <= i < j < |p| ensures !Less(slices[j], slices[i]) {
      assert p[i] in m && p[j] in m;
      assert Less(KeyBytes(m)[p[i]], KeyBytes(m)[p[j]]);
      NeitherBegins(g, t.key, p[i], p[j]);
      LessExtends(Enc(p[i]), Enc(p[j]), Enc(m[p[i]]), Enc(m[p[j]]));
      LessAsymmetric(slices[i], slices[j]);
    }
    PickPermutes(o, p, m.Keys, EntryBytes(m));
    SortedUnique(SortSlices(Pick(o, EntryBytes(m))), slices);
  }
}

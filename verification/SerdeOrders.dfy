/**
  * What BcsSerde writes depends on the order in which std::map iterates, and on nothing else.
  *
  * Two orders give the same bytes exactly when they agree on every map inside the value.
  * The canonical codec is the case in which one of them is the order of the encoded keys.
  */
module SerdeOrders {
  import opened Bytes
  import opened Order
  import opened Leb128
  import opened Values
  import opened PrefixFree
  import opened Serializing
  import opened Serde

  /** The two orders list the keys of every map inside `v` alike. */
  ghost predicate SameOrder(ord: KeyOrder, ord': KeyOrder, v: Value)
    decreases v
  {
    match v
    case Some(x) => SameOrder(ord, ord', x)
    case Pair(x, y) => SameOrder(ord, ord', x) && SameOrder(ord, ord', y)
    case Vec(items) => forall i :: 0 <= i < |items| ==> SameOrder(ord, ord', items[i])
    case Arr(items) => forall i :: 0 <= i < |items| ==> SameOrder(ord, ord', items[i])
    case Map(m) =>
      && ord(m.Keys) == ord'(m.Keys)
      && forall k :: k in m ==> SameOrder(ord, ord', k) && SameOrder(ord, ord', m[k])
    case Variant(_, x) => SameOrder(ord, ord', x)
    case Struct(x) => SameOrder(ord, ord', x)
    case _ => true
  }

  lemma MapSameOrder(ord: KeyOrder, ord': KeyOrder, m: map<Value, Value>)
    ensures SameOrder(ord, ord', Map(m))
       <==> && ord(m.Keys) == ord'(m.Keys)
            && forall k :: k in m ==> SameOrder(ord, ord', k) && SameOrder(ord, ord', m[k])
  {
  }

  // ---- orders that agree write the same bytes ----

  lemma {:induction false} SameOrderWrites(ord: KeyOrder, ord': KeyOrder, v: Value)
    requires IsOrder(ord) && IsOrder(ord') && SameOrder(ord, ord', v)
    ensures Write(ord, v) == Write(ord', v)
    decreases v, 1, 0
  {
    hide IsOrder;
    match v
    case Some(x) => SameOrderWrites(ord, ord', x);
    case Pair(x, y) =>
      SameOrderWrites(ord, ord', x);
      SameOrderWrites(ord, ord', y);
    case Vec(items) => SameOrderItems(ord, ord', items);
    case Arr(items) => SameOrderItems(ord, ord', items);
    case Map(m) => SameOrderMap(ord, ord', v);
    case Variant(_, x) => SameOrderWrites(ord, ord', x);
    case Struct(x) => SameOrderWrites(ord, ord', x);
    case _ =>
  }

  lemma {:induction false} SameOrderItems(ord: KeyOrder, ord': KeyOrder, xs: seq<Value>)
    requires IsOrder(ord) && IsOrder(ord') && forall i :: 0 <= i < |xs| ==> SameOrder(ord, ord', xs[i])
    ensures WriteItems(ord, xs) == WriteItems(ord', xs)
    decreases xs, 1, 0
  {
    hide Write, SameOrder, IsOrder;
    if xs != [] {
      SameOrderWrites(ord, ord', xs[0]);
      SameOrderItems(ord, ord', xs[1..]);
    }
  }

  lemma {:induction false} SameOrderMap(ord: KeyOrder, ord': KeyOrder, v: Value)
    requires IsOrder(ord) && IsOrder(ord') && v.Map? && SameOrder(ord, ord', v)
    ensures Write(ord, v) == Write(ord', v)
    decreases v, 0, |v.entries| + 1
  {
    hide *;
    var m := v.entries;
    MapSameOrder(ord, ord', m);
    WriteMapUnfolds(ord, m);
    WriteMapUnfolds(ord', m);
    OrderLists(ord, m.Keys);
    EnumerationLength(ord(m.Keys), m.Keys);
    SameOrderEntries(ord, ord', v, ord(m.Keys));
  }

  lemma {:induction false} SameOrderEntries(ord: KeyOrder, ord': KeyOrder, v: Value, o: seq<Value>)
    requires IsOrder(ord) && IsOrder(ord') && v.Map? && forall k :: k in o ==> k in v.entries
    requires forall k :: k in v.entries ==> SameOrder(ord, ord', k) && SameOrder(ord, ord', v.entries[k])
    ensures WriteEntries(ord, v, o) == WriteEntries(ord', v, o)
    decreases v, 0, |o|
  {
    hide Write, SameOrder, IsOrder;
    if o != [] {
      assert o[0] in v.entries;
      SameOrderWrites(ord, ord', o[0]);
      SameOrderWrites(ord, ord', v.entries[o[0]]);
      SameOrderEntries(ord, ord', v, o[1..]);
    }
  }

  // ---- orders that write the same bytes agree ----

  /**
    * Unique parsing across orders: if what one order writes, followed by anything, equals
    * what another writes for a value of the same type, followed by anything, then the
    * values and the followers are the same, and the orders agree on every map inside.
    */
  lemma {:induction false} UniqueAcross(ord: KeyOrder, ord': KeyOrder, g: Grammar, t: Type,
                                        v: Value, r: bytes, w: Value, s: bytes)
    requires IsOrder(ord) && IsOrder(ord') && WellTyped(g, t, v) && WellTyped(g, t, w)
    requires Write(ord, v) + r == Write(ord', w) + s
    ensures v == w && r == s && SameOrder(ord, ord', v)
    decreases v, 1, 0
  {
    hide *;
    match t
    case TOption(_) => AcrossOption(ord, ord', g, t, v, r, w, s);
    case TPair(_, _) => AcrossPair(ord, ord', g, t, v, r, w, s);
    case TVec(_) => AcrossVec(ord, ord', g, t, v, r, w, s);
    case TArr(_, _) => AcrossArr(ord, ord', g, t, v, r, w, s);
    case TMap(_, _) => AcrossMap(ord, ord', g, t, v, r, w, s);
    case TEnum(_) => AcrossEnum(ord, ord', g, t, v, r, w, s);
    case TStruct(_) => AcrossStruct(ord, ord', g, t, v, r, w, s);
    case TRef(_) => AcrossStruct(ord, ord', g, t, v, r, w, s);
    case _ => AcrossScalar(ord, ord', g, t, v, r, w, s);
  }

  lemma AcrossScalar(ord: KeyOrder, ord': KeyOrder, g: Grammar, t: Type, v: Value, r: bytes, w: Value, s: bytes)
    requires t.TUnit? || t.TBool? || t.TUInt? || t.TStr?
    requires IsOrder(ord) && IsOrder(ord') && WellTyped(g, t, v) && WellTyped(g, t, w)
    requires Write(ord, v) + r == Write(ord', w) + s
    ensures v == w && r == s && SameOrder(ord, ord', v)
  {
    assert Enc(v) == Write(ord, v) && Enc(w) == Write(ord', w);
    hide Enc, Write;
    Unique(g, t, v, r, w, s);
  }

  lemma {:induction false} AcrossOption(ord: KeyOrder, ord': KeyOrder, g: Grammar, t: Type,
                                        v: Value, r: bytes, w: Value, s: bytes)
    requires t.TOption? && IsOrder(ord) && IsOrder(ord') && WellTyped(g, t, v) && WellTyped(g, t, w)
    requires Write(ord, v) + r == Write(ord', w) + s
    ensures v == w && r == s && SameOrder(ord, ord', v)
    decreases v, 0, 0
  {
    hide IsOrder;
    var a, b := Write(ord, v), Write(ord', w);
    assert (a + r)[0] == a[0] && (b + s)[0] == b[0];
    assert v.Some? <==> w.Some?;
    if v.None? {
      assert (a + r)[1..] == r && (b + s)[1..] == s;
    } else {
      assert (a + r)[1..] == Write(ord, v.item) + r && (b + s)[1..] == Write(ord', w.item) + s;
      UniqueAcross(ord, ord', g, t.elem, v.item, r, w.item, s);
    }
  }

  lemma {:induction false} AcrossPair(ord: KeyOrder, ord': KeyOrder, g: Grammar, t: Type,
                                      v: Value, r: bytes, w: Value, s: bytes)
    requires t.TPair? && IsOrder(ord) && IsOrder(ord') && WellTyped(g, t, v) && WellTyped(g, t, w)
    requires Write(ord, v) + r == Write(ord', w) + s
    ensures v == w && r == s && SameOrder(ord, ord', v)
    decreases v, 0, 0
  {
    hide IsOrder;
    var y, y' := Write(ord, v.snd), Write(ord', w.snd);
    Regroup(Write(ord, v.fst), y, r);
    Regroup(Write(ord', w.fst), y', s);
    UniqueAcross(ord, ord', g, t.fst, v.fst, y + r, w.fst, y' + s);
    UniqueAcross(ord, ord', g, t.snd, v.snd, r, w.snd, s);
  }

  lemma {:induction false} AcrossVec(ord: KeyOrder, ord': KeyOrder, g: Grammar, t: Type,
                                     v: Value, r: bytes, w: Value, s: bytes)
    requires t.TVec? && IsOrder(ord) && IsOrder(ord') && WellTyped(g, t, v) && WellTyped(g, t, w)
    requires Write(ord, v) + r == Write(ord', w) + s
    ensures v == w && r == s && SameOrder(ord, ord', v)
    decreases v, 0, 0
  {
    hide IsOrder, WriteItems, Uleb;
    var a, b := WriteItems(ord, v.items), WriteItems(ord', w.items);
    Regroup(Uleb(|v.items|), a, r);
    Regroup(Uleb(|w.items|), b, s);
    UlebUnique(|v.items|, a + r, |w.items|, b + s);
    AcrossItems(ord, ord', g, t.elem, v.items, r, w.items, s);
  }

  lemma {:induction false} AcrossArr(ord: KeyOrder, ord': KeyOrder, g: Grammar, t: Type,
                                     v: Value, r: bytes, w: Value, s: bytes)
    requires t.TArr? && IsOrder(ord) && IsOrder(ord') && WellTyped(g, t, v) && WellTyped(g, t, w)
    requires Write(ord, v) + r == Write(ord', w) + s
    ensures v == w && r == s && SameOrder(ord, ord', v)
    decreases v, 0, 0
  {
    hide IsOrder, WriteItems;
    AcrossItems(ord, ord', g, t.elem, v.items, r, w.items, s);
  }

  lemma {:induction false} AcrossEnum(ord: KeyOrder, ord': KeyOrder, g: Grammar, t: Type,
                                      v: Value, r: bytes, w: Value, s: bytes)
    requires t.TEnum? && IsOrder(ord) && IsOrder(ord') && WellTyped(g, t, v) && WellTyped(g, t, w)
    requires Write(ord, v) + r == Write(ord', w) + s
    ensures v == w && r == s && SameOrder(ord, ord', v)
    decreases v, 0, 0
  {
    hide IsOrder, Uleb;
    var a, b := Write(ord, v.payload), Write(ord', w.payload);
    Regroup(Uleb(v.index), a, r);
    Regroup(Uleb(w.index), b, s);
    UlebUnique(v.index, a + r, w.index, b + s);
    UniqueAcross(ord, ord', g, t.cases[v.index], v.payload, r, w.payload, s);
  }

  lemma {:induction false} AcrossStruct(ord: KeyOrder, ord': KeyOrder, g: Grammar, t: Type,
                                        v: Value, r: bytes, w: Value, s: bytes)
    requires (t.TStruct? || t.TRef?) && IsOrder(ord) && IsOrder(ord') && WellTyped(g, t, v) && WellTyped(g, t, w)
    requires Write(ord, v) + r == Write(ord', w) + s
    ensures v == w && r == s && SameOrder(ord, ord', v)
    decreases v, 0, 0
  {
    hide IsOrder;
    UniqueAcross(ord, ord', g, if t.TStruct? then t.body else BodyOf(g, t.name), v.body, r, w.body, s);
  }

  lemma {:induction false} AcrossItems(ord: KeyOrder, ord': KeyOrder, g: Grammar, e: Type,
                                       xs: seq<Value>, r: bytes, ys: seq<Value>, s: bytes)
    requires IsOrder(ord) && IsOrder(ord') && |xs| == |ys|
    requires forall i :: 0 <= i < |xs| ==> WellTyped(g, e, xs[i])
    requires forall i :: 0 <= i < |ys| ==> WellTyped(g, e, ys[i])
    requires WriteItems(ord, xs) + r == WriteItems(ord', ys) + s
    ensures xs == ys && r == s && forall i :: 0 <= i < |xs| ==> SameOrder(ord, ord', xs[i])
    decreases xs, 1, 0
  {
    hide IsOrder, Write, WellTyped, SameOrder;
    if xs == [] {
      assert [] + r == r && [] + s == s;
    } else {
      var a, b := WriteItems(ord, xs[1..]), WriteItems(ord', ys[1..]);
      Regroup(Write(ord, xs[0]), a, r);
      Regroup(Write(ord', ys[0]), b, s);
      UniqueAcross(ord, ord', g, e, xs[0], a + r, ys[0], b + s);
      AcrossItems(ord, ord', g, e, xs[1..], r, ys[1..], s);
      assert xs == [xs[0]] + xs[1..] && ys == [ys[0]] + ys[1..];
    }
  }

  lemma {:induction false} AcrossMap(ord: KeyOrder, ord': KeyOrder, g: Grammar, t: Type,
                                     v: Value, r: bytes, w: Value, s: bytes)
    requires t.TMap? && IsOrder(ord) && IsOrder(ord') && WellTyped(g, t, v) && WellTyped(g, t, w)
    requires Write(ord, v) + r == Write(ord', w) + s
    ensures v == w && r == s && SameOrder(ord, ord', v)
    decreases v, 0, if v.Map? then |v.entries| + 1 else 0
  {
    assert v.Map? && w.Map?;
    hide *;
    var m, n := v.entries, w.entries;
    var o, p := ord(m.Keys), ord'(n.Keys);
    OrderLists(ord, m.Keys);
    OrderLists(ord', n.Keys);
    WriteMapUnfolds(ord, m);
    WriteMapUnfolds(ord', n);
    var a, b := WriteEntries(ord, v, o), WriteEntries(ord', w, p);
    Regroup(Uleb(|m|), a, r);
    Regroup(Uleb(|n|), b, s);
    UlebUnique(|m|, a + r, |n|, b + s);
    EnumerationLength(o, m.Keys);
    EnumerationLength(p, n.Keys);
    AcrossEntries(ord, ord', g, t, v, o, r, w, p, s);
    SameMap(m, n, o);
    MapSameOrder(ord, ord', m);
  }

  lemma {:induction false} AcrossEntries(ord: KeyOrder, ord': KeyOrder, g: Grammar, t: Type,
                                         v: Value, o: seq<Value>, r: bytes, w: Value, p: seq<Value>, s: bytes)
    requires IsOrder(ord) && IsOrder(ord') && t.TMap? && v.Map? && w.Map? && WellTyped(g, t, v) && WellTyped(g, t, w)
    requires (forall k :: k in o ==> k in v.entries) && (forall k :: k in p ==> k in w.entries)
    requires |o| == |p| && WriteEntries(ord, v, o) + r == WriteEntries(ord', w, p) + s
    ensures o == p && r == s
    ensures forall k :: k in o ==> v.entries[k] == w.entries[k]
    ensures forall k :: k in o ==> SameOrder(ord, ord', k) && SameOrder(ord, ord', v.entries[k])
    decreases v, 0, |o|
  {
    hide IsOrder, Write, WellTyped, SameOrder;
    if o == [] {
      assert [] + r == r && [] + s == s;
    } else {
      assert o[0] in v.entries && p[0] in w.entries;
      var x, y := v.entries[o[0]], w.entries[p[0]];
      MapTyped(g, t, v, o[0]);
      MapTyped(g, t, w, p[0]);
      var a, b := WriteEntries(ord, v, o[1..]) + r, WriteEntries(ord', w, p[1..]) + s;
      WriteEntriesAhead(ord, v, o, r);
      WriteEntriesAhead(ord', w, p, s);
      hide WriteEntries;
      UniqueAcross(ord, ord', g, t.key, o[0], Write(ord, x) + a, p[0], Write(ord', y) + b);
      UniqueAcross(ord, ord', g, t.val, x, a, y, b);
      AcrossEntries(ord, ord', g, t, v, o[1..], r, w, p[1..], s);
      assert o == [o[0]] + o[1..] && p == [p[0]] + p[1..];
    }
  }

  lemma WriteEntriesAhead(ord: KeyOrder, v: Value, o: seq<Value>, r: bytes)
    requires IsOrder(ord) && v.Map? && o != [] && forall k :: k in o ==> k in v.entries
    ensures WriteEntries(ord, v, o) + r
            == Write(ord, o[0]) + (Write(ord, v.entries[o[0]]) + (WriteEntries(ord, v, o[1..]) + r))
  {
    hide IsOrder, Write;
    assert o[0] in v.entries;
  }

  // ---- the two codecs ----

  /** Two orders write the same bytes for a value exactly when they agree on every map inside it. */
  lemma WritesAgreeExactly(ord: KeyOrder, ord': KeyOrder, g: Grammar, t: Type, v: Value)
    requires IsOrder(ord) && IsOrder(ord') && WellTyped(g, t, v)
    ensures Write(ord, v) == Write(ord', v) <==> SameOrder(ord, ord', v)
  {
    hide *;
    if Write(ord, v) == Write(ord', v) {
      UniqueAcross(ord, ord', g, t, v, [], v, []);
    }
    if SameOrder(ord, ord', v) {
      SameOrderWrites(ord, ord', v);
    }
  }

  /**
    * The two codecs write the same bytes exactly when std::map happens to iterate in the
    * order of the encoded keys, in every map inside the value.
    */
  lemma MapsAgreeExactly(ord: KeyOrder, g: Grammar, t: Type, v: Value)
    requires IsOrder(ord) && WellTyped(g, t, v)
    ensures Write(ord, v) == Enc(v) <==> SameOrder(ord, CanonicalOrder(), v)
  {
    hide *;
    CanonicalIsWritten(v);
    WritesAgreeExactly(ord, CanonicalOrder(), g, t, v);
  }

  /** What `SameOrder` asks of one map when the other order is the canonical one. */
  lemma CanonicalMapOrder(ord: KeyOrder, m: map<Value, Value>)
    requires SameOrder(ord, CanonicalOrder(), Map(m))
    ensures ord(m.Keys) == CanonicalKeys(m)
  {
    hide *;
    MapSameOrder(ord, CanonicalOrder(), m);
    CanonicalKeysOrder(m);
  }

  ghost predicate MapFree(v: Value)
    decreases v
  {
    match v
    case Map(_) => false
    case Some(x) => MapFree(x)
    case Pair(x, y) => MapFree(x) && MapFree(y)
    case Vec(items) => forall i :: 0 <= i < |items| ==> MapFree(items[i])
    case Arr(items) => forall i :: 0 <= i < |items| ==> MapFree(items[i])
    case Variant(_, x) => MapFree(x)
    case Struct(x) => MapFree(x)
    case _ => true
  }

  lemma {:induction false} MapFreeAgrees(ord: KeyOrder, ord': KeyOrder, v: Value)
    requires MapFree(v)
    ensures SameOrder(ord, ord', v)
    decreases v
  {
    match v
    case Some(x) => MapFreeAgrees(ord, ord', x);
    case Pair(x, y) =>
      MapFreeAgrees(ord, ord', x);
      MapFreeAgrees(ord, ord', y);
    case Vec(items) => forall i | 0 <= i < |items| ensures SameOrder(ord, ord', items[i]) { MapFreeAgrees(ord, ord', items[i]); }
    case Arr(items) => forall i | 0 <= i < |items| ensures SameOrder(ord, ord', items[i]) { MapFreeAgrees(ord, ord', items[i]); }
    case Variant(_, x) => MapFreeAgrees(ord, ord', x);
    case Struct(x) => MapFreeAgrees(ord, ord', x);
    case _ =>
  }

  /**
    * Whenever the canonical codec writes a value, BcsSerde writes the same bytes exactly
    * when it iterates every map inside in canonical order; without maps it always does.
    */
  lemma EncodersAgree(ord: KeyOrder, ord': KeyOrder, g: Grammar, t: Type, v: Value, b: nat)
    requires IsOrder(ord) && IsOrder(ord') && WellTyped(g, t, v) && Ser(ord, v, b).Done?
    ensures Ser(ord, v, b) == Done(Write(ord', v)) <==> SameOrder(ord', CanonicalOrder(), v)
    ensures MapFree(v) ==> Ser(ord, v, b) == Done(Write(ord', v))
  {
    hide Ser, Write, Enc, MapFree, WellTyped, Fits, SameOrder, CanonicalOrder, IsOrder;
    SerExactly(ord, g, t, v, b);
    MapsAgreeExactly(ord', g, t, v);
    if MapFree(v) { MapFreeAgrees(ord', CanonicalOrder(), v); }
  }

  /**
    * They do not always: 16-bit keys iterate by value, 1 before 256, while their encodings
    * 01 00 and 00 01 come in the opposite order.
    */
  lemma NumericOrderDiffers(ord: KeyOrder, one: Value, many: Value, m: map<Value, Value>)
    requires IsOrder(ord) && one == UInt(W16, 1) && many == UInt(W16, 256)
    requires m == map[one := Bool(true), many := Bool(true)] && ord(m.Keys) == [one, many]
    ensures WellTyped(map[], TMap(TUInt(W16), TBool), Map(m))
    ensures Write(ord, Map(m)) != Enc(Map(m))
  {
    var t := TMap(TUInt(W16), TBool);
    TwoKeysTyped(one, many, m);
    TwoKeysOrder(one, many, m);
    hide *;
    MapsAgreeExactly(ord, map[], t, Map(m));
    assert [one, many][0] != [many, one][0];
    if SameOrder(ord, CanonicalOrder(), Map(m)) { CanonicalMapOrder(ord, m); }
  }

  /** There is such an order, so the two codecs do differ. */
  lemma NumericOrderExists(one: Value, many: Value, m: map<Value, Value>) returns (ord: KeyOrder)
    requires one == UInt(W16, 1) && many == UInt(W16, 256)
    requires m == map[one := Bool(true), many := Bool(true)]
    ensures IsOrder(ord) && Write(ord, Map(m)) != Enc(Map(m))
  {
    hide Write, Enc, WellTyped, IsOrder;
    assert m.Keys == {one, many};
    assert Enumerates([one, many], m.Keys);
    ord := AnyListing(m.Keys, [one, many]);
    NumericOrderDiffers(ord, one, many, m);
  }

  lemma TwoKeysTyped(one: Value, many: Value, m: map<Value, Value>)
    requires one == UInt(W16, 1) && many == UInt(W16, 256)
    requires m == map[one := Bool(true), many := Bool(true)]
    ensures WellTyped(map[], TMap(TUInt(W16), TBool), Map(m))
  {
    assert Pow256(1) == 0x100;
    assert Pow256(2) == 0x1_0000;
    forall k | k in m ensures WellTyped(map[], TUInt(W16), k) && WellTyped(map[], TBool, m[k]) {
      assert k == one || k == many;
    }
  }

  lemma TwoKeysOrder(one: Value, many: Value, m: map<Value, Value>)
    requires one == UInt(W16, 1) && many == UInt(W16, 256)
    requires m == map[one := Bool(true), many := Bool(true)]
    ensures CanonicalKeys(m) == [many, one]
  {
    var o := [many, one];
    TwoKeysEncoded(one, many);
    hide Enc, Less;
    assert forall x :: x in o <==> x == one || x == many;
    assert KeyBytes(m).Keys == {one, many};
    assert Enumerates(o, KeyBytes(m).Keys);
    assert KeyBytes(m)[one] == Enc(one) && KeyBytes(m)[many] == Enc(many);
    assert Increasing(o, KeyBytes(m));
    hide *;
    OrderByUnique(KeyBytes(m), o);
    CanonicalKeysAre(m);
  }

  lemma TwoKeysEncoded(one: Value, many: Value)
    requires one == UInt(W16, 1) && many == UInt(W16, 256)
    ensures Less(Enc(many), Enc(one))
  {
    assert ToLE(1, 0) == [0] && ToLE(1, 1) == [1];
    assert ToLE(2, 1) == [1, 0] && ToLE(2, 256) == [0, 1];
    assert Enc(one) == [1, 0] && Enc(many) == [0, 1];
    assert Less([0, 1], [1, 0]);
  }

  lemma CanonicalKeysAre(m: map<Value, Value>)
    ensures CanonicalKeys(m) == OrderBy(KeyBytes(m))
  {
    hide OrderBy, KeyBytes, Enc;
  }
}

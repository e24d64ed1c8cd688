/**
  * What the canonical serializer computes, step by step: fields in order, maps entry by
  * entry in the order in which std::map iterates and then sorted by whole entry, the
  * first failing check reported. It agrees with the reference encoding on every value.
  */
module Serializing {
  import opened Bytes
  import opened Order
  import opened Leb128
  import opened Values
  import opened PrefixFree

  /** How std::map iterates: one enumeration for every set of keys. */
  type KeyOrder = set<Value> -> seq<Value>

  ghost predicate IsOrder(ord: KeyOrder) {
    forall s: set<Value> :: Enumerates(ord(s), s)
  }

  function SerLen(n: nat): (r: Outcome<bytes>)
    ensures r == if n <= 0x7FFF_FFFF then Done(Uleb(n)) else Thrown(LengthTooLarge)
  {
    if n > MAX_LENGTH then Thrown(LengthTooLarge) else Done(Uleb(n))
  }

  /** One part after another; the first failure wins. */
  function Follow(a: Outcome<bytes>, b: Outcome<bytes>): (r: Outcome<bytes>) {
    match a
    case Thrown(e) => Thrown(e)
    case Done(x) =>
      match b
      case Thrown(e) => Thrown(e)
      case Done(y) => Done(x + y)
  }

  /** The bytes appended for `v` under budget `b`. */
  function Ser(ord: KeyOrder, v: Value, b: nat): (r: Outcome<bytes>)
    requires IsOrder(ord)
    decreases v, 1, 0
  {
    match v
    case Unit => Done([])
    case Bool(x) => Done([if x then 1 else 0])
    case UInt(w, n) => Done(ToLE(w.Size(), n))
    case Str(chars) => Follow(SerLen(|chars|), Done(chars))
    case None => Done([0])
    case Some(x) => Follow(Done([1]), Ser(ord, x, b))
    case Pair(x, y) => Follow(Ser(ord, x, b), Ser(ord, y, b))
    case Vec(items) => Follow(SerLen(|items|), SerItems(ord, items, b))
    case Arr(items) => SerItems(ord, items, b)
    case Map(m) =>
      var o := ord(m.Keys);
      assert Enumerates(o, m.Keys);
      (match SerEntries(ord, v, o, b)
       case Thrown(e) => Follow(SerLen(|m|), Thrown(e))
       case Done(slices) => Follow(SerLen(|m|), Done(Join(SortSlices(slices)))))
    case Variant(i, x) => Follow(Done(Uleb(i)), Ser(ord, x, b))
    case Struct(x) => if b == 0 then Thrown(TooManyContainers) else Ser(ord, x, b - 1)
  }

  function SerItems(ord: KeyOrder, items: seq<Value>, b: nat): (r: Outcome<bytes>)
    requires IsOrder(ord)
    decreases items, 1, 0
  {
    if items == [] then Done([])
    else Follow(Ser(ord, items[0], b), SerItems(ord, items[1..], b))
  }

  /** The slices of the entries of the keys `o`, each key followed by its value. */
  function SerEntries(ord: KeyOrder, v: Value, o: seq<Value>, b: nat): (r: Outcome<seq<bytes>>)
    requires IsOrder(ord)
    requires v.Map? && forall k :: k in o ==> k in v.entries
    decreases v, 0, |o|
  {
    if o == [] then Done([])
    else
      assert o[0] in v.entries;
      match Follow(Ser(ord, o[0], b), Ser(ord, v.entries[o[0]], b))
      case Thrown(e) => Thrown(e)
      case Done(slice) =>
        match SerEntries(ord, v, o[1..], b)
        case Thrown(e) => Thrown(e)
        case Done(slices) => Done([slice] + slices)
  }

  // ---- when it succeeds, and with what ----

  /** The serializer's answer is right: success exactly within the limits, with the reference bytes. */
  ghost predicate Faithful(r: Outcome<bytes>, fits: bool, bs: bytes) {
    (r.Done? <==> fits) && (r.Done? ==> r.value == bs)
  }

  /**
    * For every value of a type and every iteration order, serialization succeeds exactly
    * when the lengths and the struct depth are within the limits, and then writes the
    * reference encoding.
    */
  lemma {:induction false} SerExactly(ord: KeyOrder, g: Grammar, t: Type, v: Value, b: nat)
    requires IsOrder(ord) && WellTyped(g, t, v)
    ensures Faithful(Ser(ord, v, b), Fits(v, b, false), Enc(v))
    decreases v, 1, 0
  {
    hide *;
    match t
    case TOption(_) => SerOptionExactly(ord, g, t, v, b);
    case TPair(_, _) => SerPairExactly(ord, g, t, v, b);
    case TVec(_) => SerListExactly(ord, g, t, v, b);
    case TArr(_, _) => SerListExactly(ord, g, t, v, b);
    case TMap(_, _) => SerMapExactly(ord, g, t, v, b);
    case TEnum(_) => SerEnumExactly(ord, g, t, v, b);
    case TStruct(_) => SerStructExactly(ord, g, t, v, b);
    case TRef(_) => SerStructExactly(ord, g, t, v, b);
    case _ => SerScalarExactly(ord, g, t, v, b);
  }

  lemma SerScalarExactly(ord: KeyOrder, g: Grammar, t: Type, v: Value, b: nat)
    requires (t.TUnit? || t.TBool? || t.TUInt? || t.TStr?) && IsOrder(ord) && WellTyped(g, t, v)
    ensures Faithful(Ser(ord, v, b), Fits(v, b, false), Enc(v))
  {
    hide IsOrder, ToLE, Uleb;
  }

  lemma {:induction false} SerOptionExactly(ord: KeyOrder, g: Grammar, t: Type, v: Value, b: nat)
    requires t.TOption? && IsOrder(ord) && WellTyped(g, t, v)
    ensures Faithful(Ser(ord, v, b), Fits(v, b, false), Enc(v))
    decreases v, 0, 0
  {
    hide IsOrder;
    if v.Some? { SerExactly(ord, g, t.elem, v.item, b); }
  }

  lemma {:induction false} SerPairExactly(ord: KeyOrder, g: Grammar, t: Type, v: Value, b: nat)
    requires t.TPair? && IsOrder(ord) && WellTyped(g, t, v)
    ensures Faithful(Ser(ord, v, b), Fits(v, b, false), Enc(v))
    decreases v, 0, 0
  {
    hide IsOrder;
    SerExactly(ord, g, t.fst, v.fst, b);
    SerExactly(ord, g, t.snd, v.snd, b);
  }

  lemma {:induction false} SerListExactly(ord: KeyOrder, g: Grammar, t: Type, v: Value, b: nat)
    requires (t.TVec? || t.TArr?) && IsOrder(ord) && WellTyped(g, t, v)
    ensures Faithful(Ser(ord, v, b), Fits(v, b, false), Enc(v))
    decreases v, 0, 0
  {
    hide IsOrder, SerItems, EncItems, Uleb;
    SerItemsExactly(ord, g, t.elem, v.items, b);
  }

  lemma {:induction false} SerEnumExactly(ord: KeyOrder, g: Grammar, t: Type, v: Value, b: nat)
    requires t.TEnum? && IsOrder(ord) && WellTyped(g, t, v)
    ensures Faithful(Ser(ord, v, b), Fits(v, b, false), Enc(v))
    decreases v, 0, 0
  {
    hide IsOrder, Uleb;
    SerExactly(ord, g, t.cases[v.index], v.payload, b);
  }

  lemma {:induction false} SerStructExactly(ord: KeyOrder, g: Grammar, t: Type, v: Value, b: nat)
    requires (t.TStruct? || t.TRef?) && IsOrder(ord) && WellTyped(g, t, v)
    ensures Faithful(Ser(ord, v, b), Fits(v, b, false), Enc(v))
    decreases v, 0, 0
  {
    hide Ser, Fits, Enc, WellTyped, IsOrder;
    var body := if t.TStruct? then t.body else BodyOf(g, t.name);
    StructBody(g, t, v);
    SerStruct(ord, v.body, b);
    FitsStruct(v.body, b, false);
    EncStruct(v.body);
    if b > 0 { SerExactly(ord, g, body, v.body, b - 1); }
  }

  lemma StructBody(g: Grammar, t: Type, v: Value)
    requires (t.TStruct? || t.TRef?) && WellTyped(g, t, v)
    ensures v.Struct? && WellTyped(g, if t.TStruct? then t.body else BodyOf(g, t.name), v.body)
  {
  }

  lemma SerStruct(ord: KeyOrder, x: Value, b: nat)
    requires IsOrder(ord)
    ensures Ser(ord, Struct(x), b) == if b == 0 then Thrown(TooManyContainers) else Ser(ord, x, b - 1)
  {
    hide IsOrder;
  }

  lemma {:induction false} SerItemsExactly(ord: KeyOrder, g: Grammar, t: Type, xs: seq<Value>, b: nat)
    requires IsOrder(ord) && forall i :: 0 <= i < |xs| ==> WellTyped(g, t, xs[i])
    ensures Faithful(SerItems(ord, xs, b), forall i :: 0 <= i < |xs| ==> Fits(xs[i], b, false), EncItems(xs))
    decreases xs, 1, 0
  {
    hide Ser, Fits, WellTyped, Enc;
    if xs != [] {
      SerExactly(ord, g, t, xs[0], b);
      SerItemsExactly(ord, g, t, xs[1..], b);
      var tail := xs[1..];
      assert forall i :: 0 <= i < |tail| ==> tail[i] == xs[i + 1];
      assert (forall i :: 0 <= i < |xs| ==> Fits(xs[i], b, false))
        <==> Fits(xs[0], b, false) && (forall i :: 0 <= i < |tail| ==> Fits(tail[i], b, false)) by {
        assert forall i :: 1 <= i < |xs| ==> xs[i] == tail[i - 1];
      }
    }
  }

  ghost predicate EntryFits(m: map<Value, Value>, k: Value, b: nat)
    requires k in m
  {
    Fits(k, b, false) && Fits(m[k], b, false)
  }

  ghost predicate AllFit(m: map<Value, Value>, o: seq<Value>, b: nat)
    requires forall k :: k in o ==> k in m
  {
    forall k :: k in o ==> EntryFits(m, k, b)
  }

  lemma AllFitCons(m: map<Value, Value>, o: seq<Value>, b: nat)
    requires o != [] && forall k :: k in o ==> k in m
    ensures AllFit(m, o, b) <==> EntryFits(m, o[0], b) && AllFit(m, o[1..], b)
  {
    hide EntryFits;
    assert forall k :: k in o <==> k == o[0] || k in o[1..];
  }

  lemma {:induction false} SerEntriesExactly(ord: KeyOrder, g: Grammar, t: Type, v: Value, o: seq<Value>, b: nat)
    requires IsOrder(ord) && t.TMap? && v.Map? && WellTyped(g, t, v)
    requires forall k :: k in o ==> k in v.entries
    ensures var r := SerEntries(ord, v, o, b);
            && (r.Done? <==> AllFit(v.entries, o, b))
            && (r.Done? ==> r.value == Pick(o, EntryBytes(v.entries)))
    decreases v, 0, |o|
  {
    hide Ser, Enc, Fits, WellTyped, EntryBytes, IsOrder;
    if o != [] {
      hide AllFit, SerEntries;
      var m := v.entries;
      assert o[0] in m;
      MapTyped(g, t, v, o[0]);
      SerExactly(ord, g, t.key, o[0], b);
      SerExactly(ord, g, t.val, m[o[0]], b);
      SerEntriesExactly(ord, g, t, v, o[1..], b);
      AllFitCons(m, o, b);
      PickEntry(m, o);
      SerEntriesUnfold(ord, v, o, b);
    }
  }

  lemma PickEntry(m: map<Value, Value>, o: seq<Value>)
    requires o != [] && forall k :: k in o ==> k in m
    ensures o[0] in m
    ensures Pick(o, EntryBytes(m)) == [Enc(o[0]) + Enc(m[o[0]])] + Pick(o[1..], EntryBytes(m))
  {
    hide Enc;
    assert EntryBytes(m)[o[0]] == Enc(o[0]) + Enc(m[o[0]]);
  }

  lemma SerEntriesUnfold(ord: KeyOrder, v: Value, o: seq<Value>, b: nat)
    requires IsOrder(ord) && v.Map? && o != [] && forall k :: k in o ==> k in v.entries
    ensures o[0] in v.entries
    ensures var head, tail := Follow(Ser(ord, o[0], b), Ser(ord, v.entries[o[0]], b)), SerEntries(ord, v, o[1..], b);
            && (SerEntries(ord, v, o, b).Done? <==> head.Done? && tail.Done?)
            && (head.Done? && tail.Done? ==> SerEntries(ord, v, o, b) == Done([head.value] + tail.value))
  {
    hide Ser, IsOrder;
    assert o[0] in v.entries;
  }

  lemma MapTyped(g: Grammar, t: Type, v: Value, k: Value)
    requires t.TMap? && WellTyped(g, t, v) && k in v.entries
    ensures WellTyped(g, t.key, k) && WellTyped(g, t.val, v.entries[k])
  {
  }

  lemma {:induction false} SerMapExactly(ord: KeyOrder, g: Grammar, t: Type, v: Value, b: nat)
    requires IsOrder(ord) && t.TMap? && WellTyped(g, t, v)
    ensures Faithful(Ser(ord, v, b), Fits(v, b, false), Enc(v))
    decreases v, 0, |v.entries| + 1
  {
    var m := v.entries;
    var o := ord(m.Keys);
    assert Enumerates(o, m.Keys) && v == Map(m);
    EnumerationLength(o, m.Keys);
    hide WellTyped, Fits, Enc, Ser, SerEntries, SortSlices, EntryFits;
    SerEntriesExactly(ord, g, t, v, o, b);
    SortedEntries(g, t, m, o);
    MapFits(m, o, b);
    SerMapStep(ord, m, o, b, AllFit(m, o, b));
  }

  lemma SerMapStep(ord: KeyOrder, m: map<Value, Value>, o: seq<Value>, b: nat, fit: bool)
    requires IsOrder(ord) && o == ord(m.Keys) && Enumerates(o, m.Keys)
    requires SerEntries(ord, Map(m), o, b).Done? <==> fit
    requires fit ==> SerEntries(ord, Map(m), o, b).value == Pick(o, EntryBytes(m))
    requires SortSlices(Pick(o, EntryBytes(m))) == Pick(CanonicalKeys(m), EntryBytes(m))
    requires Fits(Map(m), b, false) <==> |m| <= MAX_LENGTH && fit
    ensures Faithful(Ser(ord, Map(m), b), Fits(Map(m), b, false), Enc(Map(m)))
  {
    hide Enc, Fits, SerEntries, SortSlices, Uleb, Pick, EntryBytes, CanonicalKeys, IsOrder, Enumerates, Join;
    EncMap(m);
  }

  lemma MapFits(m: map<Value, Value>, o: seq<Value>, b: nat)
    requires Enumerates(o, m.Keys)
    ensures Fits(Map(m), b, false) <==> |m| <= MAX_LENGTH && AllFit(m, o, b)
  {
    assert forall k :: k in o <==> k in m;
    assert AllFit(m, o, b) <==> forall k :: k in m ==> EntryFits(m, k, b);
  }

  /** The bytes do not depend on the order in which std::map iterates. */
  lemma SerOrderFree(ord: KeyOrder, ord': KeyOrder, g: Grammar, t: Type, v: Value, b: nat)
    requires IsOrder(ord) && IsOrder(ord') && WellTyped(g, t, v) && Ser(ord, v, b).Done?
    ensures Ser(ord', v, b) == Ser(ord, v, b)
  {
    SerExactly(ord, g, t, v, b);
    SerExactly(ord', g, t, v, b);
  }
}

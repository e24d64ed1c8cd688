/**
  * The values and types that the codecs are derived for, and the reference encoding.
  *
  * A value carries what its static type fixes (integer widths, vector or array), so
  * the encoding needs no type; decoding does. `Struct` marks every object whose
  * serializer brackets its fields with increase/decrease_container_depth.
  */
module Values {
  import opened Bytes
  import opened Order
  import opened Leb128
  import opened Utf8

  /** The integer widths of the wire format. */
  datatype Width = W8 | W16 | W32 | W64 | W128 {
    function Size(): (n: nat) {
      match this
      case W8 => 1
      case W16 => 2
      case W32 => 4
      case W64 => 8
      case W128 => 16
    }
  }

  datatype Value =
    | Unit
    | Bool(b: bool)
    | UInt(width: Width, n: nat)
    | Str(chars: bytes)
    | None
    | Some(item: Value)
    | Pair(fst: Value, snd: Value)
    | Vec(items: seq<Value>)
    | Arr(items: seq<Value>)
    | Map(entries: map<Value, Value>)
    | Variant(index: nat, payload: Value)
    | Struct(body: Value)

  /** Types. A tuple, like the fields of a struct, is a chain of pairs. */
  datatype Type =
    | TUnit
    | TBool
    | TUInt(width: Width)
    | TStr
    | TOption(elem: Type)
    | TPair(fst: Type, snd: Type)
    | TVec(elem: Type)
    | TArr(elem: Type, count: nat)
    | TMap(key: Type, val: Type)
    | TEnum(cases: seq<Type>)
    | TStruct(body: Type)
    | TRef(name: string)        // a struct declared by name, for recursive types

  /** The bodies of the structs declared by name. */
  type Grammar = map<string, Type>

  function BodyOf(g: Grammar, name: string): (t: Type) {
    if name in g then g[name] else TUnit
  }

  /** `v` is a value of type `t`. */
  ghost predicate WellTyped(g: Grammar, t: Type, v: Value)
    decreases v
  {
    match t
    case TUnit => v.Unit?
    case TBool => v.Bool?
    case TUInt(w) => v.UInt? && v.width == w && v.n < Pow256(w.Size())
    case TStr => v.Str?
    case TOption(e) => v.None? || (v.Some? && WellTyped(g, e, v.item))
    case TPair(a, b) => v.Pair? && WellTyped(g, a, v.fst) && WellTyped(g, b, v.snd)
    case TVec(e) => v.Vec? && forall i :: 0 <= i < |v.items| ==> WellTyped(g, e, v.items[i])
    case TArr(e, n) =>
      v.Arr? && |v.items| == n && forall i :: 0 <= i < |v.items| ==> WellTyped(g, e, v.items[i])
    case TMap(a, b) =>
      v.Map? && forall k :: k in v.entries ==> WellTyped(g, a, k) && WellTyped(g, b, v.entries[k])
    case TEnum(cases) =>
      && v.Variant? && v.index < |cases| && v.index < U32_LIMIT
      && WellTyped(g, cases[v.index], v.payload)
    case TStruct(body) => v.Struct? && WellTyped(g, body, v.body)
    case TRef(name) => v.Struct? && WellTyped(g, BodyOf(g, name), v.body)
  }

  /**
    * The limits checked at run time: lengths of strings, vectors and maps, structs
    * nested at most `b` deep and, where `utf8` is set, string contents.
    */
  ghost predicate Fits(v: Value, b: nat, utf8: bool)
    decreases v
  {
    match v
    case Str(chars) => |chars| <= MAX_LENGTH && (utf8 ==> IsValidUtf8(chars))
    case Some(x) => Fits(x, b, utf8)
    case Pair(x, y) => Fits(x, b, utf8) && Fits(y, b, utf8)
    case Vec(items) => |items| <= MAX_LENGTH && forall i :: 0 <= i < |items| ==> Fits(items[i], b, utf8)
    case Arr(items) => forall i :: 0 <= i < |items| ==> Fits(items[i], b, utf8)
    case Map(m) =>
      |m| <= MAX_LENGTH && forall k :: k in m ==> Fits(k, b, utf8) && Fits(m[k], b, utf8)
    case Variant(_, x) => Fits(x, b, utf8)
    case Struct(x) => b > 0 && Fits(x, b - 1, utf8)
    case _ => true
  }

  lemma FitsStruct(x: Value, b: nat, utf8: bool)
    ensures Fits(Struct(x), b, utf8) <==> b > 0 && Fits(x, b - 1, utf8)
  {
  }

  lemma FitsVariant(i: nat, x: Value, b: nat, utf8: bool)
    ensures Fits(Variant(i, x), b, utf8) <==> Fits(x, b, utf8)
  {
  }

  lemma FitsPair(x: Value, y: Value, b: nat, utf8: bool)
    ensures Fits(Pair(x, y), b, utf8) <==> Fits(x, b, utf8) && Fits(y, b, utf8)
  {
  }

  lemma FitsString(chars: bytes, b: nat, utf8: bool)
    ensures Fits(Str(chars), b, utf8) <==> |chars| <= MAX_LENGTH && (utf8 ==> IsValidUtf8(chars))
  {
  }

  lemma FitsArray(items: seq<Value>, b: nat, utf8: bool)
    ensures Fits(Arr(items), b, utf8) <==> forall i :: 0 <= i < |items| ==> Fits(items[i], b, utf8)
  {
  }

  lemma TypedStruct(g: Grammar, body: Type, x: Value)
    ensures WellTyped(g, TStruct(body), Struct(x)) <==> WellTyped(g, body, x)
  {
  }

  lemma TypedRef(g: Grammar, name: string, x: Value)
    ensures WellTyped(g, TRef(name), Struct(x)) <==> WellTyped(g, BodyOf(g, name), x)
  {
  }

  lemma TypedPair(g: Grammar, a: Type, b: Type, x: Value, y: Value)
    ensures WellTyped(g, TPair(a, b), Pair(x, y)) <==> WellTyped(g, a, x) && WellTyped(g, b, y)
  {
  }

  lemma TypedVariant(g: Grammar, cases: seq<Type>, i: nat, x: Value)
    requires i < |cases| && i < U32_LIMIT
    ensures WellTyped(g, TEnum(cases), Variant(i, x)) <==> WellTyped(g, cases[i], x)
  {
  }

  lemma TypedArray(g: Grammar, e: Type, items: seq<Value>)
    ensures WellTyped(g, TArr(e, |items|), Arr(items)) <==> forall i :: 0 <= i < |items| ==> WellTyped(g, e, items[i])
  {
  }

  // ---- the reference encoding ----

  /** The slices one after the other, in the order of the keys' bytes. */
  ghost function Arrange(keys: map<Value, bytes>, slices: map<Value, bytes>): (bs: bytes)
    requires keys.Keys == slices.Keys
  {
    Join(Pick(OrderBy(keys), slices))
  }

  /**
    * The canonical bytes of a value. A map is its length followed by its entries in the
    * order of their encoded keys.
    */
  ghost function Enc(v: Value): (bs: bytes)
    decreases v, 1
  {
    match v
    case Unit => []
    case Bool(b) => [if b then 1 else 0]
    case UInt(w, n) => ToLE(w.Size(), n)
    case Str(chars) => Uleb(|chars|) + chars
    case None => [0]
    case Some(x) => [1] + Enc(x)
    case Pair(a, b) => Enc(a) + Enc(b)
    case Vec(items) => Uleb(|items|) + EncItems(items)
    case Arr(items) => EncItems(items)
    case Map(_) => EncEntriesOf(v)
    case Variant(i, x) => Uleb(i) + Enc(x)
    case Struct(x) => Enc(x)
  }

  ghost function EncItems(items: seq<Value>): (bs: bytes)
    decreases items, 1
  {
    if items == [] then [] else Enc(items[0]) + EncItems(items[1..])
  }

  ghost function EncEntriesOf(v: Value): (bs: bytes)
    requires v.Map?
    decreases v, 0, 1
  {
    Uleb(|v.entries|) + Arrange(EncKeys(v), EncSlices(v))
  }

  /** What each key of a map encodes to. */
  ghost function EncKeys(v: Value): (r: map<Value, bytes>)
    requires v.Map?
    ensures r.Keys == v.entries.Keys
    decreases v, 0, 0
  {
    map k | k in v.entries :: Enc(k)
  }

  /** What each entry of a map encodes to: the key, then the value. */
  ghost function EncSlices(v: Value): (r: map<Value, bytes>)
    requires v.Map?
    ensures r.Keys == v.entries.Keys
    decreases v, 0, 0
  {
    map k | k in v.entries :: Enc(k) + Enc(v.entries[k])
  }

  lemma EncStruct(x: Value)
    ensures Enc(Struct(x)) == Enc(x)
  {
    hide Uleb, ToLE, EncItems, EncEntriesOf;
  }

  lemma EncPair(x: Value, y: Value)
    ensures Enc(Pair(x, y)) == Enc(x) + Enc(y)
  {
    hide Uleb, ToLE, EncItems, EncEntriesOf;
  }

  lemma EncOption(x: Value)
    ensures Enc(Some(x)) == [1] + Enc(x) && Enc(None) == [0]
  {
    hide Uleb, ToLE, EncItems, EncEntriesOf;
  }

  lemma EncVariant(i: nat, x: Value)
    ensures Enc(Variant(i, x)) == Uleb(i) + Enc(x)
  {
    hide Uleb, ToLE, EncItems, EncEntriesOf;
  }

  lemma EncArray(items: seq<Value>)
    ensures Enc(Arr(items)) == EncItems(items)
  {
    hide Uleb, ToLE, EncItems, EncEntriesOf;
  }

  ghost function KeyBytes(m: map<Value, Value>): (r: map<Value, bytes>)
    ensures r.Keys == m.Keys
  {
    EncKeys(Map(m))
  }

  ghost function EntryBytes(m: map<Value, Value>): (r: map<Value, bytes>)
    ensures r.Keys == m.Keys
  {
    EncSlices(Map(m))
  }

  /** The keys of a map in canonical order. */
  ghost function CanonicalKeys(m: map<Value, Value>): (o: seq<Value>)
    ensures Enumerates(o, m.Keys) && |o| == |m|
  {
    EnumerationLength(OrderBy(KeyBytes(m)), m.Keys);
    OrderBy(KeyBytes(m))
  }

  /** The entries of the keys `o` of `m`, one after the other. */
  ghost function EncEntries(m: map<Value, Value>, o: seq<Value>): (bs: bytes)
    requires forall k :: k in o ==> k in m
  {
    Join(Pick(o, EntryBytes(m)))
  }

  lemma EncMap(m: map<Value, Value>)
    ensures Enc(Map(m)) == Uleb(|m|) + EncEntries(m, CanonicalKeys(m))
  {
    hide *;
    EncMapUnfolds(m);
    EntriesArranged(m);
  }

  lemma EncMapUnfolds(m: map<Value, Value>)
    ensures Enc(Map(m)) == EncEntriesOf(Map(m))
  {
    hide Uleb, ToLE, EncItems, EncEntriesOf;
  }

  lemma EntriesArranged(m: map<Value, Value>)
    ensures EncEntriesOf(Map(m)) == Uleb(|m|) + EncEntries(m, CanonicalKeys(m))
  {
    hide Enc, EncKeys, EncSlices, Join, Pick, OrderBy, Enumerates, Uleb;
  }

  lemma EncNoEntries(m: map<Value, Value>, o: seq<Value>)
    requires o == []
    ensures EncEntries(m, o) == []
  {
  }

  lemma EncEntriesStep(m: map<Value, Value>, o: seq<Value>)
    requires o != [] && forall k :: k in o ==> k in m
    ensures EncEntries(m, o) == Enc(o[0]) + (Enc(m[o[0]]) + EncEntries(m, o[1..]))
  {
    assert Pick(o, EntryBytes(m))[1..] == Pick(o[1..], EntryBytes(m));
  }
}

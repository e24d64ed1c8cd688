/** On-chain resources: access paths written by one codec, account states read by the other. */
module Resources {
  import opened Bytes
  import opened Leb128
  import opened Values
  import opened PrefixFree
  import opened Serializing
  import opened Serializer
  import opened Messages
  import opened DiemTypes
  import opened TypeTags
  import opened Serde
  import opened SerdeObject
  import opened Hex

  // ---- resource paths ----

  datatype ResourcePath = ModulePath(id: ModuleId) | StructPath(tag: StructTag)

  const RESOURCE_PATH := TStruct(TEnum([MODULE_ID, STRUCT_TAG]))

  function PathValue(p: ResourcePath): (v: Value) {
    match p
    case ModulePath(id) => Struct(Variant(0, ModuleIdValue(id)))
    case StructPath(tag) => Struct(Variant(1, StructValue(tag)))
  }

  /** The wire format: one byte for the kind, then the module id or the struct tag. */
  function PathBytes(p: ResourcePath): (bs: bytes) {
    match p
    case ModulePath(id) => [0] + (id.address + IdentifierBytes(id.name))
    case StructPath(tag) => [1] + StructBytes(tag)
  }

  lemma VariantStruct(i: nat, x: Value)
    requires i < 128
    ensures Enc(Struct(Variant(i, x))) == [i] + Enc(x)
  {
    hide Enc;
    EncStruct(Variant(i, x));
    EncVariant(i, x);
  }

  lemma PathTyped(p: ResourcePath)
    ensures WellTyped(DIEM, RESOURCE_PATH, PathValue(p)) && Enc(PathValue(p)) == PathBytes(p)
  {
    var cases := [MODULE_ID, STRUCT_TAG];
    match p
    case ModulePath(id) =>
      ModuleIdEncodes(id);
      VariantStruct(0, ModuleIdValue(id));
      assert WellTyped(DIEM, TEnum(cases), Variant(0, ModuleIdValue(id)));
    case StructPath(tag) =>
      StructTyped(tag);
      StructEncodes(tag);
      VariantStruct(1, StructValue(tag));
      assert WellTyped(DIEM, TEnum(cases), Variant(1, StructValue(tag)));
  }

  /** Paths are told apart by their bytes, module ids and struct tags together. */
  lemma PathInjective(p: ResourcePath, q: ResourcePath)
    requires PathBytes(p) == PathBytes(q)
    ensures p == q
  {
    hide Enc, WellTyped, PathBytes;
    PathTyped(p);
    PathTyped(q);
    Unique(DIEM, RESOURCE_PATH, PathValue(p), [], PathValue(q), []);
    hide StructValue;
    match p
    case ModulePath(id) => ModuleIdInjective(id, q.id);
    case StructPath(tag) => StructInjective(tag, q.tag);
  }

  /** The path of the tag stays within the depth budget and the length limits. */
  ghost predicate Addressable(tag: StructTag) {
    StructDepth(tag) <= 499 && StructNamesFit(tag, false)
  }

  /** A struct path serializes exactly when its tag nests at most 499 deep and its names are in range. */
  lemma PathSerializesExactly(ord: KeyOrder, tag: StructTag)
    requires IsOrder(ord)
    ensures EncodeMessage(ord, PathValue(StructPath(tag))).Done?
       <==> Addressable(tag)
    ensures EncodeMessage(ord, PathValue(StructPath(tag))).Done? ==>
              EncodeMessage(ord, PathValue(StructPath(tag))) == Done(PathBytes(StructPath(tag)))
  {
    hide Ser, Enc, WellTyped, Fits, StructValue;
    var p := StructPath(tag);
    PathTyped(p);
    SerExactly(ord, DIEM, RESOURCE_PATH, PathValue(p), MAX_CONTAINER_DEPTH);
    FitsStruct(Variant(1, StructValue(tag)), MAX_CONTAINER_DEPTH, false);
    FitsVariant(1, StructValue(tag), MAX_CONTAINER_DEPTH - 1, false);
    StructFits(tag, MAX_CONTAINER_DEPTH - 1, false);
  }

  // ---- account states ----

  const RESOURCES := TMap(BYTES, BYTES)

  lemma BytesShort(bs: bytes)
    ensures Short(BytesValue(bs)) <==> |bs| < SHORT_LIMIT
  {
  }

  // ---- loading an account state ----

  /** Hex text, then a byte vector, then a map of byte vectors. */
  function LoadState(stream: Stream, blob: string): (r: Outcome<map<Value, Value>>) {
    if blob == "" then Thrown(BlobNull)
    else
      match FromHex(stream, blob)
      case Thrown(e) => Thrown(e)
      case Done(bs) =>
        match Reads(BYTES, bs)
        case Fail(e) => Thrown(e)
        case Ok(data, _) =>
          match Reads(RESOURCES, ByteContents(data))
          case Fail(e) => Thrown(e)
          case Ok(m, _) => if m.Map? then Done(m.entries) else Done(map[])
  }

  /** The blob of a state whose map is written in the order `ord`. */
  function Blob(ord: KeyOrder, m: map<Value, Value>): (s: string)
    requires IsOrder(ord)
  {
    ToHex(Write(ord, BytesValue(Write(ord, Map(m)))))
  }

  /** The map holds exactly the given resources, under the bytes of their paths. */
  ghost predicate Represents(m: map<Value, Value>, store: map<ResourcePath, bytes>) {
    && (forall p :: p in store ==>
          BytesValue(PathBytes(p)) in m && m[BytesValue(PathBytes(p))] == BytesValue(store[p]))
    && (forall k :: k in m ==> exists p :: p in store && k == BytesValue(PathBytes(p)))
  }

  lemma RepresentsTyped(m: map<Value, Value>, store: map<ResourcePath, bytes>)
    requires Represents(m, store)
    ensures WellTyped(DIEM, RESOURCES, Map(m))
  {
    hide PathBytes, BytesValue;
    forall k | k in m ensures WellTyped(DIEM, BYTES, k) && WellTyped(DIEM, BYTES, m[k]) {
      var p :| p in store && k == BytesValue(PathBytes(p));
      BytesTyped(PathBytes(p));
      BytesTyped(store[p]);
    }
  }

  /** A state written in any order, with lengths below 2^28, is loaded back. */
  lemma LoadsWhatWasStored(ord: KeyOrder, stream: Stream, m: map<Value, Value>)
    requires IsOrder(ord) && ReadsHex(stream) && WellTyped(DIEM, RESOURCES, Map(m))
    requires Short(Map(m)) && |Write(ord, Map(m))| < SHORT_LIMIT
    ensures LoadState(stream, Blob(ord, m)) == Done(m)
  {
    hide WellTyped, Short, Reads, Write, ToHex, FromHex, BytesValue, ReadsHex, ByteContents;
    var inner := Write(ord, Map(m));
    var outer := Write(ord, BytesValue(inner));
    HexRoundTrip(stream, outer);
    BytesTyped(inner);
    BytesShort(inner);
    SerdeTypes();
    RoundTrip(ord, DIEM, BYTES, BytesValue(inner), []);
    assert outer + [] == outer;
    ContentsOf(inner);
    RoundTrip(ord, DIEM, RESOURCES, Map(m), []);
    assert inner + [] == inner;
    WrittenNotEmpty(ord, inner);
    assert ToHex(outer) != "" by { assert |ToHex(outer)| == 2 * |outer|; }
  }

  lemma SerdeTypes()
    ensures SerdeType(BYTES) && SerdeType(RESOURCES)
  {
    assert SerdeType(U8);
    assert SerdeType(BYTES);
  }

  lemma WrittenNotEmpty(ord: KeyOrder, bs: bytes)
    requires IsOrder(ord)
    ensures |Write(ord, BytesValue(bs))| > 0
  {
    assert Write(ord, BytesValue(bs)) == Uleb(|bs|) + WriteItems(ord, ByteItems(bs));
  }

  // ---- looking a resource up ----

  function Lookup(ord: KeyOrder, resources: map<Value, Value>, tag: StructTag, t: Type)
    : (r: Outcome<Option<Value>>)
    requires IsOrder(ord) && SerdeType(t)
  {
    match EncodeMessage(ord, PathValue(StructPath(tag)))
    case Thrown(e) => Thrown(e)
    case Done(path) =>
      if BytesValue(path) in resources then
        match Reads(t, ByteContents(resources[BytesValue(path)]))
        case Fail(e) => Thrown(e)
        case Ok(v, _) => Done(Just(v))
      else Done(Nothing)
  }

  /** The store keeps canonical bytes of `v`, possibly followed by others, under the tag. */
  ghost predicate Holds(store: map<ResourcePath, bytes>, tag: StructTag, g: Grammar, t: Type, v: Value, rest: bytes) {
    && StructPath(tag) in store && store[StructPath(tag)] == Enc(v) + rest
    && WellTyped(g, t, v) && Short(v)
  }

  /**
    * Lookup finds exactly what is stored: nothing for a tag that is not in the store, and
    * for a tag that is, the value whose canonical bytes are stored under it. It throws for
    * a tag whose path cannot be serialized.
    */
  lemma LookupFinds(ord: KeyOrder, store: map<ResourcePath, bytes>, m: map<Value, Value>, tag: StructTag,
                    g: Grammar, t: Type, v: Value, rest: bytes)
    requires IsOrder(ord) && SerdeType(t) && Represents(m, store)
    ensures !Addressable(tag) ==> Lookup(ord, m, tag, t).Thrown?
    ensures Addressable(tag) ==> (Lookup(ord, m, tag, t) == Done(Nothing) <==> StructPath(tag) !in store)
    ensures Addressable(tag) && Holds(store, tag, g, t, v, rest) ==> Lookup(ord, m, tag, t) == Done(Just(v))
  {
    hide Enc, WellTyped, Short, Reads, EncodeMessage, PathValue, PathBytes, BytesValue, ByteContents,
         Addressable, SerdeType;
    var p := StructPath(tag);
    var key := BytesValue(PathBytes(p));
    PathSerializesExactly(ord, tag);
    if !Addressable(tag) {
    } else if p !in store {
      forall q | q in store ensures key != BytesValue(PathBytes(q)) {
        if key == BytesValue(PathBytes(q)) {
          BytesInjective(PathBytes(p), PathBytes(q));
          PathInjective(p, q);
        }
      }
      assert key !in m;
    } else if Holds(store, tag, g, t, v, rest) {
      ContentsOf(store[p]);
      ReadsCanonical(g, t, v, rest);
    }
  }

  // ---- from a store to a blob and back ----

  function PathKey(p: ResourcePath): (v: Value) { BytesValue(PathBytes(p)) }

  lemma KeysInjective()
    ensures forall p, q :: PathKey(p) == PathKey(q) ==> p == q
  {
    hide BytesValue, PathBytes;
    forall p, q | PathKey(p) == PathKey(q) ensures p == q {
      BytesInjective(PathBytes(p), PathBytes(q));
      PathInjective(p, q);
    }
  }

  /** The map that a node keeps for a store: path bytes to stored bytes. */
  ghost function StateMap(store: map<ResourcePath, bytes>): (m: map<Value, Value>)
    ensures Represents(m, store)
  {
    hide BytesValue, PathBytes;
    KeysInjective();
    map p | p in store :: PathKey(p) := BytesValue(store[p])
  }

  /** The blob that a node serves for a store: hex of canonical bytes. */
  ghost function CanonicalBlob(store: map<ResourcePath, bytes>): (s: string) {
    ToHex(Enc(BytesValue(Enc(Map(StateMap(store))))))
  }

  /**
    * End to end: loading the blob of a store and asking for a tag gives the value stored
    * for that tag, and nothing when there is none.
    */
  lemma ResourceLookup(ord: KeyOrder, stream: Stream, store: map<ResourcePath, bytes>, tag: StructTag,
                       g: Grammar, t: Type, v: Value, rest: bytes)
    requires IsOrder(ord) && ReadsHex(stream) && SerdeType(t)
    requires Short(Map(StateMap(store))) && |Enc(Map(StateMap(store)))| < SHORT_LIMIT
    ensures LoadState(stream, CanonicalBlob(store)) == Done(StateMap(store))
    ensures var r := Lookup(ord, StateMap(store), tag, t);
            && (!Addressable(tag) ==> r.Thrown?)
            && (Addressable(tag) ==> (r == Done(Nothing) <==> StructPath(tag) !in store))
            && (Addressable(tag) && Holds(store, tag, g, t, v, rest) ==> r == Done(Just(v)))
  {
    hide Enc, WellTyped, Short, Holds, Lookup, LoadState, StateMap, Represents, BytesValue, ToHex, Write, ReadsHex,
         Addressable, SerdeType, CanonicalOrder;
    var m := StateMap(store);
    CanonicalIsWritten(Map(m));
    CanonicalIsWritten(BytesValue(Enc(Map(m))));
    RepresentsTyped(m, store);
    LoadsWhatWasStored(CanonicalOrder(), stream, m);
    LookupFinds(ord, store, m, tag, g, t, v, rest);
  }

  // ---- the account state object ----

  class AccountState {
    var resources: map<Value, Value>      // _resources

    constructor ()
      ensures resources == map[]
    {
      resources := map[];
    }

    /**
      * get_account_state, with the blob that the client returned. The resources are cleared
      * before they are read, so a blob that ends early does not leave the old ones.
      */
    method GetAccountState(stream: Stream, ord: KeyOrder, blob: string) returns (r: Outcome<()>)
      requires IsOrder(ord)
      modifies this
      ensures match LoadState(stream, blob)
              case Thrown(e) => r == Thrown(e) && (blob == "" ==> resources == old(resources))
              case Done(m) => r == Done(()) && resources == m
    {
      hide Reads, FromHex, ByteContents;
      if blob == "" { return Thrown(BlobNull); }
      var bs :- HexToBytes(stream, blob);
      SerdeTypes();
      var outer := new BcsSerde.Reading(bs);
      assert bs[0..] == bs;
      var data :- outer.Process(ord, DIEM, BYTES, Unit);
      var inner := new BcsSerde.Reading(ByteContents(data));
      assert ByteContents(data)[0..] == ByteContents(data);
      resources := map[];
      var m :- inner.Process(ord, DIEM, RESOURCES, Unit);
      resources := if m.Map? then m.entries else map[];
      return Done(());
    }

    /** get_resource of the state that asks the client first: load, then look up. */
    method FetchResource(stream: Stream, ord: KeyOrder, blob: string, tag: StructTag, t: Type)
      returns (r: Outcome<Option<Value>>)
      requires IsOrder(ord) && SerdeType(t)
      modifies this
      ensures match LoadState(stream, blob)
              case Thrown(e) => r == Thrown(e)
              case Done(m) => r == Lookup(ord, m, tag, t) && resources == m
    {
      hide LoadState, Lookup, SerdeType;
      var _ :- GetAccountState(stream, ord, blob);
      r := GetResource(ord, tag, t);
    }

    /** get_resource, for a resource of type `t`. */
    method GetResource(ord: KeyOrder, tag: StructTag, t: Type) returns (r: Outcome<Option<Value>>)
      requires IsOrder(ord) && SerdeType(t)
      ensures r == Lookup(ord, resources, tag, t)
    {
      hide Reads, EncodeMessage, ByteContents, SerdeType;
      ghost var p := StructPath(tag);
      PathTyped(p);
      var path :- BcsSerialize(ord, PathValue(StructPath(tag)), DIEM, RESOURCE_PATH);
      if BytesValue(path) !in resources { return Done(Nothing); }
      var stored := ByteContents(resources[BytesValue(path)]);
      var serde := new BcsSerde.Reading(stored);
      assert stored[0..] == stored;
      var v :- serde.Process(ord, map[], t, Unit);
      return Done(Just(v));
    }
  }
}

/** The Diem types: type tags as recursive data, transactions as derived types. */
module DiemTypes {
  import opened Bytes
  import opened Leb128
  import opened Utf8
  import opened Values

  // ---- type tags ----

  type Address = a: bytes | |a| == 16 witness seq(16, _ => 0)

  datatype TypeTag =
    | BoolTag
    | U8Tag
    | U64Tag
    | U128Tag
    | AddressTag
    | SignerTag
    | VectorTag(elem: TypeTag)
    | StructTypeTag(tag: StructTag)

  datatype StructTag = StructTag(address: Address, modul: bytes, name: bytes, params: seq<TypeTag>)

  datatype ModuleId = ModuleId(address: Address, name: bytes)

  const TYPE_TAG := TRef("TypeTag")
  const STRUCT_TAG := TRef("StructTag")
  const U8 := TUInt(W8)
  const U64 := TUInt(W64)
  const BYTES := TVec(U8)
  const ACCOUNT_ADDRESS := TStruct(TArr(U8, 16))
  const IDENTIFIER := TStruct(TStr)
  const MODULE_ID := TStruct(TPair(ACCOUNT_ADDRESS, IDENTIFIER))

  const TYPE_TAG_BODY :=
    TEnum([TUnit, TUnit, TUnit, TUnit, TUnit, TUnit, TYPE_TAG, STRUCT_TAG])
  const STRUCT_TAG_BODY :=
    TPair(ACCOUNT_ADDRESS, TPair(IDENTIFIER, TPair(IDENTIFIER, TVec(TYPE_TAG))))

  const DIEM: Grammar := map["TypeTag" := TYPE_TAG_BODY, "StructTag" := STRUCT_TAG_BODY]

  // ---- the types inside a signed transaction ----

  const SCRIPT := TStruct(TPair(BYTES, TPair(TVec(TYPE_TAG), TVec(TRANSACTION_ARGUMENT))))
  const TRANSACTION_ARGUMENT :=
    TStruct(TEnum([U8, U64, TUInt(W128), ACCOUNT_ADDRESS, BYTES, TBool]))
  const SCRIPT_FUNCTION :=
    TStruct(TPair(MODULE_ID, TPair(IDENTIFIER, TPair(TVec(TYPE_TAG), TVec(BYTES)))))
  const MODULE := TStruct(BYTES)

  const WRITE_OP := TStruct(TEnum([TUnit, BYTES]))
  const ACCESS_PATH := TStruct(TPair(ACCOUNT_ADDRESS, BYTES))
  const WRITE_SET := TStruct(TStruct(TVec(TPair(ACCESS_PATH, WRITE_OP))))
  const CONTRACT_EVENT :=
    TStruct(TEnum([TStruct(TPair(TStruct(BYTES), TPair(U64, TPair(TYPE_TAG, BYTES))))]))
  const CHANGE_SET := TStruct(TPair(WRITE_SET, TVec(CONTRACT_EVENT)))
  const WRITE_SET_PAYLOAD := TStruct(TEnum([CHANGE_SET, TPair(ACCOUNT_ADDRESS, SCRIPT)]))

  const TRANSACTION_PAYLOAD := TStruct(TEnum([WRITE_SET_PAYLOAD, SCRIPT, MODULE, SCRIPT_FUNCTION]))

  const RAW_TRANSACTION :=
    TStruct(TPair(ACCOUNT_ADDRESS, TPair(U64, TPair(TRANSACTION_PAYLOAD, TPair(U64, TPair(U64,
      TPair(TStr, TPair(U64, TStruct(U8)))))))))

  const KEY_AND_SIGNATURE := TPair(TStruct(BYTES), TStruct(BYTES))
  const ACCOUNT_AUTHENTICATOR := TStruct(TEnum([KEY_AND_SIGNATURE, KEY_AND_SIGNATURE]))
  const TRANSACTION_AUTHENTICATOR :=
    TStruct(TEnum([KEY_AND_SIGNATURE, KEY_AND_SIGNATURE,
                   TPair(ACCOUNT_AUTHENTICATOR, TPair(TVec(ACCOUNT_ADDRESS), TVec(ACCOUNT_AUTHENTICATOR)))]))

  const SIGNED_TRANSACTION := TStruct(TPair(RAW_TRANSACTION, TRANSACTION_AUTHENTICATOR))

  // ---- tags as values ----

  function ByteItems(bs: bytes): (items: seq<Value>)
    ensures |items| == |bs| && forall i :: 0 <= i < |bs| ==> items[i] == UInt(W8, bs[i])
  {
    seq(|bs|, i requires 0 <= i < |bs| => UInt(W8, bs[i]))
  }

  function BytesValue(bs: bytes): (v: Value) { Vec(ByteItems(bs)) }

  predicate IsByte(v: Value) { v.UInt? && v.n < 256 }

  /** The contents of a std::vector<uint8_t>. */
  function ByteContents(v: Value): (bs: bytes) {
    if v.Vec? && forall i :: 0 <= i < |v.items| ==> IsByte(v.items[i])
    then seq(|v.items|, i requires 0 <= i < |v.items| => v.items[i].n)
    else []
  }

  function AddressValue(a: Address): (v: Value) { Struct(Arr(ByteItems(a))) }
  function IdentifierValue(id: bytes): (v: Value) { Struct(Str(id)) }
  function ModuleIdValue(m: ModuleId): (v: Value) {
    Struct(Pair(AddressValue(m.address), IdentifierValue(m.name)))
  }

  function TagIndex(t: TypeTag): (i: nat) {
    match t
    case BoolTag => 0
    case U8Tag => 1
    case U64Tag => 2
    case U128Tag => 3
    case AddressTag => 4
    case SignerTag => 5
    case VectorTag(_) => 6
    case StructTypeTag(_) => 7
  }

  function TagValue(t: TypeTag): (v: Value)
    decreases t
  {
    match t
    case VectorTag(e) => Struct(Variant(6, TagValue(e)))
    case StructTypeTag(s) => Struct(Variant(7, StructValue(s)))
    case _ => Struct(Variant(TagIndex(t), Unit))
  }

  function TagValues(ts: seq<TypeTag>): (vs: seq<Value>)
    ensures |vs| == |ts| && forall i :: 0 <= i < |ts| ==> vs[i] == TagValue(ts[i])
    decreases ts
  {
    if ts == [] then [] else [TagValue(ts[0])] + TagValues(ts[1..])
  }

  function StructValue(s: StructTag): (v: Value)
    decreases s
  {
    Struct(Pair(AddressValue(s.address),
           Pair(IdentifierValue(s.modul), Pair(IdentifierValue(s.name), Vec(TagValues(s.params))))))
  }

  // ---- the wire format of tags, spelled out ----

  function IdentifierBytes(id: bytes): (bs: bytes) { Uleb(|id|) + id }

  /** One byte for the case, then the element tag or the struct tag. */
  function TagBytes(t: TypeTag): (bs: bytes)
    decreases t
  {
    match t
    case VectorTag(e) => [6] + TagBytes(e)
    case StructTypeTag(s) => [7] + StructBytes(s)
    case BoolTag => [0]
    case U8Tag => [1]
    case U64Tag => [2]
    case U128Tag => [3]
    case AddressTag => [4]
    case SignerTag => [5]
  }

  function StructBytes(s: StructTag): (bs: bytes)
    decreases s
  {
    s.address + IdentifierBytes(s.modul) + IdentifierBytes(s.name) + Uleb(|s.params|) + TagListBytes(s.params)
  }

  function TagListBytes(ts: seq<TypeTag>): (bs: bytes)
    decreases ts
  {
    if ts == [] then [] else TagBytes(ts[0]) + TagListBytes(ts[1..])
  }

  // ---- depth and other limits ----

  function Max(a: nat, b: nat): (m: nat) { if a > b then a else b }

  /** How deep containers nest: a leaf 1, a vector one more than its element, a struct 2 + max(1, parameters). */
  function TagDepth(t: TypeTag): (d: nat)
    decreases t
  {
    match t
    case VectorTag(e) => 1 + TagDepth(e)
    case StructTypeTag(s) => 1 + StructDepth(s)
    case _ => 1
  }

  function StructDepth(s: StructTag): (d: nat)
    decreases s
  {
    1 + Max(1, TagListDepth(s.params))
  }

  function TagListDepth(ts: seq<TypeTag>): (d: nat)
    decreases ts
  {
    if ts == [] then 0 else Max(TagDepth(ts[0]), TagListDepth(ts[1..]))
  }

  /** Identifiers and parameter lists are short enough and, where `utf8` is set, identifiers are valid. */
  ghost predicate NamesFit(t: TypeTag, utf8: bool)
    decreases t
  {
    match t
    case VectorTag(e) => NamesFit(e, utf8)
    case StructTypeTag(s) => StructNamesFit(s, utf8)
    case _ => true
  }

  ghost predicate IdentifierFits(id: bytes, utf8: bool) {
    |id| <= MAX_LENGTH && (utf8 ==> IsValidUtf8(id))
  }

  ghost predicate StructNamesFit(s: StructTag, utf8: bool)
    decreases s
  {
    && IdentifierFits(s.modul, utf8) && IdentifierFits(s.name, utf8)
    && |s.params| <= MAX_LENGTH && TagListNamesFit(s.params, utf8)
  }

  ghost predicate TagListNamesFit(ts: seq<TypeTag>, utf8: bool)
    decreases ts
  {
    ts == [] || (NamesFit(ts[0], utf8) && TagListNamesFit(ts[1..], utf8))
  }
}

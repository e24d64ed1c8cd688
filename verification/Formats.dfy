/** Formats of values: how a value of a Diem type is encoded, what its parts are and when it fits. */
module Formats {
  import opened Bytes
  import opened Leb128
  import opened Values
  import opened Canonical
  import opened Serializer
  import opened DiemTypes
  import opened TypeTags

  // ---- formats: a value of a type together with its bytes ----

  /** `v` is a value of type `t` and `bs` is its encoding. */
  ghost predicate Form(t: Type, v: Value, bs: bytes) {
    WellTyped(DIEM, t, v) && Enc(v) == bs
  }

  lemma FormPair(a: Type, b: Type, x: Value, xb: bytes, y: Value, yb: bytes)
    requires Form(a, x, xb) && Form(b, y, yb)
    ensures Form(TPair(a, b), Pair(x, y), xb + yb)
  {
    hide WellTyped, Enc;
    TypedPair(DIEM, a, b, x, y);
    EncPair(x, y);
  }

  lemma FormStruct(body: Type, x: Value, bs: bytes)
    requires Form(body, x, bs)
    ensures Form(TStruct(body), Struct(x), bs)
  {
    hide WellTyped, Enc;
    TypedStruct(DIEM, body, x);
    EncStruct(x);
  }

  lemma FormVariant(cases: seq<Type>, i: nat, x: Value, bs: bytes)
    requires i < |cases| && i < 128 && Form(cases[i], x, bs)
    ensures Form(TEnum(cases), Variant(i, x), [i] + bs)
  {
    hide WellTyped, Enc;
    TypedVariant(DIEM, cases, i, x);
    EncVariant(i, x);
    assert Uleb(i) == [i];
  }

  ghost predicate Forms(t: Type, vs: seq<Value>, parts: seq<bytes>) {
    |vs| == |parts| && forall i :: 0 <= i < |vs| ==> Form(t, vs[i], parts[i])
  }

  lemma {:induction false} FormItems(t: Type, vs: seq<Value>, parts: seq<bytes>)
    requires Forms(t, vs, parts)
    ensures EncItems(vs) == Join(parts)
  {
    hide Enc, WellTyped;
    if vs != [] {
      assert Form(t, vs[0], parts[0]);
      FormItems(t, vs[1..], parts[1..]);
    }
  }

  lemma FormVec(t: Type, vs: seq<Value>, parts: seq<bytes>)
    requires Forms(t, vs, parts)
    ensures Form(TVec(t), Vec(vs), Uleb(|vs|) + Join(parts))
  {
    hide Enc, WellTyped, EncItems, Join, Uleb;
    FormItems(t, vs, parts);
    VecEnc(vs);
    forall i | 0 <= i < |vs| ensures WellTyped(DIEM, t, vs[i]) { assert Form(t, vs[i], parts[i]); }
    VecTyped(DIEM, t, vs);
  }

  lemma FormInteger(w: Width, n: nat)
    requires n < Pow256(w.Size())
    ensures Form(TUInt(w), UInt(w, n), ToLE(w.Size(), n))
  {
    hide ToLE, Pow256;
  }

  lemma FormString(chars: bytes)
    ensures Form(TStr, Str(chars), IdentifierBytes(chars))
  {
    hide Uleb;
  }

  lemma FormBytes(data: bytes)
    ensures Form(BYTES, BytesValue(data), IdentifierBytes(data))
  {
    hide Enc, WellTyped, Uleb;
    BytesTyped(data);
    EncBytes(data);
    VecEnc(ByteItems(data));
  }

  lemma FormAddress(a: Address)
    ensures Form(ACCOUNT_ADDRESS, AddressValue(a), a)
  {
    hide Enc, WellTyped;
    AddressTyped(a);
    EncBytes(a);
    EncStruct(Arr(ByteItems(a)));
    EncArray(ByteItems(a));
  }

  lemma FormIdentifier(id: bytes)
    ensures Form(IDENTIFIER, IdentifierValue(id), IdentifierBytes(id))
  {
    FormString(id);
    FormStruct(TStr, Str(id), IdentifierBytes(id));
  }

  lemma FormBool(b: bool)
    ensures Form(TBool, Bool(b), [if b then 1 else 0])
  {
  }

  /** An enum inside its struct. */
  lemma FormCase(cases: seq<Type>, i: nat, x: Value, bs: bytes)
    requires i < |cases| && i < 128 && Form(cases[i], x, bs)
    ensures Form(TStruct(TEnum(cases)), Struct(Variant(i, x)), [i] + bs)
  {
    FormVariant(cases, i, x, bs);
    FormStruct(TEnum(cases), Variant(i, x), [i] + bs);
  }

  lemma FormUnit()
    ensures Form(TUnit, Unit, [])
  {
  }

  // ---- parts of typed values ----

  lemma AsStruct(body: Type, v: Value)
    requires WellTyped(DIEM, TStruct(body), v)
    ensures v.Struct? && WellTyped(DIEM, body, v.body)
  {
  }

  lemma AsPair(a: Type, b: Type, v: Value)
    requires WellTyped(DIEM, TPair(a, b), v)
    ensures v.Pair? && WellTyped(DIEM, a, v.fst) && WellTyped(DIEM, b, v.snd)
  {
  }

  lemma AsCase(cases: seq<Type>, v: Value)
    requires WellTyped(DIEM, TStruct(TEnum(cases)), v)
    ensures v.Struct? && v.body.Variant? && v.body.index < |cases|
    ensures WellTyped(DIEM, cases[v.body.index], v.body.payload)
  {
    AsStruct(TEnum(cases), v);
  }

  lemma AsVec(e: Type, v: Value)
    requires WellTyped(DIEM, TVec(e), v)
    ensures v.Vec? && forall i :: 0 <= i < |v.items| ==> WellTyped(DIEM, e, v.items[i])
  {
  }

  lemma AsInteger(w: Width, v: Value)
    requires WellTyped(DIEM, TUInt(w), v)
    ensures v.UInt? && v.width == w && v.n < Pow256(w.Size())
  {
  }

  lemma StringFor(v: Value)
    requires WellTyped(DIEM, TStr, v)
    ensures v.Str?
  {
  }

  lemma BoolFor(v: Value)
    requires WellTyped(DIEM, TBool, v)
    ensures v.Bool?
  {
  }

  lemma BytesFor(v: Value) returns (data: bytes)
    requires WellTyped(DIEM, BYTES, v)
    ensures BytesValue(data) == v
  {
    hide WellTyped;
    AsVec(U8, v);
    Widths();
    forall i | 0 <= i < |v.items| ensures v.items[i].UInt? && v.items[i].width == W8 && v.items[i].n < 256 {
      AsInteger(W8, v.items[i]);
    }
    data := seq(|v.items|, i requires 0 <= i < |v.items| => v.items[i].n);
    assert ByteItems(data) == v.items;
  }

  lemma IdentifierFor(v: Value) returns (id: bytes)
    requires WellTyped(DIEM, IDENTIFIER, v)
    ensures IdentifierValue(id) == v
  {
    AsStruct(TStr, v);
    id := v.body.chars;
  }

  lemma ModuleIdFor(v: Value) returns (m: ModuleId)
    requires WellTyped(DIEM, MODULE_ID, v)
    ensures ModuleIdValue(m) == v
  {
    hide WellTyped, AddressValue, IdentifierValue;
    AsStruct(MODULE_ID.body, v);
    AsPair(ACCOUNT_ADDRESS, IDENTIFIER, v.body);
    var address := AddressFor(v.body.fst);
    var name := IdentifierFor(v.body.snd);
    m := ModuleId(address, name);
  }

  // ---- limits ----

  lemma BytesFit(data: bytes, b: nat, utf8: bool)
    ensures Fits(BytesValue(data), b, utf8) <==> |data| <= MAX_LENGTH
  {
    VecFitsItems(ByteItems(data), b, utf8);
    assert forall i :: 0 <= i < |data| ==> Fits(ByteItems(data)[i], b, utf8);
  }

  lemma IdentifierFitsExactly(id: bytes, b: nat, utf8: bool)
    ensures Fits(IdentifierValue(id), b, utf8) <==> b > 0 && IdentifierFits(id, utf8)
  {
    FitsStruct(Str(id), b, utf8);
    if b > 0 { FitsString(id, b - 1, utf8); }
  }

  lemma CaseFits(i: nat, x: Value, b: nat, utf8: bool)
    ensures Fits(Struct(Variant(i, x)), b, utf8) <==> b > 0 && Fits(x, b - 1, utf8)
  {
    FitsStruct(Variant(i, x), b, utf8);
    if b > 0 { FitsVariant(i, x, b - 1, utf8); }
  }

  lemma NumberFits(w: Width, n: nat, b: nat, utf8: bool)
    ensures Fits(UInt(w, n), b, utf8)
  {
  }

  lemma FlagFits(x: bool, b: nat, utf8: bool)
    ensures Fits(Bool(x), b, utf8)
  {
  }

  // ---- records are told apart by their values ----

  lemma SameAddress(a: Address, b: Address)
    requires AddressValue(a) == AddressValue(b)
    ensures a == b
  {
    forall i | 0 <= i < 16 ensures a[i] == b[i] {
      assert ByteItems(a)[i] == ByteItems(b)[i];
    }
  }

  lemma SameTags(ts: seq<TypeTag>, us: seq<TypeTag>)
    requires TagValues(ts) == TagValues(us)
    ensures ts == us
  {
    assert |ts| == |TagValues(us)|;
    forall i | 0 <= i < |ts| ensures ts[i] == us[i] {
      assert TagValues(ts)[i] == TagValues(us)[i];
      TagInjective(ts[i], us[i]);
    }
  }
}

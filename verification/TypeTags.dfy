/** Type tags and struct tags through the canonical codec. */
module TypeTags {
  import opened Bytes
  import opened Leb128
  import opened Utf8
  import opened Values
  import opened Decoding
  import opened PrefixFree
  import opened Canonical
  import opened Serializing
  import opened DiemTypes

  // ---- tags are values of their types ----

  lemma Bodies()
    ensures BodyOf(DIEM, "TypeTag") == TYPE_TAG_BODY && BodyOf(DIEM, "StructTag") == STRUCT_TAG_BODY
  {
    assert |"TypeTag"| == 7 && |"StructTag"| == 9;
  }

  lemma ByteFits(b: byte)
    ensures WellTyped(DIEM, U8, UInt(W8, b)) && b < Pow256(1)
  {
    assert Pow256(1) == 256;
  }

  lemma AddressTyped(a: Address)
    ensures WellTyped(DIEM, ACCOUNT_ADDRESS, AddressValue(a))
  {
    forall i | 0 <= i < |a| ensures WellTyped(DIEM, U8, ByteItems(a)[i]) { ByteFits(a[i]); }
  }

  lemma {:induction false} TagTyped(t: TypeTag)
    ensures WellTyped(DIEM, TYPE_TAG, TagValue(t))
    decreases t
  {
    hide WellTyped, StructValue, BodyOf;
    Bodies();
    var v := TagValue(t).body;
    TypedRef(DIEM, "TypeTag", v);
    match t
    case VectorTag(e) =>
      TagTyped(e);
      TagCase(6, v.payload);
    case StructTypeTag(s) =>
      StructTyped(s);
      TagCase(7, v.payload);
    case _ =>
      UnitTyped();
      TagCase(TagIndex(t), Unit);
  }

  lemma UnitTyped()
    ensures WellTyped(DIEM, TUnit, Unit)
  {
  }

  lemma TagCase(i: nat, x: Value)
    requires i < 8 && WellTyped(DIEM, TYPE_TAG_BODY.cases[i], x)
    ensures WellTyped(DIEM, TYPE_TAG_BODY, Variant(i, x))
  {
  }

  lemma {:induction false} StructTyped(s: StructTag)
    ensures WellTyped(DIEM, STRUCT_TAG, StructValue(s))
    decreases s
  {
    Bodies();
    AddressTyped(s.address);
    forall i | 0 <= i < |s.params| ensures WellTyped(DIEM, TYPE_TAG, TagValue(s.params[i])) {
      TagTyped(s.params[i]);
    }
    StructTypedParts(s);
  }

  lemma StructTypedParts(s: StructTag)
    requires WellTyped(DIEM, ACCOUNT_ADDRESS, AddressValue(s.address))
    requires forall i :: 0 <= i < |s.params| ==> WellTyped(DIEM, TYPE_TAG, TagValue(s.params[i]))
    ensures WellTyped(DIEM, STRUCT_TAG, StructValue(s))
  {
    hide TagValues, AddressValue, BodyOf, TagValue, WellTyped;
    Bodies();
    var params := Vec(TagValues(s.params));
    VecTyped(DIEM, TYPE_TAG, TagValues(s.params));
    IdentifierTyped(s.modul);
    IdentifierTyped(s.name);
    hide IdentifierValue;
    var a, m, n := AddressValue(s.address), IdentifierValue(s.modul), IdentifierValue(s.name);
    TypedPair(DIEM, IDENTIFIER, TVec(TYPE_TAG), n, params);
    TypedPair(DIEM, IDENTIFIER, TPair(IDENTIFIER, TVec(TYPE_TAG)), m, Pair(n, params));
    TypedPair(DIEM, ACCOUNT_ADDRESS, TPair(IDENTIFIER, TPair(IDENTIFIER, TVec(TYPE_TAG))), a, Pair(m, Pair(n, params)));
    TypedRef(DIEM, "StructTag", Pair(a, Pair(m, Pair(n, params))));
  }

  lemma IdentifierTyped(id: bytes)
    ensures WellTyped(DIEM, IDENTIFIER, IdentifierValue(id))
  {
  }

  // ---- their encoding is the spelled-out format ----

  lemma {:induction false} EncBytes(bs: bytes)
    ensures EncItems(ByteItems(bs)) == bs
  {
    if bs != [] {
      assert ByteItems(bs)[1..] == ByteItems(bs[1..]);
      EncBytes(bs[1..]);
      assert ToLE(1, bs[0]) == [bs[0]];
    }
  }

  lemma {:induction false} TagEncodes(t: TypeTag)
    ensures Enc(TagValue(t)) == TagBytes(t)
    decreases t
  {
    match t
    case VectorTag(e) => TagEncodes(e);
    case StructTypeTag(s) => StructEncodes(s);
    case _ => assert Enc(Variant(TagIndex(t), Unit)) == [TagIndex(t)] + [];
  }

  lemma {:induction false} StructEncodes(s: StructTag)
    ensures Enc(StructValue(s)) == StructBytes(s)
    decreases s
  {
    hide Uleb;
    EncBytes(s.address);
    TagListEncodes(s.params);
    var params := Vec(TagValues(s.params));
    assert Enc(AddressValue(s.address)) == s.address;
    assert Enc(IdentifierValue(s.modul)) == IdentifierBytes(s.modul);
    assert Enc(IdentifierValue(s.name)) == IdentifierBytes(s.name);
    assert Enc(params) == Uleb(|s.params|) + TagListBytes(s.params);
    StructEncodesParts(s, params);
  }

  lemma StructEncodesParts(s: StructTag, params: Value)
    requires params == Vec(TagValues(s.params)) && Enc(AddressValue(s.address)) == s.address
    requires Enc(IdentifierValue(s.modul)) == IdentifierBytes(s.modul)
    requires Enc(IdentifierValue(s.name)) == IdentifierBytes(s.name)
    requires Enc(params) == Uleb(|s.params|) + TagListBytes(s.params)
    ensures Enc(StructValue(s)) == StructBytes(s)
  {
    hide Uleb, IdentifierBytes, EncItems, TagListBytes, AddressValue, IdentifierValue, TagValues, Enc;
    var a, m, n := AddressValue(s.address), IdentifierValue(s.modul), IdentifierValue(s.name);
    EncPair(n, params);
    EncPair(m, Pair(n, params));
    EncPair(a, Pair(m, Pair(n, params)));
    EncStruct(StructValue(s).body);
    Flatten5(s.address, IdentifierBytes(s.modul), IdentifierBytes(s.name), Uleb(|s.params|), TagListBytes(s.params));
  }

  lemma Flatten5(a: bytes, b: bytes, c: bytes, d: bytes, e: bytes)
    ensures a + (b + (c + (d + e))) == a + b + c + d + e
  {
  }

  lemma {:induction false} TagListEncodes(ts: seq<TypeTag>)
    ensures EncItems(TagValues(ts)) == TagListBytes(ts)
    decreases ts
  {
    if ts != [] {
      TagEncodes(ts[0]);
      TagListEncodes(ts[1..]);
      assert TagValues(ts)[1..] == TagValues(ts[1..]);
    }
  }

  // ---- the limits of a tag ----

  /** A tag fits a budget exactly when its structural depth does and its names are in range. */
  lemma {:induction false} TagFits(t: TypeTag, b: nat, utf8: bool)
    ensures Fits(TagValue(t), b, utf8) <==> TagDepth(t) <= b && NamesFit(t, utf8)
    decreases t
  {
    hide Fits;
    var v := TagValue(t).body;
    FitsStruct(v, b, utf8);
    if b > 0 {
      FitsVariant(v.index, v.payload, b - 1, utf8);
      match t
      case VectorTag(e) => TagFits(e, b - 1, utf8);
      case StructTypeTag(s) => StructFits(s, b - 1, utf8);
      case _ => UnitFits(b - 1, utf8);
    }
  }

  lemma UnitFits(b: nat, utf8: bool)
    ensures Fits(Unit, b, utf8)
  {
  }

  lemma {:induction false} StructFits(s: StructTag, b: nat, utf8: bool)
    ensures Fits(StructValue(s), b, utf8) <==> StructDepth(s) <= b && StructNamesFit(s, utf8)
    decreases s
  {
    hide Fits;
    FitsStruct(StructValue(s).body, b, utf8);
    if b > 0 {
      AddressFits(s.address, b - 1, utf8);
      TagListFits(s.params, b - 1, utf8);
      StructFitsParts(s, b, utf8);
    }
  }

  lemma AddressFits(a: Address, b: nat, utf8: bool)
    ensures Fits(AddressValue(a), b, utf8) <==> b > 0
  {
    var items := ByteItems(a);
    assert forall i :: 0 <= i < |items| ==> b > 0 ==> Fits(items[i], b - 1, utf8);
  }

  lemma StructFitsParts(s: StructTag, b: nat, utf8: bool)
    requires b > 0
    requires Fits(AddressValue(s.address), b - 1, utf8) <==> b - 1 > 0
    requires Fits(Vec(TagValues(s.params)), b - 1, utf8)
        <==> |s.params| <= MAX_LENGTH && TagListDepth(s.params) <= b - 1 && TagListNamesFit(s.params, utf8)
    ensures Fits(StructValue(s), b, utf8) <==> StructDepth(s) <= b && StructNamesFit(s, utf8)
  {
    hide TagListDepth, TagListNamesFit, AddressValue, TagValues, Fits, IsValidUtf8;
    var a, m, n := AddressValue(s.address), IdentifierValue(s.modul), IdentifierValue(s.name);
    var params := Vec(TagValues(s.params));
    FitsStruct(Str(s.modul), b - 1, utf8);
    FitsStruct(Str(s.name), b - 1, utf8);
    if b > 1 {
      FitsString(s.modul, b - 2, utf8);
      FitsString(s.name, b - 2, utf8);
    }
    FitsPair(n, params, b - 1, utf8);
    FitsPair(m, Pair(n, params), b - 1, utf8);
    FitsPair(a, Pair(m, Pair(n, params)), b - 1, utf8);
    FitsStruct(StructValue(s).body, b, utf8);
  }

  lemma {:induction false} TagListFits(ts: seq<TypeTag>, b: nat, utf8: bool)
    ensures Fits(Vec(TagValues(ts)), b, utf8)
       <==> |ts| <= MAX_LENGTH && TagListDepth(ts) <= b && TagListNamesFit(ts, utf8)
    decreases ts
  {
    TagItemsFit(ts, b, utf8);
    VecFitsItems(TagValues(ts), b, utf8);
  }

  ghost predicate ItemsFit(vs: seq<Value>, b: nat, utf8: bool) {
    forall i :: 0 <= i < |vs| ==> Fits(vs[i], b, utf8)
  }

  lemma VecFitsItems(vs: seq<Value>, b: nat, utf8: bool)
    ensures Fits(Vec(vs), b, utf8) <==> |vs| <= MAX_LENGTH && ItemsFit(vs, b, utf8)
  {
  }

  lemma {:induction false} TagItemsFit(ts: seq<TypeTag>, b: nat, utf8: bool)
    ensures ItemsFit(TagValues(ts), b, utf8) <==> TagListDepth(ts) <= b && TagListNamesFit(ts, utf8)
    decreases ts, 0
  {
    if ts != [] {
      TagFits(ts[0], b, utf8);
      TagItemsFit(ts[1..], b, utf8);
      ItemsFitCons(TagValues(ts), b, utf8);
      assert TagValues(ts)[1..] == TagValues(ts[1..]);
    }
  }

  lemma ItemsFitCons(vs: seq<Value>, b: nat, utf8: bool)
    requires vs != []
    ensures ItemsFit(vs, b, utf8) <==> Fits(vs[0], b, utf8) && ItemsFit(vs[1..], b, utf8)
  {
    hide Fits;
    if ItemsFit(vs, b, utf8) {
      assert forall i :: 0 <= i < |vs[1..]| ==> vs[1..][i] == vs[i + 1];
    }
    if Fits(vs[0], b, utf8) && ItemsFit(vs[1..], b, utf8) {
      forall i | 0 <= i < |vs| ensures Fits(vs[i], b, utf8) {
        if i > 0 { assert vs[i] == vs[1..][i - 1]; }
      }
    }
  }

  /**
    * The depth budget: with names and parameter lists in range, serializing a tag under
    * budget `b` succeeds exactly when its structural depth is at most `b`, and then
    * writes the spelled-out format.
    */
  lemma TagSerializesExactly(ord: KeyOrder, t: TypeTag, b: nat)
    requires IsOrder(ord) && NamesFit(t, false)
    ensures Ser(ord, TagValue(t), b).Done? <==> TagDepth(t) <= b
    ensures TagDepth(t) <= b ==> Ser(ord, TagValue(t), b) == Done(TagBytes(t))
  {
    hide Ser, Enc, Fits, WellTyped;
    TagTyped(t);
    TagFits(t, b, false);
    TagEncodes(t);
    SerExactly(ord, DIEM, TYPE_TAG, TagValue(t), b);
  }

  // ---- every decoded tag value is a tag ----

  lemma {:induction false} TagFor(v: Value) returns (t: TypeTag)
    requires WellTyped(DIEM, TYPE_TAG, v)
    ensures TagValue(t) == v
    decreases v
  {
    Bodies();
    var i, x := v.body.index, v.body.payload;
    if i == 6 {
      var e := TagFor(x);
      t := VectorTag(e);
    } else if i == 7 {
      var s := StructFor(x);
      t := StructTypeTag(s);
    } else {
      t := [BoolTag, U8Tag, U64Tag, U128Tag, AddressTag, SignerTag][i];
      assert WellTyped(DIEM, TYPE_TAG_BODY.cases[i], x) && TYPE_TAG_BODY.cases[i] == TUnit;
    }
  }

  lemma {:induction false} StructFor(v: Value) returns (s: StructTag)
    requires WellTyped(DIEM, STRUCT_TAG, v)
    ensures StructValue(s) == v
    decreases v
  {
    StructShape(v);
    var f := v.body;
    var a := AddressFor(f.fst);
    var params := TagListFor(f.snd.snd.snd.items);
    s := StructTag(a, f.snd.fst.body.chars, f.snd.snd.fst.body.chars, params);
  }

  lemma StructShape(v: Value)
    requires WellTyped(DIEM, STRUCT_TAG, v)
    ensures v.Struct? && v.body.Pair? && v.body.snd.Pair? && v.body.snd.snd.Pair?
    ensures var f := v.body;
            && WellTyped(DIEM, ACCOUNT_ADDRESS, f.fst)
            && f.snd.fst.Struct? && f.snd.fst.body.Str?
            && f.snd.snd.fst.Struct? && f.snd.snd.fst.body.Str?
            && f.snd.snd.snd.Vec?
            && forall i :: 0 <= i < |f.snd.snd.snd.items| ==> WellTyped(DIEM, TYPE_TAG, f.snd.snd.snd.items[i])
  {
    Bodies();
    var f := v.body;
    assert WellTyped(DIEM, STRUCT_TAG_BODY, f) && f.Pair?;
    TailShape(f.snd);
  }

  lemma TailShape(w: Value)
    requires WellTyped(DIEM, TPair(IDENTIFIER, TPair(IDENTIFIER, TVec(TYPE_TAG))), w)
    ensures w.Pair? && w.fst.Struct? && w.fst.body.Str?
    ensures w.snd.Pair? && w.snd.fst.Struct? && w.snd.fst.body.Str? && w.snd.snd.Vec?
    ensures forall i :: 0 <= i < |w.snd.snd.items| ==> WellTyped(DIEM, TYPE_TAG, w.snd.snd.items[i])
  {
    assert WellTyped(DIEM, IDENTIFIER, w.fst);
    assert WellTyped(DIEM, TPair(IDENTIFIER, TVec(TYPE_TAG)), w.snd);
    assert WellTyped(DIEM, IDENTIFIER, w.snd.fst);
    assert WellTyped(DIEM, TVec(TYPE_TAG), w.snd.snd);
  }

  lemma AddressFor(v: Value) returns (a: Address)
    requires WellTyped(DIEM, ACCOUNT_ADDRESS, v)
    ensures AddressValue(a) == v
  {
    var items := v.body.items;
    assert Pow256(1) == 256;
    forall i | 0 <= i < |items| ensures items[i].UInt? && items[i].width == W8 && items[i].n < 256 {
      assert WellTyped(DIEM, U8, items[i]);
    }
    a := seq(16, i requires 0 <= i < 16 => items[i].n);
    assert ByteItems(a) == items;
  }

  lemma {:induction false} TagListFor(vs: seq<Value>) returns (ts: seq<TypeTag>)
    requires forall i :: 0 <= i < |vs| ==> WellTyped(DIEM, TYPE_TAG, vs[i])
    ensures TagValues(ts) == vs
    decreases vs
  {
    if vs == [] {
      ts := [];
    } else {
      var t := TagFor(vs[0]);
      var rest := TagListFor(vs[1..]);
      ts := [t] + rest;
      assert ts[1..] == rest;
    }
  }

  /**
    * Decoding under budget `b` gives the tag `t` after `n` bytes exactly when those bytes
    * are the format of `t`, its depth is at most `b` and its names are in range.
    */
  lemma TagDecodesExactly(t: TypeTag, b: nat, bs: bytes, n: nat)
    requires n <= |bs|
    ensures Dec(DIEM, TYPE_TAG, b, bs) == Ok(TagValue(t), n)
       <==> bs[..n] == TagBytes(t) && TagDepth(t) <= b && NamesFit(t, true)
  {
    hide Dec, Enc, WellTyped, Fits;
    TagTyped(t);
    TagEncodes(t);
    TagFits(t, b, true);
    if Dec(DIEM, TYPE_TAG, b, bs) == Ok(TagValue(t), n) {
      Sound(DIEM, TYPE_TAG, b, bs);
    }
    if bs[..n] == TagBytes(t) && TagDepth(t) <= b && NamesFit(t, true) {
      Complete(DIEM, TYPE_TAG, TagValue(t), b, bs[n..]);
      assert bs == bs[..n] + bs[n..];
    }
  }

  /** Nothing else is decoded: every successful decode is of some tag. */
  lemma DecodedIsTag(b: nat, bs: bytes) returns (t: TypeTag)
    requires Dec(DIEM, TYPE_TAG, b, bs).Ok?
    ensures Dec(DIEM, TYPE_TAG, b, bs).value == TagValue(t)
    ensures bs[..Dec(DIEM, TYPE_TAG, b, bs).used] == TagBytes(t) && TagDepth(t) <= b && NamesFit(t, true)
  {
    hide Dec, Enc, WellTyped, Fits;
    Sound(DIEM, TYPE_TAG, b, bs);
    t := TagFor(Dec(DIEM, TYPE_TAG, b, bs).value);
    TagDecodesExactly(t, b, bs, Dec(DIEM, TYPE_TAG, b, bs).used);
  }

  /** The same for struct tags, as `StructTag::bcsDeserialize` and resource paths decode them. */
  lemma StructDecodesExactly(s: StructTag, b: nat, bs: bytes, n: nat)
    requires n <= |bs|
    ensures Dec(DIEM, STRUCT_TAG, b, bs) == Ok(StructValue(s), n)
       <==> bs[..n] == StructBytes(s) && StructDepth(s) <= b && StructNamesFit(s, true)
  {
    hide Dec, Enc, WellTyped, Fits;
    StructTyped(s);
    StructEncodes(s);
    StructFits(s, b, true);
    if Dec(DIEM, STRUCT_TAG, b, bs) == Ok(StructValue(s), n) {
      Sound(DIEM, STRUCT_TAG, b, bs);
    }
    if bs[..n] == StructBytes(s) && StructDepth(s) <= b && StructNamesFit(s, true) {
      Complete(DIEM, STRUCT_TAG, StructValue(s), b, bs[n..]);
      assert bs == bs[..n] + bs[n..];
    }
  }

  lemma DecodedIsStruct(b: nat, bs: bytes) returns (s: StructTag)
    requires Dec(DIEM, STRUCT_TAG, b, bs).Ok?
    ensures Dec(DIEM, STRUCT_TAG, b, bs).value == StructValue(s)
    ensures bs[..Dec(DIEM, STRUCT_TAG, b, bs).used] == StructBytes(s) && StructDepth(s) <= b && StructNamesFit(s, true)
  {
    hide Dec, Enc, WellTyped, Fits;
    Sound(DIEM, STRUCT_TAG, b, bs);
    s := StructFor(Dec(DIEM, STRUCT_TAG, b, bs).value);
    StructDecodesExactly(s, b, bs, Dec(DIEM, STRUCT_TAG, b, bs).used);
  }

  /** The depth budget of a struct tag. */
  lemma StructSerializesExactly(ord: KeyOrder, s: StructTag, b: nat)
    requires IsOrder(ord) && StructNamesFit(s, false)
    ensures Ser(ord, StructValue(s), b).Done? <==> StructDepth(s) <= b
    ensures StructDepth(s) <= b ==> Ser(ord, StructValue(s), b) == Done(StructBytes(s))
  {
    hide Ser, Enc, WellTyped, Fits;
    StructTyped(s);
    StructFits(s, b, false);
    StructEncodes(s);
    SerExactly(ord, DIEM, STRUCT_TAG, StructValue(s), b);
  }

  /** Different tags have different formats, of which neither begins the other. */
  lemma TagBytesPrefixFree(t: TypeTag, r: bytes, u: TypeTag, s: bytes)
    requires TagBytes(t) + r == TagBytes(u) + s
    ensures t == u && r == s
  {
    hide Enc, WellTyped, TagBytes;
    TagTyped(t);
    TagTyped(u);
    TagEncodes(t);
    TagEncodes(u);
    Unique(DIEM, TYPE_TAG, TagValue(t), r, TagValue(u), s);
    TagInjective(t, u);
  }

  lemma {:induction false} TagInjective(t: TypeTag, u: TypeTag)
    requires TagValue(t) == TagValue(u)
    ensures t == u
    decreases t
  {
    match t
    case VectorTag(e) => TagInjective(e, u.elem);
    case StructTypeTag(s) => StructInjective(s, u.tag);
    case _ =>
  }

  lemma {:induction false} StructInjective(s: StructTag, z: StructTag)
    requires StructValue(s) == StructValue(z)
    ensures s == z
    decreases s
  {
    assert ByteItems(s.address) == ByteItems(z.address);
    forall i | 0 <= i < 16 ensures s.address[i] == z.address[i] {
      assert ByteItems(s.address)[i] == ByteItems(z.address)[i];
    }
    assert TagValues(s.params) == TagValues(z.params);
    forall i | 0 <= i < |s.params| ensures s.params[i] == z.params[i] {
      assert TagValues(s.params)[i] == TagValues(z.params)[i];
      TagInjective(s.params[i], z.params[i]);
    }
  }

  /** An address is its sixteen bytes, without a length. */
  lemma AddressEncodes(a: Address)
    ensures Enc(AddressValue(a)) == a && |Enc(AddressValue(a))| == 16
  {
    EncBytes(a);
  }

  // ---- byte vectors and module ids ----

  lemma ContentsOf(bs: bytes)
    ensures ByteContents(BytesValue(bs)) == bs
  {
    assert forall i :: 0 <= i < |bs| ==> ByteItems(bs)[i] == UInt(W8, bs[i]);
  }

  lemma BytesTyped(bs: bytes)
    ensures WellTyped(DIEM, BYTES, BytesValue(bs))
  {
    forall i | 0 <= i < |bs| ensures WellTyped(DIEM, U8, ByteItems(bs)[i]) { ByteFits(bs[i]); }
  }

  lemma BytesInjective(a: bytes, b: bytes)
    requires BytesValue(a) == BytesValue(b)
    ensures a == b
  {
    ContentsOf(a);
    ContentsOf(b);
  }

  lemma ModuleIdEncodes(id: ModuleId)
    ensures Enc(ModuleIdValue(id)) == id.address + IdentifierBytes(id.name)
    ensures WellTyped(DIEM, MODULE_ID, ModuleIdValue(id))
  {
    EncBytes(id.address);
    AddressTyped(id.address);
    IdentifierTyped(id.name);
    assert Enc(AddressValue(id.address)) == id.address;
    assert Enc(IdentifierValue(id.name)) == IdentifierBytes(id.name);
    TypedPair(DIEM, ACCOUNT_ADDRESS, IDENTIFIER, AddressValue(id.address), IdentifierValue(id.name));
  }

  lemma ModuleIdInjective(a: ModuleId, b: ModuleId)
    requires ModuleIdValue(a) == ModuleIdValue(b)
    ensures a == b
  {
    assert ByteItems(a.address) == ByteItems(b.address);
    forall i | 0 <= i < 16 ensures a.address[i] == b.address[i] {
      assert ByteItems(a.address)[i] == ByteItems(b.address)[i];
    }
  }
}

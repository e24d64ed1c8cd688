/** Scripts and script functions: their records and their wire format. */
module Scripts {
  import opened Bytes
  import opened Leb128
  import opened Values
  import opened DiemTypes
  import opened TypeTags
  import opened Formats
  import opened Arguments

  // ---- records ----

  datatype Script = Script(code: bytes, tyArgs: seq<TypeTag>, args: seq<Argument>)

  datatype Call = Call(modul: ModuleId, name: bytes, tyArgs: seq<TypeTag>, args: seq<bytes>)

  // ---- records as values ----

  function BytesValues(args: seq<bytes>): (vs: seq<Value>) {
    seq(|args|, i requires 0 <= i < |args| => BytesValue(args[i]))
  }

  function ScriptValue(s: Script): (v: Value) {
    Struct(Pair(BytesValue(s.code), Pair(Vec(TagValues(s.tyArgs)), Vec(ArgumentValues(s.args)))))
  }

  function CallValue(c: Call): (v: Value) {
    Struct(Pair(ModuleIdValue(c.modul),
           Pair(IdentifierValue(c.name), Pair(Vec(TagValues(c.tyArgs)), Vec(BytesValues(c.args))))))
  }

  // ---- the wire format ----

  /** A length and the parts, one after the other. */
  function ListBytes(parts: seq<bytes>): (bs: bytes) { Uleb(|parts|) + Join(parts) }

  function TagParts(ts: seq<TypeTag>): (parts: seq<bytes>) {
    seq(|ts|, i requires 0 <= i < |ts| => TagBytes(ts[i]))
  }

  function ArgumentParts(args: seq<Argument>): (parts: seq<bytes>) {
    seq(|args|, i requires 0 <= i < |args| => ArgumentBytes(args[i]))
  }

  function BytesParts(args: seq<bytes>): (parts: seq<bytes>) {
    seq(|args|, i requires 0 <= i < |args| => IdentifierBytes(args[i]))
  }

  function ScriptBytes(s: Script): (bs: bytes) {
    IdentifierBytes(s.code) + (ListBytes(TagParts(s.tyArgs)) + ListBytes(ArgumentParts(s.args)))
  }

  function CallBytes(c: Call): (bs: bytes) {
    (c.modul.address + IdentifierBytes(c.modul.name))
    + (IdentifierBytes(c.name) + (ListBytes(TagParts(c.tyArgs)) + ListBytes(BytesParts(c.args))))
  }

  // ---- records have their types and their format ----

  lemma FormTags(ts: seq<TypeTag>)
    ensures Form(TVec(TYPE_TAG), Vec(TagValues(ts)), ListBytes(TagParts(ts)))
  {
    hide Enc, WellTyped, TagBytes, TagValue, Uleb, Join;
    forall i | 0 <= i < |ts| ensures Form(TYPE_TAG, TagValues(ts)[i], TagParts(ts)[i]) {
      TagTyped(ts[i]);
      TagEncodes(ts[i]);
    }
    FormVec(TYPE_TAG, TagValues(ts), TagParts(ts));
  }

  lemma FormScript(s: Script)
    requires forall i :: 0 <= i < |s.args| ==> InRange(s.args[i])
    ensures Form(SCRIPT, ScriptValue(s), ScriptBytes(s))
  {
    hide Enc, WellTyped, Uleb, Join, InRange, ArgumentValue, ArgumentBytes, TagValues, IdentifierBytes, BytesValue, TagParts;
    FormBytes(s.code);
    FormTags(s.tyArgs);
    forall i | 0 <= i < |s.args|
      ensures Form(TRANSACTION_ARGUMENT, ArgumentValues(s.args)[i], ArgumentParts(s.args)[i])
    {
      FormArgument(s.args[i]);
    }
    var tags, args := Vec(TagValues(s.tyArgs)), Vec(ArgumentValues(s.args));
    var tb, ab := ListBytes(TagParts(s.tyArgs)), ListBytes(ArgumentParts(s.args));
    FormVec(TRANSACTION_ARGUMENT, ArgumentValues(s.args), ArgumentParts(s.args));
    hide Form;
    FormPair(TVec(TYPE_TAG), TVec(TRANSACTION_ARGUMENT), tags, tb, args, ab);
    FormPair(BYTES, SCRIPT.body.snd, BytesValue(s.code), IdentifierBytes(s.code), Pair(tags, args), tb + ab);
    FormStruct(SCRIPT.body, ScriptValue(s).body, ScriptBytes(s));
  }

  lemma FormModuleId(m: ModuleId)
    ensures Form(MODULE_ID, ModuleIdValue(m), m.address + IdentifierBytes(m.name))
  {
    ModuleIdEncodes(m);
  }

  lemma FormCall(c: Call)
    ensures Form(SCRIPT_FUNCTION, CallValue(c), CallBytes(c))
  {
    hide Enc, WellTyped, Uleb, Join, TagValues, IdentifierBytes, BytesValue, TagParts, ModuleIdValue, IdentifierValue;
    FormModuleId(c.modul);
    FormIdentifier(c.name);
    FormTags(c.tyArgs);
    forall i | 0 <= i < |c.args| ensures Form(BYTES, BytesValues(c.args)[i], BytesParts(c.args)[i]) {
      FormBytes(c.args[i]);
    }
    FormVec(BYTES, BytesValues(c.args), BytesParts(c.args));
    hide Form;
    var t := SCRIPT_FUNCTION.body;
    var tags, args := Vec(TagValues(c.tyArgs)), Vec(BytesValues(c.args));
    var tb, ab := ListBytes(TagParts(c.tyArgs)), ListBytes(BytesParts(c.args));
    FormPair(TVec(TYPE_TAG), TVec(BYTES), tags, tb, args, ab);
    FormPair(IDENTIFIER, t.snd.snd, IdentifierValue(c.name), IdentifierBytes(c.name), Pair(tags, args), tb + ab);
    FormPair(MODULE_ID, t.snd, ModuleIdValue(c.modul), c.modul.address + IdentifierBytes(c.modul.name),
             Pair(IdentifierValue(c.name), Pair(tags, args)), IdentifierBytes(c.name) + (tb + ab));
    FormStruct(t, CallValue(c).body, CallBytes(c));
  }

  // ---- every value of the type is a record ----

  lemma {:induction false} ByteVectorsFor(vs: seq<Value>) returns (args: seq<bytes>)
    requires forall i :: 0 <= i < |vs| ==> WellTyped(DIEM, BYTES, vs[i])
    ensures BytesValues(args) == vs
  {
    hide WellTyped, BytesValue;
    args := [];
    if vs != [] {
      var first := BytesFor(vs[0]);
      var rest := ByteVectorsFor(vs[1..]);
      args := [first] + rest;
      assert BytesValues(args) == [BytesValue(first)] + BytesValues(rest);
    }
  }

  lemma ScriptFor(v: Value) returns (s: Script)
    requires WellTyped(DIEM, SCRIPT, v)
    ensures ScriptValue(s) == v && forall i :: 0 <= i < |s.args| ==> InRange(s.args[i])
  {
    hide WellTyped, BytesValue, TagValues, ArgumentValues, InRange;
    var t := SCRIPT.body;
    AsStruct(t, v);
    AsPair(BYTES, t.snd, v.body);
    AsPair(t.snd.fst, t.snd.snd, v.body.snd);
    AsVec(TYPE_TAG, v.body.snd.fst);
    AsVec(TRANSACTION_ARGUMENT, v.body.snd.snd);
    var code := BytesFor(v.body.fst);
    var tags := TagListFor(v.body.snd.fst.items);
    var args := ArgumentsFor(v.body.snd.snd.items);
    s := Script(code, tags, args);
  }

  lemma CallFor(v: Value) returns (c: Call)
    requires WellTyped(DIEM, SCRIPT_FUNCTION, v)
    ensures CallValue(c) == v
  {
    hide WellTyped, BytesValues, TagValues, ModuleIdValue, IdentifierValue;
    var t := SCRIPT_FUNCTION.body;
    AsStruct(t, v);
    AsPair(MODULE_ID, t.snd, v.body);
    AsPair(IDENTIFIER, t.snd.snd, v.body.snd);
    AsPair(t.snd.snd.fst, t.snd.snd.snd, v.body.snd.snd);
    AsVec(TYPE_TAG, v.body.snd.snd.fst);
    AsVec(BYTES, v.body.snd.snd.snd);
    var modul := ModuleIdFor(v.body.fst);
    var name := IdentifierFor(v.body.snd.fst);
    var tags := TagListFor(v.body.snd.snd.fst.items);
    var args := ByteVectorsFor(v.body.snd.snd.snd.items);
    c := Call(modul, name, tags, args);
  }

  // ---- records are told apart by their values ----

  lemma SameScript(s: Script, z: Script)
    requires ScriptValue(s) == ScriptValue(z)
    requires forall i :: 0 <= i < |s.args| ==> InRange(s.args[i])
    requires forall i :: 0 <= i < |z.args| ==> InRange(z.args[i])
    ensures s == z
  {
    hide BytesValue, TagValues, ArgumentValue, InRange;
    BytesInjective(s.code, z.code);
    SameTags(s.tyArgs, z.tyArgs);
    var a, b := ArgumentValues(s.args), ArgumentValues(z.args);
    assert a == b;
    assert |s.args| == |a| == |z.args|;
    forall i | 0 <= i < |s.args| ensures s.args[i] == z.args[i] {
      assert a[i] == b[i];
      SameArgument(s.args[i], z.args[i]);
    }
  }

  lemma SameCall(c: Call, d: Call)
    requires CallValue(c) == CallValue(d)
    ensures c == d
  {
    hide BytesValue, TagValues, ModuleIdValue;
    ModuleIdInjective(c.modul, d.modul);
    SameTags(c.tyArgs, d.tyArgs);
    var a, b := BytesValues(c.args), BytesValues(d.args);
    assert a == b;
    assert |c.args| == |a| == |d.args|;
    forall i | 0 <= i < |c.args| ensures c.args[i] == d.args[i] {
      assert a[i] == b[i];
      BytesInjective(c.args[i], d.args[i]);
    }
  }

  // ---- limits ----

  /** Type arguments at most `d` deep, with names and lists in range. */
  ghost predicate TypeArgsFit(ts: seq<TypeTag>, d: nat, utf8: bool) {
    |ts| <= MAX_LENGTH && TagListDepth(ts) <= d && TagListNamesFit(ts, utf8)
  }

  ghost predicate ScriptFits(s: Script, d: nat, utf8: bool) {
    && |s.code| <= MAX_LENGTH && TypeArgsFit(s.tyArgs, d, utf8)
    && |s.args| <= MAX_LENGTH && forall i :: 0 <= i < |s.args| ==> ArgumentFits(s.args[i])
  }

  ghost predicate CallFits(c: Call, d: nat, utf8: bool) {
    && IdentifierFits(c.modul.name, utf8) && IdentifierFits(c.name, utf8) && TypeArgsFit(c.tyArgs, d, utf8)
    && |c.args| <= MAX_LENGTH && forall i :: 0 <= i < |c.args| ==> |c.args[i]| <= MAX_LENGTH
  }

  lemma ScriptFitsExactly(s: Script, b: nat, utf8: bool)
    requires b >= 3
    ensures Fits(ScriptValue(s), b, utf8) <==> ScriptFits(s, b - 1, utf8)
  {
    hide Fits, BytesValue, TagValues, ArgumentValue, TagListDepth, TagListNamesFit, ArgumentFits;
    var tags, args := Vec(TagValues(s.tyArgs)), ArgumentValues(s.args);
    FitsStruct(ScriptValue(s).body, b, utf8);
    FitsPair(BytesValue(s.code), Pair(tags, Vec(args)), b - 1, utf8);
    FitsPair(tags, Vec(args), b - 1, utf8);
    BytesFit(s.code, b - 1, utf8);
    TagListFits(s.tyArgs, b - 1, utf8);
    VecFitsItems(args, b - 1, utf8);
    forall i | 0 <= i < |args| ensures Fits(args[i], b - 1, utf8) <==> ArgumentFits(s.args[i]) {
      ArgumentFitsExactly(s.args[i], b - 1, utf8);
    }
  }

  lemma CallFitsExactly(c: Call, b: nat, utf8: bool)
    requires b >= 3
    ensures Fits(CallValue(c), b, utf8) <==> CallFits(c, b - 1, utf8)
  {
    hide Fits, BytesValue, TagValues, TagListDepth, TagListNamesFit, AddressValue, IdentifierValue, IdentifierFits;
    var tags, args := Vec(TagValues(c.tyArgs)), BytesValues(c.args);
    var id, name := ModuleIdValue(c.modul), IdentifierValue(c.name);
    FitsStruct(CallValue(c).body, b, utf8);
    FitsPair(id, Pair(name, Pair(tags, Vec(args))), b - 1, utf8);
    FitsPair(name, Pair(tags, Vec(args)), b - 1, utf8);
    FitsPair(tags, Vec(args), b - 1, utf8);
    FitsStruct(id.body, b - 1, utf8);
    FitsPair(AddressValue(c.modul.address), IdentifierValue(c.modul.name), b - 2, utf8);
    AddressFits(c.modul.address, b - 2, utf8);
    IdentifierFitsExactly(c.modul.name, b - 2, utf8);
    IdentifierFitsExactly(c.name, b - 1, utf8);
    TagListFits(c.tyArgs, b - 1, utf8);
    VecFitsItems(args, b - 1, utf8);
    forall i | 0 <= i < |args| ensures Fits(args[i], b - 1, utf8) <==> |c.args[i]| <= MAX_LENGTH {
      BytesFit(c.args[i], b - 1, utf8);
    }
  }
}

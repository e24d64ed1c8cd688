/** Write sets: the changes and events that a write-set transaction carries. */
module WriteSets {
  import opened Bytes
  import opened Leb128
  import opened Values
  import opened Serializer
  import opened DiemTypes
  import opened TypeTags
  import opened Formats
  import opened Arguments
  import opened Scripts

  // ---- records ----

  datatype AccessPath = AccessPath(address: Address, path: bytes)

  datatype WriteOp = Deletion | Assign(value: bytes)

  datatype WriteEntry = WriteEntry(path: AccessPath, op: WriteOp)

  datatype Event = Event(key: bytes, sequenceNumber: nat, typeTag: TypeTag, data: bytes)

  datatype ChangeSet = ChangeSet(writes: seq<WriteEntry>, events: seq<Event>)

  datatype WriteSet =
    | Direct(changes: ChangeSet)
    | ByScript(executeAs: Address, script: Script)

  /** Integer fields hold machine integers. */
  predicate WriteSetInRange(w: WriteSet) {
    match w
    case Direct(c) => forall i :: 0 <= i < |c.events| ==> c.events[i].sequenceNumber < TWO_64
    case ByScript(_, s) => forall i :: 0 <= i < |s.args| ==> InRange(s.args[i])
  }

  // ---- records as values ----

  function AccessPathValue(p: AccessPath): (v: Value) {
    Struct(Pair(AddressValue(p.address), BytesValue(p.path)))
  }

  function WriteOpValue(o: WriteOp): (v: Value) {
    match o
    case Deletion => Struct(Variant(0, Unit))
    case Assign(value) => Struct(Variant(1, BytesValue(value)))
  }

  function WriteEntryValue(e: WriteEntry): (v: Value) {
    Pair(AccessPathValue(e.path), WriteOpValue(e.op))
  }

  function WriteEntryValues(es: seq<WriteEntry>): (vs: seq<Value>) {
    seq(|es|, i requires 0 <= i < |es| => WriteEntryValue(es[i]))
  }

  function EventBody(e: Event): (v: Value) {
    Pair(Struct(BytesValue(e.key)),
         Pair(UInt(W64, e.sequenceNumber), Pair(TagValue(e.typeTag), BytesValue(e.data))))
  }

  function EventValue(e: Event): (v: Value) { Struct(Variant(0, Struct(EventBody(e)))) }

  function EventValues(es: seq<Event>): (vs: seq<Value>) {
    seq(|es|, i requires 0 <= i < |es| => EventValue(es[i]))
  }

  function ChangeSetValue(c: ChangeSet): (v: Value) {
    Struct(Pair(Struct(Struct(Vec(WriteEntryValues(c.writes)))), Vec(EventValues(c.events))))
  }

  function WriteSetValue(w: WriteSet): (v: Value) {
    match w
    case Direct(c) => Struct(Variant(0, ChangeSetValue(c)))
    case ByScript(a, s) => Struct(Variant(1, Pair(AddressValue(a), ScriptValue(s))))
  }

  // ---- the wire format ----

  function WriteEntryBytes(e: WriteEntry): (bs: bytes) {
    (e.path.address + IdentifierBytes(e.path.path))
    + (if e.op.Deletion? then [0] + [] else [1] + IdentifierBytes(e.op.value))
  }

  function EventBytes(e: Event): (bs: bytes) {
    [0] + (IdentifierBytes(e.key) + (ToLE(8, e.sequenceNumber) + (TagBytes(e.typeTag) + IdentifierBytes(e.data))))
  }

  function WriteEntryParts(es: seq<WriteEntry>): (parts: seq<bytes>) {
    seq(|es|, i requires 0 <= i < |es| => WriteEntryBytes(es[i]))
  }

  function EventParts(es: seq<Event>): (parts: seq<bytes>) {
    seq(|es|, i requires 0 <= i < |es| => EventBytes(es[i]))
  }

  function ChangeSetBytes(c: ChangeSet): (bs: bytes) {
    ListBytes(WriteEntryParts(c.writes)) + ListBytes(EventParts(c.events))
  }

  function WriteSetBytes(w: WriteSet): (bs: bytes) {
    match w
    case Direct(c) => [0] + ChangeSetBytes(c)
    case ByScript(a, s) => [1] + (a + ScriptBytes(s))
  }

  // ---- records have their types and their format ----

  const WRITE_ENTRY := TPair(ACCESS_PATH, WRITE_OP)
  const EVENT_BODY := TPair(TStruct(BYTES), TPair(U64, TPair(TYPE_TAG, BYTES)))

  lemma FormWriteEntry(e: WriteEntry)
    ensures Form(WRITE_ENTRY, WriteEntryValue(e), WriteEntryBytes(e))
  {
    hide Enc, WellTyped, Form, AddressValue, BytesValue, IdentifierBytes;
    var path, pb := AccessPathValue(e.path), e.path.address + IdentifierBytes(e.path.path);
    FormAddress(e.path.address);
    FormBytes(e.path.path);
    FormPair(ACCOUNT_ADDRESS, BYTES, AddressValue(e.path.address), e.path.address,
             BytesValue(e.path.path), IdentifierBytes(e.path.path));
    FormStruct(ACCESS_PATH.body, path.body, pb);
    var cases := WRITE_OP.body.cases;
    match e.op
    case Deletion =>
      FormUnit();
      FormCase(cases, 0, Unit, []);
      FormPair(ACCESS_PATH, WRITE_OP, path, pb, WriteOpValue(e.op), [0] + []);
    case Assign(value) =>
      FormBytes(value);
      FormCase(cases, 1, BytesValue(value), IdentifierBytes(value));
      FormPair(ACCESS_PATH, WRITE_OP, path, pb, WriteOpValue(e.op), [1] + IdentifierBytes(value));
  }

  lemma FormEvent(e: Event)
    requires e.sequenceNumber < TWO_64
    ensures Form(CONTRACT_EVENT, EventValue(e), EventBytes(e))
  {
    hide Enc, WellTyped, BytesValue, IdentifierBytes, TagValue, TagBytes, ToLE, Pow256;
    var n := UInt(W64, e.sequenceNumber);
    var tag, tb := TagValue(e.typeTag), TagBytes(e.typeTag);
    var data, db := BytesValue(e.data), IdentifierBytes(e.data);
    var key, kb := Struct(BytesValue(e.key)), IdentifierBytes(e.key);
    TagTyped(e.typeTag);
    TagEncodes(e.typeTag);
    assert Form(TYPE_TAG, tag, tb);
    hide Form;
    Widths();
    FormBytes(e.key);
    FormStruct(BYTES, key.body, kb);
    FormInteger(W64, e.sequenceNumber);
    FormBytes(e.data);
    FormPair(TYPE_TAG, BYTES, tag, tb, data, db);
    FormPair(U64, TPair(TYPE_TAG, BYTES), n, ToLE(8, e.sequenceNumber), Pair(tag, data), tb + db);
    var rest := ToLE(8, e.sequenceNumber) + (tb + db);
    FormPair(TStruct(BYTES), EVENT_BODY.snd, key, kb, Pair(n, Pair(tag, data)), rest);
    FormStruct(EVENT_BODY, EventBody(e), kb + rest);
    FormCase(CONTRACT_EVENT.body.cases, 0, Struct(EventBody(e)), kb + rest);
  }

  lemma FormChangeSet(c: ChangeSet)
    requires forall i :: 0 <= i < |c.events| ==> c.events[i].sequenceNumber < TWO_64
    ensures Form(CHANGE_SET, ChangeSetValue(c), ChangeSetBytes(c))
  {
    hide Enc, WellTyped, Form, WriteEntryValue, WriteEntryBytes, EventValue, EventBytes, Uleb, Join;
    var ws, wb := WriteEntryValues(c.writes), WriteEntryParts(c.writes);
    var es, eb := EventValues(c.events), EventParts(c.events);
    forall i | 0 <= i < |ws| ensures Form(WRITE_ENTRY, ws[i], wb[i]) { FormWriteEntry(c.writes[i]); }
    forall i | 0 <= i < |es| ensures Form(CONTRACT_EVENT, es[i], eb[i]) { FormEvent(c.events[i]); }
    FormVec(WRITE_ENTRY, ws, wb);
    FormVec(CONTRACT_EVENT, es, eb);
    FormStruct(TVec(WRITE_ENTRY), Vec(ws), ListBytes(wb));
    FormStruct(TStruct(TVec(WRITE_ENTRY)), Struct(Vec(ws)), ListBytes(wb));
    FormPair(WRITE_SET, TVec(CONTRACT_EVENT), Struct(Struct(Vec(ws))), ListBytes(wb), Vec(es), ListBytes(eb));
    FormStruct(CHANGE_SET.body, ChangeSetValue(c).body, ChangeSetBytes(c));
  }

  lemma FormWriteSet(w: WriteSet)
    requires WriteSetInRange(w)
    ensures Form(WRITE_SET_PAYLOAD, WriteSetValue(w), WriteSetBytes(w))
  {
    hide Enc, WellTyped, Form, ChangeSetValue, ChangeSetBytes, AddressValue, ScriptValue, ScriptBytes, InRange;
    var cases := WRITE_SET_PAYLOAD.body.cases;
    match w
    case Direct(c) =>
      FormChangeSet(c);
      FormCase(cases, 0, ChangeSetValue(c), ChangeSetBytes(c));
    case ByScript(a, s) =>
      FormAddress(a);
      FormScript(s);
      FormPair(ACCOUNT_ADDRESS, SCRIPT, AddressValue(a), a, ScriptValue(s), ScriptBytes(s));
      FormCase(cases, 1, Pair(AddressValue(a), ScriptValue(s)), a + ScriptBytes(s));
  }

  // ---- every value of the type is a record ----

  lemma WriteEntryFor(v: Value) returns (e: WriteEntry)
    requires WellTyped(DIEM, WRITE_ENTRY, v)
    ensures WriteEntryValue(e) == v
  {
    hide WellTyped, AddressValue, BytesValue;
    AsPair(ACCESS_PATH, WRITE_OP, v);
    AsStruct(ACCESS_PATH.body, v.fst);
    AsPair(ACCOUNT_ADDRESS, BYTES, v.fst.body);
    AsCase(WRITE_OP.body.cases, v.snd);
    var address := AddressFor(v.fst.body.fst);
    var path := BytesFor(v.fst.body.snd);
    var x := v.snd.body.payload;
    if v.snd.body.index == 0 {
      UnitFor(x);
      e := WriteEntry(AccessPath(address, path), Deletion);
    } else {
      var value := BytesFor(x);
      e := WriteEntry(AccessPath(address, path), Assign(value));
    }
  }

  lemma UnitFor(v: Value)
    requires WellTyped(DIEM, TUnit, v)
    ensures v == Unit
  {
  }

  lemma EventFor(v: Value) returns (e: Event)
    requires WellTyped(DIEM, CONTRACT_EVENT, v)
    ensures EventValue(e) == v && e.sequenceNumber < TWO_64
  {
    hide WellTyped, BytesValue, TagValue, Pow256;
    Widths();
    AsCase(CONTRACT_EVENT.body.cases, v);
    var x := v.body.payload;
    AsStruct(EVENT_BODY, x);
    AsPair(TStruct(BYTES), EVENT_BODY.snd, x.body);
    AsPair(U64, TPair(TYPE_TAG, BYTES), x.body.snd);
    AsPair(TYPE_TAG, BYTES, x.body.snd.snd);
    AsStruct(BYTES, x.body.fst);
    AsInteger(W64, x.body.snd.fst);
    var key := BytesFor(x.body.fst.body);
    var tag := TagFor(x.body.snd.snd.fst);
    var data := BytesFor(x.body.snd.snd.snd);
    e := Event(key, x.body.snd.fst.n, tag, data);
  }

  lemma {:induction false} WriteEntriesFor(vs: seq<Value>) returns (es: seq<WriteEntry>)
    requires forall i :: 0 <= i < |vs| ==> WellTyped(DIEM, WRITE_ENTRY, vs[i])
    ensures WriteEntryValues(es) == vs
  {
    hide WellTyped, WriteEntryValue;
    es := [];
    if vs != [] {
      var first := WriteEntryFor(vs[0]);
      var rest := WriteEntriesFor(vs[1..]);
      es := [first] + rest;
      assert WriteEntryValues(es) == [WriteEntryValue(first)] + WriteEntryValues(rest);
    }
  }

  lemma {:induction false} EventsFor(vs: seq<Value>) returns (es: seq<Event>)
    requires forall i :: 0 <= i < |vs| ==> WellTyped(DIEM, CONTRACT_EVENT, vs[i])
    ensures EventValues(es) == vs && forall i :: 0 <= i < |es| ==> es[i].sequenceNumber < TWO_64
  {
    hide WellTyped, EventValue;
    es := [];
    if vs != [] {
      var first := EventFor(vs[0]);
      var rest := EventsFor(vs[1..]);
      es := [first] + rest;
      assert EventValues(es) == [EventValue(first)] + EventValues(rest);
    }
  }

  lemma ChangeSetFor(v: Value) returns (c: ChangeSet)
    requires WellTyped(DIEM, CHANGE_SET, v)
    ensures ChangeSetValue(c) == v && forall i :: 0 <= i < |c.events| ==> c.events[i].sequenceNumber < TWO_64
  {
    hide WellTyped, WriteEntryValues, EventValues;
    AsStruct(CHANGE_SET.body, v);
    AsPair(WRITE_SET, TVec(CONTRACT_EVENT), v.body);
    AsStruct(WRITE_SET.body, v.body.fst);
    AsStruct(TVec(WRITE_ENTRY), v.body.fst.body);
    AsVec(WRITE_ENTRY, v.body.fst.body.body);
    AsVec(CONTRACT_EVENT, v.body.snd);
    var writes := WriteEntriesFor(v.body.fst.body.body.items);
    var events := EventsFor(v.body.snd.items);
    c := ChangeSet(writes, events);
  }

  lemma WriteSetFor(v: Value) returns (w: WriteSet)
    requires WellTyped(DIEM, WRITE_SET_PAYLOAD, v)
    ensures WriteSetValue(w) == v && WriteSetInRange(w)
  {
    hide WellTyped, ChangeSetValue, AddressValue, ScriptValue, InRange;
    AsCase(WRITE_SET_PAYLOAD.body.cases, v);
    var x := v.body.payload;
    if v.body.index == 0 {
      var c := ChangeSetFor(x);
      w := Direct(c);
    } else {
      AsPair(ACCOUNT_ADDRESS, SCRIPT, x);
      var a := AddressFor(x.fst);
      var s := ScriptFor(x.snd);
      w := ByScript(a, s);
    }
  }

  // ---- records are told apart by their values ----

  lemma SameWriteEntry(d: WriteEntry, e: WriteEntry)
    requires WriteEntryValue(d) == WriteEntryValue(e)
    ensures d == e
  {
    hide AddressValue, BytesValue;
    SameAddress(d.path.address, e.path.address);
    BytesInjective(d.path.path, e.path.path);
    if d.op.Assign? { BytesInjective(d.op.value, e.op.value); }
  }

  lemma SameEvent(d: Event, e: Event)
    requires EventValue(d) == EventValue(e)
    ensures d == e
  {
    hide BytesValue, TagValue;
    BytesInjective(d.key, e.key);
    TagInjective(d.typeTag, e.typeTag);
    BytesInjective(d.data, e.data);
  }

  lemma SameChangeSet(c: ChangeSet, d: ChangeSet)
    requires ChangeSetValue(c) == ChangeSetValue(d)
    ensures c == d
  {
    hide WriteEntryValue, EventValue;
    var x, y := WriteEntryValues(c.writes), WriteEntryValues(d.writes);
    assert x == y;
    assert |c.writes| == |x| == |d.writes|;
    forall i | 0 <= i < |x| ensures c.writes[i] == d.writes[i] {
      assert x[i] == y[i];
      SameWriteEntry(c.writes[i], d.writes[i]);
    }
    var u, w := EventValues(c.events), EventValues(d.events);
    assert u == w;
    assert |c.events| == |u| == |d.events|;
    forall i | 0 <= i < |u| ensures c.events[i] == d.events[i] {
      assert u[i] == w[i];
      SameEvent(c.events[i], d.events[i]);
    }
  }

  lemma SameWriteSet(w: WriteSet, z: WriteSet)
    requires WriteSetInRange(w) && WriteSetInRange(z) && WriteSetValue(w) == WriteSetValue(z)
    ensures w == z
  {
    hide ChangeSetValue, AddressValue, ScriptValue, InRange;
    match w
    case Direct(c) => SameChangeSet(c, z.changes);
    case ByScript(a, s) =>
      SameAddress(a, z.executeAs);
      SameScript(s, z.script);
  }

  // ---- limits ----

  ghost predicate WriteEntryFits(e: WriteEntry) {
    |e.path.path| <= MAX_LENGTH && (e.op.Assign? ==> |e.op.value| <= MAX_LENGTH)
  }

  /** The type of the event at most `d` deep, with names and lists in range. */
  ghost predicate EventFits(e: Event, d: nat, utf8: bool) {
    && |e.key| <= MAX_LENGTH && |e.data| <= MAX_LENGTH
    && TagDepth(e.typeTag) <= d && NamesFit(e.typeTag, utf8)
  }

  /** Inside a write-set payload that is given a budget of `d`, a unit less than its container was. */
  ghost predicate WriteSetFits(w: WriteSet, d: nat, utf8: bool)
    requires d >= 5
  {
    match w
    case Direct(c) =>
      && |c.writes| <= MAX_LENGTH && (forall i :: 0 <= i < |c.writes| ==> WriteEntryFits(c.writes[i]))
      && |c.events| <= MAX_LENGTH && (forall i :: 0 <= i < |c.events| ==> EventFits(c.events[i], d - 3, utf8))
    case ByScript(_, s) => ScriptFits(s, d - 1, utf8)
  }

  lemma WriteEntryFitsExactly(e: WriteEntry, b: nat, utf8: bool)
    requires b >= 2
    ensures Fits(WriteEntryValue(e), b, utf8) <==> WriteEntryFits(e)
  {
    hide Fits, AddressValue, BytesValue;
    var path, op := AccessPathValue(e.path), WriteOpValue(e.op);
    FitsPair(path, op, b, utf8);
    FitsStruct(path.body, b, utf8);
    FitsPair(path.body.fst, path.body.snd, b - 1, utf8);
    AddressFits(e.path.address, b - 1, utf8);
    BytesFit(e.path.path, b - 1, utf8);
    CaseFits(op.body.index, op.body.payload, b, utf8);
    match e.op
    case Deletion => UnitFits(b - 1, utf8);
    case Assign(value) => BytesFit(value, b - 1, utf8);
  }

  lemma EventFitsExactly(e: Event, b: nat, utf8: bool)
    requires b >= 3
    ensures Fits(EventValue(e), b, utf8) <==> EventFits(e, b - 2, utf8)
  {
    hide Fits, BytesValue, TagValue, TagDepth, NamesFit;
    var v := EventBody(e);
    CaseFits(0, Struct(v), b, utf8);
    FitsStruct(v, b - 1, utf8);
    FitsPair(v.fst, v.snd, b - 2, utf8);
    FitsPair(v.snd.fst, v.snd.snd, b - 2, utf8);
    FitsPair(v.snd.snd.fst, v.snd.snd.snd, b - 2, utf8);
    FitsStruct(BytesValue(e.key), b - 2, utf8);
    BytesFit(e.key, b - 3, utf8);
    NumberFits(W64, e.sequenceNumber, b - 2, utf8);
    TagFits(e.typeTag, b - 2, utf8);
    BytesFit(e.data, b - 2, utf8);
  }

  lemma ChangeSetFitsExactly(c: ChangeSet, b: nat, utf8: bool)
    requires b >= 5
    ensures Fits(ChangeSetValue(c), b, utf8) <==> WriteSetFits(Direct(c), b, utf8)
  {
    hide Fits, WriteEntryValue, EventValue, WriteEntryFits, EventFits;
    var ws, es := WriteEntryValues(c.writes), EventValues(c.events);
    FitsStruct(ChangeSetValue(c).body, b, utf8);
    FitsPair(Struct(Struct(Vec(ws))), Vec(es), b - 1, utf8);
    FitsStruct(Struct(Vec(ws)), b - 1, utf8);
    FitsStruct(Vec(ws), b - 2, utf8);
    VecFitsItems(ws, b - 3, utf8);
    VecFitsItems(es, b - 1, utf8);
    forall i | 0 <= i < |ws| ensures Fits(ws[i], b - 3, utf8) <==> WriteEntryFits(c.writes[i]) {
      WriteEntryFitsExactly(c.writes[i], b - 3, utf8);
    }
    forall i | 0 <= i < |es| ensures Fits(es[i], b - 1, utf8) <==> EventFits(c.events[i], b - 3, utf8) {
      EventFitsExactly(c.events[i], b - 1, utf8);
    }
  }

  lemma WriteSetFitsExactly(w: WriteSet, b: nat, utf8: bool)
    requires b >= 6
    ensures Fits(WriteSetValue(w), b, utf8) <==> WriteSetFits(w, b - 1, utf8)
  {
    hide Fits, ChangeSetValue, AddressValue, ScriptValue, ScriptFits;
    match w
    case Direct(c) =>
      CaseFits(0, ChangeSetValue(c), b, utf8);
      ChangeSetFitsExactly(c, b - 1, utf8);
    case ByScript(a, s) =>
      CaseFits(1, Pair(AddressValue(a), ScriptValue(s)), b, utf8);
      FitsPair(AddressValue(a), ScriptValue(s), b - 1, utf8);
      AddressFits(a, b - 1, utf8);
      ScriptFitsExactly(s, b - 1, utf8);
  }
}

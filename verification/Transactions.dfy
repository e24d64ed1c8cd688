/** Signed transactions: their records, their wire format and their codec. */
module Transactions {
  import opened Bytes
  import opened Leb128
  import opened Values
  import opened Serializing
  import opened Serializer
  import opened PrefixFree
  import opened Messages
  import opened DiemTypes
  import opened TypeTags
  import opened Formats
  import opened Arguments
  import opened Scripts
  import opened WriteSets
  import opened Authenticators

  // ---- records ----

  datatype Payload =
    | WriteSetPayload(writeSet: WriteSet)
    | ScriptPayload(script: Script)
    | ModulePayload(code: bytes)
    | CallPayload(call: Call)

  datatype RawTransaction = RawTransaction(
    sender: Address, sequenceNumber: nat, payload: Payload, maxGasAmount: nat, gasUnitPrice: nat,
    gasCurrencyCode: bytes, expirationTimestampSecs: nat, chainId: nat)

  datatype SignedTransaction = SignedTransaction(raw: RawTransaction, authenticator: Authenticator)

  /** Integer fields hold machine integers. */
  predicate Representable(r: RawTransaction) {
    && r.sequenceNumber < TWO_64 && r.maxGasAmount < TWO_64 && r.gasUnitPrice < TWO_64
    && r.expirationTimestampSecs < TWO_64 && r.chainId < 0x100
    && PayloadInRange(r.payload)
  }

  predicate PayloadInRange(p: Payload) {
    match p
    case WriteSetPayload(w) => WriteSetInRange(w)
    case ScriptPayload(s) => forall i :: 0 <= i < |s.args| ==> InRange(s.args[i])
    case _ => true
  }

  // ---- records as values ----

  function PayloadValue(p: Payload): (v: Value) {
    match p
    case WriteSetPayload(w) => Struct(Variant(0, WriteSetValue(w)))
    case ScriptPayload(s) => Struct(Variant(1, ScriptValue(s)))
    case ModulePayload(code) => Struct(Variant(2, Struct(BytesValue(code))))
    case CallPayload(c) => Struct(Variant(3, CallValue(c)))
  }

  function RawValue(r: RawTransaction): (v: Value) {
    Struct(Pair(AddressValue(r.sender), Pair(UInt(W64, r.sequenceNumber), Pair(PayloadValue(r.payload),
           Pair(UInt(W64, r.maxGasAmount), Pair(UInt(W64, r.gasUnitPrice), Pair(Str(r.gasCurrencyCode),
           Pair(UInt(W64, r.expirationTimestampSecs), Struct(UInt(W8, r.chainId))))))))))
  }

  function SignedValue(t: SignedTransaction): (v: Value) {
    Struct(Pair(RawValue(t.raw), AuthenticatorValue(t.authenticator)))
  }

  // ---- the wire format ----

  function PayloadBytes(p: Payload): (bs: bytes) {
    match p
    case WriteSetPayload(w) => [0] + WriteSetBytes(w)
    case ScriptPayload(s) => [1] + ScriptBytes(s)
    case ModulePayload(code) => [2] + IdentifierBytes(code)
    case CallPayload(c) => [3] + CallBytes(c)
  }

  function RawBytes(r: RawTransaction): (bs: bytes) {
    r.sender + (ToLE(8, r.sequenceNumber) + (PayloadBytes(r.payload) + (ToLE(8, r.maxGasAmount)
    + (ToLE(8, r.gasUnitPrice) + (IdentifierBytes(r.gasCurrencyCode)
    + (ToLE(8, r.expirationTimestampSecs) + ToLE(1, r.chainId)))))))
  }

  function SignedBytes(t: SignedTransaction): (bs: bytes) {
    RawBytes(t.raw) + AuthenticatorBytes(t.authenticator)
  }

  // ---- records have their types and their format ----

  lemma FormPayload(r: RawTransaction)
    requires Representable(r)
    ensures Form(TRANSACTION_PAYLOAD, PayloadValue(r.payload), PayloadBytes(r.payload))
  {
    hide Enc, WellTyped, Form, WriteSetValue, WriteSetBytes, WriteSetInRange, ScriptValue, ScriptBytes, CallValue, CallBytes, BytesValue, IdentifierBytes, InRange;
    var cases := TRANSACTION_PAYLOAD.body.cases;
    match r.payload
    case WriteSetPayload(w) =>
      FormWriteSet(w);
      FormCase(cases, 0, WriteSetValue(w), WriteSetBytes(w));
    case ScriptPayload(s) =>
      FormScript(s);
      FormCase(cases, 1, ScriptValue(s), ScriptBytes(s));
    case ModulePayload(code) =>
      FormBytes(code);
      FormStruct(BYTES, BytesValue(code), IdentifierBytes(code));
      FormCase(cases, 2, Struct(BytesValue(code)), IdentifierBytes(code));
    case CallPayload(c) =>
      FormCall(c);
      FormCase(cases, 3, CallValue(c), CallBytes(c));
  }

  lemma FormRaw(r: RawTransaction)
    requires Representable(r)
    ensures Form(RAW_TRANSACTION, RawValue(r), RawBytes(r))
  {
    hide Enc, WellTyped, ToLE, Pow256, IdentifierBytes, PayloadValue, PayloadBytes, AddressValue;
    Widths();
    FormPayload(r);
    FormAddress(r.sender);
    FormString(r.gasCurrencyCode);
    FormInteger(W64, r.sequenceNumber);
    FormInteger(W64, r.maxGasAmount);
    FormInteger(W64, r.gasUnitPrice);
    FormInteger(W64, r.expirationTimestampSecs);
    FormInteger(W8, r.chainId);
    FormStruct(U8, UInt(W8, r.chainId), ToLE(1, r.chainId));
    hide Form, Representable;
    var t := RAW_TRANSACTION.body;
    var v0 := RawValue(r).body;
    var v1 := v0.snd;
    var v2 := v1.snd;
    var v3 := v2.snd;
    var v4 := v3.snd;
    var v5 := v4.snd;
    var v6 := v5.snd;
    var b6 := ToLE(8, r.expirationTimestampSecs) + ToLE(1, r.chainId);
    var b5 := IdentifierBytes(r.gasCurrencyCode) + b6;
    var b4 := ToLE(8, r.gasUnitPrice) + b5;
    var b3 := ToLE(8, r.maxGasAmount) + b4;
    var b2 := PayloadBytes(r.payload) + b3;
    var b1 := ToLE(8, r.sequenceNumber) + b2;
    FormPair(U64, TStruct(U8), v6.fst, ToLE(8, r.expirationTimestampSecs), v6.snd, ToLE(1, r.chainId));
    FormPair(TStr, t.snd.snd.snd.snd.snd.snd, v5.fst, IdentifierBytes(r.gasCurrencyCode), v6, b6);
    FormPair(U64, t.snd.snd.snd.snd.snd, v4.fst, ToLE(8, r.gasUnitPrice), v5, b5);
    FormPair(U64, t.snd.snd.snd.snd, v3.fst, ToLE(8, r.maxGasAmount), v4, b4);
    FormPair(TRANSACTION_PAYLOAD, t.snd.snd.snd, v2.fst, PayloadBytes(r.payload), v3, b3);
    FormPair(U64, t.snd.snd, v1.fst, ToLE(8, r.sequenceNumber), v2, b2);
    FormPair(ACCOUNT_ADDRESS, t.snd, v0.fst, r.sender, v1, b1);
    FormStruct(t, v0, r.sender + b1);
  }

  lemma FormSigned(t: SignedTransaction)
    requires Representable(t.raw)
    ensures Form(SIGNED_TRANSACTION, SignedValue(t), SignedBytes(t))
  {
    hide Enc, WellTyped, RawValue, RawBytes, AuthenticatorValue, AuthenticatorBytes, Representable;
    FormRaw(t.raw);
    FormAuthenticator(t.authenticator);
    FormPair(RAW_TRANSACTION, TRANSACTION_AUTHENTICATOR, RawValue(t.raw), RawBytes(t.raw),
             AuthenticatorValue(t.authenticator), AuthenticatorBytes(t.authenticator));
    FormStruct(SIGNED_TRANSACTION.body, SignedValue(t).body, SignedBytes(t));
  }

  // ---- every value of the type is a record ----

  lemma PayloadFor(v: Value) returns (p: Payload)
    requires WellTyped(DIEM, TRANSACTION_PAYLOAD, v)
    ensures PayloadValue(p) == v && PayloadInRange(p)
  {
    hide WellTyped, WriteSetValue, WriteSetInRange, ScriptValue, CallValue, BytesValue, InRange;
    AsCase(TRANSACTION_PAYLOAD.body.cases, v);
    var x := v.body.payload;
    match v.body.index
    case 0 => var w := WriteSetFor(x); p := WriteSetPayload(w);
    case 1 => var s := ScriptFor(x); p := ScriptPayload(s);
    case 2 => AsStruct(BYTES, x); var code := BytesFor(x.body); p := ModulePayload(code);
    case _ => var c := CallFor(x); p := CallPayload(c);
  }

  lemma RawFor(v: Value) returns (r: RawTransaction)
    requires WellTyped(DIEM, RAW_TRANSACTION, v)
    ensures RawValue(r) == v && Representable(r)
  {
    hide WellTyped, PayloadValue, PayloadInRange, AddressValue, Pow256;
    Widths();
    var t := RAW_TRANSACTION.body;
    AsStruct(t, v);
    var v0 := v.body;
    AsPair(ACCOUNT_ADDRESS, t.snd, v0);
    AsPair(U64, t.snd.snd, v0.snd);
    var v2 := v0.snd.snd;
    AsPair(TRANSACTION_PAYLOAD, t.snd.snd.snd, v2);
    AsPair(U64, t.snd.snd.snd.snd, v2.snd);
    var v4 := v2.snd.snd;
    AsPair(U64, t.snd.snd.snd.snd.snd, v4);
    AsPair(TStr, t.snd.snd.snd.snd.snd.snd, v4.snd);
    var v6 := v4.snd.snd;
    AsPair(U64, TStruct(U8), v6);
    AsStruct(U8, v6.snd);
    AsInteger(W64, v0.snd.fst);
    AsInteger(W64, v2.snd.fst);
    AsInteger(W64, v4.fst);
    AsInteger(W64, v6.fst);
    AsInteger(W8, v6.snd.body);
    StringFor(v4.snd.fst);
    var sender := AddressFor(v0.fst);
    var payload := PayloadFor(v2.fst);
    r := RawTransaction(sender, v0.snd.fst.n, payload, v2.snd.fst.n, v4.fst.n, v4.snd.fst.chars,
                        v6.fst.n, v6.snd.body.n);
  }

  lemma SignedFor(v: Value) returns (t: SignedTransaction)
    requires WellTyped(DIEM, SIGNED_TRANSACTION, v)
    ensures SignedValue(t) == v && Representable(t.raw)
  {
    hide WellTyped, RawValue, AuthenticatorValue, Representable;
    AsStruct(SIGNED_TRANSACTION.body, v);
    AsPair(RAW_TRANSACTION, TRANSACTION_AUTHENTICATOR, v.body);
    var raw := RawFor(v.body.fst);
    var authenticator := AuthenticatorFor(v.body.snd);
    t := SignedTransaction(raw, authenticator);
  }

  // ---- records are told apart by their values ----

  lemma SamePayload(p: Payload, q: Payload)
    requires PayloadInRange(p) && PayloadInRange(q) && PayloadValue(p) == PayloadValue(q)
    ensures p == q
  {
    hide WriteSetValue, WriteSetInRange, ScriptValue, CallValue, BytesValue, InRange;
    match p
    case WriteSetPayload(w) => SameWriteSet(w, q.writeSet);
    case ScriptPayload(s) => SameScript(s, q.script);
    case ModulePayload(code) => BytesInjective(code, q.code);
    case CallPayload(c) => SameCall(c, q.call);
  }

  lemma SameRaw(r: RawTransaction, q: RawTransaction)
    requires Representable(r) && Representable(q) && RawValue(r) == RawValue(q)
    ensures r == q
  {
    hide PayloadValue, PayloadInRange, AddressValue;
    SameAddress(r.sender, q.sender);
    SamePayload(r.payload, q.payload);
  }

  /**
    * The wire format is prefix-free: two transactions whose bytes agree, whatever follows
    * them, are the same record, whether or not they are within the limits.
    */
  lemma SignedBytesPrefixFree(t: SignedTransaction, x: bytes, u: SignedTransaction, y: bytes)
    requires Representable(t.raw) && Representable(u.raw) && SignedBytes(t) + x == SignedBytes(u) + y
    ensures t == u && x == y
  {
    hide Enc, WellTyped, SignedBytes, RawValue, AuthenticatorValue, Representable;
    FormSigned(t);
    FormSigned(u);
    Unique(DIEM, SIGNED_TRANSACTION, SignedValue(t), x, SignedValue(u), y);
    SameRaw(t.raw, u.raw);
    SameAuthenticator(t.authenticator, u.authenticator);
  }

  /** What is signed determines the transaction: no two raw transactions have the same bytes. */
  lemma RawBytesPrefixFree(r: RawTransaction, x: bytes, q: RawTransaction, y: bytes)
    requires Representable(r) && Representable(q) && RawBytes(r) + x == RawBytes(q) + y
    ensures r == q && x == y
  {
    hide Enc, WellTyped, RawBytes, RawValue, Representable;
    FormRaw(r);
    FormRaw(q);
    Unique(DIEM, RAW_TRANSACTION, RawValue(r), x, RawValue(q), y);
    SameRaw(r, q);
  }

  // ---- limits ----

  /**
    * The limits of a payload. Its scripts, script functions and events have type arguments
    * at most 496, or inside a write set 495 and 493, deep.
    */
  ghost predicate PayloadFits(p: Payload, utf8: bool) {
    match p
    case WriteSetPayload(w) => WriteSetFits(w, 496, utf8)
    case ScriptPayload(s) => ScriptFits(s, 496, utf8)
    case ModulePayload(code) => |code| <= MAX_LENGTH
    case CallPayload(c) => CallFits(c, 496, utf8)
  }

  /** The limits of a transaction: lists in range, type arguments not too deep and, to be read, valid strings. */
  ghost predicate WithinLimits(t: SignedTransaction, utf8: bool) {
    PayloadFits(t.raw.payload, utf8) && IdentifierFits(t.raw.gasCurrencyCode, utf8) && AuthenticatorFits(t.authenticator)
  }

  lemma PayloadFitsExactly(p: Payload, utf8: bool)
    ensures Fits(PayloadValue(p), MAX_CONTAINER_DEPTH - 2, utf8) <==> PayloadFits(p, utf8)
  {
    hide Fits, WriteSetValue, WriteSetFits, ScriptValue, ScriptFits, CallValue, CallFits, BytesValue;
    var b := MAX_CONTAINER_DEPTH - 3;
    var v := PayloadValue(p).body;
    CaseFits(v.index, v.payload, b + 1, utf8);
    match p
    case WriteSetPayload(w) => WriteSetFitsExactly(w, b, utf8);
    case ScriptPayload(s) => ScriptFitsExactly(s, b, utf8);
    case ModulePayload(code) =>
      FitsStruct(BytesValue(code), b, utf8);
      BytesFit(code, b - 1, utf8);
    case CallPayload(c) => CallFitsExactly(c, b, utf8);
  }

  lemma RawFitsExactly(r: RawTransaction, utf8: bool)
    ensures Fits(RawValue(r), MAX_CONTAINER_DEPTH - 1, utf8)
       <==> PayloadFits(r.payload, utf8) && IdentifierFits(r.gasCurrencyCode, utf8)
  {
    hide Fits, PayloadValue, PayloadFits, AddressValue;
    var b := MAX_CONTAINER_DEPTH - 2;
    var v := RawValue(r).body;
    FitsStruct(v, b + 1, utf8);
    FitsPair(v.fst, v.snd, b, utf8);
    FitsPair(v.snd.fst, v.snd.snd, b, utf8);
    var v2 := v.snd.snd;
    FitsPair(v2.fst, v2.snd, b, utf8);
    FitsPair(v2.snd.fst, v2.snd.snd, b, utf8);
    var v4 := v2.snd.snd;
    FitsPair(v4.fst, v4.snd, b, utf8);
    FitsPair(v4.snd.fst, v4.snd.snd, b, utf8);
    var v6 := v4.snd.snd;
    FitsPair(v6.fst, v6.snd, b, utf8);
    FitsStruct(v6.snd.body, b, utf8);
    AddressFits(r.sender, b, utf8);
    PayloadFitsExactly(r.payload, utf8);
    FitsString(r.gasCurrencyCode, b, utf8);
    NumberFits(W64, r.sequenceNumber, b, utf8);
    NumberFits(W64, r.maxGasAmount, b, utf8);
    NumberFits(W64, r.gasUnitPrice, b, utf8);
    NumberFits(W64, r.expirationTimestampSecs, b, utf8);
    NumberFits(W8, r.chainId, b - 1, utf8);
  }

  /** The limits checked at run time are those of the record. */
  lemma LimitsExactly(t: SignedTransaction, utf8: bool)
    ensures Fits(SignedValue(t), MAX_CONTAINER_DEPTH, utf8) <==> WithinLimits(t, utf8)
  {
    hide Fits, RawValue, AuthenticatorValue, PayloadFits, AuthenticatorFits, IdentifierFits;
    FitsStruct(SignedValue(t).body, MAX_CONTAINER_DEPTH, utf8);
    FitsPair(RawValue(t.raw), AuthenticatorValue(t.authenticator), MAX_CONTAINER_DEPTH - 1, utf8);
    RawFitsExactly(t.raw, utf8);
    AuthenticatorFitsExactly(t.authenticator, MAX_CONTAINER_DEPTH - 1, utf8);
  }

  /** A transaction serializes, whatever its strings contain, exactly when it is within the limits. */
  lemma SignedTransactionSerializes(ord: KeyOrder, t: SignedTransaction)
    requires IsOrder(ord) && Representable(t.raw)
    ensures EncodeMessage(ord, SignedValue(t)).Done? <==> WithinLimits(t, false)
    ensures WithinLimits(t, false) ==> EncodeMessage(ord, SignedValue(t)) == Done(SignedBytes(t))
  {
    hide Ser, Enc, WellTyped, Fits, SignedValue, SignedBytes, Representable, WithinLimits;
    FormSigned(t);
    LimitsExactly(t, false);
    SerExactly(ord, DIEM, SIGNED_TRANSACTION, SignedValue(t), MAX_CONTAINER_DEPTH);
  }

  // ---- messages ----

  /** A transaction that C++ can hold, within the length, depth and UTF-8 limits. */
  ghost predicate Encodable(t: SignedTransaction) {
    Representable(t.raw) && WithinLimits(t, true)
  }

  /**
    * An encodable transaction is written in the wire format,
    * and an input reads as that transaction exactly when it is its wire format.
    */
  lemma SignedTransactionMessage(ord: KeyOrder, t: SignedTransaction, input: bytes)
    requires IsOrder(ord) && Encodable(t)
    ensures EncodeMessage(ord, SignedValue(t)) == Done(SignedBytes(t))
    ensures ReadMessage(DIEM, SIGNED_TRANSACTION, input) == Done(SignedValue(t)) <==> input == SignedBytes(t)
  {
    hide Enc, WellTyped, Fits, WithinLimits, EncodeMessage, ReadMessage, SignedValue, SignedBytes, Representable;
    FormSigned(t);
    LimitsExactly(t, true);
    WriteThenRead(ord, DIEM, SIGNED_TRANSACTION, SignedValue(t));
    MessageBijection(ord, DIEM, SIGNED_TRANSACTION, SignedValue(t), input);
  }

  /**
    * Encodable transactions and accepted inputs correspond one to one: an input is accepted
    * exactly when it is the wire format of an encodable transaction, which is then what is
    * read, is the only one with that format, and is written as the input.
    */
  lemma SignedTransactionBijection(ord: KeyOrder, input: bytes)
    requires IsOrder(ord)
    ensures ReadMessage(DIEM, SIGNED_TRANSACTION, input).Done?
       <==> exists t :: Encodable(t) && SignedBytes(t) == input
    ensures forall t :: Encodable(t) && SignedBytes(t) == input ==>
              && ReadMessage(DIEM, SIGNED_TRANSACTION, input) == Done(SignedValue(t))
              && EncodeMessage(ord, SignedValue(t)) == Done(input)
    ensures forall t, u :: Encodable(t) && Encodable(u) && SignedBytes(t) == input == SignedBytes(u) ==> t == u
  {
    hide Fits, WithinLimits, EncodeMessage, ReadMessage, SignedBytes, SignedValue, WellTyped, Representable;
    forall t | Encodable(t) && SignedBytes(t) == input
      ensures ReadMessage(DIEM, SIGNED_TRANSACTION, input) == Done(SignedValue(t))
      ensures EncodeMessage(ord, SignedValue(t)) == Done(input)
    {
      SignedTransactionMessage(ord, t, input);
    }
    if ReadMessage(DIEM, SIGNED_TRANSACTION, input).Done? {
      var t := DecodedIsTransaction(ord, input);
    }
    forall t, u | Encodable(t) && Encodable(u) && SignedBytes(t) == input == SignedBytes(u) ensures t == u {
      assert SignedBytes(t) + [] == SignedBytes(u) + [];
      SignedBytesPrefixFree(t, [], u, []);
    }
  }

  lemma DecodedIsTransaction(ord: KeyOrder, input: bytes) returns (t: SignedTransaction)
    requires IsOrder(ord) && ReadMessage(DIEM, SIGNED_TRANSACTION, input).Done?
    ensures Encodable(t) && SignedBytes(t) == input
  {
    hide Fits, WithinLimits, EncodeMessage, ReadMessage, SignedBytes, SignedValue, WellTyped, Representable;
    ReadThenWrite(ord, DIEM, SIGNED_TRANSACTION, input);
    t := SignedFor(ReadMessage(DIEM, SIGNED_TRANSACTION, input).value);
    LimitsExactly(t, true);
    SignedTransactionMessage(ord, t, input);
  }
}

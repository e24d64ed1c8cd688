/** Transaction authenticators: keys and signatures, and their wire format. */
module Authenticators {
  import opened Bytes
  import opened Leb128
  import opened Values
  import opened DiemTypes
  import opened TypeTags
  import opened Formats
  import opened Scripts

  // ---- records ----

  datatype AccountAuthenticator =
    | AccountEd25519(key: bytes, signature: bytes)
    | AccountMultiEd25519(key: bytes, signature: bytes)

  datatype Authenticator =
    | Ed25519(key: bytes, signature: bytes)
    | MultiEd25519(key: bytes, signature: bytes)
    | MultiAgent(sender: AccountAuthenticator, addresses: seq<Address>, signers: seq<AccountAuthenticator>)

  // ---- records as values ----

  function KeyValue(key: bytes, signature: bytes): (v: Value) {
    Pair(Struct(BytesValue(key)), Struct(BytesValue(signature)))
  }

  function AccountAuthenticatorValue(a: AccountAuthenticator): (v: Value) {
    Struct(Variant(if a.AccountEd25519? then 0 else 1, KeyValue(a.key, a.signature)))
  }

  function AddressValues(addresses: seq<Address>): (vs: seq<Value>) {
    seq(|addresses|, i requires 0 <= i < |addresses| => AddressValue(addresses[i]))
  }

  function SignerValues(signers: seq<AccountAuthenticator>): (vs: seq<Value>) {
    seq(|signers|, i requires 0 <= i < |signers| => AccountAuthenticatorValue(signers[i]))
  }

  function AuthenticatorValue(a: Authenticator): (v: Value) {
    match a
    case Ed25519(key, signature) => Struct(Variant(0, KeyValue(key, signature)))
    case MultiEd25519(key, signature) => Struct(Variant(1, KeyValue(key, signature)))
    case MultiAgent(sender, addresses, signers) =>
      Struct(Variant(2, Pair(AccountAuthenticatorValue(sender),
                             Pair(Vec(AddressValues(addresses)), Vec(SignerValues(signers))))))
  }

  // ---- the wire format ----

  function KeyBytesOf(key: bytes, signature: bytes): (bs: bytes) {
    IdentifierBytes(key) + IdentifierBytes(signature)
  }

  function AccountAuthenticatorBytes(a: AccountAuthenticator): (bs: bytes) {
    [if a.AccountEd25519? then 0 else 1] + KeyBytesOf(a.key, a.signature)
  }

  function SignerParts(signers: seq<AccountAuthenticator>): (parts: seq<bytes>) {
    seq(|signers|, i requires 0 <= i < |signers| => AccountAuthenticatorBytes(signers[i]))
  }

  function AuthenticatorBytes(a: Authenticator): (bs: bytes) {
    match a
    case Ed25519(key, signature) => [0] + KeyBytesOf(key, signature)
    case MultiEd25519(key, signature) => [1] + KeyBytesOf(key, signature)
    case MultiAgent(sender, addresses, signers) =>
      [2] + (AccountAuthenticatorBytes(sender) + (ListBytes(addresses) + ListBytes(SignerParts(signers))))
  }

  // ---- records have their types and their format ----

  lemma FormKey(key: bytes, signature: bytes)
    ensures Form(KEY_AND_SIGNATURE, KeyValue(key, signature), KeyBytesOf(key, signature))
  {
    hide Enc, WellTyped, IdentifierBytes, BytesValue;
    FormBytes(key);
    FormBytes(signature);
    FormStruct(BYTES, BytesValue(key), IdentifierBytes(key));
    FormStruct(BYTES, BytesValue(signature), IdentifierBytes(signature));
    FormPair(TStruct(BYTES), TStruct(BYTES), Struct(BytesValue(key)), IdentifierBytes(key),
             Struct(BytesValue(signature)), IdentifierBytes(signature));
  }

  lemma FormAccountAuthenticator(a: AccountAuthenticator)
    ensures Form(ACCOUNT_AUTHENTICATOR, AccountAuthenticatorValue(a), AccountAuthenticatorBytes(a))
  {
    hide Enc, WellTyped, KeyValue, KeyBytesOf;
    FormKey(a.key, a.signature);
    FormCase(ACCOUNT_AUTHENTICATOR.body.cases, if a.AccountEd25519? then 0 else 1,
             KeyValue(a.key, a.signature), KeyBytesOf(a.key, a.signature));
  }

  lemma FormAuthenticator(a: Authenticator)
    ensures Form(TRANSACTION_AUTHENTICATOR, AuthenticatorValue(a), AuthenticatorBytes(a))
  {
    hide Enc, WellTyped, KeyValue, KeyBytesOf;
    var cases := TRANSACTION_AUTHENTICATOR.body.cases;
    match a
    case Ed25519(key, signature) =>
      FormKey(key, signature);
      FormCase(cases, 0, KeyValue(key, signature), KeyBytesOf(key, signature));
    case MultiEd25519(key, signature) =>
      FormKey(key, signature);
      FormCase(cases, 1, KeyValue(key, signature), KeyBytesOf(key, signature));
    case MultiAgent(sender, addresses, signers) =>
      FormAgents(sender, addresses, signers);
      FormCase(cases, 2, AuthenticatorValue(a).body.payload,
               AccountAuthenticatorBytes(sender) + (ListBytes(addresses) + ListBytes(SignerParts(signers))));
  }

  lemma FormAgents(sender: AccountAuthenticator, addresses: seq<Address>, signers: seq<AccountAuthenticator>)
    ensures Form(TPair(ACCOUNT_AUTHENTICATOR, TPair(TVec(ACCOUNT_ADDRESS), TVec(ACCOUNT_AUTHENTICATOR))),
                 Pair(AccountAuthenticatorValue(sender),
                      Pair(Vec(AddressValues(addresses)), Vec(SignerValues(signers)))),
                 AccountAuthenticatorBytes(sender) + (ListBytes(addresses) + ListBytes(SignerParts(signers))))
  {
    hide Enc, WellTyped, AccountAuthenticatorValue, AccountAuthenticatorBytes, AddressValue, Uleb, Join;
    FormAccountAuthenticator(sender);
    forall i | 0 <= i < |addresses| ensures Form(ACCOUNT_ADDRESS, AddressValues(addresses)[i], addresses[i]) {
      FormAddress(addresses[i]);
    }
    forall i | 0 <= i < |signers|
      ensures Form(ACCOUNT_AUTHENTICATOR, SignerValues(signers)[i], SignerParts(signers)[i])
    {
      FormAccountAuthenticator(signers[i]);
    }
    FormVec(ACCOUNT_ADDRESS, AddressValues(addresses), addresses);
    FormVec(ACCOUNT_AUTHENTICATOR, SignerValues(signers), SignerParts(signers));
    hide Form;
    FormPair(TVec(ACCOUNT_ADDRESS), TVec(ACCOUNT_AUTHENTICATOR), Vec(AddressValues(addresses)), ListBytes(addresses),
             Vec(SignerValues(signers)), ListBytes(SignerParts(signers)));
    FormPair(ACCOUNT_AUTHENTICATOR, TPair(TVec(ACCOUNT_ADDRESS), TVec(ACCOUNT_AUTHENTICATOR)),
             AccountAuthenticatorValue(sender), AccountAuthenticatorBytes(sender),
             Pair(Vec(AddressValues(addresses)), Vec(SignerValues(signers))),
             ListBytes(addresses) + ListBytes(SignerParts(signers)));
  }

  // ---- every value of the type is a record ----

  lemma KeyFor(v: Value) returns (key: bytes, signature: bytes)
    requires WellTyped(DIEM, KEY_AND_SIGNATURE, v)
    ensures KeyValue(key, signature) == v
  {
    hide WellTyped, BytesValue;
    AsPair(TStruct(BYTES), TStruct(BYTES), v);
    AsStruct(BYTES, v.fst);
    AsStruct(BYTES, v.snd);
    key := BytesFor(v.fst.body);
    signature := BytesFor(v.snd.body);
  }

  lemma AccountAuthenticatorFor(v: Value) returns (a: AccountAuthenticator)
    requires WellTyped(DIEM, ACCOUNT_AUTHENTICATOR, v)
    ensures AccountAuthenticatorValue(a) == v
  {
    hide WellTyped, KeyValue;
    AsCase(ACCOUNT_AUTHENTICATOR.body.cases, v);
    var key, signature := KeyFor(v.body.payload);
    a := if v.body.index == 0 then AccountEd25519(key, signature) else AccountMultiEd25519(key, signature);
  }

  lemma {:induction false} AddressesFor(vs: seq<Value>) returns (addresses: seq<Address>)
    requires forall i :: 0 <= i < |vs| ==> WellTyped(DIEM, ACCOUNT_ADDRESS, vs[i])
    ensures AddressValues(addresses) == vs
  {
    hide WellTyped, AddressValue;
    addresses := [];
    if vs != [] {
      var first := AddressFor(vs[0]);
      var rest := AddressesFor(vs[1..]);
      addresses := [first] + rest;
      assert AddressValues(addresses) == [AddressValue(first)] + AddressValues(rest);
    }
  }

  lemma {:induction false} SignersFor(vs: seq<Value>) returns (signers: seq<AccountAuthenticator>)
    requires forall i :: 0 <= i < |vs| ==> WellTyped(DIEM, ACCOUNT_AUTHENTICATOR, vs[i])
    ensures SignerValues(signers) == vs
  {
    hide WellTyped, AccountAuthenticatorValue;
    signers := [];
    if vs != [] {
      var first := AccountAuthenticatorFor(vs[0]);
      var rest := SignersFor(vs[1..]);
      signers := [first] + rest;
      assert SignerValues(signers) == [AccountAuthenticatorValue(first)] + SignerValues(rest);
    }
  }

  lemma AuthenticatorFor(v: Value) returns (a: Authenticator)
    requires WellTyped(DIEM, TRANSACTION_AUTHENTICATOR, v)
    ensures AuthenticatorValue(a) == v
  {
    hide WellTyped, KeyValue, AccountAuthenticatorValue, AddressValues, SignerValues;
    AsCase(TRANSACTION_AUTHENTICATOR.body.cases, v);
    var x := v.body.payload;
    if v.body.index == 2 {
      AsPair(ACCOUNT_AUTHENTICATOR, TPair(TVec(ACCOUNT_ADDRESS), TVec(ACCOUNT_AUTHENTICATOR)), x);
      AsPair(TVec(ACCOUNT_ADDRESS), TVec(ACCOUNT_AUTHENTICATOR), x.snd);
      AsVec(ACCOUNT_ADDRESS, x.snd.fst);
      AsVec(ACCOUNT_AUTHENTICATOR, x.snd.snd);
      var sender := AccountAuthenticatorFor(x.fst);
      var addresses := AddressesFor(x.snd.fst.items);
      var signers := SignersFor(x.snd.snd.items);
      a := MultiAgent(sender, addresses, signers);
    } else {
      var key, signature := KeyFor(x);
      a := if v.body.index == 0 then Ed25519(key, signature) else MultiEd25519(key, signature);
    }
  }

  // ---- records are told apart by their values ----

  lemma SameKey(k: bytes, s: bytes, k': bytes, s': bytes)
    requires KeyValue(k, s) == KeyValue(k', s')
    ensures k == k' && s == s'
  {
    hide BytesValue;
    BytesInjective(k, k');
    BytesInjective(s, s');
  }

  lemma SameAccountAuthenticator(a: AccountAuthenticator, b: AccountAuthenticator)
    requires AccountAuthenticatorValue(a) == AccountAuthenticatorValue(b)
    ensures a == b
  {
    hide KeyValue;
    SameKey(a.key, a.signature, b.key, b.signature);
  }

  lemma SameAgents(a: Authenticator, b: Authenticator)
    requires a.MultiAgent? && b.MultiAgent? && AuthenticatorValue(a) == AuthenticatorValue(b)
    ensures a == b
  {
    hide AccountAuthenticatorValue, AddressValue;
    SameAccountAuthenticator(a.sender, b.sender);
    var x, y := AddressValues(a.addresses), AddressValues(b.addresses);
    assert x == y;
    assert |a.addresses| == |x| == |b.addresses|;
    forall i | 0 <= i < |x| ensures a.addresses[i] == b.addresses[i] {
      assert x[i] == y[i];
      SameAddress(a.addresses[i], b.addresses[i]);
    }
    var u, w := SignerValues(a.signers), SignerValues(b.signers);
    assert u == w;
    assert |a.signers| == |u| == |b.signers|;
    forall i | 0 <= i < |u| ensures a.signers[i] == b.signers[i] {
      assert u[i] == w[i];
      SameAccountAuthenticator(a.signers[i], b.signers[i]);
    }
  }

  lemma SameAuthenticator(a: Authenticator, b: Authenticator)
    requires AuthenticatorValue(a) == AuthenticatorValue(b)
    ensures a == b
  {
    hide KeyValue, AccountAuthenticatorValue, AddressValues, SignerValues;
    if a.MultiAgent? {
      SameAgents(a, b);
    } else {
      SameKey(a.key, a.signature, b.key, b.signature);
    }
  }

  // ---- limits ----

  ghost predicate KeyFits(key: bytes, signature: bytes) {
    |key| <= MAX_LENGTH && |signature| <= MAX_LENGTH
  }

  ghost predicate AuthenticatorFits(a: Authenticator) {
    match a
    case MultiAgent(sender, addresses, signers) =>
      && KeyFits(sender.key, sender.signature) && |addresses| <= MAX_LENGTH && |signers| <= MAX_LENGTH
      && forall i :: 0 <= i < |signers| ==> KeyFits(signers[i].key, signers[i].signature)
    case _ => KeyFits(a.key, a.signature)
  }

  lemma KeyFitsExactly(key: bytes, signature: bytes, b: nat, utf8: bool)
    requires b >= 1
    ensures Fits(KeyValue(key, signature), b, utf8) <==> KeyFits(key, signature)
  {
    hide Fits, BytesValue;
    FitsPair(Struct(BytesValue(key)), Struct(BytesValue(signature)), b, utf8);
    FitsStruct(BytesValue(key), b, utf8);
    FitsStruct(BytesValue(signature), b, utf8);
    BytesFit(key, b - 1, utf8);
    BytesFit(signature, b - 1, utf8);
  }

  lemma AccountAuthenticatorFitsExactly(a: AccountAuthenticator, b: nat, utf8: bool)
    requires b >= 2
    ensures Fits(AccountAuthenticatorValue(a), b, utf8) <==> KeyFits(a.key, a.signature)
  {
    hide Fits, KeyValue, KeyFits;
    CaseFits(if a.AccountEd25519? then 0 else 1, KeyValue(a.key, a.signature), b, utf8);
    KeyFitsExactly(a.key, a.signature, b - 1, utf8);
  }

  lemma AgentsFitExactly(a: Authenticator, b: nat, utf8: bool)
    requires b >= 2 && a.MultiAgent?
    ensures Fits(AuthenticatorValue(a).body.payload, b, utf8) <==> AuthenticatorFits(a)
  {
    hide Fits, AccountAuthenticatorValue, AddressValue, KeyFits;
    var xs, ys := AddressValues(a.addresses), SignerValues(a.signers);
    FitsPair(AccountAuthenticatorValue(a.sender), Pair(Vec(xs), Vec(ys)), b, utf8);
    FitsPair(Vec(xs), Vec(ys), b, utf8);
    AccountAuthenticatorFitsExactly(a.sender, b, utf8);
    VecFitsItems(xs, b, utf8);
    VecFitsItems(ys, b, utf8);
    forall i | 0 <= i < |xs| ensures Fits(xs[i], b, utf8) { AddressFits(a.addresses[i], b, utf8); }
    forall i | 0 <= i < |ys| ensures Fits(ys[i], b, utf8) <==> KeyFits(a.signers[i].key, a.signers[i].signature) {
      AccountAuthenticatorFitsExactly(a.signers[i], b, utf8);
    }
  }

  lemma AuthenticatorFitsExactly(a: Authenticator, b: nat, utf8: bool)
    requires b >= 3
    ensures Fits(AuthenticatorValue(a), b, utf8) <==> AuthenticatorFits(a)
  {
    hide Fits, KeyValue, AccountAuthenticatorValue, AddressValues, SignerValues, KeyFits;
    var v := AuthenticatorValue(a).body;
    CaseFits(v.index, v.payload, b, utf8);
    if a.MultiAgent? {
      AgentsFitExactly(a, b - 1, utf8);
    } else {
      KeyFitsExactly(a.key, a.signature, b - 1, utf8);
    }
  }
}

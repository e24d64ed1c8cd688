/** The arguments that clients build for transactions. */
module Arguments {
  import opened Bytes
  import opened Leb128
  import opened Values
  import opened Serializing
  import opened Serializer
  import opened Messages
  import opened DiemTypes
  import opened TypeTags
  import opened Formats

  // ---- transaction arguments ----

  /** The argument types that make_txn_args accepts. */
  datatype Argument =
    | ArgU8(n: nat)
    | ArgU64(n: nat)
    | ArgU128(n: nat)
    | ArgAddress(address: Address)
    | ArgBytes(data: bytes)        // byte vectors, strings and 32-byte arrays
    | ArgBool(b: bool)

  predicate InRange(a: Argument) {
    match a
    case ArgU8(n) => n < 0x100
    case ArgU64(n) => n < TWO_64
    case ArgU128(n) => n < TWO_64 * TWO_64
    case _ => true
  }

  /** A 128-bit argument arrives as two halves. */
  function Halves(n: nat): (h: (nat, nat)) { (n / TWO_64 % TWO_64, n % TWO_64) }

  /** The 128-bit integer that serialize_u128 writes for a pair of halves. */
  function Rejoin(h: (nat, nat)): (n: nat) { h.1 + TWO_64 * h.0 }

  lemma HalvesRejoin(n: nat)
    requires n < TWO_64 * TWO_64
    ensures Rejoin(Halves(n)) == n && Halves(n).0 < TWO_64 && Halves(n).1 < TWO_64
  {
  }

  function ArgumentValue(a: Argument): (v: Value) {
    match a
    case ArgU8(n) => Struct(Variant(0, UInt(W8, n)))
    case ArgU64(n) => Struct(Variant(1, UInt(W64, n)))
    case ArgU128(n) => Struct(Variant(2, UInt(W128, Rejoin(Halves(n)))))
    case ArgAddress(address) => Struct(Variant(3, AddressValue(address)))
    case ArgBytes(data) => Struct(Variant(4, BytesValue(data)))
    case ArgBool(b) => Struct(Variant(5, Bool(b)))
  }

  function ArgumentValues(args: seq<Argument>): (vs: seq<Value>) {
    seq(|args|, i requires 0 <= i < |args| => ArgumentValue(args[i]))
  }

  method MakeTxnArgs(args: seq<Argument>) returns (r: seq<Value>)
    ensures |r| == |args| && forall i :: 0 <= i < |args| ==> r[i] == ArgumentValue(args[i])
  {
    r := [];
    for i := 0 to |args|
      invariant |r| == i && forall j :: 0 <= j < i ==> r[j] == ArgumentValue(args[j])
    {
      r := r + [ArgumentValue(args[i])];
    }
  }

  /** A 128-bit argument is written as its case and the sixteen little-endian bytes of the number. */
  lemma ArgumentU128Bytes(ord: KeyOrder, n: nat)
    requires IsOrder(ord) && n < TWO_64 * TWO_64
    ensures EncodeMessage(ord, ArgumentValue(ArgU128(n))) == Done([2] + ToLE(16, n))
    ensures FromLE(ToLE(16, n)) == n
    ensures ToLE(16, n) == ToLE(8, n % TWO_64) + ToLE(8, n / TWO_64)
  {
    hide ToLE, FromLE, Pow256, Ser, Enc, WellTyped;
    HalvesRejoin(n);
    Widths();
    FromToLE(16, n);
    LE128(n % TWO_64, n / TWO_64);
    FormArgument(ArgU128(n));
    var v := ArgumentValue(ArgU128(n));
    SerExactly(ord, DIEM, TRANSACTION_ARGUMENT, v, MAX_CONTAINER_DEPTH);
    FitsStruct(v.body, MAX_CONTAINER_DEPTH, false);
    FitsVariant(2, v.body.payload, MAX_CONTAINER_DEPTH - 1, false);
  }

  /** One byte for the case, then the value. */
  function ArgumentBytes(a: Argument): (bs: bytes) {
    match a
    case ArgU8(n) => [0] + ToLE(1, n)
    case ArgU64(n) => [1] + ToLE(8, n)
    case ArgU128(n) => [2] + ToLE(16, n)
    case ArgAddress(address) => [3] + address
    case ArgBytes(data) => [4] + IdentifierBytes(data)
    case ArgBool(b) => [5] + [if b then 1 else 0]
  }

  lemma FormArgument(a: Argument)
    requires InRange(a)
    ensures Form(TRANSACTION_ARGUMENT, ArgumentValue(a), ArgumentBytes(a))
  {
    hide Enc, WellTyped, ToLE, Pow256, IdentifierBytes;
    Widths();
    var cases := TRANSACTION_ARGUMENT.body.cases;
    var v, bs := ArgumentValue(a).body, ArgumentBytes(a);
    match a
    case ArgU8(n) => FormInteger(W8, n); FormCase(cases, 0, v.payload, ToLE(1, n));
    case ArgU64(n) => FormInteger(W64, n); FormCase(cases, 1, v.payload, ToLE(8, n));
    case ArgU128(n) =>
      HalvesRejoin(n);
      FormInteger(W128, n);
      FormCase(cases, 2, v.payload, ToLE(16, n));
    case ArgAddress(address) => FormAddress(address); FormCase(cases, 3, v.payload, address);
    case ArgBytes(data) => FormBytes(data); FormCase(cases, 4, v.payload, IdentifierBytes(data));
    case ArgBool(b) => FormBool(b); FormCase(cases, 5, v.payload, [if b then 1 else 0]);
  }

  lemma ArgumentFor(v: Value) returns (a: Argument)
    requires WellTyped(DIEM, TRANSACTION_ARGUMENT, v)
    ensures InRange(a) && ArgumentValue(a) == v
  {
    hide WellTyped, AddressValue, BytesValue, Pow256;
    AsCase(TRANSACTION_ARGUMENT.body.cases, v);
    Widths();
    var x := v.body.payload;
    match v.body.index
    case 0 => AsInteger(W8, x); a := ArgU8(x.n);
    case 1 => AsInteger(W64, x); a := ArgU64(x.n);
    case 2 => AsInteger(W128, x); HalvesRejoin(x.n); a := ArgU128(x.n);
    case 3 => var address := AddressFor(x); a := ArgAddress(address);
    case 4 => var data := BytesFor(x); a := ArgBytes(data);
    case _ => BoolFor(x); a := ArgBool(x.b);
  }

  lemma {:induction false} ArgumentsFor(vs: seq<Value>) returns (args: seq<Argument>)
    requires forall i :: 0 <= i < |vs| ==> WellTyped(DIEM, TRANSACTION_ARGUMENT, vs[i])
    ensures ArgumentValues(args) == vs && forall i :: 0 <= i < |args| ==> InRange(args[i])
  {
    hide WellTyped, ArgumentValue, InRange;
    args := [];
    if vs != [] {
      var first := ArgumentFor(vs[0]);
      var rest := ArgumentsFor(vs[1..]);
      args := [first] + rest;
      assert ArgumentValues(args) == [ArgumentValue(first)] + ArgumentValues(rest);
    }
  }

  lemma SameArgument(a: Argument, b: Argument)
    requires InRange(a) && InRange(b) && ArgumentValue(a) == ArgumentValue(b)
    ensures a == b
  {
    hide AddressValue, BytesValue, Rejoin, Halves;
    match a
    case ArgU128(n) => HalvesRejoin(n); HalvesRejoin(b.n);
    case ArgAddress(address) => SameAddress(address, b.address);
    case ArgBytes(data) => BytesInjective(data, b.data);
    case _ =>
  }

  ghost predicate ArgumentFits(a: Argument) {
    a.ArgBytes? ==> |a.data| <= MAX_LENGTH
  }

  lemma ArgumentFitsExactly(a: Argument, b: nat, utf8: bool)
    requires b >= 2
    ensures Fits(ArgumentValue(a), b, utf8) <==> ArgumentFits(a)
  {
    hide Fits, AddressValue, BytesValue;
    var v := ArgumentValue(a).body;
    CaseFits(v.index, v.payload, b, utf8);
    match a
    case ArgU8(n) => NumberFits(W8, n, b - 1, utf8);
    case ArgU64(n) => NumberFits(W64, n, b - 1, utf8);
    case ArgU128(n) => NumberFits(W128, Rejoin(Halves(n)), b - 1, utf8);
    case ArgAddress(address) => AddressFits(address, b - 1, utf8);
    case ArgBytes(data) => BytesFit(data, b - 1, utf8);
    case ArgBool(x) => FlagFits(x, b - 1, utf8);
  }
}

/**
  * Bytes, outcomes and the byte-level arithmetic shared by both codecs:
  * lexicographic order, little-endian integers and 128-bit splitting.
  */
module Bytes {

  type byte = b: int | 0 <= b < 256
  type bytes = seq<byte>

  /** Every way a codec call can end without a value. */
  datatype Error =
    | Eof                 // "Input is not large enough"
    | UlebOverflow        // uleb128 value above 2^32 - 1
    | UlebZeroDigit       // uleb128 value with a redundant last digit
    | LengthTooLarge      // length above BCS_MAX_LENGTH
    | InvalidBool         // boolean or option tag other than 0 and 1
    | InvalidUtf8
    | UnknownVariant      // index beyond the number of cases
    | VariantOutOfRange   // index equal to the number of cases: thrown by array::at
    | TooManyContainers   // container depth budget exhausted
    | KeysOutOfOrder      // map keys not strictly increasing
    | TrailingBytes       // message longer than its value
    | PastEnd             // an iterator moved past the end of its container
    | BlobNull            // empty account state blob
    | HexTooShort         // fewer hex characters than array elements
    | HexOutOfRange       // string_view::at beyond the end

  /** A decoding step: a value and the number of bytes it used, or an error. */
  datatype Parsed<+T> = Ok(value: T, used: nat) | Fail(error: Error)

  /** The end of a call that may throw. */
  datatype Outcome<+T> = Done(value: T) | Thrown(reason: Error) {
    predicate IsFailure() { Thrown? }
    function PropagateFailure<U>(): Outcome<U> requires Thrown? { Thrown(reason) }
    function Extract(): T requires Done? { value }
  }

  /** A step that started `n` bytes earlier. */
  function Plus<T>(r: Parsed<T>, n: nat): (s: Parsed<T>) {
    match r
    case Ok(x, used) => Ok(x, n + used)
    case Fail(e) => Fail(e)
  }

  datatype Option<+T> = Nothing | Just(get: T)

  // ---- lexicographic order (std::lexicographical_compare) ----

  predicate Less(a: bytes, b: bytes) {
    if b == [] then false
    else if a == [] then true
    else if a[0] != b[0] then a[0] < b[0]
    else Less(a[1..], b[1..])
  }

  lemma {:induction false} LessIrreflexive(a: bytes)
    ensures !Less(a, a)
  {
    if a != [] { LessIrreflexive(a[1..]); }
  }

  lemma {:induction false} LessTotal(a: bytes, b: bytes)
    ensures Less(a, b) || Less(b, a) || a == b
  {
    if a != [] && b != [] && a[0] == b[0] {
      LessTotal(a[1..], b[1..]);
      assert a == [a[0]] + a[1..] && b == [b[0]] + b[1..];
    }
  }

  lemma {:induction false} LessTransitive(a: bytes, b: bytes, c: bytes)
    requires Less(a, b) && Less(b, c)
    ensures Less(a, c)
  {
    if a != [] && a[0] == b[0] == c[0] { LessTransitive(a[1..], b[1..], c[1..]); }
  }

  lemma LessAsymmetric(a: bytes, b: bytes)
    requires Less(a, b)
    ensures !Less(b, a) && a != b
  {
    LessIrreflexive(a);
    if Less(b, a) { LessTransitive(a, b, a); }
  }

  /** When neither of two strings is a prefix of the other, appending to them keeps their order. */
  lemma {:induction false} LessExtends(a: bytes, b: bytes, x: bytes, y: bytes)
    requires !(a <= b) && !(b <= a)
    ensures Less(a + x, b + y) == Less(a, b)
  {
    assert a != [] && b != [];
    assert (a + x)[0] == a[0] && (b + y)[0] == b[0];
    assert (a + x)[1..] == a[1..] + x && (b + y)[1..] == b[1..] + y;
    if a[0] == b[0] {
      assert a == [a[0]] + a[1..] && b == [b[0]] + b[1..];
      LessExtends(a[1..], b[1..], x, y);
    }
  }

  // ---- concatenation ----

  /** The concatenation of a list of byte strings. */
  function Join(parts: seq<bytes>): (bs: bytes) {
    if parts == [] then [] else parts[0] + Join(parts[1..])
  }

  lemma {:induction false} JoinAppend(a: seq<bytes>, b: seq<bytes>)
    ensures Join(a + b) == Join(a) + Join(b)
  {
    if a == [] {
      assert a + b == b;
    } else {
      assert (a + b)[1..] == a[1..] + b;
      JoinAppend(a[1..], b);
    }
  }

  // ---- little-endian integers ----

  function Pow256(w: nat): (p: nat)
    ensures p >= 1
  {
    if w == 0 then 1 else 256 * Pow256(w - 1)
  }

  /** The `w` low bytes of `n`, least significant first. */
  function ToLE(w: nat, n: nat): (bs: bytes)
    ensures |bs| == w
  {
    if w == 0 then [] else [n % 256] + ToLE(w - 1, n / 256)
  }

  function FromLE(bs: bytes): (n: nat)
    ensures n < Pow256(|bs|)
  {
    if bs == [] then 0 else bs[0] + 256 * FromLE(bs[1..])
  }

  lemma {:induction false} FromToLE(w: nat, n: nat)
    requires n < Pow256(w)
    ensures FromLE(ToLE(w, n)) == n
  {
    if w > 0 {
      assert ToLE(w, n)[1..] == ToLE(w - 1, n / 256);
      FromToLE(w - 1, n / 256);
    }
  }

  lemma {:induction false} ToFromLE(bs: bytes)
    ensures ToLE(|bs|, FromLE(bs)) == bs
  {
    if bs != [] {
      assert FromLE(bs) % 256 == bs[0] && FromLE(bs) / 256 == FromLE(bs[1..]);
      ToFromLE(bs[1..]);
    }
  }

  lemma {:induction false} FromLEConcat(a: bytes, b: bytes)
    ensures FromLE(a + b) == FromLE(a) + Pow256(|a|) * FromLE(b)
  {
    if a == [] {
      assert a + b == b;
    } else {
      assert (a + b)[1..] == a[1..] + b;
      FromLEConcat(a[1..], b);
      MulAssociates(256, Pow256(|a| - 1), FromLE(b));
    }
  }

  lemma MulAssociates(x: nat, y: nat, z: nat)
    ensures x * (y * z) == (x * y) * z
  {
  }
}

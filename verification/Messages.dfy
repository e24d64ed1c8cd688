/** Whole messages: `bcsSerialize` and `bcsDeserialize` of any derived type. */
module Messages {
  import opened Bytes
  import opened Leb128
  import opened Utf8
  import opened Values
  import opened Decoding
  import opened PrefixFree
  import opened Canonical
  import opened Rejecting
  import opened Serializing
  import opened Serializer

  function EncodeMessage(ord: KeyOrder, v: Value): (r: Outcome<bytes>)
    requires IsOrder(ord)
  {
    Ser(ord, v, MAX_CONTAINER_DEPTH)
  }

  function ReadMessage(g: Grammar, t: Type, input: bytes): (r: Outcome<Value>) {
    DecodeMessage(g, t, MAX_CONTAINER_DEPTH, input)
  }

  method BcsSerialize(ord: KeyOrder, v: Value, ghost g: Grammar, ghost t: Type) returns (r: Outcome<bytes>)
    requires IsOrder(ord) && WellTyped(g, t, v)
    ensures r == EncodeMessage(ord, v)
  {
    hide Ser, WellTyped;
    var s := new BcsSerializer();
    var _ :- s.Serialize(ord, v, g, t);
    assert s.buffer == [] + EncodeMessage(ord, v).value == EncodeMessage(ord, v).value;
    return Done(s.buffer);
  }

  /** Checking string contents only narrows what fits. */
  lemma {:induction false} FitsUnchecked(v: Value, b: nat)
    requires Fits(v, b, true)
    ensures Fits(v, b, false)
    decreases v
  {
    match v
    case Some(x) => FitsUnchecked(x, b);
    case Pair(x, y) => FitsUnchecked(x, b); FitsUnchecked(y, b);
    case Vec(items) => forall i | 0 <= i < |items| { FitsUnchecked(items[i], b); }
    case Arr(items) => forall i | 0 <= i < |items| { FitsUnchecked(items[i], b); }
    case Map(m) =>
      forall k | k in m ensures Fits(k, b, false) && Fits(m[k], b, false) {
        FitsUnchecked(k, b);
        FitsUnchecked(m[k], b);
      }
    case Variant(_, x) => FitsUnchecked(x, b);
    case Struct(x) => FitsUnchecked(x, b - 1);
    case _ =>
  }

  /** Reading what was written: every value within the limits survives the trip. */
  lemma WriteThenRead(ord: KeyOrder, g: Grammar, t: Type, v: Value)
    requires IsOrder(ord) && WellTyped(g, t, v) && Fits(v, MAX_CONTAINER_DEPTH, true)
    ensures EncodeMessage(ord, v) == Done(Enc(v))
    ensures ReadMessage(g, t, Enc(v)) == Done(v)
  {
    hide Ser, Fits, WellTyped, Enc, Dec;
    FitsUnchecked(v, MAX_CONTAINER_DEPTH);
    SerExactly(ord, g, t, v, MAX_CONTAINER_DEPTH);
    Complete(g, t, v, MAX_CONTAINER_DEPTH, []);
    assert Enc(v) + [] == Enc(v);
  }

  /**
    * Whatever was written is read back or, when a string inside it is not valid, rejected as
    * invalid UTF-8 and for no other reason.
    */
  lemma WrittenIsRead(ord: KeyOrder, g: Grammar, t: Type, v: Value, bs: bytes)
    requires IsOrder(ord) && WellTyped(g, t, v) && EncodeMessage(ord, v) == Done(bs)
    ensures ReadMessage(g, t, bs) == if Fits(v, MAX_CONTAINER_DEPTH, true) then Done(v) else Thrown(InvalidUtf8)
  {
    hide Ser, Fits, WellTyped, Enc, Dec;
    SerExactly(ord, g, t, v, MAX_CONTAINER_DEPTH);
    WrittenIsReadExactly(g, t, v, MAX_CONTAINER_DEPTH, []);
    assert Enc(v) + [] == Enc(v);
  }

  /** One byte FF is written as a string, and not read. */
  lemma InvalidIsWritten(ord: KeyOrder)
    requires IsOrder(ord)
    ensures EncodeMessage(ord, Str([0xFF])) == Done([1, 0xFF])
    ensures ReadMessage(map[], TStr, [1, 0xFF]) == Thrown(InvalidUtf8)
  {
    var v := Str([0xFF]);
    assert Uleb(1) == [1];
    assert !IsValidUtf8([0xFF]) by { assert Announces(0xFF) == Nothing; }
    assert WellTyped(map[], TStr, v) && !Fits(v, MAX_CONTAINER_DEPTH, true);
    assert Ser(ord, v, MAX_CONTAINER_DEPTH) == Done([1] + [0xFF]);
    assert [1] + [0xFF] == [1, 0xFF];
    WrittenIsRead(ord, map[], TStr, Str([0xFF]), [1, 0xFF]);
  }

  /** Writing what was read: every accepted input is the serialization of the value it gave. */
  lemma ReadThenWrite(ord: KeyOrder, g: Grammar, t: Type, input: bytes)
    requires IsOrder(ord) && ReadMessage(g, t, input).Done?
    ensures var v := ReadMessage(g, t, input).value;
            && WellTyped(g, t, v) && Fits(v, MAX_CONTAINER_DEPTH, true)
            && EncodeMessage(ord, v) == Done(input)
  {
    hide Ser, Fits, WellTyped, Enc, Dec;
    var r := Dec(g, t, MAX_CONTAINER_DEPTH, input);
    Sound(g, t, MAX_CONTAINER_DEPTH, input);
    assert input[..r.used] == input;
    FitsUnchecked(r.value, MAX_CONTAINER_DEPTH);
    SerExactly(ord, g, t, r.value, MAX_CONTAINER_DEPTH);
  }

  /**
    * Values within the limits and accepted inputs correspond one to one: an input reads
    * as `v` exactly when it is what `v`, a fitting value of the type, is written as.
    */
  lemma MessageBijection(ord: KeyOrder, g: Grammar, t: Type, v: Value, input: bytes)
    requires IsOrder(ord)
    ensures ReadMessage(g, t, input) == Done(v)
       <==> WellTyped(g, t, v) && Fits(v, MAX_CONTAINER_DEPTH, true) && EncodeMessage(ord, v) == Done(input)
  {
    hide Ser, Fits, WellTyped, Enc, Dec, DecodeMessage;
    if ReadMessage(g, t, input) == Done(v) { ReadThenWrite(ord, g, t, input); }
    if WellTyped(g, t, v) && Fits(v, MAX_CONTAINER_DEPTH, true) && EncodeMessage(ord, v) == Done(input) {
      WriteThenRead(ord, g, t, v);
    }
  }

  /** Nothing may follow a message. */
  lemma NoTrailingBytes(g: Grammar, t: Type, v: Value, extra: bytes)
    requires WellTyped(g, t, v) && Fits(v, MAX_CONTAINER_DEPTH, true) && extra != []
    ensures ReadMessage(g, t, Enc(v) + extra) == Thrown(TrailingBytes)
  {
    hide Dec, Enc, Fits, WellTyped;
    Complete(g, t, v, MAX_CONTAINER_DEPTH, extra);
  }

  /** Two values of a type that are written as the same bytes are the same value. */
  lemma EncodingInjective(ord: KeyOrder, ord': KeyOrder, g: Grammar, t: Type, v: Value, w: Value)
    requires IsOrder(ord) && IsOrder(ord') && WellTyped(g, t, v) && WellTyped(g, t, w)
    requires EncodeMessage(ord, v).Done? && EncodeMessage(ord, v) == EncodeMessage(ord', w)
    ensures v == w
  {
    hide Ser, Enc, WellTyped, Fits;
    SerExactly(ord, g, t, v, MAX_CONTAINER_DEPTH);
    SerExactly(ord', g, t, w, MAX_CONTAINER_DEPTH);
    Unique(g, t, v, [], w, []);
  }

  /**
    * Maps: whatever order a map was iterated in, if it could be written and its strings are
    * valid, the reader accepts what was written, gives the same map and stops at its end.
    */
  lemma MapRoundTrip(ord: KeyOrder, g: Grammar, t: Type, m: map<Value, Value>, b: nat, rest: bytes)
    requires IsOrder(ord) && t.TMap? && WellTyped(g, t, Map(m)) && Fits(Map(m), b, true)
    ensures Ser(ord, Map(m), b).Done?
    ensures var bs := Ser(ord, Map(m), b).value;
            Dec(g, t, b, bs + rest) == Ok(Map(m), |bs|)
  {
    hide Ser, Dec, Enc, WellTyped, Fits;
    FitsUnchecked(Map(m), b);
    SerExactly(ord, g, t, Map(m), b);
    Complete(g, t, Map(m), b, rest);
  }

  /**
    * Canonical maps: an accepted map has exactly as many entries as its length says, and
    * writing it again, in any order of iteration, gives back the bytes it was read from.
    */
  lemma MapCanonical(ord: KeyOrder, g: Grammar, t: Type, b: nat, bs: bytes)
    requires IsOrder(ord) && t.TMap? && Dec(g, t, b, bs).Ok?
    ensures var r := Dec(g, t, b, bs);
            && r.value.Map? && DecodeLen(bs).Ok? && |r.value.entries| == DecodeLen(bs).value
            && Ser(ord, r.value, b) == Done(bs[..r.used])
  {
    assert Dec(g, t, b, bs).value.Map? && DecodeLen(bs).Ok?;
    hide Ser, Dec, Enc, WellTyped, Fits, DecodeLen;
    SoundMap(g, t, b, bs);
    var r := Dec(g, t, b, bs);
    FitsUnchecked(r.value, b);
    SerExactly(ord, g, t, r.value, b);
  }
}

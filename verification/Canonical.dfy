/** The canonical codec is a bijection between encodable values and accepted bytes. */
module Canonical {
  import opened Bytes
  import opened Order
  import opened Leb128
  import opened Utf8
  import opened Values
  import opened Decoding
  import opened PrefixFree

  // ---- decoding an encoding ----

  lemma CompleteBool(x: bool, rest: bytes)
    ensures DecodeBool([if x then 1 else 0] + rest) == Ok(x, 1)
  {
  }

  lemma CompleteUInt(w: nat, n: nat, rest: bytes)
    requires n < Pow256(w)
    ensures |ToLE(w, n) + rest| >= w && FromLE((ToLE(w, n) + rest)[..w]) == n
  {
    assert (ToLE(w, n) + rest)[..w] == ToLE(w, n);
    FromToLE(w, n);
  }

  lemma CompleteStr(c: bytes, rest: bytes)
    requires |c| <= MAX_LENGTH && IsValidUtf8(c)
    ensures DecodeStr((Uleb(|c|) + c) + rest) == Ok(Str(c), |Uleb(|c|) + c|)
  {
    Regroup(Uleb(|c|), c, rest);
    LenRoundTrip(|c|, c + rest);
    var bs, n := (Uleb(|c|) + c) + rest, |Uleb(|c|)|;
    assert bs[n..n + |c|] == c;
  }

  lemma Skip(a: bytes, b: bytes)
    ensures (a + b)[|a|..] == b && (a + b)[..|a|] == a
  {
  }

  /**
    * Decoding the encoding of a value, whatever follows it, gives the value back and
    * stops at the end of the encoding.
    */
  lemma {:induction false} Complete(g: Grammar, t: Type, v: Value, b: nat, rest: bytes)
    requires WellTyped(g, t, v) && Fits(v, b, true)
    ensures Dec(g, t, b, Enc(v) + rest) == Ok(v, |Enc(v)|)
    decreases v, 1, 0
  {
    hide *;
    match t
    case TOption(_) => CompleteOption(g, t, v, b, rest);
    case TPair(_, _) => CompletePair(g, t, v, b, rest);
    case TVec(_) => CompleteVec(g, t, v, b, rest);
    case TArr(_, _) => CompleteArr(g, t, v, b, rest);
    case TMap(_, _) => CompleteMap(g, t, v, b, rest);
    case TEnum(_) => CompleteEnum(g, t, v, b, rest);
    case TStruct(_) => CompleteStruct(g, t, v, b, rest);
    case TRef(_) => CompleteStruct(g, t, v, b, rest);
    case _ => CompleteScalar(g, t, v, b, rest);
  }

  lemma CompleteScalar(g: Grammar, t: Type, v: Value, b: nat, rest: bytes)
    requires t.TUnit? || t.TBool? || t.TUInt? || t.TStr?
    requires WellTyped(g, t, v) && Fits(v, b, true)
    ensures Dec(g, t, b, Enc(v) + rest) == Ok(v, |Enc(v)|)
  {
    match t
    case TBool => CompleteBool(v.b, rest);
    case TUInt(w) => CompleteUInt(w.Size(), v.n, rest);
    case TStr => CompleteStr(v.chars, rest);
    case _ =>
  }

  lemma {:induction false} CompleteOption(g: Grammar, t: Type, v: Value, b: nat, rest: bytes)
    requires t.TOption? && WellTyped(g, t, v) && Fits(v, b, true)
    ensures Dec(g, t, b, Enc(v) + rest) == Ok(v, |Enc(v)|)
    decreases v, 0, 0
  {
    if v.Some? {
      Complete(g, t.elem, v.item, b, rest);
      Regroup([1], Enc(v.item), rest);
      CompleteBool(true, Enc(v.item) + rest);
      Skip([1], Enc(v.item) + rest);
    } else {
      CompleteBool(false, rest);
    }
  }

  lemma {:induction false} CompletePair(g: Grammar, t: Type, v: Value, b: nat, rest: bytes)
    requires t.TPair? && WellTyped(g, t, v) && Fits(v, b, true)
    ensures Dec(g, t, b, Enc(v) + rest) == Ok(v, |Enc(v)|)
    decreases v, 0, 0
  {
    Regroup(Enc(v.fst), Enc(v.snd), rest);
    Skip(Enc(v.fst), Enc(v.snd) + rest);
    Complete(g, t.fst, v.fst, b, Enc(v.snd) + rest);
    Complete(g, t.snd, v.snd, b, rest);
  }

  lemma {:induction false} CompleteVec(g: Grammar, t: Type, v: Value, b: nat, rest: bytes)
    requires t.TVec? && WellTyped(g, t, v) && Fits(v, b, true)
    ensures Dec(g, t, b, Enc(v) + rest) == Ok(v, |Enc(v)|)
    decreases v, 0, 0
  {
    var xs := v.items;
    CompleteItems(g, t.elem, xs, b, rest);
    Regroup(Uleb(|xs|), EncItems(xs), rest);
    Skip(Uleb(|xs|), EncItems(xs) + rest);
    LenRoundTrip(|xs|, EncItems(xs) + rest);
  }

  lemma {:induction false} CompleteArr(g: Grammar, t: Type, v: Value, b: nat, rest: bytes)
    requires t.TArr? && WellTyped(g, t, v) && Fits(v, b, true)
    ensures Dec(g, t, b, Enc(v) + rest) == Ok(v, |Enc(v)|)
    decreases v, 0, 0
  {
    CompleteItems(g, t.elem, v.items, b, rest);
  }

  lemma {:induction false} CompleteEnum(g: Grammar, t: Type, v: Value, b: nat, rest: bytes)
    requires t.TEnum? && WellTyped(g, t, v) && Fits(v, b, true)
    ensures Dec(g, t, b, Enc(v) + rest) == Ok(v, |Enc(v)|)
    decreases v, 0, 0
  {
    var i, x := v.index, v.payload;
    Complete(g, t.cases[i], x, b, rest);
    Regroup(Uleb(i), Enc(x), rest);
    Skip(Uleb(i), Enc(x) + rest);
    U32RoundTrip(i, Enc(x) + rest);
  }

  /** Indices at and above the number of cases are errors, and different ones. */
  lemma NoSuchCase(g: Grammar, cases: seq<Type>, b: nat, i: nat, rest: bytes)
    requires |cases| <= i < 0x1_0000_0000
    ensures Dec(g, TEnum(cases), b, Uleb(i) + rest)
            == Fail(if i == |cases| then VariantOutOfRange else UnknownVariant)
  {
    hide DecodeU32, Uleb;
    U32RoundTrip(i, rest);
  }

  lemma {:induction false} CompleteStruct(g: Grammar, t: Type, v: Value, b: nat, rest: bytes)
    requires (t.TStruct? || t.TRef?) && WellTyped(g, t, v) && Fits(v, b, true)
    ensures Dec(g, t, b, Enc(v) + rest) == Ok(v, |Enc(v)|)
    decreases v, 0, 0
  {
    Complete(g, if t.TStruct? then t.body else BodyOf(g, t.name), v.body, b - 1, rest);
  }

  lemma {:induction false} CompleteItems(g: Grammar, e: Type, xs: seq<Value>, b: nat, rest: bytes)
    requires forall i :: 0 <= i < |xs| ==> WellTyped(g, e, xs[i]) && Fits(xs[i], b, true)
    ensures DecItems(g, e, |xs|, b, EncItems(xs) + rest) == Ok(xs, |EncItems(xs)|)
    decreases xs, 1, 0
  {
    hide Dec, WellTyped, Fits, Enc;
    if xs != [] {
      Complete(g, e, xs[0], b, EncItems(xs[1..]) + rest);
      CompleteItems(g, e, xs[1..], b, rest);
      CompleteItemsStep(g, e, xs, b, rest);
    }
  }

  lemma CompleteItemsStep(g: Grammar, e: Type, xs: seq<Value>, b: nat, rest: bytes)
    requires xs != []
    requires Dec(g, e, b, Enc(xs[0]) + (EncItems(xs[1..]) + rest)) == Ok(xs[0], |Enc(xs[0])|)
    requires DecItems(g, e, |xs| - 1, b, EncItems(xs[1..]) + rest) == Ok(xs[1..], |EncItems(xs[1..])|)
    ensures DecItems(g, e, |xs|, b, EncItems(xs) + rest) == Ok(xs, |EncItems(xs)|)
  {
    hide Dec, DecItems, Enc;
    var head, tail := Enc(xs[0]), EncItems(xs[1..]);
    Regroup(head, tail, rest);
    Skip(head, tail + rest);
    DecItemsStep(g, e, |xs| - 1, b, head + (tail + rest), xs[0], |head|, xs[1..], |tail|);
    assert xs == [xs[0]] + xs[1..];
  }

  /** One turn of the vector loop. */
  lemma DecItemsStep(g: Grammar, e: Type, count: nat, b: nat, bs: bytes,
                     x: Value, n: nat, xs: seq<Value>, m: nat)
    requires n <= |bs| && Dec(g, e, b, bs) == Ok(x, n)
    requires DecItems(g, e, count, b, bs[n..]) == Ok(xs, m)
    ensures DecItems(g, e, count + 1, b, bs) == Ok([x] + xs, n + m)
  {
    hide Dec;
  }

  /** The entries of `m` for the keys `o`. */
  function EntryList(m: map<Value, Value>, o: seq<Value>): (es: seq<Entry>)
    requires forall k :: k in o ==> k in m
    ensures |es| == |o| && forall i :: 0 <= i < |o| ==> es[i] == (o[i], m[o[i]])
  {
    seq(|o|, i requires 0 <= i < |o| => (o[i], m[o[i]]))
  }

  /** Inserting the entries of a map in any order rebuilds the map. */
  lemma Rebuild(m: map<Value, Value>, o: seq<Value>)
    requires Enumerates(o, m.Keys)
    ensures InsertAll(EntryList(m, o)) == m
  {
    var es := EntryList(m, o);
    InsertDistinct(es);
    InsertKeys(es);
    assert Keys(es) == o;
    forall k | k in m ensures k in InsertAll(es) && InsertAll(es)[k] == m[k] {
      var i :| 0 <= i < |o| && o[i] == k;
      assert es[i] == (k, m[k]);
    }
    assert forall k :: k in InsertAll(es) ==> k in m;
  }

  /** Keys and values of an encodable map are encodable. */
  lemma MapParts(g: Grammar, t: Type, v: Value, b: nat, k: Value)
    requires t.TMap? && WellTyped(g, t, v) && Fits(v, b, true) && k in v.entries
    ensures WellTyped(g, t.key, k) && Fits(k, b, true)
    ensures WellTyped(g, t.val, v.entries[k]) && Fits(v.entries[k], b, true)
  {
  }

  /** Key order holds along `o`, starting from the key before it. */
  ghost predicate KeysRise(prev: Option<bytes>, o: seq<Value>) {
    && (forall i, j :: 0 <= i < j < |o| ==> Less(Enc(o[i]), Enc(o[j])))
    && (prev.Just? && o != [] ==> Less(prev.get, Enc(o[0])))
  }

  lemma CanonicalKeysRise(g: Grammar, t: Type, m: map<Value, Value>)
    requires t.TMap? && WellTyped(g, t, Map(m))
    ensures KeysRise(Nothing, CanonicalKeys(m))
  {
    CanonicalKeysIncrease(g, t, m);
    var o := CanonicalKeys(m);
    forall i, j | 0 <= i < j < |o| ensures Less(Enc(o[i]), Enc(o[j])) {
      assert Less(KeyBytes(m)[o[i]], KeyBytes(m)[o[j]]);
    }
  }

  lemma {:induction false} CompleteMap(g: Grammar, t: Type, v: Value, b: nat, rest: bytes)
    requires t.TMap? && WellTyped(g, t, v) && Fits(v, b, true)
    ensures Dec(g, t, b, Enc(v) + rest) == Ok(v, |Enc(v)|)
    decreases v, 0, |v.entries| + 1
  {
    hide Enc, Dec;
    var m := v.entries;
    assert v == Map(m) && |m| <= MAX_LENGTH;
    hide WellTyped, Fits;
    CanonicalKeysRise(g, t, m);
    CompleteEntries(g, t, v, CanonicalKeys(m), Nothing, b, rest);
    CompleteMapStep(g, t, m, b, rest);
  }

  lemma CompleteMapStep(g: Grammar, t: Type, m: map<Value, Value>, b: nat, rest: bytes)
    requires t.TMap? && |m| <= MAX_LENGTH
    requires DecEntries(g, t, |m|, Nothing, b, EncEntries(m, CanonicalKeys(m)) + rest)
             == Ok(EntryList(m, CanonicalKeys(m)), |EncEntries(m, CanonicalKeys(m))|)
    ensures Dec(g, t, b, Enc(Map(m)) + rest) == Ok(Map(m), |Enc(Map(m))|)
  {
    hide Dec, Enc, InsertAll, EncEntries;
    var body := EncEntries(m, CanonicalKeys(m));
    Rebuild(m, CanonicalKeys(m));
    Skip(Uleb(|m|), body + rest);
    LenRoundTrip(|m|, body + rest);
    DecMapStep(g, t, b, Uleb(|m|) + (body + rest), |m|, |Uleb(|m|)|,
               EntryList(m, CanonicalKeys(m)), |body|);
    EncMapThen(m, rest);
    EncMap(m);
  }

  lemma DecMapStep(g: Grammar, t: Type, b: nat, bs: bytes, len: nat, n: nat, es: seq<Entry>, m: nat)
    requires t.TMap? && n <= |bs| && DecodeLen(bs) == Ok(len, n)
    requires DecEntries(g, t, len, Nothing, b, bs[n..]) == Ok(es, m)
    ensures Dec(g, t, b, bs) == Ok(Map(InsertAll(es)), n + m)
  {
  }

  /** One turn of the map loop. */
  lemma DecEntriesStep(g: Grammar, t: Type, count: nat, prev: Option<bytes>, b: nat, bs: bytes,
                       k: Value, n: nat, x: Value, m: nat, es: seq<Entry>, used: nat)
    requires t.TMap? && n + m <= |bs|
    requires Dec(g, t.key, b, bs) == Ok(k, n) && Dec(g, t.val, b, bs[n..]) == Ok(x, m)
    requires prev.Just? ==> Less(prev.get, bs[..n])
    requires DecEntries(g, t, count, Just(bs[..n]), b, bs[n + m..]) == Ok(es, used)
    ensures DecEntries(g, t, count + 1, prev, b, bs) == Ok([(k, x)] + es, n + m + used)
  {
    hide Dec, Less;
  }

  lemma {:induction false} CompleteEntries(g: Grammar, t: Type, v: Value, o: seq<Value>,
                                           prev: Option<bytes>, b: nat, rest: bytes)
    requires t.TMap? && v.Map? && WellTyped(g, t, v) && Fits(v, b, true)
    requires (forall k :: k in o ==> k in v.entries) && KeysRise(prev, o)
    ensures DecEntries(g, t, |o|, prev, b, EncEntries(v.entries, o) + rest)
            == Ok(EntryList(v.entries, o), |EncEntries(v.entries, o)|)
    decreases v, 0, |o|
  {
    hide Dec, WellTyped, Fits, Enc;
    if o != [] {
      var m := v.entries;
      var k, x := o[0], m[o[0]];
      var tail := EncEntries(m, o[1..]);
      MapParts(g, t, v, b, k);
      Complete(g, t.key, k, b, Enc(x) + (tail + rest));
      Complete(g, t.val, x, b, tail + rest);
      CompleteEntries(g, t, v, o[1..], Just(Enc(k)), b, rest);
      CompleteEntriesStep(g, t, m, o, prev, b, rest);
    }
  }

  lemma CompleteEntriesStep(g: Grammar, t: Type, m: map<Value, Value>, o: seq<Value>,
                            prev: Option<bytes>, b: nat, rest: bytes)
    requires t.TMap? && o != [] && forall k :: k in o ==> k in m
    requires prev.Just? ==> Less(prev.get, Enc(o[0]))
    requires var tail := EncEntries(m, o[1..]);
             var k, x := o[0], m[o[0]];
             && Dec(g, t.key, b, Enc(k) + (Enc(x) + (tail + rest))) == Ok(k, |Enc(k)|)
             && Dec(g, t.val, b, Enc(x) + (tail + rest)) == Ok(x, |Enc(x)|)
             && DecEntries(g, t, |o| - 1, Just(Enc(k)), b, tail + rest) == Ok(EntryList(m, o[1..]), |tail|)
    ensures DecEntries(g, t, |o|, prev, b, EncEntries(m, o) + rest)
            == Ok(EntryList(m, o), |EncEntries(m, o)|)
  {
    hide *;
    var k, x, tail := o[0], m[o[0]], EncEntries(m, o[1..]);
    var bs := Enc(k) + (Enc(x) + (tail + rest));
    EntriesThen(m, o, rest);
    Skip(Enc(k), Enc(x) + (tail + rest));
    SkipTwo(Enc(k), Enc(x), tail + rest);
    DecEntriesStep(g, t, |o| - 1, prev, b, bs, k, |Enc(k)|, x, |Enc(x)|, EntryList(m, o[1..]), |tail|);
    assert EntryList(m, o) == [(k, x)] + EntryList(m, o[1..]);
  }

  lemma EntriesThen(m: map<Value, Value>, o: seq<Value>, rest: bytes)
    requires o != [] && forall k :: k in o ==> k in m
    ensures EncEntries(m, o) + rest == Enc(o[0]) + (Enc(m[o[0]]) + (EncEntries(m, o[1..]) + rest))
    ensures |EncEntries(m, o)| == |Enc(o[0])| + |Enc(m[o[0]])| + |EncEntries(m, o[1..])|
  {
    EncEntriesStep(m, o);
    Regroup(Enc(o[0]), Enc(m[o[0]]) + EncEntries(m, o[1..]), rest);
    Regroup(Enc(m[o[0]]), EncEntries(m, o[1..]), rest);
  }

  lemma SkipTwo(a: bytes, b: bytes, c: bytes)
    ensures (a + (b + c))[|a| + |b|..] == c
  {
  }

  // ---- encoding what was decoded ----

  /** `v` is a value of the type, fit for the budget, and `bs` is its encoding. */
  ghost predicate Stands(g: Grammar, t: Type, b: nat, v: Value, bs: bytes) {
    WellTyped(g, t, v) && Fits(v, b, true) && Enc(v) == bs
  }

  lemma SoundLen(bs: bytes)
    requires DecodeLen(bs).Ok?
    ensures Uleb(DecodeLen(bs).value) == bs[..DecodeLen(bs).used]
  {
    U32Canonical(bs);
  }

  lemma Cut(bs: bytes, n: nat, m: nat)
    requires n + m <= |bs|
    ensures bs[..n] + bs[n..][..m] == bs[..n + m] && bs[n..n + m] == bs[n..][..m]
    ensures bs[n..][m..] == bs[n + m..]
  {
  }

  lemma SoundStr(g: Grammar, b: nat, bs: bytes)
    requires DecodeStr(bs).Ok?
    ensures Stands(g, TStr, b, DecodeStr(bs).value, bs[..DecodeStr(bs).used])
  {
    hide DecodeLen, IsValidUtf8, Uleb;
    SoundLen(bs);
    var len := DecodeLen(bs);
    Cut(bs, len.used, len.value);
  }

  lemma StandsSome(g: Grammar, e: Type, b: nat, x: Value, bs: bytes)
    requires Stands(g, e, b, x, bs)
    ensures Stands(g, TOption(e), b, Some(x), [1] + bs)
  {
  }

  lemma StandsPair(g: Grammar, x: Type, y: Type, b: nat, v: Value, vb: bytes, w: Value, wb: bytes)
    requires Stands(g, x, b, v, vb) && Stands(g, y, b, w, wb)
    ensures Stands(g, TPair(x, y), b, Pair(v, w), vb + wb)
  {
    hide WellTyped, Fits, Enc;
    TypedPair(g, x, y, v, w);
    FitsPair(v, w, b, true);
    EncPair(v, w);
  }

  ghost predicate ItemsStand(g: Grammar, t: Type, b: nat, xs: seq<Value>) {
    forall i :: 0 <= i < |xs| ==> WellTyped(g, t, xs[i]) && Fits(xs[i], b, true)
  }

  lemma VecTyped(g: Grammar, e: Type, xs: seq<Value>)
    requires forall i :: 0 <= i < |xs| ==> WellTyped(g, e, xs[i])
    ensures WellTyped(g, TVec(e), Vec(xs))
  {
  }

  lemma VecFits(xs: seq<Value>, b: nat)
    requires |xs| <= MAX_LENGTH && forall i :: 0 <= i < |xs| ==> Fits(xs[i], b, true)
    ensures Fits(Vec(xs), b, true)
  {
  }

  lemma VecEnc(xs: seq<Value>)
    ensures Enc(Vec(xs)) == Uleb(|xs|) + EncItems(xs)
  {
    hide Uleb, ToLE, EncItems, EncEntriesOf;
  }

  lemma StandsVec(g: Grammar, e: Type, b: nat, xs: seq<Value>)
    requires ItemsStand(g, e, b, xs) && |xs| <= MAX_LENGTH
    ensures Stands(g, TVec(e), b, Vec(xs), Uleb(|xs|) + EncItems(xs))
  {
    hide EncItems, Uleb, Enc, WellTyped, Fits;
    VecTyped(g, e, xs);
    VecFits(xs, b);
    VecEnc(xs);
  }

  lemma StandsArr(g: Grammar, e: Type, b: nat, xs: seq<Value>)
    requires ItemsStand(g, e, b, xs)
    ensures Stands(g, TArr(e, |xs|), b, Arr(xs), EncItems(xs))
  {
    hide WellTyped, Fits, Enc, EncItems;
    TypedArray(g, e, xs);
    FitsArray(xs, b, true);
    EncArray(xs);
  }

  lemma StandsVariant(g: Grammar, cases: seq<Type>, b: nat, i: nat, x: Value, bs: bytes)
    requires i < |cases| && i < U32_LIMIT && Stands(g, cases[i], b, x, bs)
    ensures Stands(g, TEnum(cases), b, Variant(i, x), Uleb(i) + bs)
  {
    hide WellTyped, Fits, Enc, Uleb;
    TypedVariant(g, cases, i, x);
    FitsVariant(i, x, b, true);
    EncVariant(i, x);
  }

  /** A struct costs one unit of the budget of its body. */
  lemma StandsStruct(g: Grammar, body: Type, b: nat, x: Value, bs: bytes)
    requires Stands(g, body, b, x, bs)
    ensures Stands(g, TStruct(body), b + 1, Struct(x), bs)
  {
    hide WellTyped, Fits, Enc;
    TypedStruct(g, body, x);
    FitsStruct(x, b + 1, true);
    EncStruct(x);
  }

  lemma StandsRef(g: Grammar, name: string, b: nat, x: Value, bs: bytes)
    requires Stands(g, BodyOf(g, name), b, x, bs)
    ensures Stands(g, TRef(name), b + 1, Struct(x), bs)
  {
    hide WellTyped, Fits, Enc, BodyOf;
    TypedRef(g, name, x);
    FitsStruct(x, b + 1, true);
    EncStruct(x);
  }

  /**
    * Every successful decode consumed exactly the encoding of its result, and the result
    * is a value of the type within the length, depth and UTF-8 limits.
    */
  lemma {:induction false} Sound(g: Grammar, t: Type, b: nat, bs: bytes)
    requires Dec(g, t, b, bs).Ok?
    ensures Stands(g, t, b, Dec(g, t, b, bs).value, bs[..Dec(g, t, b, bs).used])
    decreases b, t, 1, 0
  {
    hide *;
    match t
    case TOption(_) => SoundOption(g, t, b, bs);
    case TPair(_, _) => SoundPair(g, t, b, bs);
    case TVec(_) => SoundVec(g, t, b, bs);
    case TArr(_, _) => SoundArr(g, t, b, bs);
    case TMap(_, _) => SoundMap(g, t, b, bs);
    case TEnum(_) => SoundEnum(g, t, b, bs);
    case TStruct(_) => SoundStruct(g, t, b, bs);
    case TRef(_) => SoundStruct(g, t, b, bs);
    case _ => SoundScalar(g, t, b, bs);
  }

  lemma SoundScalar(g: Grammar, t: Type, b: nat, bs: bytes)
    requires t.TUnit? || t.TBool? || t.TUInt? || t.TStr?
    requires Dec(g, t, b, bs).Ok?
    ensures Stands(g, t, b, Dec(g, t, b, bs).value, bs[..Dec(g, t, b, bs).used])
  {
    match t
    case TBool => assert bs[..1] == [bs[0]];
    case TUInt(w) => ToFromLE(bs[..w.Size()]);
    case TStr => SoundStr(g, b, bs);
    case _ =>
  }

  lemma {:induction false} SoundOption(g: Grammar, t: Type, b: nat, bs: bytes)
    requires t.TOption? && Dec(g, t, b, bs).Ok?
    ensures Stands(g, t, b, Dec(g, t, b, bs).value, bs[..Dec(g, t, b, bs).used])
    decreases b, t, 0, 0
  {
    if DecodeBool(bs).value {
      Sound(g, t.elem, b, bs[1..]);
      var r := Dec(g, t.elem, b, bs[1..]);
      Cut(bs, 1, r.used);
      assert bs[..1] == [1];
      StandsSome(g, t.elem, b, r.value, bs[1..][..r.used]);
    } else {
      assert bs[..1] == [0];
    }
  }

  lemma {:induction false} SoundPair(g: Grammar, t: Type, b: nat, bs: bytes)
    requires t.TPair? && Dec(g, t, b, bs).Ok?
    ensures Stands(g, t, b, Dec(g, t, b, bs).value, bs[..Dec(g, t, b, bs).used])
    decreases b, t, 0, 0
  {
    Sound(g, t.fst, b, bs);
    var v := Dec(g, t.fst, b, bs);
    Sound(g, t.snd, b, bs[v.used..]);
    var w := Dec(g, t.snd, b, bs[v.used..]);
    Cut(bs, v.used, w.used);
    StandsPair(g, t.fst, t.snd, b, v.value, bs[..v.used], w.value, bs[v.used..][..w.used]);
  }

  lemma {:induction false} SoundVec(g: Grammar, t: Type, b: nat, bs: bytes)
    requires t.TVec? && Dec(g, t, b, bs).Ok?
    ensures Stands(g, t, b, Dec(g, t, b, bs).value, bs[..Dec(g, t, b, bs).used])
    decreases b, t, 0, 0
  {
    hide Enc, EncItems, WellTyped, Fits, DecItems, DecodeLen, Uleb;
    SoundLen(bs);
    var len := DecodeLen(bs);
    SoundItems(g, t.elem, len.value, b, bs[len.used..]);
    var r := DecItems(g, t.elem, len.value, b, bs[len.used..]);
    Cut(bs, len.used, r.used);
    StandsVec(g, t.elem, b, r.value);
  }

  lemma {:induction false} SoundArr(g: Grammar, t: Type, b: nat, bs: bytes)
    requires t.TArr? && Dec(g, t, b, bs).Ok?
    ensures Stands(g, t, b, Dec(g, t, b, bs).value, bs[..Dec(g, t, b, bs).used])
    decreases b, t, 0, 0
  {
    SoundItems(g, t.elem, t.count, b, bs);
    StandsArr(g, t.elem, b, DecItems(g, t.elem, t.count, b, bs).value);
  }

  lemma {:induction false} SoundEnum(g: Grammar, t: Type, b: nat, bs: bytes)
    requires t.TEnum? && Dec(g, t, b, bs).Ok?
    ensures Stands(g, t, b, Dec(g, t, b, bs).value, bs[..Dec(g, t, b, bs).used])
    decreases b, t, 0, 0
  {
    U32Canonical(bs);
    var tag := DecodeU32(bs);
    Sound(g, t.cases[tag.value], b, bs[tag.used..]);
    var r := Dec(g, t.cases[tag.value], b, bs[tag.used..]);
    Cut(bs, tag.used, r.used);
    StandsVariant(g, t.cases, b, tag.value, r.value, bs[tag.used..][..r.used]);
  }

  lemma {:induction false} SoundStruct(g: Grammar, t: Type, b: nat, bs: bytes)
    requires (t.TStruct? || t.TRef?) && Dec(g, t, b, bs).Ok?
    ensures Stands(g, t, b, Dec(g, t, b, bs).value, bs[..Dec(g, t, b, bs).used])
    decreases b, t, 0, 0
  {
    var body := if t.TStruct? then t.body else BodyOf(g, t.name);
    Sound(g, body, b - 1, bs);
    var r := Dec(g, body, b - 1, bs);
    if t.TStruct? {
      StandsStruct(g, body, b - 1, r.value, bs[..r.used]);
    } else {
      StandsRef(g, t.name, b - 1, r.value, bs[..r.used]);
    }
  }

  lemma {:induction false} SoundItems(g: Grammar, t: Type, count: nat, b: nat, bs: bytes)
    requires DecItems(g, t, count, b, bs).Ok?
    ensures var r := DecItems(g, t, count, b, bs);
            |r.value| == count && EncItems(r.value) == bs[..r.used] && ItemsStand(g, t, b, r.value)
    decreases b, t, 2, count
  {
    hide Dec, WellTyped, Fits, Enc;
    if count > 0 {
      Sound(g, t, b, bs);
      var n := Dec(g, t, b, bs).used;
      SoundItems(g, t, count - 1, b, bs[n..]);
      Cut(bs, n, DecItems(g, t, count - 1, b, bs[n..]).used);
      DecItemsUnfold(g, t, count, b, bs);
      hide DecItems, Stands, ItemsStand;
      ItemsStandCons(g, t, b, Dec(g, t, b, bs).value, bs[..n], DecItems(g, t, count - 1, b, bs[n..]).value);
    }
  }

  lemma DecItemsUnfold(g: Grammar, t: Type, count: nat, b: nat, bs: bytes)
    requires count > 0 && DecItems(g, t, count, b, bs).Ok?
    ensures Dec(g, t, b, bs).Ok?
    ensures var x := Dec(g, t, b, bs);
            var rest := DecItems(g, t, count - 1, b, bs[x.used..]);
            rest.Ok? && DecItems(g, t, count, b, bs) == Ok([x.value] + rest.value, x.used + rest.used)
  {
    hide Dec;
  }

  lemma ItemsStandCons(g: Grammar, t: Type, b: nat, x: Value, bs: bytes, xs: seq<Value>)
    requires Stands(g, t, b, x, bs) && ItemsStand(g, t, b, xs)
    ensures ItemsStand(g, t, b, [x] + xs) && EncItems([x] + xs) == bs + EncItems(xs)
  {
    hide WellTyped, Fits, Enc;
    assert ([x] + xs)[1..] == xs;
  }

  /** The entries stand for the bytes `bs`: typed, fit, in key order after `prev`. */
  ghost predicate EntriesStand(g: Grammar, t: Type, prev: Option<bytes>, b: nat, es: seq<Entry>, bs: bytes)
    requires t.TMap?
  {
    && (forall i :: 0 <= i < |es| ==> EntryStands(g, t, b, es[i]))
    && KeysRise(prev, Keys(es))
    && EntryListBytes(es) == bs
  }

  ghost predicate EntryStands(g: Grammar, t: Type, b: nat, e: Entry)
    requires t.TMap?
  {
    && WellTyped(g, t.key, e.0) && Fits(e.0, b, true)
    && WellTyped(g, t.val, e.1) && Fits(e.1, b, true)
  }

  lemma EntriesStandNil(g: Grammar, t: Type, prev: Option<bytes>, b: nat)
    requires t.TMap?
    ensures EntriesStand(g, t, prev, b, [], [])
  {
  }

  lemma EntriesStandCons(g: Grammar, t: Type, prev: Option<bytes>, b: nat, k: Value, kb: bytes,
                         x: Value, xb: bytes, es: seq<Entry>, bs: bytes)
    requires t.TMap? && Stands(g, t.key, b, k, kb) && Stands(g, t.val, b, x, xb)
    requires prev.Just? ==> Less(prev.get, kb)
    requires EntriesStand(g, t, Just(kb), b, es, bs)
    ensures EntriesStand(g, t, prev, b, [(k, x)] + es, kb + xb + bs)
  {
    hide WellTyped, Fits, Enc, Less, KeysRise;
    var all := [(k, x)] + es;
    KeysRiseCons(prev, k, Keys(es));
    assert Keys(all) == [k] + Keys(es);
    assert all[1..] == es;
    assert EntryStands(g, t, b, all[0]);
  }

  ghost function EntryListBytes(es: seq<Entry>): (bs: bytes) {
    if es == [] then [] else Enc(es[0].0) + Enc(es[0].1) + EntryListBytes(es[1..])
  }

  lemma {:induction false} SoundEntries(g: Grammar, t: Type, count: nat, prev: Option<bytes>, b: nat, bs: bytes)
    requires t.TMap? && DecEntries(g, t, count, prev, b, bs).Ok?
    ensures var r := DecEntries(g, t, count, prev, b, bs);
            |r.value| == count && EntriesStand(g, t, prev, b, r.value, bs[..r.used])
    decreases b, t, 0, count
  {
    hide Dec, Less, EntriesStand, Stands;
    if count == 0 {
      EntriesStandNil(g, t, prev, b);
    } else {
      Sound(g, t.key, b, bs);
      var k := Dec(g, t.key, b, bs);
      Sound(g, t.val, b, bs[k.used..]);
      var x := Dec(g, t.val, b, bs[k.used..]);
      var n := k.used + x.used;
      var tail := DecEntries(g, t, count - 1, Just(bs[..k.used]), b, bs[n..]);
      SoundEntries(g, t, count - 1, Just(bs[..k.used]), b, bs[n..]);
      EntriesStandCons(g, t, prev, b, k.value, bs[..k.used], x.value, bs[k.used..][..x.used],
                       tail.value, bs[n..][..tail.used]);
      Cut(bs, k.used, x.used);
      Cut(bs, n, tail.used);
    }
  }

  lemma KeysRiseCons(prev: Option<bytes>, k: Value, o: seq<Value>)
    requires KeysRise(Just(Enc(k)), o) && (prev.Just? ==> Less(prev.get, Enc(k)))
    ensures KeysRise(prev, [k] + o)
  {
    var p := [k] + o;
    forall i, j | 0 <= i < j < |p| ensures Less(Enc(p[i]), Enc(p[j])) {
      if i == 0 && j > 1 {
        assert p[j] == o[j - 1];
        LessTransitive(Enc(k), Enc(o[0]), Enc(o[j - 1]));
      }
    }
  }

  /** Increasing keys are distinct, so the map has all the entries, in canonical order. */
  lemma SortedListIsMap(es: seq<Entry>)
    requires KeysRise(Nothing, Keys(es))
    ensures |InsertAll(es)| == |es|
    ensures Enc(Map(InsertAll(es))) == Uleb(|es|) + EntryListBytes(es)
  {
    hide Enc, InsertAll, OrderBy, EntryListBytes, EncEntries, Less, Enumerates, KeysRise;
    var m, o := InsertAll(es), Keys(es);
    RisingDistinct(es);
    InsertDistinct(es);
    ListEnumerates(es);
    RisingIncreases(m, o);
    OrderByUnique(KeyBytes(m), o);
    EncMap(m);
    ListIsEntries(m, es);
  }

  lemma RisingIncreases(m: map<Value, Value>, o: seq<Value>)
    requires Enumerates(o, m.Keys) && KeysRise(Nothing, o)
    ensures Increasing(o, KeyBytes(m))
  {
    hide Enc, Less;
    forall i, j | 0 <= i < j < |o| ensures Less(KeyBytes(m)[o[i]], KeyBytes(m)[o[j]]) {
      assert o[i] in m && o[j] in m;
    }
  }

  lemma ListEnumerates(es: seq<Entry>)
    requires KeysRise(Nothing, Keys(es))
    ensures Enumerates(Keys(es), InsertAll(es).Keys)
  {
    hide InsertAll, KeysRise;
    RisingDistinct(es);
    InsertKeys(es);
  }

  lemma RisingDistinct(es: seq<Entry>)
    requires KeysRise(Nothing, Keys(es))
    ensures Distinct(Keys(es)) && DistinctKeys(es)
  {
    var o := Keys(es);
    forall i, j | 0 <= i < j < |es| ensures o[i] != o[j] && es[i].0 != es[j].0 {
      assert Less(Enc(o[i]), Enc(o[j]));
      LessIrreflexive(Enc(o[i]));
    }
  }

  lemma {:induction false} ListIsEntries(m: map<Value, Value>, es: seq<Entry>)
    requires forall i :: 0 <= i < |es| ==> es[i].0 in m && m[es[i].0] == es[i].1
    ensures EncEntries(m, Keys(es)) == EntryListBytes(es)
  {
    hide Enc, EncEntries;
    if es == [] {
      EncNoEntries(m, Keys(es));
    } else {
      EncEntriesStep(m, Keys(es));
      assert Keys(es)[1..] == Keys(es[1..]);
      ListIsEntries(m, es[1..]);
    }
  }

  lemma {:induction false} SoundMap(g: Grammar, t: Type, b: nat, bs: bytes)
    requires t.TMap? && Dec(g, t, b, bs).Ok?
    ensures Stands(g, t, b, Dec(g, t, b, bs).value, bs[..Dec(g, t, b, bs).used])
    ensures |Dec(g, t, b, bs).value.entries| == DecodeLen(bs).value
    decreases b, t, 0, DecodeLen(bs).value + 1
  {
    hide Enc, InsertAll, EntryListBytes, DecEntries, DecodeLen, WellTyped, Fits;
    SoundLen(bs);
    var len := DecodeLen(bs);
    var r := DecEntries(g, t, len.value, Nothing, b, bs[len.used..]);
    SoundEntries(g, t, len.value, Nothing, b, bs[len.used..]);
    Cut(bs, len.used, r.used);
    SortedListIsMap(r.value);
    MapStands(g, t, b, r.value);
  }

  lemma MapStands(g: Grammar, t: Type, b: nat, es: seq<Entry>)
    requires t.TMap? && EntriesStand(g, t, Nothing, b, es, EntryListBytes(es))
    requires |InsertAll(es)| == |es| <= MAX_LENGTH
    ensures WellTyped(g, t, Map(InsertAll(es))) && Fits(Map(InsertAll(es)), b, true)
  {
    var m, o := InsertAll(es), Keys(es);
    RisingDistinct(es);
    InsertDistinct(es);
    InsertKeys(es);
    forall k | k in m
      ensures EntryStands(g, t, b, (k, m[k]))
    {
      var i :| 0 <= i < |o| && o[i] == k;
      assert es[i] == (k, m[k]);
    }
    MapFromParts(g, t, b, m);
  }

  lemma MapFromParts(g: Grammar, t: Type, b: nat, m: map<Value, Value>)
    requires t.TMap? && |m| <= MAX_LENGTH
    requires forall k :: k in m ==> EntryStands(g, t, b, (k, m[k]))
    ensures WellTyped(g, t, Map(m)) && Fits(Map(m), b, true)
  {
    forall k | k in m
      ensures WellTyped(g, t.key, k) && Fits(k, b, true) && WellTyped(g, t.val, m[k]) && Fits(m[k], b, true)
    {
      assert EntryStands(g, t, b, (k, m[k]));
    }
  }
}

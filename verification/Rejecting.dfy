/**
  * Strings are checked by the reader only. A value that the writer accepts and that holds an
  * invalid string somewhere is rejected when it is read, and for that reason.
  */
module Rejecting {
  import opened Bytes
  import opened Order
  import opened Leb128
  import opened Utf8
  import opened Values
  import opened Decoding
  import opened PrefixFree
  import opened Canonical

  /** Within the limits of the writer, but not of the reader: some string inside is not valid. */
  ghost predicate Unreadable(v: Value, b: nat) {
    Fits(v, b, false) && !Fits(v, b, true)
  }

  lemma {:induction false} Rejected(g: Grammar, t: Type, v: Value, b: nat, rest: bytes)
    requires WellTyped(g, t, v) && Unreadable(v, b)
    ensures Dec(g, t, b, Enc(v) + rest) == Fail(InvalidUtf8)
    decreases v, 1, 0
  {
    hide *;
    match t
    case TOption(_) => RejectedOption(g, t, v, b, rest);
    case TPair(_, _) => RejectedPair(g, t, v, b, rest);
    case TVec(_) => RejectedVec(g, t, v, b, rest);
    case TArr(_, _) => RejectedArr(g, t, v, b, rest);
    case TMap(_, _) => RejectedMap(g, t, v, b, rest);
    case TEnum(_) => RejectedEnum(g, t, v, b, rest);
    case TStruct(_) => RejectedStruct(g, t, v, b, rest);
    case TRef(_) => RejectedStruct(g, t, v, b, rest);
    case _ => RejectedScalar(g, t, v, b, rest);
  }

  /** Only a string can be the reason itself. */
  lemma RejectedScalar(g: Grammar, t: Type, v: Value, b: nat, rest: bytes)
    requires t.TUnit? || t.TBool? || t.TUInt? || t.TStr?
    requires WellTyped(g, t, v) && Unreadable(v, b)
    ensures Dec(g, t, b, Enc(v) + rest) == Fail(InvalidUtf8)
  {
    hide IsValidUtf8, Uleb, DecodeLen;
    var c := v.chars;
    Regroup(Uleb(|c|), c, rest);
    LenRoundTrip(|c|, c + rest);
    var bs, n := (Uleb(|c|) + c) + rest, |Uleb(|c|)|;
    assert bs[n..n + |c|] == c;
  }

  lemma {:induction false} RejectedOption(g: Grammar, t: Type, v: Value, b: nat, rest: bytes)
    requires t.TOption? && WellTyped(g, t, v) && Unreadable(v, b)
    ensures Dec(g, t, b, Enc(v) + rest) == Fail(InvalidUtf8)
    decreases v, 0, 0
  {
    Rejected(g, t.elem, v.item, b, rest);
    Regroup([1], Enc(v.item), rest);
    CompleteBool(true, Enc(v.item) + rest);
    Skip([1], Enc(v.item) + rest);
  }

  lemma {:induction false} RejectedPair(g: Grammar, t: Type, v: Value, b: nat, rest: bytes)
    requires t.TPair? && WellTyped(g, t, v) && Unreadable(v, b)
    ensures Dec(g, t, b, Enc(v) + rest) == Fail(InvalidUtf8)
    decreases v, 0, 0
  {
    Regroup(Enc(v.fst), Enc(v.snd), rest);
    if Fits(v.fst, b, true) {
      Skip(Enc(v.fst), Enc(v.snd) + rest);
      Complete(g, t.fst, v.fst, b, Enc(v.snd) + rest);
      Rejected(g, t.snd, v.snd, b, rest);
    } else {
      Rejected(g, t.fst, v.fst, b, Enc(v.snd) + rest);
    }
  }

  lemma {:induction false} RejectedVec(g: Grammar, t: Type, v: Value, b: nat, rest: bytes)
    requires t.TVec? && WellTyped(g, t, v) && Unreadable(v, b)
    ensures Dec(g, t, b, Enc(v) + rest) == Fail(InvalidUtf8)
    decreases v, 0, 0
  {
    hide Uleb, DecodeLen, EncItems, DecItems;
    var xs := v.items;
    RejectedItems(g, t.elem, xs, b, rest);
    Regroup(Uleb(|xs|), EncItems(xs), rest);
    Skip(Uleb(|xs|), EncItems(xs) + rest);
    LenRoundTrip(|xs|, EncItems(xs) + rest);
  }

  lemma {:induction false} RejectedArr(g: Grammar, t: Type, v: Value, b: nat, rest: bytes)
    requires t.TArr? && WellTyped(g, t, v) && Unreadable(v, b)
    ensures Dec(g, t, b, Enc(v) + rest) == Fail(InvalidUtf8)
    decreases v, 0, 0
  {
    hide EncItems, DecItems;
    RejectedItems(g, t.elem, v.items, b, rest);
  }

  lemma {:induction false} RejectedEnum(g: Grammar, t: Type, v: Value, b: nat, rest: bytes)
    requires t.TEnum? && WellTyped(g, t, v) && Unreadable(v, b)
    ensures Dec(g, t, b, Enc(v) + rest) == Fail(InvalidUtf8)
    decreases v, 0, 0
  {
    hide Uleb, DecodeU32;
    var i, x := v.index, v.payload;
    Rejected(g, t.cases[i], x, b, rest);
    Regroup(Uleb(i), Enc(x), rest);
    Skip(Uleb(i), Enc(x) + rest);
    U32RoundTrip(i, Enc(x) + rest);
  }

  lemma {:induction false} RejectedStruct(g: Grammar, t: Type, v: Value, b: nat, rest: bytes)
    requires (t.TStruct? || t.TRef?) && WellTyped(g, t, v) && Unreadable(v, b)
    ensures Dec(g, t, b, Enc(v) + rest) == Fail(InvalidUtf8)
    decreases v, 0, 0
  {
    Rejected(g, if t.TStruct? then t.body else BodyOf(g, t.name), v.body, b - 1, rest);
  }

  lemma {:induction false} RejectedItems(g: Grammar, e: Type, xs: seq<Value>, b: nat, rest: bytes)
    requires forall i :: 0 <= i < |xs| ==> WellTyped(g, e, xs[i]) && Fits(xs[i], b, false)
    requires exists i :: 0 <= i < |xs| && !Fits(xs[i], b, true)
    ensures DecItems(g, e, |xs|, b, EncItems(xs) + rest) == Fail(InvalidUtf8)
    decreases xs, 1, 0
  {
    hide Dec, WellTyped, Fits, Enc;
    var head, tail := Enc(xs[0]), EncItems(xs[1..]);
    Regroup(head, tail, rest);
    Skip(head, tail + rest);
    if Fits(xs[0], b, true) {
      Complete(g, e, xs[0], b, tail + rest);
      var i :| 0 <= i < |xs| && !Fits(xs[i], b, true);
      assert xs[i] == xs[1..][i - 1];
      RejectedItems(g, e, xs[1..], b, rest);
      hide DecItems;
      DecItemsFails(g, e, |xs|, b, head + (tail + rest));
    } else {
      Rejected(g, e, xs[0], b, tail + rest);
      DecItemsFails(g, e, |xs|, b, head + (tail + rest));
    }
  }

  /** One turn of the vector loop that fails, in the element or in what follows it. */
  lemma DecItemsFails(g: Grammar, e: Type, count: nat, b: nat, bs: bytes)
    requires count > 0
    requires var x := Dec(g, e, b, bs);
             || x == Fail(InvalidUtf8)
             || (x.Ok? && DecItems(g, e, count - 1, b, bs[x.used..]) == Fail(InvalidUtf8))
    ensures DecItems(g, e, count, b, bs) == Fail(InvalidUtf8)
  {
    hide Dec;
  }

  lemma {:induction false} RejectedMap(g: Grammar, t: Type, v: Value, b: nat, rest: bytes)
    requires t.TMap? && WellTyped(g, t, v) && Unreadable(v, b)
    ensures Dec(g, t, b, Enc(v) + rest) == Fail(InvalidUtf8)
    decreases v, 0, if v.Map? then |v.entries| + 1 else 0
  {
    hide *;
    TypedMap(g, t, v);
    var m := v.entries;
    var o := CanonicalKeys(m);
    UnreadableEntry(m, o, b);
    CanonicalKeysRise(g, t, m);
    EnumerationLength(o, m.Keys);
    RejectedEntries(g, t, v, o, Nothing, b, rest);
    var body := EncEntries(m, o);
    EncMapThen(m, rest);
    LenRoundTrip(|m|, body + rest);
    Skip(Uleb(|m|), body + rest);
    DecMapFails(g, t, b, Uleb(|m|) + (body + rest), |m|, |Uleb(|m|)|);
  }

  lemma TypedMap(g: Grammar, t: Type, v: Value)
    requires t.TMap? && WellTyped(g, t, v)
    ensures v.Map?
  {
  }

  lemma UnreadableEntry(m: map<Value, Value>, o: seq<Value>, b: nat)
    requires Unreadable(Map(m), b) && o == CanonicalKeys(m)
    ensures Enumerates(o, m.Keys) && |m| <= 0x7FFF_FFFF
    ensures forall k :: k in m ==> Fits(k, b, false) && Fits(m[k], b, false)
    ensures forall k :: k in o ==> k in m
    ensures exists k :: k in o && !(Fits(k, b, true) && Fits(m[k], b, true))
  {
    assert forall k :: k in o <==> k in m;
  }

  lemma DecMapFails(g: Grammar, t: Type, b: nat, bs: bytes, len: nat, n: nat)
    requires t.TMap? && n <= |bs| && DecodeLen(bs) == Ok(len, n)
    requires DecEntries(g, t, len, Nothing, b, bs[n..]) == Fail(InvalidUtf8)
    ensures Dec(g, t, b, bs) == Fail(InvalidUtf8)
  {
    hide DecEntries, DecodeLen;
  }

  lemma {:induction false} RejectedEntries(g: Grammar, t: Type, v: Value, o: seq<Value>,
                                           prev: Option<bytes>, b: nat, rest: bytes)
    requires t.TMap? && v.Map? && WellTyped(g, t, v)
    requires forall k :: k in v.entries ==> Fits(k, b, false) && Fits(v.entries[k], b, false)
    requires (forall k :: k in o ==> k in v.entries) && KeysRise(prev, o)
    requires exists k :: k in o && !(Fits(k, b, true) && Fits(v.entries[k], b, true))
    ensures DecEntries(g, t, |o|, prev, b, EncEntries(v.entries, o) + rest) == Fail(InvalidUtf8)
    decreases v, 0, |o|
  {
    hide Dec, WellTyped, Fits, Enc, DecEntries, EncEntries, Less, KeysRise;
    KeysRiseTail(prev, o);
    var m := v.entries;
    var bad :| bad in o && !(Fits(bad, b, true) && Fits(m[bad], b, true));
    var k := o[0];
    assert k in m;
    var x, tail := m[k], EncEntries(m, o[1..]);
    var bs := Enc(k) + (Enc(x) + (tail + rest));
    EntriesThen(m, o, rest);
    Skip(Enc(k), Enc(x) + (tail + rest));
    SkipTwo(Enc(k), Enc(x), tail + rest);
    EntryTyped(g, t, v, k);
    if !Fits(k, b, true) {
      Rejected(g, t.key, k, b, Enc(x) + (tail + rest));
    } else {
      Complete(g, t.key, k, b, Enc(x) + (tail + rest));
      if !Fits(x, b, true) {
        Rejected(g, t.val, x, b, tail + rest);
      } else {
        Complete(g, t.val, x, b, tail + rest);
        assert bad in o[1..];
        RejectedEntries(g, t, v, o[1..], Just(Enc(k)), b, rest);
      }
    }
    DecEntriesFails(g, t, |o|, prev, b, bs);
  }

  lemma KeysRiseTail(prev: Option<bytes>, o: seq<Value>)
    requires o != [] && KeysRise(prev, o)
    ensures prev.Just? ==> Less(prev.get, Enc(o[0]))
    ensures KeysRise(Just(Enc(o[0])), o[1..])
  {
    hide Less, Enc;
  }

  lemma EntryTyped(g: Grammar, t: Type, v: Value, k: Value)
    requires t.TMap? && v.Map? && WellTyped(g, t, v) && k in v.entries
    ensures WellTyped(g, t.key, k) && WellTyped(g, t.val, v.entries[k])
  {
  }

  /** One turn of the map loop that fails, in the key, in the value or in what follows them. */
  lemma DecEntriesFails(g: Grammar, t: Type, count: nat, prev: Option<bytes>, b: nat, bs: bytes)
    requires t.TMap? && count > 0
    requires var k := Dec(g, t.key, b, bs);
             || k == Fail(InvalidUtf8)
             || (&& k.Ok? && (prev.Just? ==> Less(prev.get, bs[..k.used]))
                 && var x := Dec(g, t.val, b, bs[k.used..]);
                    || x == Fail(InvalidUtf8)
                    || (x.Ok? && DecEntries(g, t, count - 1, Just(bs[..k.used]), b, bs[k.used + x.used..])
                                 == Fail(InvalidUtf8)))
    ensures DecEntries(g, t, count, prev, b, bs) == Fail(InvalidUtf8)
  {
    hide Dec, Less;
  }

  /**
    * Reading what was written, without a condition on strings: a value within the limits of
    * the writer comes back exactly when all its strings are valid, and otherwise the reader
    * reports an invalid string.
    */
  lemma WrittenIsReadExactly(g: Grammar, t: Type, v: Value, b: nat, rest: bytes)
    requires WellTyped(g, t, v) && Fits(v, b, false)
    ensures Dec(g, t, b, Enc(v) + rest) == if Fits(v, b, true) then Ok(v, |Enc(v)|) else Fail(InvalidUtf8)
  {
    hide Dec, WellTyped, Fits, Enc;
    if Fits(v, b, true) {
      Complete(g, t, v, b, rest);
    } else {
      Rejected(g, t, v, b, rest);
    }
  }
}

/**
  * BcsSerde, the second codec: one operator for both directions, no limits on writing,
  * lengths of at most four digits on reading, maps in the order of std::map.
  *
  * Reading fills default-constructed objects, so a variant is read into its first
  * alternative whatever its index says.
  */
module Serde {
  import opened Bytes
  import opened Order
  import opened Leb128
  import opened Values
  import opened Decoding
  import opened PrefixFree
  import opened Canonical
  import opened Serializing

  /** The types that have an operator: everything but unit and types that refer to themselves. */
  predicate SerdeType(t: Type)
    decreases t
  {
    match t
    case TUnit => false
    case TRef(_) => false
    case TOption(e) => SerdeType(e)
    case TPair(a, b) => SerdeType(a) && SerdeType(b)
    case TVec(e) => SerdeType(e)
    case TArr(e, _) => SerdeType(e)
    case TMap(k, v) => SerdeType(k) && SerdeType(v)
    case TEnum(cases) => cases != [] && forall i :: 0 <= i < |cases| ==> SerdeType(cases[i])
    case TStruct(body) => SerdeType(body)
    case _ => true
  }

  /** Of the types without unit, names and empty variants, all are supported. */
  lemma SupportedTypes(a: Type, b: Type, w: Width, n: nat)
    ensures SerdeType(TBool) && SerdeType(TUInt(w)) && SerdeType(TStr)
    ensures SerdeType(a) && SerdeType(b) ==>
              && SerdeType(TOption(a)) && SerdeType(TVec(a)) && SerdeType(TArr(a, n)) && SerdeType(TStruct(a))
              && SerdeType(TPair(a, b)) && SerdeType(TMap(a, b)) && SerdeType(TEnum([a, b]))
  {
    assert [a, b] != [];
  }

  // ---- writing ----

  function Write(ord: KeyOrder, v: Value): (bs: bytes)
    requires IsOrder(ord)
    decreases v, 1, 0
  {
    match v
    case Unit => []
    case Bool(b) => [if b then 1 else 0]
    case UInt(w, n) => ToLE(w.Size(), n)
    case Str(chars) => Uleb(|chars|) + chars
    case None => [0]
    case Some(x) => [1] + Write(ord, x)
    case Pair(x, y) => Write(ord, x) + Write(ord, y)
    case Vec(items) => Uleb(|items|) + WriteItems(ord, items)
    case Arr(items) => WriteItems(ord, items)
    case Map(m) =>
      assert Enumerates(ord(m.Keys), m.Keys);
      Uleb(|m|) + WriteEntries(ord, v, ord(m.Keys))
    case Variant(i, x) => Uleb(i) + Write(ord, x)
    case Struct(x) => Write(ord, x)
  }

  function WriteItems(ord: KeyOrder, items: seq<Value>): (bs: bytes)
    requires IsOrder(ord)
    decreases items, 1, 0
  {
    if items == [] then [] else Write(ord, items[0]) + WriteItems(ord, items[1..])
  }

  function WriteEntries(ord: KeyOrder, v: Value, o: seq<Value>): (bs: bytes)
    requires IsOrder(ord) && v.Map? && forall k :: k in o ==> k in v.entries
    decreases v, 0, |o|
  {
    if o == [] then []
    else
      assert o[0] in v.entries;
      Write(ord, o[0]) + (Write(ord, v.entries[o[0]]) + WriteEntries(ord, v, o[1..]))
  }

  // ---- reading ----

  function ReadFlag(bs: bytes): (r: Parsed<bool>)
    ensures r.Ok? ==> r.used == 1 <= |bs|
  {
    if bs == [] then Fail(PastEnd) else Ok(bs[0] != 0, 1)
  }

  function ReadStr(bs: bytes): (r: Parsed<Value>)
    ensures r.Ok? ==> r.used <= |bs|
  {
    match DecodeShort(bs)
    case Fail(e) => Fail(e)
    case Ok(len, n) => if |bs| - n < len then Fail(PastEnd) else Ok(Str(bs[n..n + len]), n + len)
  }

  function Reads(t: Type, bs: bytes): (r: Parsed<Value>)
    requires SerdeType(t)
    ensures r.Ok? ==> r.used <= |bs|
    decreases t, 1, 0
  {
    match t
    case TBool =>
      (match ReadFlag(bs)
       case Fail(e) => Fail(e)
       case Ok(x, n) => Ok(Bool(x), n))
    case TUInt(w) => if |bs| < w.Size() then Fail(PastEnd) else Ok(UInt(w, FromLE(bs[..w.Size()])), w.Size())
    case TStr => ReadStr(bs)
    case TOption(e) =>
      (match ReadFlag(bs)
       case Fail(err) => Fail(err)
       case Ok(flag, n) =>
         if !flag then Ok(None, n)
         else
           match Reads(e, bs[n..])
           case Fail(err) => Fail(err)
           case Ok(x, m) => Ok(Some(x), n + m))
    case TPair(a, b) =>
      (match Reads(a, bs)
       case Fail(e) => Fail(e)
       case Ok(x, n) =>
         match Reads(b, bs[n..])
         case Fail(e) => Fail(e)
         case Ok(y, m) => Ok(Pair(x, y), n + m))
    case TVec(e) =>
      (match DecodeShort(bs)
       case Fail(err) => Fail(err)
       case Ok(len, n) =>
         match ReadItems(e, len, bs[n..])
         case Fail(err) => Fail(err)
         case Ok(xs, m) => Ok(Vec(xs), n + m))
    case TArr(e, count) =>
      (match ReadItems(e, count, bs)
       case Fail(err) => Fail(err)
       case Ok(xs, m) => Ok(Arr(xs), m))
    case TMap(_, _) =>
      (match DecodeShort(bs)
       case Fail(e) => Fail(e)
       case Ok(len, n) =>
         match ReadEntries(t, len, bs[n..])
         case Fail(e) => Fail(e)
         case Ok(es, m) => Ok(Map(InsertAll(es)), n + m))
    case TEnum(cases) =>
      (match DecodeShort(bs)
       case Fail(e) => Fail(e)
       case Ok(_, n) =>
         match Reads(cases[0], bs[n..])
         case Fail(e) => Fail(e)
         case Ok(x, m) => Ok(Variant(0, x), n + m))
    case TStruct(body) =>
      (match Reads(body, bs)
       case Fail(e) => Fail(e)
       case Ok(x, n) => Ok(Struct(x), n))
  }

  function ReadItems(t: Type, count: nat, bs: bytes): (r: Parsed<seq<Value>>)
    requires SerdeType(t)
    ensures r.Ok? ==> r.used <= |bs|
    decreases t, 2, count
  {
    if count == 0 then Ok([], 0)
    else
      match Reads(t, bs)
      case Fail(e) => Fail(e)
      case Ok(x, n) =>
        match ReadItems(t, count - 1, bs[n..])
        case Fail(e) => Fail(e)
        case Ok(xs, m) => Ok([x] + xs, n + m)
  }

  function ReadEntries(t: Type, count: nat, bs: bytes): (r: Parsed<seq<Entry>>)
    requires t.TMap? && SerdeType(t)
    ensures r.Ok? ==> r.used <= |bs|
    decreases t, 0, count
  {
    if count == 0 then Ok([], 0)
    else
      match Reads(t.key, bs)
      case Fail(e) => Fail(e)
      case Ok(k, n) =>
        match Reads(t.val, bs[n..])
        case Fail(e) => Fail(e)
        case Ok(v, m) =>
          match ReadEntries(t, count - 1, bs[n + m..])
          case Fail(e) => Fail(e)
          case Ok(es, j) => Ok([(k, v)] + es, n + m + j)
  }

  // ---- what can be read back ----

  /** Every length is below 2^28 and every variant holds its first alternative. */
  ghost predicate Short(v: Value)
    decreases v
  {
    match v
    case Str(chars) => |chars| < SHORT_LIMIT
    case Some(x) => Short(x)
    case Pair(x, y) => Short(x) && Short(y)
    case Vec(items) => |items| < SHORT_LIMIT && forall i :: 0 <= i < |items| ==> Short(items[i])
    case Arr(items) => forall i :: 0 <= i < |items| ==> Short(items[i])
    case Map(m) => |m| < SHORT_LIMIT && forall k :: k in m ==> Short(k) && Short(m[k])
    case Variant(i, x) => i == 0 && Short(x)
    case Struct(x) => Short(x)
    case _ => true
  }

  /** A short value is read back from what was written for it, and reading stops at its end. */
  lemma {:induction false} RoundTrip(ord: KeyOrder, g: Grammar, t: Type, v: Value, rest: bytes)
    requires IsOrder(ord) && SerdeType(t) && WellTyped(g, t, v) && Short(v)
    ensures Reads(t, Write(ord, v) + rest) == Ok(v, |Write(ord, v)|)
    decreases v, 1, 0
  {
    hide *;
    match t
    case TOption(_) => RoundTripOption(ord, g, t, v, rest);
    case TPair(_, _) => RoundTripPair(ord, g, t, v, rest);
    case TVec(_) => RoundTripVec(ord, g, t, v, rest);
    case TArr(_, _) => RoundTripArr(ord, g, t, v, rest);
    case TMap(_, _) => RoundTripMap(ord, g, t, v, rest);
    case TEnum(_) => RoundTripEnum(ord, g, t, v, rest);
    case TStruct(_) => RoundTripStruct(ord, g, t, v, rest);
    case _ => RoundTripScalar(ord, g, t, v, rest);
  }

  lemma RoundTripScalar(ord: KeyOrder, g: Grammar, t: Type, v: Value, rest: bytes)
    requires IsOrder(ord) && SerdeType(t) && WellTyped(g, t, v) && Short(v)
    requires !t.TOption? && !t.TPair? && !t.TVec? && !t.TArr? && !t.TMap? && !t.TEnum? && !t.TStruct?
    ensures Reads(t, Write(ord, v) + rest) == Ok(v, |Write(ord, v)|)
  {
    match t
    case TUInt(w) => CompleteUInt(w.Size(), v.n, rest);
    case TStr =>
      var c := v.chars;
      Regroup(Uleb(|c|), c, rest);
      ShortExactly(|c|, c + rest);
      var bs, n := (Uleb(|c|) + c) + rest, |Uleb(|c|)|;
      assert bs[n..n + |c|] == c;
    case _ =>
  }

  lemma {:induction false} RoundTripOption(ord: KeyOrder, g: Grammar, t: Type, v: Value, rest: bytes)
    requires t.TOption? && IsOrder(ord) && SerdeType(t) && WellTyped(g, t, v) && Short(v)
    ensures Reads(t, Write(ord, v) + rest) == Ok(v, |Write(ord, v)|)
    decreases v, 0, 0
  {
    if v.Some? {
      RoundTrip(ord, g, t.elem, v.item, rest);
      Regroup([1], Write(ord, v.item), rest);
      Skip([1], Write(ord, v.item) + rest);
    }
  }

  lemma {:induction false} RoundTripPair(ord: KeyOrder, g: Grammar, t: Type, v: Value, rest: bytes)
    requires t.TPair? && IsOrder(ord) && SerdeType(t) && WellTyped(g, t, v) && Short(v)
    ensures Reads(t, Write(ord, v) + rest) == Ok(v, |Write(ord, v)|)
    decreases v, 0, 0
  {
    var a, b := Write(ord, v.fst), Write(ord, v.snd);
    Regroup(a, b, rest);
    Skip(a, b + rest);
    RoundTrip(ord, g, t.fst, v.fst, b + rest);
    RoundTrip(ord, g, t.snd, v.snd, rest);
  }

  lemma {:induction false} RoundTripVec(ord: KeyOrder, g: Grammar, t: Type, v: Value, rest: bytes)
    requires t.TVec? && IsOrder(ord) && SerdeType(t) && WellTyped(g, t, v) && Short(v)
    ensures Reads(t, Write(ord, v) + rest) == Ok(v, |Write(ord, v)|)
    decreases v, 0, 0
  {
    var xs := v.items;
    assert v == Vec(xs) && |xs| < SHORT_LIMIT;
    RoundTripItems(ord, g, t.elem, xs, rest);
    hide WellTyped, Short, Reads, Write, WriteItems, ReadItems;
    RoundTripVecStep(ord, t, xs, rest);
  }

  lemma RoundTripVecStep(ord: KeyOrder, t: Type, xs: seq<Value>, rest: bytes)
    requires t.TVec? && IsOrder(ord) && SerdeType(t) && |xs| < SHORT_LIMIT
    requires ReadItems(t.elem, |xs|, WriteItems(ord, xs) + rest) == Ok(xs, |WriteItems(ord, xs)|)
    ensures Reads(t, Write(ord, Vec(xs)) + rest) == Ok(Vec(xs), |Write(ord, Vec(xs))|)
  {
    hide WriteItems, ReadItems, Uleb, DecodeShort;
    var body := WriteItems(ord, xs);
    Regroup(Uleb(|xs|), body, rest);
    Skip(Uleb(|xs|), body + rest);
    ShortExactly(|xs|, body + rest);
  }

  lemma {:induction false} RoundTripArr(ord: KeyOrder, g: Grammar, t: Type, v: Value, rest: bytes)
    requires t.TArr? && IsOrder(ord) && SerdeType(t) && WellTyped(g, t, v) && Short(v)
    ensures Reads(t, Write(ord, v) + rest) == Ok(v, |Write(ord, v)|)
    decreases v, 0, 0
  {
    RoundTripItems(ord, g, t.elem, v.items, rest);
  }

  lemma {:induction false} RoundTripEnum(ord: KeyOrder, g: Grammar, t: Type, v: Value, rest: bytes)
    requires t.TEnum? && IsOrder(ord) && SerdeType(t) && WellTyped(g, t, v) && Short(v)
    ensures Reads(t, Write(ord, v) + rest) == Ok(v, |Write(ord, v)|)
    decreases v, 0, 0
  {
    var x := Write(ord, v.payload);
    RoundTrip(ord, g, t.cases[0], v.payload, rest);
    Regroup(Uleb(0), x, rest);
    Skip(Uleb(0), x + rest);
    ShortExactly(0, x + rest);
  }

  lemma {:induction false} RoundTripStruct(ord: KeyOrder, g: Grammar, t: Type, v: Value, rest: bytes)
    requires t.TStruct? && IsOrder(ord) && SerdeType(t) && WellTyped(g, t, v) && Short(v)
    ensures Reads(t, Write(ord, v) + rest) == Ok(v, |Write(ord, v)|)
    decreases v, 0, 0
  {
    RoundTrip(ord, g, t.body, v.body, rest);
  }

  lemma {:induction false} RoundTripItems(ord: KeyOrder, g: Grammar, t: Type, xs: seq<Value>, rest: bytes)
    requires IsOrder(ord) && SerdeType(t)
    requires forall i :: 0 <= i < |xs| ==> WellTyped(g, t, xs[i]) && Short(xs[i])
    ensures ReadItems(t, |xs|, WriteItems(ord, xs) + rest) == Ok(xs, |WriteItems(ord, xs)|)
    decreases xs, 1, 0
  {
    hide Reads, Write, WellTyped, Short;
    if xs != [] {
      RoundTrip(ord, g, t, xs[0], WriteItems(ord, xs[1..]) + rest);
      RoundTripItems(ord, g, t, xs[1..], rest);
      RoundTripItemsStep(ord, t, xs, rest);
    }
  }

  lemma RoundTripItemsStep(ord: KeyOrder, t: Type, xs: seq<Value>, rest: bytes)
    requires IsOrder(ord) && SerdeType(t) && xs != []
    requires var tail := WriteItems(ord, xs[1..]);
             && Reads(t, Write(ord, xs[0]) + (tail + rest)) == Ok(xs[0], |Write(ord, xs[0])|)
             && ReadItems(t, |xs| - 1, tail + rest) == Ok(xs[1..], |tail|)
    ensures ReadItems(t, |xs|, WriteItems(ord, xs) + rest) == Ok(xs, |WriteItems(ord, xs)|)
  {
    hide Reads, Write;
    var head, tail := Write(ord, xs[0]), WriteItems(ord, xs[1..]);
    Regroup(head, tail, rest);
    Skip(head, tail + rest);
    assert xs == [xs[0]] + xs[1..];
  }

  lemma MapShort(g: Grammar, t: Type, v: Value, k: Value)
    requires t.TMap? && WellTyped(g, t, v) && Short(v) && k in v.entries
    ensures WellTyped(g, t.key, k) && Short(k)
    ensures WellTyped(g, t.val, v.entries[k]) && Short(v.entries[k])
  {
  }

  lemma {:induction false} RoundTripMap(ord: KeyOrder, g: Grammar, t: Type, v: Value, rest: bytes)
    requires t.TMap? && IsOrder(ord) && SerdeType(t) && WellTyped(g, t, v) && Short(v)
    ensures Reads(t, Write(ord, v) + rest) == Ok(v, |Write(ord, v)|)
    decreases v, 0, |v.entries| + 1
  {
    var m := v.entries;
    var o := ord(m.Keys);
    assert v == Map(m) && |m| < SHORT_LIMIT && Enumerates(o, m.Keys);
    EnumerationLength(o, m.Keys);
    hide WellTyped, Short, WriteEntries, ReadEntries, Reads, Write;
    RoundTripEntries(ord, g, t, v, o, rest);
    RoundTripMapStep(ord, t, m, o, rest);
  }

  lemma RoundTripMapStep(ord: KeyOrder, t: Type, m: map<Value, Value>, o: seq<Value>, rest: bytes)
    requires t.TMap? && IsOrder(ord) && SerdeType(t) && |m| < SHORT_LIMIT
    requires o == ord(m.Keys) && Enumerates(o, m.Keys)
    requires ReadEntries(t, |m|, WriteEntries(ord, Map(m), o) + rest)
             == Ok(EntryList(m, o), |WriteEntries(ord, Map(m), o)|)
    ensures Reads(t, Write(ord, Map(m)) + rest) == Ok(Map(m), |Write(ord, Map(m))|)
  {
    hide WriteEntries, ReadEntries, Reads, Uleb, InsertAll, DecodeShort, SerdeType, EntryList;
    var body := WriteEntries(ord, Map(m), o);
    Rebuild(m, o);
    Regroup(Uleb(|m|), body, rest);
    Skip(Uleb(|m|), body + rest);
    ShortExactly(|m|, body + rest);
    ReadMapStep(t, Uleb(|m|) + (body + rest), |m|, |Uleb(|m|)|, EntryList(m, o), |body|);
  }

  lemma ReadMapStep(t: Type, bs: bytes, len: nat, n: nat, es: seq<Entry>, m: nat)
    requires t.TMap? && SerdeType(t) && n <= |bs| && DecodeShort(bs) == Ok(len, n)
    requires ReadEntries(t, len, bs[n..]) == Ok(es, m)
    ensures Reads(t, bs) == Ok(Map(InsertAll(es)), n + m)
  {
    hide ReadEntries, DecodeShort, InsertAll;
  }

  lemma {:induction false} RoundTripEntries(ord: KeyOrder, g: Grammar, t: Type, v: Value, o: seq<Value>, rest: bytes)
    requires t.TMap? && v.Map? && IsOrder(ord) && SerdeType(t) && WellTyped(g, t, v) && Short(v)
    requires forall k :: k in o ==> k in v.entries
    ensures ReadEntries(t, |o|, WriteEntries(ord, v, o) + rest)
            == Ok(EntryList(v.entries, o), |WriteEntries(ord, v, o)|)
    decreases v, 0, |o|
  {
    hide Reads, Write, WellTyped, Short;
    if o != [] {
      var k, x, tail := o[0], v.entries[o[0]], WriteEntries(ord, v, o[1..]);
      assert k in v.entries;
      MapShort(g, t, v, k);
      RoundTrip(ord, g, t.key, k, Write(ord, x) + (tail + rest));
      RoundTrip(ord, g, t.val, x, tail + rest);
      RoundTripEntries(ord, g, t, v, o[1..], rest);
      RoundTripEntriesStep(ord, t, v, o, rest);
    }
  }

  lemma RoundTripEntriesStep(ord: KeyOrder, t: Type, v: Value, o: seq<Value>, rest: bytes)
    requires IsOrder(ord) && t.TMap? && SerdeType(t) && v.Map? && o != [] && forall k :: k in o ==> k in v.entries
    requires var k, x, tail := o[0], v.entries[o[0]], WriteEntries(ord, v, o[1..]);
             && Reads(t.key, Write(ord, k) + (Write(ord, x) + (tail + rest))) == Ok(k, |Write(ord, k)|)
             && Reads(t.val, Write(ord, x) + (tail + rest)) == Ok(x, |Write(ord, x)|)
             && ReadEntries(t, |o| - 1, tail + rest) == Ok(EntryList(v.entries, o[1..]), |tail|)
    ensures ReadEntries(t, |o|, WriteEntries(ord, v, o) + rest)
            == Ok(EntryList(v.entries, o), |WriteEntries(ord, v, o)|)
  {
    hide *;
    var k, x, tail := o[0], v.entries[o[0]], WriteEntries(ord, v, o[1..]);
    var a, b := Write(ord, k), Write(ord, x);
    WriteEntriesThen(ord, v, o, rest);
    Skip(a, b + (tail + rest));
    SkipTwo(a, b, tail + rest);
    ReadEntriesStep(t, |o| - 1, a + (b + (tail + rest)), k, |a|, x, |b|, EntryList(v.entries, o[1..]), |tail|);
    assert EntryList(v.entries, o) == [(k, x)] + EntryList(v.entries, o[1..]);
  }

  lemma WriteEntriesThen(ord: KeyOrder, v: Value, o: seq<Value>, rest: bytes)
    requires IsOrder(ord) && v.Map? && o != [] && forall k :: k in o ==> k in v.entries
    ensures var a, b, tail := Write(ord, o[0]), Write(ord, v.entries[o[0]]), WriteEntries(ord, v, o[1..]);
            && WriteEntries(ord, v, o) + rest == a + (b + (tail + rest))
            && |WriteEntries(ord, v, o)| == |a| + |b| + |tail|
  {
    hide Write;
    var a, b, tail := Write(ord, o[0]), Write(ord, v.entries[o[0]]), WriteEntries(ord, v, o[1..]);
    Regroup(a, b + tail, rest);
    Regroup(b, tail, rest);
  }

  lemma ReadEntriesStep(t: Type, count: nat, bs: bytes, k: Value, n: nat, x: Value, m: nat, es: seq<Entry>, used: nat)
    requires t.TMap? && SerdeType(t) && n + m <= |bs|
    requires Reads(t.key, bs) == Ok(k, n) && Reads(t.val, bs[n..]) == Ok(x, m)
    requires ReadEntries(t, count, bs[n + m..]) == Ok(es, used)
    ensures ReadEntries(t, count + 1, bs) == Ok([(k, x)] + es, n + m + used)
  {
    hide Reads;
  }

  // ---- nothing else can be read ----

  /** Whatever the input, what is read is short. */
  lemma {:induction false} ReadIsShort(t: Type, bs: bytes)
    requires SerdeType(t) && Reads(t, bs).Ok?
    ensures Short(Reads(t, bs).value)
    decreases t, 1, 0
  {
    match t
    case TOption(e) => if ReadFlag(bs).value { ReadIsShort(e, bs[1..]); }
    case TPair(a, b) =>
      ReadIsShort(a, bs);
      ReadIsShort(b, bs[Reads(a, bs).used..]);
    case TVec(e) =>
      var len := DecodeShort(bs);
      ReadItemsShort(e, len.value, bs[len.used..]);
    case TArr(e, count) => ReadItemsShort(e, count, bs);
    case TMap(_, _) =>
      var len := DecodeShort(bs);
      ReadEntriesShort(t, len.value, bs[len.used..]);
      InsertedShort(ReadEntries(t, len.value, bs[len.used..]).value);
    case TEnum(cases) => ReadIsShort(cases[0], bs[DecodeShort(bs).used..]);
    case TStruct(body) => ReadIsShort(body, bs);
    case _ =>
  }

  lemma {:induction false} ReadItemsShort(t: Type, count: nat, bs: bytes)
    requires SerdeType(t) && ReadItems(t, count, bs).Ok?
    ensures var xs := ReadItems(t, count, bs).value;
            |xs| == count && forall i :: 0 <= i < |xs| ==> Short(xs[i])
    decreases t, 2, count
  {
    hide Reads, Short;
    if count > 0 {
      ReadIsShort(t, bs);
      ReadItemsShort(t, count - 1, bs[Reads(t, bs).used..]);
    }
  }

  ghost predicate EntriesShort(es: seq<Entry>) {
    forall i :: 0 <= i < |es| ==> Short(es[i].0) && Short(es[i].1)
  }

  lemma {:induction false} ReadEntriesShort(t: Type, count: nat, bs: bytes)
    requires t.TMap? && SerdeType(t) && ReadEntries(t, count, bs).Ok?
    ensures |ReadEntries(t, count, bs).value| == count && EntriesShort(ReadEntries(t, count, bs).value)
    decreases t, 0, count
  {
    hide Reads, Short;
    if count > 0 {
      ReadIsShort(t.key, bs);
      var n := Reads(t.key, bs).used;
      ReadIsShort(t.val, bs[n..]);
      ReadEntriesShort(t, count - 1, bs[n + Reads(t.val, bs[n..]).used..]);
    }
  }

  /** Colliding keys only make a map smaller. */
  lemma {:induction false} InsertedShort(es: seq<Entry>)
    requires EntriesShort(es)
    ensures var m := InsertAll(es);
            |m| <= |es| && forall k :: k in m ==> Short(k) && Short(m[k])
  {
    hide Short;
    if es != [] {
      var init := es[..|es| - 1];
      InsertedShort(init);
    }
  }

  /**
    * Exactly the short values survive: reading what was written for a value gives the
    * value back, ending where its encoding ends, if and only if all its lengths are below
    * 2^28 and all its variants hold their first alternative.
    */
  lemma RoundTripExactly(ord: KeyOrder, g: Grammar, t: Type, v: Value, rest: bytes)
    requires IsOrder(ord) && SerdeType(t) && WellTyped(g, t, v)
    ensures Reads(t, Write(ord, v) + rest) == Ok(v, |Write(ord, v)|) <==> Short(v)
  {
    hide Reads, Write, Short, WellTyped;
    if Reads(t, Write(ord, v) + rest) == Ok(v, |Write(ord, v)|) { ReadIsShort(t, Write(ord, v) + rest); }
    if Short(v) { RoundTrip(ord, g, t, v, rest); }
  }

  /** A variant holding its second alternative is read into its first. */
  lemma VariantNotRestored(ord: KeyOrder)
    requires IsOrder(ord)
    ensures Reads(TEnum([TBool, TBool]), Write(ord, Variant(1, Bool(true)))) == Ok(Variant(0, Bool(true)), 2)
  {
    assert Write(ord, Bool(true)) == [1];
    assert Uleb(1) == [1];
    var bs := [1] + [1];
    assert Write(ord, Variant(1, Bool(true))) == bs;
    ShortExactly(1, [1]);
    hide Write, Uleb, DecodeShort;
    assert bs[1..] == [1];
    assert Reads(TBool, [1]) == Ok(Bool(true), 1);
  }

  /** A string of 2^28 bytes is read as an empty string, four bytes into its encoding. */
  lemma LongStringNotRestored(ord: KeyOrder, chars: bytes)
    requires IsOrder(ord) && |chars| == SHORT_LIMIT
    ensures Reads(TStr, Write(ord, Str(chars))) == Ok(Str([]), 4)
  {
    hide Uleb, DecodeShort;
    ShortExactly(SHORT_LIMIT, chars);
    var bs := Uleb(|chars|) + chars;
    assert Write(ord, Str(chars)) == bs;
    assert bs[4..4] == [];
  }

  // ---- agreement with the canonical codec ----

  /** The order in which the canonical codec lists keys. */
  ghost function CanonicalOrder(): (ord: KeyOrder) {
    (s: set<Value>) => OrderBy(map k | k in s :: Enc(k))
  }

  lemma CanonicalOrderIsOrder()
    ensures IsOrder(CanonicalOrder())
  {
    forall s: set<Value> ensures Enumerates(CanonicalOrder()(s), s) {
      assert (map k | k in s :: Enc(k)).Keys == s;
    }
  }

  /** No listing of a set is excluded: whatever order a comparator gives, some `ord` has it. */
  lemma AnyListing(s: set<Value>, o: seq<Value>) returns (ord: KeyOrder)
    requires Enumerates(o, s)
    ensures IsOrder(ord) && ord(s) == o
  {
    CanonicalOrderIsOrder();
    ord := (x: set<Value>) => if x == s then o else CanonicalOrder()(x);
  }

  /** Canonical bytes are what BcsSerde writes when std::map iterates in canonical order. */
  lemma {:induction false} CanonicalIsWritten(v: Value)
    ensures IsOrder(CanonicalOrder())
    ensures Enc(v) == Write(CanonicalOrder(), v)
    decreases v, 1, 0
  {
    CanonicalOrderIsOrder();
    match v
    case Some(x) => CanonicalIsWritten(x);
    case Pair(x, y) =>
      CanonicalIsWritten(x);
      CanonicalIsWritten(y);
    case Vec(items) => CanonicalItems(items);
    case Arr(items) => CanonicalItems(items);
    case Map(m) => CanonicalMap(v);
    case Variant(_, x) => CanonicalIsWritten(x);
    case Struct(x) => CanonicalIsWritten(x);
    case _ =>
  }

  lemma {:induction false} CanonicalItems(xs: seq<Value>)
    ensures IsOrder(CanonicalOrder())
    ensures EncItems(xs) == WriteItems(CanonicalOrder(), xs)
    decreases xs, 1, 0
  {
    hide Enc, Write;
    CanonicalOrderIsOrder();
    if xs != [] {
      CanonicalIsWritten(xs[0]);
      CanonicalItems(xs[1..]);
    }
  }

  lemma {:induction false} CanonicalMap(v: Value)
    requires v.Map?
    ensures IsOrder(CanonicalOrder())
    ensures Enc(v) == Write(CanonicalOrder(), v)
    decreases v, 0, |v.entries| + 1
  {
    hide *;
    CanonicalOrderIsOrder();
    var m := v.entries;
    CanonicalKeysOrder(m);
    EncMap(m);
    WriteMapUnfolds(CanonicalOrder(), m);
    CanonicalEntries(v, CanonicalKeys(m));
  }

  lemma CanonicalKeysOrder(m: map<Value, Value>)
    ensures CanonicalOrder()(m.Keys) == CanonicalKeys(m)
  {
    hide Enc;
    assert (map k | k in m.Keys :: Enc(k)) == KeyBytes(m);
  }

  lemma WriteMapUnfolds(ord: KeyOrder, m: map<Value, Value>)
    requires IsOrder(ord)
    ensures forall k :: k in ord(m.Keys) ==> k in m
    ensures Write(ord, Map(m)) == Uleb(|m|) + WriteEntries(ord, Map(m), ord(m.Keys))
  {
    hide WriteEntries, WriteItems, Uleb, IsOrder;
    OrderLists(ord, m.Keys);
  }

  lemma OrderLists(ord: KeyOrder, s: set<Value>)
    requires IsOrder(ord)
    ensures Enumerates(ord(s), s)
    ensures forall k :: k in ord(s) <==> k in s
  {
  }

  lemma {:induction false} CanonicalEntries(v: Value, o: seq<Value>)
    requires v.Map? && forall k :: k in o ==> k in v.entries
    ensures IsOrder(CanonicalOrder())
    ensures EncEntries(v.entries, o) == WriteEntries(CanonicalOrder(), v, o)
    decreases v, 0, |o|
  {
    hide Enc, Write, CanonicalOrder;
    CanonicalOrderIsOrder();
    if o == [] {
      EncNoEntries(v.entries, o);
    } else {
      hide EncEntries;
      assert o[0] in v.entries;
      EncEntriesStep(v.entries, o);
      CanonicalIsWritten(o[0]);
      CanonicalIsWritten(v.entries[o[0]]);
      CanonicalEntries(v, o[1..]);
    }
  }

  /** Cross-codec reading: BcsSerde reads every canonical encoding of a short value, maps included. */
  lemma ReadsCanonical(g: Grammar, t: Type, v: Value, rest: bytes)
    requires SerdeType(t) && WellTyped(g, t, v) && Short(v)
    ensures Reads(t, Enc(v) + rest) == Ok(v, |Enc(v)|)
  {
    hide Reads, Write, Enc, Short, WellTyped;
    CanonicalIsWritten(v);
    RoundTrip(CanonicalOrder(), g, t, v, rest);
  }
}

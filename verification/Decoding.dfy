/**
  * What the canonical decoder computes: for a type, a depth budget and the bytes still
  * unread, a value with the number of bytes it used, or the first error met.
  * The recursion ends because a struct spends budget and every other type is larger
  * than its parts.
  */
module Decoding {
  import opened Bytes
  import opened Leb128
  import opened Utf8
  import opened Values

  type Entry = (Value, Value)

  function DecodeBool(bs: bytes): (r: Parsed<bool>)
    ensures r.Ok? ==> r.used == 1 <= |bs|
  {
    if bs == [] then Fail(Eof)
    else if bs[0] == 0 then Ok(false, 1)
    else if bs[0] == 1 then Ok(true, 1)
    else Fail(InvalidBool)
  }

  function DecodeUInt(size: nat, bs: bytes): (r: Parsed<nat>)
    ensures r.Ok? ==> r.used == size <= |bs|
  {
    if |bs| < size then Fail(Eof) else Ok(FromLE(bs[..size]), size)
  }

  function DecodeStr(bs: bytes): (r: Parsed<Value>)
    ensures r.Ok? ==> r.used <= |bs|
  {
    match DecodeLen(bs)
    case Fail(e) => Fail(e)
    case Ok(len, n) =>
      if |bs| - n < len then Fail(Eof)
      else
        var chars := bs[n..n + len];
        if IsValidUtf8(chars) then Ok(Str(chars), n + len) else Fail(InvalidUtf8)
  }

  /** The value `f(x)` after `skipped` more bytes. */
  function Advance(r: Parsed<Value>, skipped: nat, f: Value -> Value): (s: Parsed<Value>) {
    match r
    case Ok(x, n) => Ok(f(x), skipped + n)
    case Fail(e) => Fail(e)
  }

  function Dec(g: Grammar, t: Type, b: nat, bs: bytes): (r: Parsed<Value>)
    ensures r.Ok? ==> r.used <= |bs|
    decreases b, t, 1, 0
  {
    match t
    case TUnit => Ok(Unit, 0)
    case TBool =>
      (match DecodeBool(bs)
       case Ok(x, n) => Ok(Bool(x), n)
       case Fail(e) => Fail(e))
    case TUInt(w) =>
      (match DecodeUInt(w.Size(), bs)
       case Ok(n, used) => Ok(UInt(w, n), used)
       case Fail(e) => Fail(e))
    case TStr => DecodeStr(bs)
    case TOption(e) =>
      (match DecodeBool(bs)
       case Fail(err) => Fail(err)
       case Ok(tag, n) =>
         if tag then Advance(Dec(g, e, b, bs[n..]), n, x => Some(x)) else Ok(None, n))
    case TPair(x, y) =>
      (match Dec(g, x, b, bs)
       case Fail(e) => Fail(e)
       case Ok(v, n) => Advance(Dec(g, y, b, bs[n..]), n, w => Pair(v, w)))
    case TVec(e) =>
      (match DecodeLen(bs)
       case Fail(err) => Fail(err)
       case Ok(len, n) =>
         match DecItems(g, e, len, b, bs[n..])
         case Fail(err) => Fail(err)
         case Ok(items, m) => Ok(Vec(items), n + m))
    case TArr(e, count) =>
      (match DecItems(g, e, count, b, bs)
       case Fail(err) => Fail(err)
       case Ok(items, m) => Ok(Arr(items), m))
    case TMap(_, _) =>
      (match DecodeLen(bs)
       case Fail(e) => Fail(e)
       case Ok(len, n) =>
         match DecEntries(g, t, len, Nothing, b, bs[n..])
         case Fail(e) => Fail(e)
         case Ok(es, m) => Ok(Map(InsertAll(es)), n + m))
    case TEnum(cases) =>
      (match DecodeU32(bs)
       case Fail(e) => Fail(e)
       case Ok(i, n) =>
         if i > |cases| then Fail(UnknownVariant)
         else if i == |cases| then Fail(VariantOutOfRange)
         else Advance(Dec(g, cases[i], b, bs[n..]), n, x => Variant(i, x)))
    case TStruct(body) =>
      if b == 0 then Fail(TooManyContainers)
      else Advance(Dec(g, body, b - 1, bs), 0, x => Struct(x))
    case TRef(name) =>
      if b == 0 then Fail(TooManyContainers)
      else Advance(Dec(g, BodyOf(g, name), b - 1, bs), 0, x => Struct(x))
  }

  /** `count` items of type `t`. */
  function DecItems(g: Grammar, t: Type, count: nat, b: nat, bs: bytes): (r: Parsed<seq<Value>>)
    ensures r.Ok? ==> r.used <= |bs|
    decreases b, t, 2, count
  {
    if count == 0 then Ok([], 0)
    else
      match Dec(g, t, b, bs)
      case Fail(e) => Fail(e)
      case Ok(x, n) =>
        match DecItems(g, t, count - 1, b, bs[n..])
        case Fail(e) => Fail(e)
        case Ok(xs, m) => Ok([x] + xs, n + m)
  }

  /** `count` entries of the map type `t`; `prev` holds the bytes of the key before them. */
  function DecEntries(g: Grammar, t: Type, count: nat, prev: Option<bytes>, b: nat, bs: bytes)
    : (r: Parsed<seq<Entry>>)
    requires t.TMap?
    ensures r.Ok? ==> r.used <= |bs|
    decreases b, t, 0, count
  {
    if count == 0 then Ok([], 0)
    else
      match Dec(g, t.key, b, bs)
      case Fail(e) => Fail(e)
      case Ok(k, n) =>
        if prev.Just? && !Less(prev.get, bs[..n]) then Fail(KeysOutOfOrder)
        else
          match Dec(g, t.val, b, bs[n..])
          case Fail(e) => Fail(e)
          case Ok(v, m) =>
            match DecEntries(g, t, count - 1, Just(bs[..n]), b, bs[n + m..])
            case Fail(e) => Fail(e)
            case Ok(es, j) => Ok([(k, v)] + es, n + m + j)
  }

  /** `map::insert`: an entry whose key is present is ignored. */
  function InsertEntry(m: map<Value, Value>, e: Entry): (r: map<Value, Value>) {
    if e.0 in m then m else m[e.0 := e.1]
  }

  /** Inserting a list of entries, from the first to the last. */
  function InsertAll(es: seq<Entry>): (m: map<Value, Value>) {
    if es == [] then map[] else InsertEntry(InsertAll(es[..|es| - 1]), es[|es| - 1])
  }

  /** `bcsDeserialize`: one value and nothing after it. */
  function DecodeMessage(g: Grammar, t: Type, budget: nat, input: bytes): (r: Outcome<Value>) {
    match Dec(g, t, budget, input)
    case Fail(e) => Thrown(e)
    case Ok(v, n) => if n < |input| then Thrown(TrailingBytes) else Done(v)
  }

  // ---- inserting entries with distinct keys ----

  ghost predicate DistinctKeys(es: seq<Entry>) {
    forall i, j :: 0 <= i < j < |es| ==> es[i].0 != es[j].0
  }

  function Keys(es: seq<Entry>): (o: seq<Value>)
    ensures |o| == |es| && forall i :: 0 <= i < |es| ==> o[i] == es[i].0
  {
    seq(|es|, i requires 0 <= i < |es| => es[i].0)
  }

  lemma {:induction false} InsertKeys(es: seq<Entry>)
    ensures forall k :: k in InsertAll(es) <==> k in Keys(es)
  {
    if es != [] {
      var init, last := es[..|es| - 1], es[|es| - 1];
      InsertKeys(init);
      assert Keys(es) == Keys(init) + [last.0];
    }
  }

  /** A repeated key keeps the value of its first entry. */
  lemma {:induction false} FirstInsertedStays(es: seq<Entry>, i: nat)
    requires i < |es| && forall j :: 0 <= j < i ==> es[j].0 != es[i].0
    ensures es[i].0 in InsertAll(es) && InsertAll(es)[es[i].0] == es[i].1
  {
    var init, last := es[..|es| - 1], es[|es| - 1];
    InsertKeys(init);
    if i < |es| - 1 {
      assert init[i] == es[i];
      FirstInsertedStays(init, i);
    } else {
      assert last.0 !in Keys(init);
    }
  }

  /** No insertion collides when keys are distinct: the map holds exactly the listed entries. */
  lemma {:induction false} InsertDistinct(es: seq<Entry>)
    requires DistinctKeys(es)
    ensures |InsertAll(es)| == |es|
    ensures forall i :: 0 <= i < |es| ==> es[i].0 in InsertAll(es) && InsertAll(es)[es[i].0] == es[i].1
  {
    if es != [] {
      var init, last := es[..|es| - 1], es[|es| - 1];
      InsertDistinct(init);
      InsertKeys(init);
      assert last.0 !in InsertAll(init);
      assert InsertAll(es) == InsertAll(init)[last.0 := last.1];
      forall i | 0 <= i < |es| - 1
        ensures es[i].0 in InsertAll(es) && InsertAll(es)[es[i].0] == es[i].1
      {
        assert init[i] == es[i];
      }
    }
  }
}

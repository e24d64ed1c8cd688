/** The stateful canonical deserializer: a position in its input and a container depth budget. */
module Deserializer {
  import opened Bytes
  import opened Leb128
  import opened Utf8
  import opened Values
  import opened Decoding
  import opened Serializer

  // ---- shifted-or of bytes ----

  lemma FromLE2(a: byte, b: byte)
    ensures FromLE([a, b]) == a + (b as int) * 0x100
  {
    assert [a, b][1..] == [b];
    assert FromLE([b]) == b by { assert FromLE([b][1..]) == 0; }
  }

  lemma FromLE4(a: byte, b: byte, c: byte, d: byte)
    ensures FromLE([a, b, c, d]) == a + (b as int) * 0x100 + (c as int) * 0x1_0000 + (d as int) * 0x100_0000
  {
    FromLE2(a, b);
    FromLE2(c, d);
    assert [a, b, c, d] == [a, b] + [c, d];
    assert Pow256(2) == 0x1_0000;
    hide FromLE, Pow256;
    FromLEConcat([a, b], [c, d]);
  }

  lemma FromLE8(s: bytes)
    requires |s| == 8
    ensures FromLE(s) == s[0] + (s[1] as int) * 0x100 + (s[2] as int) * 0x1_0000 + (s[3] as int) * 0x100_0000
                         + (s[4] as int) * 0x1_0000_0000 + (s[5] as int) * 0x100_0000_0000
                         + (s[6] as int) * 0x1_0000_0000_0000 + (s[7] as int) * 0x100_0000_0000_0000
  {
    hide FromLE, Pow256;
    FromLE4(s[0], s[1], s[2], s[3]);
    FromLE4(s[4], s[5], s[6], s[7]);
    var a, b := [s[0], s[1], s[2], s[3]], [s[4], s[5], s[6], s[7]];
    assert s == a + b;
    Widths();
    FromLEConcat(a, b);
  }

  /** Eight bytes at a position, as the 64-bit integer they stand for. */
  lemma WordAt(s: bytes, p: nat)
    requires p <= |s|
    ensures p + 8 > |s| ==> DecodeUInt(8, s[p..]) == Fail(Eof)
    ensures p + 8 <= |s| ==>
              DecodeUInt(8, s[p..])
              == Ok(s[p] + (s[p + 1] as int) * 0x100 + (s[p + 2] as int) * 0x1_0000
                    + (s[p + 3] as int) * 0x100_0000 + (s[p + 4] as int) * 0x1_0000_0000
                    + (s[p + 5] as int) * 0x100_0000_0000 + (s[p + 6] as int) * 0x1_0000_0000_0000
                    + (s[p + 7] as int) * 0x100_0000_0000_0000, 8)
  {
    hide FromLE;
    if p + 8 <= |s| {
      var w := s[p..][..8];
      FromLE8(w);
      assert forall i :: 0 <= i < 8 ==> w[i] == s[p + i];
    }
  }

  // ---- lemmas for the loops ----

  function PlusItems(done: seq<Value>, n: nat, r: Parsed<seq<Value>>): (s: Parsed<seq<Value>>) {
    match r
    case Ok(xs, used) => Ok(done + xs, n + used)
    case Fail(e) => Fail(e)
  }

  function PlusEntries(done: seq<Entry>, n: nat, r: Parsed<seq<Entry>>): (s: Parsed<seq<Entry>>) {
    match r
    case Ok(es, used) => Ok(done + es, n + used)
    case Fail(e) => Fail(e)
  }

  lemma DecItemsTurn(g: Grammar, t: Type, count: nat, b: nat, bs: bytes, done: seq<Value>, n: nat)
    requires count > 0
    ensures PlusItems(done, n, DecItems(g, t, count, b, bs))
            == match Dec(g, t, b, bs)
               case Fail(e) => Fail(e)
               case Ok(x, m) => PlusItems(done + [x], n + m, DecItems(g, t, count - 1, b, bs[m..]))
  {
    hide Dec;
    var r := Dec(g, t, b, bs);
    if r.Ok? {
      var s := DecItems(g, t, count - 1, b, bs[r.used..]);
      if s.Ok? { assert done + ([r.value] + s.value) == (done + [r.value]) + s.value; }
    }
  }

  /** One turn of the map loop at position `start`, as a continuation of the turns before it. */
  lemma DecEntriesTurn(g: Grammar, t: Type, count: nat, prev: Option<bytes>, b: nat, input: bytes, start: nat,
                       done: seq<Entry>, n: nat)
    requires t.TMap? && count > 0 && start <= |input|
    ensures var r := PlusEntries(done, n, DecEntries(g, t, count, prev, b, input[start..]));
            var x := Dec(g, t.key, b, input[start..]);
            && (x.Fail? ==> r == Fail(x.error))
            && (x.Ok? ==>
                  var end := start + x.used;
                  && (prev.Just? && !Less(prev.get, input[start..end]) ==> r == Fail(KeysOutOfOrder))
                  && (!(prev.Just? && !Less(prev.get, input[start..end])) ==>
                        var y := Dec(g, t.val, b, input[end..]);
                        && (y.Fail? ==> r == Fail(y.error))
                        && (y.Ok? ==>
                              r == PlusEntries(done + [(x.value, y.value)], n + x.used + y.used,
                                               DecEntries(g, t, count - 1, Just(input[start..end]), b,
                                                          input[end + y.used..])))))
  {
    hide Dec, Less, DecEntries, PlusEntries;
    var bs := input[start..];
    DecEntriesContinue(g, t, count, prev, b, bs, done, n);
    var x := Dec(g, t.key, b, bs);
    if x.Ok? {
      Suffix(input, start, start + x.used);
      var y := Dec(g, t.val, b, bs[x.used..]);
      if y.Ok? { Suffix(input, start, start + x.used + y.used); }
    }
  }

  lemma DecEntriesContinue(g: Grammar, t: Type, count: nat, prev: Option<bytes>, b: nat, bs: bytes,
                           done: seq<Entry>, n: nat)
    requires t.TMap? && count > 0
    ensures var r := PlusEntries(done, n, DecEntries(g, t, count, prev, b, bs));
            match Dec(g, t.key, b, bs)
            case Fail(e) => r == Fail(e)
            case Ok(k, i) =>
              if prev.Just? && !Less(prev.get, bs[..i]) then r == Fail(KeysOutOfOrder)
              else
                match Dec(g, t.val, b, bs[i..])
                case Fail(e) => r == Fail(e)
                case Ok(v, j) =>
                  r == PlusEntries(done + [(k, v)], n + i + j,
                                   DecEntries(g, t, count - 1, Just(bs[..i]), b, bs[i + j..]))
  {
    hide Dec, Less, DecEntries;
    DecEntriesUnfold(g, t, count, prev, b, bs);
    var k := Dec(g, t.key, b, bs);
    if k.Ok? {
      var v := Dec(g, t.val, b, bs[k.used..]);
      if v.Ok? {
        PlusEntriesCons(done, n, (k.value, v.value), k.used + v.used,
                        DecEntries(g, t, count - 1, Just(bs[..k.used]), b, bs[k.used + v.used..]));
      }
    }
  }

  lemma DecEntriesUnfold(g: Grammar, t: Type, count: nat, prev: Option<bytes>, b: nat, bs: bytes)
    requires t.TMap? && count > 0
    ensures var r := DecEntries(g, t, count, prev, b, bs);
            var k := Dec(g, t.key, b, bs);
            && (k.Fail? ==> r == Fail(k.error))
            && (k.Ok? && prev.Just? && !Less(prev.get, bs[..k.used]) ==> r == Fail(KeysOutOfOrder))
            && (k.Ok? && (prev.Just? ==> Less(prev.get, bs[..k.used])) ==>
                  var v := Dec(g, t.val, b, bs[k.used..]);
                  && (v.Fail? ==> r == Fail(v.error))
                  && (v.Ok? ==>
                        var es := DecEntries(g, t, count - 1, Just(bs[..k.used]), b, bs[k.used + v.used..]);
                        && (es.Fail? ==> r == Fail(es.error))
                        && (es.Ok? ==> r == Ok([(k.value, v.value)] + es.value, k.used + v.used + es.used))))
  {
    hide Dec, Less;
  }

  lemma PlusEntriesCons(done: seq<Entry>, n: nat, e: Entry, used: nat, r: Parsed<seq<Entry>>)
    ensures r.Ok? ==> PlusEntries(done, n, Ok([e] + r.value, used + r.used)) == PlusEntries(done + [e], n + used, r)
  {
    if r.Ok? { assert done + ([e] + r.value) == (done + [e]) + r.value; }
  }

  lemma InsertOne(es: seq<Entry>, e: Entry)
    ensures InsertAll(es + [e]) == InsertEntry(InsertAll(es), e)
  {
    assert (es + [e])[..|es|] == es;
  }

  // ---- the deserializer ----

  /** A call that reads at `before` did what `spec` says and left the position at `after`. */
  ghost predicate Read<T>(r: Outcome<T>, spec: Parsed<T>, before: nat, after: nat) {
    match spec
    case Fail(e) => r == Thrown(e)
    case Ok(x, n) => r == Done(x) && after == before + n
  }

  class BcsDeserializer {
    const input: bytes      // bytes_
    var pos: nat            // pos_
    var budget: nat         // container_depth_budget_

    ghost predicate Valid()
      reads this
    {
      pos <= |input|
    }

    constructor (bs: bytes)
      ensures input == bs && pos == 0 && budget == 500 && Valid()
    {
      input, pos, budget := bs, 0, MAX_CONTAINER_DEPTH;
    }

    method ReadByte() returns (r: Outcome<byte>)
      requires Valid()
      modifies this`pos
      ensures Valid() && pos >= old(pos)
      ensures old(pos) < |input| ==> r == Done(input[old(pos)]) && pos == old(pos) + 1
      ensures old(pos) >= |input| ==> r == Thrown(Eof)
    {
      if pos >= |input| { return Thrown(Eof); }
      pos := pos + 1;
      return Done(input[pos - 1]);
    }

    method DeserializeU8() returns (r: Outcome<nat>)
      requires Valid()
      modifies this`pos
      ensures Valid() && pos >= old(pos)
      ensures Read(r, DecodeUInt(1, input[old(pos)..]), old(pos), pos)
    {
      var a :- ReadByte();
      assert input[old(pos)..][..1] == [a];
      assert FromLE([a]) == a by { assert FromLE([a][1..]) == 0; }
      return Done(a);
    }

    method DeserializeU16() returns (r: Outcome<nat>)
      requires Valid()
      modifies this`pos
      ensures Valid() && pos >= old(pos)
      ensures Read(r, DecodeUInt(2, input[old(pos)..]), old(pos), pos)
    {
      var a :- ReadByte();
      var b :- ReadByte();
      assert input[old(pos)..][..2] == [a, b];
      FromLE2(a, b);
      return Done(a + (b as int) * 0x100);
    }

    method DeserializeU32() returns (r: Outcome<nat>)
      requires Valid()
      modifies this`pos
      ensures Valid() && pos >= old(pos)
      ensures Read(r, DecodeUInt(4, input[old(pos)..]), old(pos), pos)
    {
      var a :- ReadByte();
      var b :- ReadByte();
      var c :- ReadByte();
      var d :- ReadByte();
      assert input[old(pos)..][..4] == [a, b, c, d];
      FromLE4(a, b, c, d);
      return Done(a + (b as int) * 0x100 + (c as int) * 0x1_0000 + (d as int) * 0x100_0000);
    }

    method DeserializeU64() returns (r: Outcome<nat>)
      requires Valid()
      modifies this`pos
      ensures Valid() && pos >= old(pos)
      ensures Read(r, DecodeUInt(8, input[old(pos)..]), old(pos), pos)
    {
      hide DecodeUInt;
      WordAt(input, pos);
      var b0 :- ReadByte();
      var val: nat := b0;
      var b1 :- ReadByte();
      val := val + (b1 as int) * 0x100;
      var b2 :- ReadByte();
      val := val + (b2 as int) * 0x1_0000;
      var b3 :- ReadByte();
      val := val + (b3 as int) * 0x100_0000;
      var b4 :- ReadByte();
      val := val + (b4 as int) * 0x1_0000_0000;
      var b5 :- ReadByte();
      val := val + (b5 as int) * 0x100_0000_0000;
      var b6 :- ReadByte();
      val := val + (b6 as int) * 0x1_0000_0000_0000;
      var b7 :- ReadByte();
      val := val + (b7 as int) * 0x100_0000_0000_0000;
      return Done(val);
    }

    /** The high and low halves of a 128-bit integer. */
    method DeserializeU128() returns (r: Outcome<(nat, nat)>)
      requires Valid()
      modifies this`pos
      ensures Valid() && pos >= old(pos)
      ensures match DecodeUInt(16, input[old(pos)..])
              case Fail(e) => r == Thrown(e)
              case Ok(n, _) =>
                && r.Done? && pos == old(pos) + 16
                && r.value.0 < TWO_64 && r.value.1 < TWO_64
                && n == r.value.1 + TWO_64 * r.value.0
    {
      hide FromLE, Pow256;
      var low :- DeserializeU64();
      var high :- DeserializeU64();
      var rest := input[old(pos)..];
      assert rest[..16] == rest[..8] + rest[8..][..8];
      assert input[old(pos) + 8..] == rest[8..];
      FromLEConcat(rest[..8], rest[8..][..8]);
      Pow64();
      return Done((high, low));
    }

    method DeserializeBool() returns (r: Outcome<bool>)
      requires Valid()
      modifies this`pos
      ensures Valid() && pos >= old(pos)
      ensures Read(r, DecodeBool(input[old(pos)..]), old(pos), pos)
    {
      var b :- ReadByte();
      if b == 0 { return Done(false); }
      if b == 1 { return Done(true); }
      return Thrown(InvalidBool);
    }

    method DeserializeUleb128AsU32() returns (r: Outcome<nat>)
      requires Valid()
      modifies this`pos
      ensures Valid() && pos >= old(pos)
      ensures Read(r, DecodeU32(input[old(pos)..]), old(pos), pos)
    {
      hide Shift, UlebFrom;
      var value: nat := 0;
      for i := 0 to 5
        invariant Valid() && pos >= old(pos)
        invariant DecodeU32(input[old(pos)..]) == Plus(UlebFrom(input[pos..], i, value), pos - old(pos))
      {
        var at := pos;
        UlebEnd(input[at..], i, value);
        var b :- ReadByte();
        assert input[at..][1..] == input[pos..] && input[at..][0] == b;
        UlebTurn(input[at..], i, value, at - old(pos));
        var digit := b % 128;
        value := value + Shift(digit, i);
        if value >= U32_LIMIT { return Thrown(UlebOverflow); }
        if digit == b {
          if i > 0 && digit == 0 { return Thrown(UlebZeroDigit); }
          return Done(value);
        }
      }
      UlebEnd(input[pos..], 5, value);
      return Thrown(UlebOverflow);
    }

    method DeserializeLen() returns (r: Outcome<nat>)
      requires Valid()
      modifies this`pos
      ensures Valid() && pos >= old(pos)
      ensures Read(r, DecodeLen(input[old(pos)..]), old(pos), pos)
      ensures r.Done? ==> r.value <= 0x7FFF_FFFF
    {
      hide DecodeU32;
      var n :- DeserializeUleb128AsU32();
      if n > MAX_LENGTH { return Thrown(LengthTooLarge); }
      return Done(n);
    }

    method DeserializeStr() returns (r: Outcome<Value>)
      requires Valid()
      modifies this`pos
      ensures Valid() && pos >= old(pos)
      ensures Read(r, DecodeStr(input[old(pos)..]), old(pos), pos)
    {
      hide DecodeLen, IsValidUtf8, DecodeStr;
      StrTurn(input[pos..]);
      var len :- DeserializeLen();
      var start := pos;
      var result: bytes := [];
      for i := 0 to len
        invariant Valid() && pos == start + i && start + i <= |input| && result == input[start..start + i]
      {
        var b :- ReadByte();
        result := result + [b];
      }
      Middle(input, old(pos), start, start + len);
      var ok := CheckUtf8(result);
      if !ok { return Thrown(InvalidUtf8); }
      return Done(Str(result));
    }

    method IncreaseContainerDepth() returns (r: Outcome<()>)
      modifies this`budget
      ensures old(budget) == 0 ==> r == Thrown(TooManyContainers) && budget == old(budget)
      ensures old(budget) > 0 ==> r == Done(()) && budget == old(budget) - 1
    {
      if budget == 0 { return Thrown(TooManyContainers); }
      budget := budget - 1;
      return Done(());
    }

    method DecreaseContainerDepth()
      modifies this`budget
      ensures budget == old(budget) + 1
    {
      budget := budget + 1;
    }

    method DeserializeUInt(w: Width) returns (r: Outcome<nat>)
      requires Valid()
      modifies this`pos
      ensures Valid() && pos >= old(pos)
      ensures Read(r, DecodeUInt(w.Size(), input[old(pos)..]), old(pos), pos)
    {
      hide DecodeUInt;
      match w
      case W8 => r := DeserializeU8();
      case W16 => r := DeserializeU16();
      case W32 => r := DeserializeU32();
      case W64 => r := DeserializeU64();
      case W128 =>
        var halves :- DeserializeU128();
        r := Done(halves.1 + TWO_64 * halves.0);
    }

    /** check_that_key_slices_are_increasing, on two ranges of the input. */
    method CheckKeys(start1: nat, end1: nat, start2: nat, end2: nat) returns (r: Outcome<()>)
      requires start1 <= end1 <= |input| && start2 <= end2 <= |input|
      ensures r == if Less(input[start1..end1], input[start2..end2]) then Done(()) else Thrown(KeysOutOfOrder)
    {
      var less := LexicographicalCompare(start1, end1, start2, end2);
      if !less { return Thrown(KeysOutOfOrder); }
      return Done(());
    }

    /** std::lexicographical_compare on two ranges of the input. */
    method LexicographicalCompare(start1: nat, end1: nat, start2: nat, end2: nat) returns (less: bool)
      requires start1 <= end1 <= |input| && start2 <= end2 <= |input|
      ensures less == Less(input[start1..end1], input[start2..end2])
    {
      var i, j := start1, start2;
      while i < end1 && j < end2
        invariant start1 <= i <= end1 && start2 <= j <= end2
        invariant Less(input[start1..end1], input[start2..end2]) == Less(input[i..end1], input[j..end2])
      {
        LessTurn(input[i..end1], input[j..end2]);
        if input[i] < input[j] { return true; }
        if input[j] < input[i] { return false; }
        assert input[i..end1][1..] == input[i + 1..end1] && input[j..end2][1..] == input[j + 1..end2];
        i, j := i + 1, j + 1;
      }
      LessEnd(input[i..end1], input[j..end2]);
      return j < end2;
    }

    /** Deserializable<T>::deserialize, over every T derived from the supported types. */
    method Deserialize(g: Grammar, t: Type) returns (r: Outcome<Value>)
      requires Valid()
      modifies this
      ensures Valid() && pos >= old(pos)
      ensures Read(r, Dec(g, t, old(budget), input[old(pos)..]), old(pos), pos)
      ensures r.Done? ==> budget == old(budget)
      decreases budget, t, 1, 0
    {
      hide Dec;
      match t
      case TOption(_) => r := DeserializeOption(g, t);
      case TPair(_, _) => r := DeserializePair(g, t);
      case TVec(_) => r := DeserializeVec(g, t);
      case TArr(_, _) => r := DeserializeArr(g, t);
      case TMap(_, _) => r := DeserializeMap(g, t);
      case TEnum(_) => r := DeserializeEnum(g, t);
      case TStruct(_) => r := DeserializeStruct(g, t);
      case TRef(_) => r := DeserializeStruct(g, t);
      case _ => r := DeserializeScalar(g, t);
    }

    method DeserializeScalar(g: Grammar, t: Type) returns (r: Outcome<Value>)
      requires Valid() && (t.TUnit? || t.TBool? || t.TUInt? || t.TStr?)
      modifies this
      ensures Valid() && pos >= old(pos)
      ensures Read(r, Dec(g, t, old(budget), input[old(pos)..]), old(pos), pos)
      ensures r.Done? ==> budget == old(budget)
    {
      hide DecodeUInt, DecodeBool, DecodeStr;
      match t
      case TBool =>
        var b :- DeserializeBool();
        r := Done(Bool(b));
      case TUInt(w) =>
        var n :- DeserializeUInt(w);
        r := Done(UInt(w, n));
      case TStr => r := DeserializeStr();
      case _ => r := Done(Unit);
    }

    method DeserializeOption(g: Grammar, t: Type) returns (r: Outcome<Value>)
      requires Valid() && t.TOption?
      modifies this
      ensures Valid() && pos >= old(pos)
      ensures Read(r, Dec(g, t, old(budget), input[old(pos)..]), old(pos), pos)
      ensures r.Done? ==> budget == old(budget)
      decreases budget, t, 0, 0
    {
      hide DecodeBool;
      ghost var start := pos;
      var tag :- DeserializeBool();
      if !tag { return Done(None); }
      Suffix(input, start, pos);
      var x :- Deserialize(g, t.elem);
      r := Done(Some(x));
    }

    method DeserializePair(g: Grammar, t: Type) returns (r: Outcome<Value>)
      requires Valid() && t.TPair?
      modifies this
      ensures Valid() && pos >= old(pos)
      ensures Read(r, Dec(g, t, old(budget), input[old(pos)..]), old(pos), pos)
      ensures r.Done? ==> budget == old(budget)
      decreases budget, t, 0, 0
    {
      ghost var start := pos;
      var x :- Deserialize(g, t.fst);
      Suffix(input, start, pos);
      var y :- Deserialize(g, t.snd);
      r := Done(Pair(x, y));
    }

    method DeserializeVec(g: Grammar, t: Type) returns (r: Outcome<Value>)
      requires Valid() && t.TVec?
      modifies this
      ensures Valid() && pos >= old(pos)
      ensures Read(r, Dec(g, t, old(budget), input[old(pos)..]), old(pos), pos)
      ensures r.Done? ==> budget == old(budget)
      decreases budget, t, 0, 0
    {
      hide DecodeLen, DecItems;
      ghost var start := pos;
      var len :- DeserializeLen();
      Suffix(input, start, pos);
      var xs :- DeserializeItems(g, t.elem, len);
      r := Done(Vec(xs));
    }

    method DeserializeArr(g: Grammar, t: Type) returns (r: Outcome<Value>)
      requires Valid() && t.TArr?
      modifies this
      ensures Valid() && pos >= old(pos)
      ensures Read(r, Dec(g, t, old(budget), input[old(pos)..]), old(pos), pos)
      ensures r.Done? ==> budget == old(budget)
      decreases budget, t, 0, 0
    {
      hide DecItems;
      var xs :- DeserializeItems(g, t.elem, t.count);
      r := Done(Arr(xs));
    }

    /** The fields of a struct, inside one unit of the depth budget. */
    method DeserializeStruct(g: Grammar, t: Type) returns (r: Outcome<Value>)
      requires Valid() && (t.TStruct? || t.TRef?)
      modifies this
      ensures Valid() && pos >= old(pos)
      ensures Read(r, Dec(g, t, old(budget), input[old(pos)..]), old(pos), pos)
      ensures r.Done? ==> budget == old(budget)
      decreases budget, t, 0, 0
    {
      var _ :- IncreaseContainerDepth();
      var x :- Deserialize(g, if t.TStruct? then t.body else BodyOf(g, t.name));
      DecreaseContainerDepth();
      r := Done(Struct(x));
    }

    /** Enums: the index is compared with the number of cases before the case is looked up. */
    method DeserializeEnum(g: Grammar, t: Type) returns (r: Outcome<Value>)
      requires Valid() && t.TEnum?
      modifies this
      ensures Valid() && pos >= old(pos)
      ensures Read(r, Dec(g, t, old(budget), input[old(pos)..]), old(pos), pos)
      ensures r.Done? ==> budget == old(budget)
      decreases budget, t, 0, 0
    {
      hide DecodeU32;
      ghost var start := pos;
      var index :- DeserializeUleb128AsU32();
      if index > |t.cases| { return Thrown(UnknownVariant); }
      if index == |t.cases| { return Thrown(VariantOutOfRange); }
      Suffix(input, start, pos);
      var x :- Deserialize(g, t.cases[index]);
      r := Done(Variant(index, x));
    }

    /** The loop over a vector or an array. */
    method DeserializeItems(g: Grammar, t: Type, count: nat) returns (r: Outcome<seq<Value>>)
      requires Valid()
      modifies this
      ensures Valid() && pos >= old(pos)
      ensures Read(r, DecItems(g, t, count, old(budget), input[old(pos)..]), old(pos), pos)
      ensures r.Done? ==> budget == old(budget)
      decreases budget, t, 2, 0
    {
      hide Dec, DecItems, PlusItems;
      var result: seq<Value> := [];
      PlusItemsNone(result, DecItems(g, t, count, budget, input[pos..]));
      for i := 0 to count
        invariant Valid() && pos >= old(pos) && budget == old(budget)
        invariant DecItems(g, t, count, budget, input[old(pos)..])
                  == PlusItems(result, pos - old(pos), DecItems(g, t, count - i, budget, input[pos..]))
      {
        var at := pos;
        DecItemsTurn(g, t, count - i, budget, input[at..], result, at - old(pos));
        var x :- Deserialize(g, t);
        Suffix(input, at, pos);
        result := result + [x];
      }
      ItemsEnd(g, t, budget, input[pos..], result, pos - old(pos));
      return Done(result);
    }

    method DeserializeMap(g: Grammar, t: Type) returns (r: Outcome<Value>)
      requires Valid() && t.TMap?
      modifies this
      ensures Valid() && pos >= old(pos)
      ensures Read(r, Dec(g, t, old(budget), input[old(pos)..]), old(pos), pos)
      ensures r.Done? ==> budget == old(budget)
      decreases budget, t, 0, 1
    {
      hide DecEntries, DecodeLen, InsertAll;
      ghost var start := pos;
      var len :- DeserializeLen();
      Suffix(input, start, pos);
      var m :- DeserializeEntries(g, t, len);
      return Done(Map(m));
    }

    /** The loop over a map, which compares every key slice with the one before it. */
    method DeserializeEntries(g: Grammar, t: Type, len: nat) returns (r: Outcome<map<Value, Value>>)
      requires Valid() && t.TMap?
      modifies this
      ensures Valid() && pos >= old(pos)
      ensures match DecEntries(g, t, len, Nothing, old(budget), input[old(pos)..])
              case Fail(e) => r == Thrown(e)
              case Ok(es, n) => r == Done(InsertAll(es)) && pos == old(pos) + n
      ensures r.Done? ==> budget == old(budget)
      decreases budget, t, 0, 0
    {
      hide Dec, InsertAll, Less, DecEntries, PlusEntries, InsertEntry;
      var result: map<Value, Value> := map[];
      var previous: Option<(nat, nat)> := Nothing;
      ghost var done: seq<Entry> := [];
      InsertNone(done);
      PlusEntriesNone(done, DecEntries(g, t, len, Nothing, budget, input[pos..]));
      for i := 0 to len
        invariant Valid() && pos >= old(pos) && budget == old(budget)
        invariant previous.Just? ==> previous.get.0 <= previous.get.1 <= |input|
        invariant result == InsertAll(done)
        invariant DecEntries(g, t, len, Nothing, budget, input[old(pos)..])
                  == PlusEntries(done, pos - old(pos),
                                 DecEntries(g, t, len - i, Slice(input, previous), budget, input[pos..]))
      {
        var start := pos;
        DecEntriesTurn(g, t, len - i, Slice(input, previous), budget, input, start, done, start - old(pos));
        var key :- Deserialize(g, t.key);
        var end := pos;
        if previous.Just? {
          var _ :- CheckKeys(previous.get.0, previous.get.1, start, end);
        }
        previous := Just((start, end));
        var value :- Deserialize(g, t.val);
        InsertOne(done, (key, value));
        result := InsertEntry(result, (key, value));
        done := done + [(key, value)];
      }
      EntriesEnd(g, t, Slice(input, previous), budget, input[pos..], done, pos - old(pos));
      return Done(result);
    }
  }

  // ---- facts the methods use ----

  /** The bytes of a remembered key. */
  function Slice(input: bytes, range: Option<(nat, nat)>): (r: Option<bytes>)
    requires range.Just? ==> range.get.0 <= range.get.1 <= |input|
  {
    match range
    case Nothing => Nothing
    case Just((a, b)) => Just(input[a..b])
  }

  lemma StrTurn(bs: bytes)
    ensures var len := DecodeLen(bs);
            && (len.Fail? ==> DecodeStr(bs) == Fail(len.error))
            && (len.Ok? && |bs| - len.used < len.value ==> DecodeStr(bs) == Fail(Eof))
            && (len.Ok? && |bs| - len.used >= len.value ==>
                  var chars := bs[len.used..len.used + len.value];
                  DecodeStr(bs) == if IsValidUtf8(chars) then Ok(Str(chars), len.used + len.value) else Fail(InvalidUtf8))
  {
    hide DecodeLen, IsValidUtf8;
  }

  lemma Middle(input: bytes, at: nat, start: nat, end: nat)
    requires at <= start <= end <= |input|
    ensures input[at..][start - at..end - at] == input[start..end]
  {
  }

  lemma LessTurn(a: bytes, b: bytes)
    requires a != [] && b != []
    ensures Less(a, b) == (a[0] < b[0] || (a[0] == b[0] && Less(a[1..], b[1..])))
  {
  }

  lemma LessEnd(a: bytes, b: bytes)
    requires a == [] || b == []
    ensures Less(a, b) == (b != [])
  {
  }

  lemma Suffix(input: bytes, start: nat, end: nat)
    requires start <= end <= |input|
    ensures input[start..][end - start..] == input[end..] && input[start..][..end - start] == input[start..end]
  {
  }

  lemma InsertNone(es: seq<Entry>)
    requires es == []
    ensures InsertAll(es) == map[]
  {
  }

  lemma ItemsEnd(g: Grammar, t: Type, b: nat, bs: bytes, done: seq<Value>, n: nat)
    ensures PlusItems(done, n, DecItems(g, t, 0, b, bs)) == Ok(done, n)
  {
    assert done + [] == done;
  }

  lemma EntriesEnd(g: Grammar, t: Type, prev: Option<bytes>, b: nat, bs: bytes, done: seq<Entry>, n: nat)
    requires t.TMap?
    ensures PlusEntries(done, n, DecEntries(g, t, 0, prev, b, bs)) == Ok(done, n)
  {
    assert done + [] == done;
  }

  lemma PlusItemsNone(done: seq<Value>, r: Parsed<seq<Value>>)
    requires done == []
    ensures PlusItems(done, 0, r) == r
  {
    if r.Ok? { assert done + r.value == r.value; }
  }

  lemma PlusEntriesNone(done: seq<Entry>, r: Parsed<seq<Entry>>)
    requires done == []
    ensures PlusEntries(done, 0, r) == r
  {
    if r.Ok? { assert done + r.value == r.value; }
  }

  /** `bcsDeserialize`: a fresh deserializer, one value, and no byte left over. */
  method BcsDeserialize(g: Grammar, t: Type, input: bytes) returns (r: Outcome<Value>)
    ensures r == DecodeMessage(g, t, MAX_CONTAINER_DEPTH, input)
  {
    hide Dec;
    var d := new BcsDeserializer(input);
    assert input[0..] == input;
    var v :- d.Deserialize(g, t);
    if d.pos < |input| { return Thrown(TrailingBytes); }
    return Done(v);
  }
}

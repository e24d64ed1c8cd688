/** The BcsSerde object: its buffer, its iterator and its direction. */
module SerdeObject {
  import opened Bytes
  import opened Order
  import opened Leb128
  import opened Values
  import opened Decoding
  import opened PrefixFree
  import opened Serializing
  import opened Deserializer
  import opened Serde

  // ---- lemmas for the loops ----

  lemma WriteItemsStep(ord: KeyOrder, items: seq<Value>, i: nat)
    requires IsOrder(ord) && i < |items|
    ensures WriteItems(ord, items[i..]) == Write(ord, items[i]) + WriteItems(ord, items[i + 1..])
  {
    hide Write;
    assert items[i..][1..] == items[i + 1..];
  }

  lemma WriteEntriesStep(ord: KeyOrder, v: Value, o: seq<Value>, i: nat)
    requires IsOrder(ord) && v.Map? && i < |o| && forall k :: k in o ==> k in v.entries
    ensures o[i] in v.entries
    ensures WriteEntries(ord, v, o[i..])
            == Write(ord, o[i]) + (Write(ord, v.entries[o[i]]) + WriteEntries(ord, v, o[i + 1..]))
  {
    hide Write;
    assert o[i] in o;
    assert o[i..][1..] == o[i + 1..];
  }

  lemma ReadItemsTurn(t: Type, count: nat, bs: bytes, done: seq<Value>, n: nat)
    requires SerdeType(t) && count > 0
    ensures PlusItems(done, n, ReadItems(t, count, bs))
            == match Reads(t, bs)
               case Fail(e) => Fail(e)
               case Ok(x, m) => PlusItems(done + [x], n + m, ReadItems(t, count - 1, bs[m..]))
  {
    hide Reads;
    var r := Reads(t, bs);
    if r.Ok? {
      var s := ReadItems(t, count - 1, bs[r.used..]);
      if s.Ok? { assert done + ([r.value] + s.value) == (done + [r.value]) + s.value; }
    }
  }

  lemma ReadItemsEnd(t: Type, bs: bytes, done: seq<Value>, n: nat)
    requires SerdeType(t)
    ensures PlusItems(done, n, ReadItems(t, 0, bs)) == Ok(done, n)
  {
    assert done + [] == done;
  }

  /** The operator on std::pair, reading: the key, then the value. */
  function ReadEntry(t: Type, bs: bytes): (r: Parsed<Entry>)
    requires t.TMap? && SerdeType(t)
    ensures r.Ok? ==> r.used <= |bs|
  {
    match Reads(t.key, bs)
    case Fail(e) => Fail(e)
    case Ok(k, n) =>
      match Reads(t.val, bs[n..])
      case Fail(e) => Fail(e)
      case Ok(x, m) => Ok((k, x), n + m)
  }

  /** One turn of the map loop at position `at`, as a continuation of the turns before it. */
  lemma ReadEntriesTurn(t: Type, count: nat, input: bytes, at: nat, done: seq<Entry>, n: nat)
    requires t.TMap? && SerdeType(t) && count > 0 && at <= |input|
    ensures var r := PlusEntries(done, n, ReadEntries(t, count, input[at..]));
            var e := ReadEntry(t, input[at..]);
            && (e.Fail? ==> r == Fail(e.error))
            && (e.Ok? ==> r == PlusEntries(done + [e.value], n + e.used, ReadEntries(t, count - 1, input[at + e.used..])))
  {
    hide ReadEntries, ReadEntry;
    var bs := input[at..];
    var e := ReadEntry(t, bs);
    ReadEntriesUnfold(t, count, bs);
    if e.Ok? {
      Suffix(input, at, at + e.used);
      PlusEntriesCons(done, n, e.value, e.used, ReadEntries(t, count - 1, bs[e.used..]));
    }
  }

  lemma ReadEntriesUnfold(t: Type, count: nat, bs: bytes)
    requires t.TMap? && SerdeType(t) && count > 0
    ensures var r := ReadEntries(t, count, bs);
            var e := ReadEntry(t, bs);
            && (e.Fail? ==> r == Fail(e.error))
            && (e.Ok? ==>
                  var rest := ReadEntries(t, count - 1, bs[e.used..]);
                  && (rest.Fail? ==> r == Fail(rest.error))
                  && (rest.Ok? ==> r == Ok([e.value] + rest.value, e.used + rest.used)))
  {
    hide Reads;
    var k := Reads(t.key, bs);
    if k.Ok? {
      var x := Reads(t.val, bs[k.used..]);
    }
  }

  lemma ReadEntriesEnd(t: Type, bs: bytes, done: seq<Entry>, n: nat)
    requires t.TMap? && SerdeType(t)
    ensures PlusEntries(done, n, ReadEntries(t, 0, bs)) == Ok(done, n)
  {
    assert done + [] == done;
  }

  lemma NextAt(s: bytes, at: nat)
    requires at < |s|
    ensures s[at..][0] == s[at] && s[at..][1..] == s[at + 1..]
  {
  }

  lemma ReadsOption(t: Type, bs: bytes)
    requires t.TOption? && SerdeType(t)
    ensures SerdeType(t.elem)
    ensures bs == [] ==> Reads(t, bs) == Fail(PastEnd)
    ensures bs != [] && bs[0] == 0 ==> Reads(t, bs) == Ok(None, 1)
    ensures bs != [] && bs[0] != 0 ==>
              var x := Reads(t.elem, bs[1..]);
              && (x.Fail? ==> Reads(t, bs) == Fail(x.error))
              && (x.Ok? ==> Reads(t, bs) == Ok(Some(x.value), 1 + x.used))
  {
  }

  lemma WriteOption(ord: KeyOrder, g: Grammar, t: Type, v: Value)
    requires IsOrder(ord) && t.TOption? && WellTyped(g, t, v)
    ensures v.None? || v.Some?
    ensures v.None? ==> Write(ord, v) == [0]
    ensures v.Some? ==> WellTyped(g, t.elem, v.item) && Write(ord, v) == [1] + Write(ord, v.item)
  {
  }

  lemma ReadsPair(t: Type, bs: bytes)
    requires t.TPair? && SerdeType(t)
    ensures SerdeType(t.fst) && SerdeType(t.snd)
    ensures var x := Reads(t.fst, bs);
            && (x.Fail? ==> Reads(t, bs) == Fail(x.error))
            && (x.Ok? ==>
                  var y := Reads(t.snd, bs[x.used..]);
                  && (y.Fail? ==> Reads(t, bs) == Fail(y.error))
                  && (y.Ok? ==> Reads(t, bs) == Ok(Pair(x.value, y.value), x.used + y.used)))
  {
  }

  lemma WritePair(ord: KeyOrder, g: Grammar, t: Type, v: Value)
    requires IsOrder(ord) && t.TPair? && WellTyped(g, t, v)
    ensures v.Pair? && WellTyped(g, t.fst, v.fst) && WellTyped(g, t.snd, v.snd)
    ensures Write(ord, v) == Write(ord, v.fst) + Write(ord, v.snd)
  {
  }

  // ---- the object ----

  /** One use of the operator: it appended the value, or read one and moved the iterator. */
  ghost predicate Processed(writing: bool, r: Outcome<Value>, v: Value, written: bytes, read: Parsed<Value>,
                            bytes0: bytes, bytes1: bytes, it0: nat, it1: nat)
  {
    if writing then r == Done(v) && bytes1 == bytes0 + written && it1 == it0
    else bytes1 == bytes0 && Read(r, read, it0, it1)
  }

  class BcsSerde {
    var buffer: bytes              // _bytes
    var iterator_: nat             // _iterator
    var isSerialization: bool      // _is_serialization

    ghost predicate Valid()
      reads this
    {
      iterator_ <= |buffer|
    }

    constructor Writing()
      ensures buffer == [] && isSerialization && iterator_ == 0 && Valid()
    {
      buffer, iterator_, isSerialization := [], 0, true;
    }

    constructor Reading(bs: bytes)
      ensures buffer == bs && !isSerialization && iterator_ == 0 && Valid()
    {
      buffer, iterator_, isSerialization := bs, 0, false;
    }

    method SetDes()
      modifies this
      ensures !isSerialization && iterator_ == 0 && buffer == old(buffer) && Valid()
    {
      isSerialization, iterator_ := false, 0;
    }

    method EncodeInteger(n: nat)
      modifies this`buffer
      ensures buffer == old(buffer) + Uleb(n)
    {
      var value := n;
      var more := true;
      while more
        invariant more ==> buffer + Uleb(value) == old(buffer) + Uleb(n)
        invariant !more ==> value == 0 && buffer == old(buffer) + Uleb(n)
        decreases if more then value + 1 else 0
      {
        var v := value % 128;
        var rest := value / 128;
        assert rest > 0 ==> Uleb(value) == [v + 128] + Uleb(rest);
        assert rest == 0 ==> Uleb(value) == [v];
        value := rest;
        buffer := buffer + [if value > 0 then v + 128 else v];
        more := value > 0;
      }
    }

    method NextByte() returns (r: Outcome<byte>)
      requires Valid()
      modifies this`iterator_
      ensures Valid() && iterator_ >= old(iterator_)
      ensures old(iterator_) < |buffer| ==> r == Done(buffer[old(iterator_)]) && iterator_ == old(iterator_) + 1
      ensures old(iterator_) >= |buffer| ==> r == Thrown(PastEnd)
    {
      if iterator_ >= |buffer| { return Thrown(PastEnd); }
      iterator_ := iterator_ + 1;
      return Done(buffer[iterator_ - 1]);
    }

    method DecodeInteger() returns (r: Outcome<nat>)
      requires Valid()
      modifies this`iterator_
      ensures Valid() && iterator_ >= old(iterator_)
      ensures Read(r, DecodeShort(buffer[old(iterator_)..]), old(iterator_), iterator_)
    {
      hide Shift, ShortFrom, DecodeShort;
      var value: nat := 0;
      ShortStart(buffer[iterator_..]);
      for i := 0 to 4
        invariant Valid() && iterator_ >= old(iterator_) && value < Shift(1, i)
        invariant DecodeShort(buffer[old(iterator_)..])
                  == Plus(ShortFrom(buffer[iterator_..], i, value), iterator_ - old(iterator_))
      {
        var at := iterator_;
        ShortTurn(buffer[at..], i, value, at - old(iterator_));
        var v :- NextByte();
        NextAt(buffer, at);
        value := value + Shift(v % 128, i);
        if v < 128 { return Done(value); }
        assert buffer[iterator_..] == buffer[at..][1..] && iterator_ - old(iterator_) == (at - old(iterator_)) + 1;
      }
      ShortEnd(buffer[iterator_..], value, iterator_ - old(iterator_));
      return Done(value);
    }

    /** Bytes one after the other, as the integer and string operators read them. */
    method NextBytes(count: nat) returns (r: Outcome<bytes>)
      requires Valid()
      modifies this`iterator_
      ensures Valid() && iterator_ >= old(iterator_)
      ensures old(iterator_) + count <= |buffer| ==>
                r == Done(buffer[old(iterator_)..][..count]) && iterator_ == old(iterator_) + count
      ensures old(iterator_) + count > |buffer| ==> r == Thrown(PastEnd)
    {
      var start := iterator_;
      var result: bytes := [];
      for i := 0 to count
        invariant Valid() && iterator_ == start + i && result == buffer[start..start + i]
      {
        var b :- NextByte();
        result := result + [b];
      }
      assert buffer[start..][..count] == result;
      return Done(result);
    }

    /** The operator: writes `v` when serializing, otherwise reads into a default-constructed object. */
    method Process(ord: KeyOrder, ghost g: Grammar, t: Type, v: Value) returns (r: Outcome<Value>)
      requires Valid() && IsOrder(ord) && SerdeType(t) && (isSerialization ==> WellTyped(g, t, v))
      modifies this
      ensures Valid() && isSerialization == old(isSerialization) && iterator_ >= old(iterator_)
      ensures Processed(isSerialization, r, v, Write(ord, v), Reads(t, old(buffer)[old(iterator_)..]),
                        old(buffer), buffer, old(iterator_), iterator_)
      decreases t, 1, 0
    {
      hide Write, Reads, WellTyped, SerdeType;
      match t
      case TOption(_) => r := ProcessOption(ord, g, t, v);
      case TPair(_, _) => r := ProcessPair(ord, g, t, v);
      case TVec(_) => r := ProcessVec(ord, g, t, v);
      case TArr(_, _) => r := ProcessArr(ord, g, t, v);
      case TMap(_, _) => r := ProcessMap(ord, g, t, v);
      case TEnum(_) => r := ProcessEnum(ord, g, t, v);
      case TStruct(_) => r := ProcessStruct(ord, g, t, v);
      case _ => r := ProcessScalar(ord, g, t, v);
    }

    method ProcessScalar(ord: KeyOrder, ghost g: Grammar, t: Type, v: Value) returns (r: Outcome<Value>)
      requires Valid() && IsOrder(ord) && SerdeType(t) && (isSerialization ==> WellTyped(g, t, v))
      requires !t.TOption? && !t.TPair? && !t.TVec? && !t.TArr? && !t.TMap? && !t.TEnum? && !t.TStruct?
      modifies this
      ensures Valid() && isSerialization == old(isSerialization) && iterator_ >= old(iterator_)
      ensures Processed(isSerialization, r, v, Write(ord, v), Reads(t, old(buffer)[old(iterator_)..]),
                        old(buffer), buffer, old(iterator_), iterator_)
    {
      hide Reads, Write, WellTyped;
      match t
      case TBool => r := ProcessBool(ord, g, t, v);
      case TUInt(_) => r := ProcessInteger(ord, g, t, v);
      case TStr => r := ProcessStr(ord, g, t, v);
    }

    method ProcessBool(ord: KeyOrder, ghost g: Grammar, t: Type, v: Value) returns (r: Outcome<Value>)
      requires t.TBool? && Valid() && IsOrder(ord) && (isSerialization ==> WellTyped(g, t, v))
      modifies this
      ensures Valid() && isSerialization == old(isSerialization) && iterator_ >= old(iterator_)
      ensures Processed(isSerialization, r, v, Write(ord, v), Reads(t, old(buffer)[old(iterator_)..]),
                        old(buffer), buffer, old(iterator_), iterator_)
    {
      if isSerialization {
        buffer := buffer + [if v.b then 1 else 0];
        return Done(v);
      }
      var b :- NextByte();
      return Done(Bool(b != 0));
    }

    method ProcessInteger(ord: KeyOrder, ghost g: Grammar, t: Type, v: Value) returns (r: Outcome<Value>)
      requires t.TUInt? && Valid() && IsOrder(ord) && (isSerialization ==> WellTyped(g, t, v))
      modifies this
      ensures Valid() && isSerialization == old(isSerialization) && iterator_ >= old(iterator_)
      ensures Processed(isSerialization, r, v, Write(ord, v), Reads(t, old(buffer)[old(iterator_)..]),
                        old(buffer), buffer, old(iterator_), iterator_)
    {
      hide ToLE, FromLE;
      if isSerialization {
        buffer := buffer + ToLE(t.width.Size(), v.n);
        return Done(v);
      }
      var bs :- NextBytes(t.width.Size());
      return Done(UInt(t.width, FromLE(bs)));
    }

    method ProcessStr(ord: KeyOrder, ghost g: Grammar, t: Type, v: Value) returns (r: Outcome<Value>)
      requires t.TStr? && Valid() && IsOrder(ord) && (isSerialization ==> WellTyped(g, t, v))
      modifies this
      ensures Valid() && isSerialization == old(isSerialization) && iterator_ >= old(iterator_)
      ensures Processed(isSerialization, r, v, Write(ord, v), Reads(t, old(buffer)[old(iterator_)..]),
                        old(buffer), buffer, old(iterator_), iterator_)
    {
      hide Uleb, DecodeShort;
      if isSerialization {
        EncodeInteger(|v.chars|);
        buffer := buffer + v.chars;
        Regroup(old(buffer), Uleb(|v.chars|), v.chars);
        return Done(v);
      }
      ghost var rest := buffer[iterator_..];
      ghost var start := iterator_;
      var size :- DecodeInteger();
      Suffix(buffer, start, iterator_);
      ghost var n := iterator_ - start;
      var chars :- NextBytes(size);
      assert rest[n..n + size] == chars;
      return Done(Str(chars));
    }

    method ProcessOption(ord: KeyOrder, ghost g: Grammar, t: Type, v: Value) returns (r: Outcome<Value>)
      requires t.TOption? && Valid() && IsOrder(ord) && SerdeType(t) && (isSerialization ==> WellTyped(g, t, v))
      modifies this
      ensures Valid() && isSerialization == old(isSerialization) && iterator_ >= old(iterator_)
      ensures Processed(isSerialization, r, v, Write(ord, v), Reads(t, old(buffer)[old(iterator_)..]),
                        old(buffer), buffer, old(iterator_), iterator_)
      decreases t, 0, 0
    {
      hide SerdeType, WellTyped, Reads, Write;
      ReadsOption(t, buffer[iterator_..]);
      if isSerialization { WriteOption(ord, g, t, v); }
      if isSerialization {
        buffer := buffer + [if v.Some? then 1 else 0];
        if v.Some? {
          Regroup(old(buffer), [1], Write(ord, v.item));
          var _ := Process(ord, g, t.elem, v.item);
        }
        return Done(v);
      }
      ghost var start := iterator_;
      var flag :- NextByte();
      if flag == 0 { return Done(None); }
      Suffix(buffer, start, iterator_);
      var x :- Process(ord, g, t.elem, Unit);
      return Done(Some(x));
    }

    method ProcessPair(ord: KeyOrder, ghost g: Grammar, t: Type, v: Value) returns (r: Outcome<Value>)
      requires t.TPair? && Valid() && IsOrder(ord) && SerdeType(t) && (isSerialization ==> WellTyped(g, t, v))
      modifies this
      ensures Valid() && isSerialization == old(isSerialization) && iterator_ >= old(iterator_)
      ensures Processed(isSerialization, r, v, Write(ord, v), Reads(t, old(buffer)[old(iterator_)..]),
                        old(buffer), buffer, old(iterator_), iterator_)
      decreases t, 0, 0
    {
      hide SerdeType, WellTyped, Reads, Write;
      ReadsPair(t, buffer[iterator_..]);
      if isSerialization { WritePair(ord, g, t, v); }
      ghost var start := iterator_;
      var x :- Process(ord, g, t.fst, if isSerialization then v.fst else Unit);
      Suffix(buffer, start, iterator_);
      var y :- Process(ord, g, t.snd, if isSerialization then v.snd else Unit);
      if isSerialization { Regroup(old(buffer), Write(ord, v.fst), Write(ord, v.snd)); }
      return Done(Pair(x, y));
    }

    method ProcessVec(ord: KeyOrder, ghost g: Grammar, t: Type, v: Value) returns (r: Outcome<Value>)
      requires t.TVec? && Valid() && IsOrder(ord) && SerdeType(t) && (isSerialization ==> WellTyped(g, t, v))
      modifies this
      ensures Valid() && isSerialization == old(isSerialization) && iterator_ >= old(iterator_)
      ensures Processed(isSerialization, r, v, Write(ord, v), Reads(t, old(buffer)[old(iterator_)..]),
                        old(buffer), buffer, old(iterator_), iterator_)
      decreases t, 0, 0
    {
      hide Uleb, DecodeShort, WriteItems, ReadItems;
      if isSerialization {
        EncodeInteger(|v.items|);
        Regroup(old(buffer), Uleb(|v.items|), WriteItems(ord, v.items));
        var _ := ProcessItems(ord, g, t.elem, v.items);
        return Done(v);
      }
      ghost var start := iterator_;
      var size :- DecodeInteger();
      Suffix(buffer, start, iterator_);
      var xs :- ProcessItems(ord, g, t.elem, seq(size, _ => Unit));
      return Done(Vec(xs));
    }

    method ProcessArr(ord: KeyOrder, ghost g: Grammar, t: Type, v: Value) returns (r: Outcome<Value>)
      requires t.TArr? && Valid() && IsOrder(ord) && SerdeType(t) && (isSerialization ==> WellTyped(g, t, v))
      modifies this
      ensures Valid() && isSerialization == old(isSerialization) && iterator_ >= old(iterator_)
      ensures Processed(isSerialization, r, v, Write(ord, v), Reads(t, old(buffer)[old(iterator_)..]),
                        old(buffer), buffer, old(iterator_), iterator_)
      decreases t, 0, 0
    {
      hide WriteItems, ReadItems;
      var xs :- ProcessItems(ord, g, t.elem, if isSerialization then v.items else seq(t.count, _ => Unit));
      return Done(Arr(xs));
    }

    method ProcessEnum(ord: KeyOrder, ghost g: Grammar, t: Type, v: Value) returns (r: Outcome<Value>)
      requires t.TEnum? && Valid() && IsOrder(ord) && SerdeType(t) && (isSerialization ==> WellTyped(g, t, v))
      modifies this
      ensures Valid() && isSerialization == old(isSerialization) && iterator_ >= old(iterator_)
      ensures Processed(isSerialization, r, v, Write(ord, v), Reads(t, old(buffer)[old(iterator_)..]),
                        old(buffer), buffer, old(iterator_), iterator_)
      decreases t, 0, 0
    {
      hide Uleb, DecodeShort;
      if isSerialization {
        EncodeInteger(v.index);
        Regroup(old(buffer), Uleb(v.index), Write(ord, v.payload));
        var _ := Process(ord, g, t.cases[v.index], v.payload);
        return Done(v);
      }
      ghost var start := iterator_;
      var _ :- DecodeInteger();
      Suffix(buffer, start, iterator_);
      var x :- Process(ord, g, t.cases[0], Unit);
      return Done(Variant(0, x));
    }

    method ProcessStruct(ord: KeyOrder, ghost g: Grammar, t: Type, v: Value) returns (r: Outcome<Value>)
      requires t.TStruct? && Valid() && IsOrder(ord) && SerdeType(t) && (isSerialization ==> WellTyped(g, t, v))
      modifies this
      ensures Valid() && isSerialization == old(isSerialization) && iterator_ >= old(iterator_)
      ensures Processed(isSerialization, r, v, Write(ord, v), Reads(t, old(buffer)[old(iterator_)..]),
                        old(buffer), buffer, old(iterator_), iterator_)
      decreases t, 0, 0
    {
      var x :- Process(ord, g, t.body, if isSerialization then v.body else Unit);
      return Done(Struct(x));
    }

    /** The loop over the elements of a container, in either direction. */
    method ProcessItems(ord: KeyOrder, ghost g: Grammar, t: Type, items: seq<Value>) returns (r: Outcome<seq<Value>>)
      requires Valid() && IsOrder(ord) && SerdeType(t)
      requires isSerialization ==> forall i :: 0 <= i < |items| ==> WellTyped(g, t, items[i])
      modifies this
      ensures Valid() && isSerialization == old(isSerialization) && iterator_ >= old(iterator_)
      ensures isSerialization ==>
                r == Done(items) && buffer == old(buffer) + WriteItems(ord, items) && iterator_ == old(iterator_)
      ensures !isSerialization ==>
                && buffer == old(buffer)
                && Read(r, ReadItems(t, |items|, buffer[old(iterator_)..]), old(iterator_), iterator_)
      decreases t, 2, 0
    {
      hide Write, Reads, WellTyped, SerdeType;
      if isSerialization {
        r := WriteAll(ord, g, t, items);
      } else {
        r := ReadAll(ord, g, t, |items|);
      }
    }

    method WriteAll(ord: KeyOrder, ghost g: Grammar, t: Type, items: seq<Value>) returns (r: Outcome<seq<Value>>)
      requires Valid() && isSerialization && IsOrder(ord) && SerdeType(t)
      requires forall i :: 0 <= i < |items| ==> WellTyped(g, t, items[i])
      modifies this
      ensures Valid() && isSerialization && iterator_ == old(iterator_)
      ensures r == Done(items) && buffer == old(buffer) + WriteItems(ord, items)
      decreases t, 1, 1
    {
      hide Write, Reads, WellTyped, SerdeType;
      assert items[0..] == items;
      for i := 0 to |items|
        invariant Valid() && isSerialization && iterator_ == old(iterator_)
        invariant buffer + WriteItems(ord, items[i..]) == old(buffer) + WriteItems(ord, items)
      {
        WriteItemsStep(ord, items, i);
        Regroup(buffer, Write(ord, items[i]), WriteItems(ord, items[i + 1..]));
        var _ := Process(ord, g, t, items[i]);
      }
      assert buffer + [] == buffer;
      return Done(items);
    }

    method ReadAll(ord: KeyOrder, ghost g: Grammar, t: Type, count: nat) returns (r: Outcome<seq<Value>>)
      requires Valid() && !isSerialization && IsOrder(ord) && SerdeType(t)
      modifies this
      ensures Valid() && !isSerialization && iterator_ >= old(iterator_) && buffer == old(buffer)
      ensures Read(r, ReadItems(t, count, buffer[old(iterator_)..]), old(iterator_), iterator_)
      decreases t, 1, 1
    {
      hide Write, Reads, ReadItems, PlusItems, SerdeType;
      var result: seq<Value> := [];
      PlusItemsNone(result, ReadItems(t, count, buffer[iterator_..]));
      for i := 0 to count
        invariant Valid() && !isSerialization && iterator_ >= old(iterator_) && buffer == old(buffer)
        invariant ReadItems(t, count, buffer[old(iterator_)..])
                  == PlusItems(result, iterator_ - old(iterator_), ReadItems(t, count - i, buffer[iterator_..]))
      {
        var at := iterator_;
        ReadItemsTurn(t, count - i, buffer[at..], result, at - old(iterator_));
        var x :- Process(ord, g, t, Unit);
        Suffix(buffer, at, iterator_);
        result := result + [x];
      }
      ReadItemsEnd(t, buffer[iterator_..], result, iterator_ - old(iterator_));
      return Done(result);
    }

    method ProcessMap(ord: KeyOrder, ghost g: Grammar, t: Type, v: Value) returns (r: Outcome<Value>)
      requires t.TMap? && Valid() && IsOrder(ord) && SerdeType(t) && (isSerialization ==> WellTyped(g, t, v))
      modifies this
      ensures Valid() && isSerialization == old(isSerialization) && iterator_ >= old(iterator_)
      ensures Processed(isSerialization, r, v, Write(ord, v), Reads(t, old(buffer)[old(iterator_)..]),
                        old(buffer), buffer, old(iterator_), iterator_)
      decreases t, 0, 2
    {
      hide Uleb, DecodeShort, WriteEntries, ReadEntries, InsertAll;
      if isSerialization {
        assert v.Map?;
        EncodeInteger(|v.entries|);
        assert Enumerates(ord(v.entries.Keys), v.entries.Keys);
        Regroup(old(buffer), Uleb(|v.entries|), WriteEntries(ord, v, ord(v.entries.Keys)));
        var _ := WriteMap(ord, g, t, v);
        return Done(v);
      }
      ghost var start := iterator_;
      var size :- DecodeInteger();
      Suffix(buffer, start, iterator_);
      var m :- ReadMap(ord, g, t, size);
      return Done(Map(m));
    }

    method WriteMap(ord: KeyOrder, ghost g: Grammar, t: Type, v: Value) returns (r: Outcome<()>)
      requires t.TMap? && Valid() && isSerialization && IsOrder(ord) && SerdeType(t) && WellTyped(g, t, v) && v.Map?
      modifies this
      ensures Valid() && isSerialization && iterator_ == old(iterator_)
      ensures forall k :: k in ord(v.entries.Keys) ==> k in v.entries
      ensures r == Done(()) && buffer == old(buffer) + WriteEntries(ord, v, ord(v.entries.Keys))
      decreases t, 0, 0
    {
      hide Write, Reads, WellTyped;
      var o := ord(v.entries.Keys);
      assert Enumerates(o, v.entries.Keys);
      assert o[0..] == o;
      for i := 0 to |o|
        invariant Valid() && isSerialization && iterator_ == old(iterator_)
        invariant buffer + WriteEntries(ord, v, o[i..]) == old(buffer) + WriteEntries(ord, v, o)
      {
        WriteEntriesStep(ord, v, o, i);
        MapTyped(g, t, v, o[i]);
        ghost var a, b, tail := Write(ord, o[i]), Write(ord, v.entries[o[i]]), WriteEntries(ord, v, o[i + 1..]);
        Regroup(buffer, a, b + tail);
        Regroup(buffer + a, b, tail);
        var _ := Process(ord, g, t.key, o[i]);
        var _ := Process(ord, g, t.val, v.entries[o[i]]);
      }
      assert buffer + [] == buffer;
      return Done(());
    }

    method ReadPair(ord: KeyOrder, ghost g: Grammar, t: Type) returns (r: Outcome<Entry>)
      requires t.TMap? && Valid() && !isSerialization && IsOrder(ord) && SerdeType(t)
      modifies this
      ensures Valid() && !isSerialization && iterator_ >= old(iterator_) && buffer == old(buffer)
      ensures Read(r, ReadEntry(t, buffer[old(iterator_)..]), old(iterator_), iterator_)
      decreases t, 0, 0
    {
      hide Write, Reads;
      var at := iterator_;
      var k :- Process(ord, g, t.key, Unit);
      Suffix(buffer, at, iterator_);
      var x :- Process(ord, g, t.val, Unit);
      return Done((k, x));
    }

    method ReadMap(ord: KeyOrder, ghost g: Grammar, t: Type, size: nat) returns (r: Outcome<map<Value, Value>>)
      requires t.TMap? && Valid() && !isSerialization && IsOrder(ord) && SerdeType(t)
      modifies this
      ensures Valid() && !isSerialization && iterator_ >= old(iterator_) && buffer == old(buffer)
      ensures match ReadEntries(t, size, buffer[old(iterator_)..])
              case Fail(e) => r == Thrown(e)
              case Ok(es, n) => r == Done(InsertAll(es)) && iterator_ == old(iterator_) + n
      decreases t, 0, 1
    {
      hide Write, Reads, ReadEntry, ReadEntries, PlusEntries, InsertAll, InsertEntry;
      var result: map<Value, Value> := map[];
      ghost var done: seq<Entry> := [];
      InsertNone(done);
      PlusEntriesNone(done, ReadEntries(t, size, buffer[iterator_..]));
      for i := 0 to size
        invariant Valid() && !isSerialization && iterator_ >= old(iterator_) && buffer == old(buffer)
        invariant result == InsertAll(done)
        invariant ReadEntries(t, size, buffer[old(iterator_)..])
                  == PlusEntries(done, iterator_ - old(iterator_), ReadEntries(t, size - i, buffer[iterator_..]))
      {
        var at := iterator_;
        ReadEntriesTurn(t, size - i, buffer, at, done, at - old(iterator_));
        var p :- ReadPair(ord, g, t);
        InsertOne(done, p);
        result := InsertEntry(result, p);
        done := done + [p];
      }
      ReadEntriesEnd(t, buffer[iterator_..], done, iterator_ - old(iterator_));
      return Done(result);
    }
  }
}

/**
  * Writing what BcsSerde has read. Its reader is lenient: it takes numbers with superfluous
  * digits, any non-zero flag, any variant index and keys in any order, repeated or not. An
  * input is rewritten unchanged exactly when it uses none of this.
  */
module Rewriting {
  import opened Bytes
  import opened Order
  import opened Leb128
  import opened Values
  import opened Decoding
  import opened Canonical
  import opened Serializing
  import opened Serde

  // ---- lengths ----

  /** The `n` digits end in one that is marked as the last and, unless it is alone, is not zero. */
  predicate MinimalDigits(bs: bytes, n: nat)
    requires 0 < n <= |bs|
  {
    bs[n - 1] < 128 && (n > 1 ==> bs[n - 1] != 0)
  }

  lemma {:induction false} DigitsFrom(bs: bytes, i: nat, value: nat) returns (m: nat)
    requires i < 4 && value < Shift(1, i) && ShortFrom(bs, i, value).Ok?
    ensures var r := ShortFrom(bs, i, value);
            && r.value == value + Shift(m, i) && 0 < r.used <= |bs|
            && (Uleb(m) == bs[..r.used] <==> MinimalDigits(bs, r.used))
    decreases 4 - i
  {
    hide Shift, Uleb, ShortFrom;
    ShortTurn(bs, i, value, 0);
    var low := bs[0] % 128;
    var total := value + Shift(low, i);
    if bs[0] < 128 {
      m := low;
      OneDigit(bs, low);
    } else if i == 3 {
      ShortEnd(bs[1..], total, 1);
      m := low;
      OneDigit(bs, low);
    } else {
      var q := DigitsFrom(bs[1..], i + 1, total);
      m := low + 128 * q;
      ShiftAdds(q, low, i);
      MoreDigits(bs, ShortFrom(bs[1..], i + 1, total).used, low, q);
    }
  }

  lemma OneDigit(bs: bytes, m: nat)
    requires bs != [] && m == bs[0] % 128
    ensures Uleb(m) == bs[..1] <==> MinimalDigits(bs, 1)
  {
    assert Uleb(m) == [m];
  }

  lemma MoreDigits(bs: bytes, n: nat, low: nat, q: nat)
    requires bs != [] && bs[0] >= 128 && low == bs[0] % 128 && 0 < n < |bs|
    requires Uleb(q) == bs[1..][..n] <==> MinimalDigits(bs[1..], n)
    ensures Uleb(low + 128 * q) == bs[..n + 1] <==> MinimalDigits(bs, n + 1)
  {
    var m := low + 128 * q;
    assert m % 128 == low && m / 128 == q;
    assert bs[..n + 1] == [bs[0]] + bs[1..][..n];
    if q == 0 {
      assert Uleb(m) == [m] && Uleb(q) == [0];
      assert n == 1 ==> bs[1..][..1] == [bs[1]];
    } else {
      assert Uleb(m) == [low + 128] + Uleb(q);
      assert Uleb(m)[1..] == Uleb(q) && bs[..n + 1][1..] == bs[1..][..n];
      if n == 1 && bs[1] == 0 {
        assert bs[1..][..1] == [0];
        UlebUnique(q, [], 0, []);
      }
    }
  }

  /** The length at the head of the input is written with as few digits as possible. */
  predicate MinimalLength(bs: bytes) {
    var r := DecodeShort(bs);
    r.Ok? && 0 < r.used && MinimalDigits(bs, r.used)
  }

  lemma LengthRewritten(bs: bytes)
    requires DecodeShort(bs).Ok?
    ensures var r := DecodeShort(bs); Uleb(r.value) == bs[..r.used] <==> MinimalLength(bs)
  {
    hide ShortFrom, Uleb;
    ShortStart(bs);
    var m := DigitsFrom(bs, 0, 0);
    assert Shift(m, 0) == m;
  }

  // ---- tidy inputs ----

  /** The keys come in the order in which the map lists them, so without repeats. */
  ghost predicate Listed(ord: KeyOrder, es: seq<Entry>) {
    ord(set k | k in Keys(es)) == Keys(es)
  }

  /** Nothing in the part of the input that is read as `t` is written differently. */
  ghost predicate Tidy(ord: KeyOrder, t: Type, bs: bytes)
    requires SerdeType(t)
    decreases t, 1, 0
  {
    match t
    case TBool => bs != [] && bs[0] <= 1
    case TUInt(_) => true
    case TStr => MinimalLength(bs)
    case TOption(e) => bs != [] && bs[0] <= 1 && (bs[0] == 1 ==> Tidy(ord, e, bs[1..]))
    case TPair(a, b) => Tidy(ord, a, bs) && Reads(a, bs).Ok? && Tidy(ord, b, bs[Reads(a, bs).used..])
    case TVec(e) =>
      var len := DecodeShort(bs);
      MinimalLength(bs) && TidyItems(ord, e, len.value, bs[len.used..])
    case TArr(e, count) => TidyItems(ord, e, count, bs)
    case TMap(_, _) =>
      var len := DecodeShort(bs);
      && MinimalLength(bs) && TidyEntries(ord, t, len.value, bs[len.used..])
      && var es := ReadEntries(t, len.value, bs[len.used..]);
         es.Ok? && Listed(ord, es.value)
    case TEnum(cases) => bs != [] && bs[0] == 0 && Tidy(ord, cases[0], bs[1..])
    case TStruct(body) => Tidy(ord, body, bs)
  }

  ghost predicate TidyItems(ord: KeyOrder, t: Type, count: nat, bs: bytes)
    requires SerdeType(t)
    decreases t, 2, count
  {
    count == 0 ||
    (Tidy(ord, t, bs) && Reads(t, bs).Ok? && TidyItems(ord, t, count - 1, bs[Reads(t, bs).used..]))
  }

  ghost predicate TidyEntries(ord: KeyOrder, t: Type, count: nat, bs: bytes)
    requires t.TMap? && SerdeType(t)
    decreases t, 0, count
  {
    count == 0 ||
    (var k := Reads(t.key, bs);
     && Tidy(ord, t.key, bs) && k.Ok?
     && var x := Reads(t.val, bs[k.used..]);
        && Tidy(ord, t.val, bs[k.used..]) && x.Ok?
        && TidyEntries(ord, t, count - 1, bs[k.used + x.used..]))
  }

  // ---- what is read has the type ----

  lemma {:induction false} ReadTyped(t: Type, bs: bytes)
    requires SerdeType(t) && Reads(t, bs).Ok?
    ensures WellTyped(map[], t, Reads(t, bs).value)
    decreases t, 1, 0
  {
    match t
    case TOption(e) => if ReadFlag(bs).value { ReadTyped(e, bs[1..]); }
    case TPair(a, b) =>
      ReadTyped(a, bs);
      ReadTyped(b, bs[Reads(a, bs).used..]);
    case TVec(e) =>
      var len := DecodeShort(bs);
      ReadItemsTyped(e, len.value, bs[len.used..]);
    case TArr(e, count) => ReadItemsTyped(e, count, bs);
    case TMap(_, _) =>
      var len := DecodeShort(bs);
      ReadEntriesTyped(t, len.value, bs[len.used..]);
      InsertedTyped(t, ReadEntries(t, len.value, bs[len.used..]).value);
    case TEnum(cases) => ReadTyped(cases[0], bs[DecodeShort(bs).used..]);
    case TStruct(body) => ReadTyped(body, bs);
    case _ =>
  }

  lemma {:induction false} ReadItemsTyped(t: Type, count: nat, bs: bytes)
    requires SerdeType(t) && ReadItems(t, count, bs).Ok?
    ensures var xs := ReadItems(t, count, bs).value;
            |xs| == count && forall i :: 0 <= i < |xs| ==> WellTyped(map[], t, xs[i])
    decreases t, 2, count
  {
    hide Reads, WellTyped;
    if count > 0 {
      ReadTyped(t, bs);
      ReadItemsTyped(t, count - 1, bs[Reads(t, bs).used..]);
    }
  }

  ghost predicate EntriesTyped(t: Type, es: seq<Entry>)
    requires t.TMap?
  {
    forall i :: 0 <= i < |es| ==> WellTyped(map[], t.key, es[i].0) && WellTyped(map[], t.val, es[i].1)
  }

  lemma {:induction false} ReadEntriesTyped(t: Type, count: nat, bs: bytes)
    requires t.TMap? && SerdeType(t) && ReadEntries(t, count, bs).Ok?
    ensures |ReadEntries(t, count, bs).value| == count && EntriesTyped(t, ReadEntries(t, count, bs).value)
    decreases t, 0, count
  {
    hide Reads, WellTyped;
    if count > 0 {
      ReadTyped(t.key, bs);
      var n := Reads(t.key, bs).used;
      ReadTyped(t.val, bs[n..]);
      ReadEntriesTyped(t, count - 1, bs[n + Reads(t.val, bs[n..]).used..]);
    }
  }

  lemma {:induction false} InsertedTyped(t: Type, es: seq<Entry>)
    requires t.TMap? && EntriesTyped(t, es)
    ensures WellTyped(map[], t, Map(InsertAll(es)))
  {
    if es != [] { InsertedTyped(t, es[..|es| - 1]); }
  }

  // ---- the lengths of what is read and of what is written ----

  /** What is written for a value, when the input begins with it, is as long as what was read. */
  lemma Aligned(ord: KeyOrder, t: Type, bs: bytes)
    requires IsOrder(ord) && SerdeType(t) && Reads(t, bs).Ok? && Write(ord, Reads(t, bs).value) <= bs
    ensures |Write(ord, Reads(t, bs).value)| == Reads(t, bs).used
  {
    hide *;
    var v := Reads(t, bs).value;
    var w := Write(ord, v);
    ReadTyped(t, bs);
    ReadIsShort(t, bs);
    RoundTrip(ord, map[], t, v, bs[|w|..]);
    assert bs == w + bs[|w|..];
  }

  /** Two parts make up the head of the input exactly when each is where it belongs. */
  lemma Parts(bs: bytes, a: bytes, n: nat, b: bytes, m: nat)
    requires n + m <= |bs| && (a <= bs ==> |a| == n)
    ensures a + b == bs[..n + m] <==> a == bs[..n] && b == bs[n..][..m]
  {
    Cut(bs, n, m);
    if a + b == bs[..n + m] {
      assert a == (a + b)[..|a|];
      assert a <= bs;
      assert b == (a + b)[n..];
      assert bs[..n + m][n..] == bs[n..][..m];
    }
  }

  // ---- rewriting ----

  /** What was read is written back unchanged. */
  ghost predicate Same(ord: KeyOrder, r: Parsed<Value>, bs: bytes)
    requires IsOrder(ord) && r.Ok? && r.used <= |bs|
  {
    Write(ord, r.value) == bs[..r.used]
  }

  /**
    * An input that is read is rewritten unchanged if and only if it is tidy: minimal lengths,
    * flags 0 or 1, variant indices 0, and keys in the order of the map, without repeats.
    */
  lemma {:induction false} RewritesExactly(ord: KeyOrder, t: Type, bs: bytes)
    requires IsOrder(ord) && SerdeType(t) && Reads(t, bs).Ok?
    ensures Same(ord, Reads(t, bs), bs) <==> Tidy(ord, t, bs)
    decreases t, 1, 0
  {
    hide *;
    match t
    case TOption(_) => RewritesOption(ord, t, bs);
    case TPair(_, _) => RewritesPair(ord, t, bs);
    case TVec(_) => RewritesVec(ord, t, bs);
    case TArr(_, _) => RewritesArr(ord, t, bs);
    case TMap(_, _) => RewritesMap(ord, t, bs);
    case TEnum(_) => RewritesEnum(ord, t, bs);
    case TStruct(_) => RewritesStruct(ord, t, bs);
    case _ => RewritesScalar(ord, t, bs);
  }

  lemma RewritesScalar(ord: KeyOrder, t: Type, bs: bytes)
    requires !t.TOption? && !t.TPair? && !t.TVec? && !t.TArr? && !t.TMap? && !t.TEnum? && !t.TStruct?
    requires IsOrder(ord) && SerdeType(t) && Reads(t, bs).Ok?
    ensures Same(ord, Reads(t, bs), bs) <==> Tidy(ord, t, bs)
  {
    hide IsOrder, DecodeShort, ToLE, FromLE, Uleb, MinimalLength;
    match t
    case TBool => assert bs[..1] == [bs[0]];
    case TUInt(w) => ToFromLE(bs[..w.Size()]);
    case TStr =>
      var len := DecodeShort(bs);
      var chars := bs[len.used..len.used + len.value];
      LengthRewritten(bs);
      LengthAligned(bs, len.value);
      Parts(bs, Uleb(len.value), len.used, chars, len.value);
      assert chars == bs[len.used..][..len.value];
    case _ =>
  }

  /** The encoding of a number that the input begins with is as long as the number read. */
  lemma LengthAligned(bs: bytes, n: nat)
    requires DecodeShort(bs).Ok? && n < SHORT_LIMIT
    ensures Uleb(n) <= bs ==> DecodeShort(bs) == Ok(n, |Uleb(n)|)
  {
    hide DecodeShort, Uleb;
    if Uleb(n) <= bs {
      ShortExactly(n, bs[|Uleb(n)|..]);
      assert bs == Uleb(n) + bs[|Uleb(n)|..];
    }
  }

  lemma {:induction false} RewritesOption(ord: KeyOrder, t: Type, bs: bytes)
    requires t.TOption? && IsOrder(ord) && SerdeType(t) && Reads(t, bs).Ok?
    ensures Same(ord, Reads(t, bs), bs) <==> Tidy(ord, t, bs)
    decreases t, 0, 0
  {
    hide IsOrder;
    if bs[0] == 0 {
      assert bs[..1] == [0];
    } else {
      var x := Reads(t.elem, bs[1..]);
      RewritesExactly(ord, t.elem, bs[1..]);
      Parts(bs, [1], 1, Write(ord, x.value), x.used);
      assert bs[..1] == [bs[0]];
    }
  }

  lemma {:induction false} RewritesPair(ord: KeyOrder, t: Type, bs: bytes)
    requires t.TPair? && IsOrder(ord) && SerdeType(t) && Reads(t, bs).Ok?
    ensures Same(ord, Reads(t, bs), bs) <==> Tidy(ord, t, bs)
    decreases t, 0, 0
  {
    hide *;
    UnfoldPair(ord, t, bs);
    var x := Reads(t.fst, bs);
    var rest := bs[x.used..];
    var y := Reads(t.snd, rest);
    RewritesPart(ord, t.fst, bs);
    RewritesPart(ord, t.snd, rest);
    Parts(bs, Write(ord, x.value), x.used, Write(ord, y.value), y.used);
  }

  lemma UnfoldPair(ord: KeyOrder, t: Type, bs: bytes)
    requires t.TPair? && IsOrder(ord) && SerdeType(t) && Reads(t, bs).Ok?
    ensures SerdeType(t.fst) && SerdeType(t.snd) && Reads(t.fst, bs).Ok?
    ensures var x := Reads(t.fst, bs);
            var rest := bs[x.used..];
            var y := Reads(t.snd, rest);
            && y.Ok?
            && (Same(ord, Reads(t, bs), bs) <==> Write(ord, x.value) + Write(ord, y.value) == bs[..x.used + y.used])
            && (Tidy(ord, t, bs) <==> Tidy(ord, t.fst, bs) && Tidy(ord, t.snd, rest))
  {
    hide *;
    ReadPair(t, bs);
    var x := Reads(t.fst, bs);
    var y := Reads(t.snd, bs[x.used..]);
    PairSame(ord, x.value, y.value, x.used + y.used, bs);
    TidyPair(ord, t, bs);
  }

  lemma ReadPair(t: Type, bs: bytes)
    requires t.TPair? && SerdeType(t) && Reads(t, bs).Ok?
    ensures SerdeType(t.fst) && SerdeType(t.snd) && Reads(t.fst, bs).Ok?
    ensures var x := Reads(t.fst, bs);
            var y := Reads(t.snd, bs[x.used..]);
            y.Ok? && Reads(t, bs) == Ok(Pair(x.value, y.value), x.used + y.used)
  {
  }

  lemma PairSame(ord: KeyOrder, x: Value, y: Value, n: nat, bs: bytes)
    requires IsOrder(ord) && n <= |bs|
    ensures Same(ord, Ok(Pair(x, y), n), bs) <==> Write(ord, x) + Write(ord, y) == bs[..n]
  {
    hide IsOrder;
  }

  lemma TidyPair(ord: KeyOrder, t: Type, bs: bytes)
    requires t.TPair? && SerdeType(t) && SerdeType(t.fst) && SerdeType(t.snd) && Reads(t.fst, bs).Ok?
    ensures Tidy(ord, t, bs) <==> Tidy(ord, t.fst, bs) && Tidy(ord, t.snd, bs[Reads(t.fst, bs).used..])
  {
    hide Reads, SerdeType;
  }

  /** A part of the input: rewritten exactly when tidy, and then as long as it was. */
  lemma {:induction false} RewritesPart(ord: KeyOrder, t: Type, bs: bytes)
    requires IsOrder(ord) && SerdeType(t) && Reads(t, bs).Ok?
    ensures var x := Reads(t, bs);
            && (Write(ord, x.value) == bs[..x.used] <==> Tidy(ord, t, bs))
            && (Write(ord, x.value) <= bs ==> |Write(ord, x.value)| == x.used)
    decreases t, 1, 1
  {
    hide Reads, Write, Tidy, IsOrder, SerdeType;
    RewritesExactly(ord, t, bs);
    if Write(ord, Reads(t, bs).value) <= bs { Aligned(ord, t, bs); }
  }

  lemma {:induction false} RewritesVec(ord: KeyOrder, t: Type, bs: bytes)
    requires t.TVec? && IsOrder(ord) && SerdeType(t) && Reads(t, bs).Ok?
    ensures Same(ord, Reads(t, bs), bs) <==> Tidy(ord, t, bs)
    decreases t, 0, 0
  {
    hide IsOrder, DecodeShort, Uleb, MinimalLength, ReadItems, WriteItems, TidyItems;
    var len := DecodeShort(bs);
    var rest := bs[len.used..];
    var xs := ReadItems(t.elem, len.value, rest);
    LengthRewritten(bs);
    ReadItemsShort(t.elem, len.value, rest);
    RewritesItems(ord, t.elem, len.value, rest);
    LengthAligned(bs, len.value);
    Parts(bs, Uleb(len.value), len.used, WriteItems(ord, xs.value), xs.used);
  }

  lemma {:induction false} RewritesArr(ord: KeyOrder, t: Type, bs: bytes)
    requires t.TArr? && IsOrder(ord) && SerdeType(t) && Reads(t, bs).Ok?
    ensures Same(ord, Reads(t, bs), bs) <==> Tidy(ord, t, bs)
    decreases t, 0, 0
  {
    hide IsOrder, ReadItems, WriteItems, TidyItems;
    RewritesItems(ord, t.elem, t.count, bs);
  }

  lemma {:induction false} RewritesEnum(ord: KeyOrder, t: Type, bs: bytes)
    requires t.TEnum? && IsOrder(ord) && SerdeType(t) && Reads(t, bs).Ok?
    ensures Same(ord, Reads(t, bs), bs) <==> Tidy(ord, t, bs)
    decreases t, 0, 0
  {
    hide IsOrder, DecodeShort;
    var n := DecodeShort(bs).used;
    var x := Reads(t.cases[0], bs[n..]);
    assert Uleb(0) == [0];
    LengthAligned(bs, 0);
    assert bs != [] by { ShortStart(bs); }
    assert [0] <= bs <==> bs[0] == 0;
    if bs[0] == 0 {
      RewritesExactly(ord, t.cases[0], bs[1..]);
      Parts(bs, [0], 1, Write(ord, x.value), x.used);
      assert bs[..1] == [0];
    } else {
      assert Write(ord, Variant(0, x.value))[0] == 0;
    }
  }

  lemma {:induction false} RewritesStruct(ord: KeyOrder, t: Type, bs: bytes)
    requires t.TStruct? && IsOrder(ord) && SerdeType(t) && Reads(t, bs).Ok?
    ensures Same(ord, Reads(t, bs), bs) <==> Tidy(ord, t, bs)
    decreases t, 0, 0
  {
    hide IsOrder;
    RewritesExactly(ord, t.body, bs);
  }

  lemma {:induction false} RewritesItems(ord: KeyOrder, t: Type, count: nat, bs: bytes)
    requires IsOrder(ord) && SerdeType(t) && ReadItems(t, count, bs).Ok?
    ensures var r := ReadItems(t, count, bs);
            WriteItems(ord, r.value) == bs[..r.used] <==> TidyItems(ord, t, count, bs)
    decreases t, 2, count
  {
    hide IsOrder, Reads, Write, Tidy;
    if count > 0 {
      var x := Reads(t, bs);
      var rest := bs[x.used..];
      var xs := ReadItems(t, count - 1, rest);
      RewritesPart(ord, t, bs);
      RewritesItems(ord, t, count - 1, rest);
      Parts(bs, Write(ord, x.value), x.used, WriteItems(ord, xs.value), xs.used);
      assert ([x.value] + xs.value)[1..] == xs.value;
    }
  }

  // ---- maps ----

  /** Entries written in the order of a list. */
  function WriteList(ord: KeyOrder, es: seq<Entry>): (bs: bytes)
    requires IsOrder(ord)
  {
    if es == [] then [] else Write(ord, es[0].0) + (Write(ord, es[0].1) + WriteList(ord, es[1..]))
  }

  lemma {:induction false} ListIsWritten(ord: KeyOrder, m: map<Value, Value>, es: seq<Entry>)
    requires IsOrder(ord) && forall i :: 0 <= i < |es| ==> es[i].0 in m && m[es[i].0] == es[i].1
    ensures forall k :: k in Keys(es) ==> k in m
    ensures WriteEntries(ord, Map(m), Keys(es)) == WriteList(ord, es)
  {
    hide IsOrder, Write;
    if es != [] {
      assert Keys(es)[1..] == Keys(es[1..]);
      ListIsWritten(ord, m, es[1..]);
    }
  }

  lemma {:induction false} RewritesEntries(ord: KeyOrder, t: Type, count: nat, bs: bytes)
    requires t.TMap? && IsOrder(ord) && SerdeType(t) && ReadEntries(t, count, bs).Ok?
    ensures var r := ReadEntries(t, count, bs);
            WriteList(ord, r.value) == bs[..r.used] <==> TidyEntries(ord, t, count, bs)
    decreases t, 0, count
  {
    hide *;
    if count == 0 {
      NoEntries(ord, t, bs);
    } else {
      UnfoldEntries(ord, t, count, bs);
      var k := Reads(t.key, bs);
      var mid := bs[k.used..];
      var x := Reads(t.val, mid);
      var rest := mid[x.used..];
      Cut(bs, k.used, x.used);
      var es := ReadEntries(t, count - 1, rest);
      RewritesPart(ord, t.key, bs);
      RewritesPart(ord, t.val, mid);
      RewritesEntries(ord, t, count - 1, rest);
      var tail := WriteList(ord, es.value);
      Parts(mid, Write(ord, x.value), x.used, tail, es.used);
      Parts(bs, Write(ord, k.value), k.used, Write(ord, x.value) + tail, x.used + es.used);
    }
  }

  lemma NoEntries(ord: KeyOrder, t: Type, bs: bytes)
    requires t.TMap? && IsOrder(ord) && SerdeType(t)
    ensures ReadEntries(t, 0, bs) == Ok([], 0) && WriteList(ord, []) == [] && TidyEntries(ord, t, 0, bs)
  {
  }

  lemma UnfoldEntries(ord: KeyOrder, t: Type, count: nat, bs: bytes)
    requires t.TMap? && IsOrder(ord) && SerdeType(t) && count > 0 && ReadEntries(t, count, bs).Ok?
    ensures SerdeType(t.key) && SerdeType(t.val) && Reads(t.key, bs).Ok?
    ensures var k := Reads(t.key, bs);
            var x := Reads(t.val, bs[k.used..]);
            && x.Ok?
            && var rest := bs[k.used + x.used..];
               var es := ReadEntries(t, count - 1, rest);
               var r := ReadEntries(t, count, bs);
               && es.Ok? && r.used == k.used + (x.used + es.used)
               && WriteList(ord, r.value) == Write(ord, k.value) + (Write(ord, x.value) + WriteList(ord, es.value))
               && (TidyEntries(ord, t, count, bs) <==>
                     Tidy(ord, t.key, bs) && Tidy(ord, t.val, bs[k.used..]) && TidyEntries(ord, t, count - 1, rest))
  {
    hide IsOrder, Reads, Write, Tidy;
    var k := Reads(t.key, bs);
    var x := Reads(t.val, bs[k.used..]);
    var es := ReadEntries(t, count - 1, bs[k.used + x.used..]);
    assert ([(k.value, x.value)] + es.value)[1..] == es.value;
  }

  /** A list in the order of the map is what the map lists. */
  lemma ListedIsMap(ord: KeyOrder, es: seq<Entry>)
    requires IsOrder(ord)
    ensures var m := InsertAll(es);
            && (Listed(ord, es) <==> ord(m.Keys) == Keys(es))
            && (Listed(ord, es) ==> |m| == |es| && WriteEntriesOf(ord, m) == WriteList(ord, es))
  {
    hide WriteList, Write, InsertAll, WriteEntries;
    var m := InsertAll(es);
    InsertKeys(es);
    assert m.Keys == set k | k in Keys(es);
    if Listed(ord, es) {
      OrderLists(ord, m.Keys);
      assert DistinctKeys(es) by { ListedDistinct(es, m.Keys); }
      InsertDistinct(es);
      ListIsWritten(ord, m, es);
    }
  }

  lemma ListedDistinct(es: seq<Entry>, s: set<Value>)
    requires Enumerates(Keys(es), s)
    ensures DistinctKeys(es)
  {
    forall i, j | 0 <= i < j < |es| ensures es[i].0 != es[j].0 {
      assert Keys(es)[i] != Keys(es)[j];
    }
  }

  /** The entries of a map as BcsSerde writes them. */
  function WriteEntriesOf(ord: KeyOrder, m: map<Value, Value>): (bs: bytes)
    requires IsOrder(ord)
  {
    OrderLists(ord, m.Keys);
    WriteEntries(ord, Map(m), ord(m.Keys))
  }

  /** If the map is rewritten, its entries are read as it lists them. */
  lemma RewrittenIsListed(ord: KeyOrder, t: Type, count: nat, bs: bytes, m: map<Value, Value>)
    requires t.TMap? && IsOrder(ord) && SerdeType(t) && ReadEntries(t, count, bs).Ok?
    requires m == InsertAll(ReadEntries(t, count, bs).value) && |m| == count && Short(Map(m))
    requires WriteEntriesOf(ord, m) <= bs
    ensures Listed(ord, ReadEntries(t, count, bs).value)
    ensures |WriteEntriesOf(ord, m)| == ReadEntries(t, count, bs).used
  {
    hide ReadEntries, InsertAll, WriteEntries, Short, WellTyped, IsOrder, SerdeType;
    var es := ReadEntries(t, count, bs).value;
    var o, w := ord(m.Keys), WriteEntriesOf(ord, m);
    OrderLists(ord, m.Keys);
    EnumerationLength(o, m.Keys);
    ReadEntriesTyped(t, count, bs);
    InsertedTyped(t, es);
    RoundTripEntries(ord, map[], t, Map(m), o, bs[|w|..]);
    assert bs == w + bs[|w|..];
    assert Keys(es) == o;
    ListedIsMap(ord, es);
  }

  lemma {:induction false} RewritesMap(ord: KeyOrder, t: Type, bs: bytes)
    requires t.TMap? && IsOrder(ord) && SerdeType(t) && Reads(t, bs).Ok?
    ensures Same(ord, Reads(t, bs), bs) <==> Tidy(ord, t, bs)
    decreases t, 0, if DecodeShort(bs).Ok? then DecodeShort(bs).value + 1 else 0
  {
    hide *;
    ReadIsShort(t, bs);
    UnfoldMap(ord, t, bs);
    var len := DecodeShort(bs);
    var rest := bs[len.used..];
    var es := ReadEntries(t, len.value, rest);
    var m := InsertAll(es.value);
    var w := WriteEntriesOf(ord, m);
    RewritesEntries(ord, t, len.value, rest);
    ReadEntriesTyped(t, len.value, rest);
    ListedIsMap(ord, es.value);
    LengthRewritten(bs);
    LengthAligned(bs, |m|);
    Parts(bs, Uleb(|m|), len.used, w, es.used);
    if Uleb(|m|) + w == bs[..len.used + es.used] {
      assert w <= rest;
      RewrittenIsListed(ord, t, len.value, rest, m);
    }
  }

  lemma UnfoldMap(ord: KeyOrder, t: Type, bs: bytes)
    requires t.TMap? && IsOrder(ord) && SerdeType(t) && Reads(t, bs).Ok? && Short(Reads(t, bs).value)
    ensures DecodeShort(bs).Ok?
    ensures var len := DecodeShort(bs);
            var es := ReadEntries(t, len.value, bs[len.used..]);
            && es.Ok?
            && var m := InsertAll(es.value);
               && Short(Map(m)) && |m| < SHORT_LIMIT
               && (Same(ord, Reads(t, bs), bs) <==> Uleb(|m|) + WriteEntriesOf(ord, m) == bs[..len.used + es.used])
               && (Tidy(ord, t, bs) <==>
                     MinimalLength(bs) && TidyEntries(ord, t, len.value, bs[len.used..]) && Listed(ord, es.value))
  {
    hide DecodeShort, ReadEntries, InsertAll, WriteEntries, MinimalLength, TidyEntries, Listed, Uleb, IsOrder, Write;
    var len := DecodeShort(bs);
    var es := ReadEntries(t, len.value, bs[len.used..]);
    WriteMapUnfolds(ord, InsertAll(es.value));
  }

  /** What BcsSerde has read is a canonical encoding exactly when it is tidy for the order of the encoded keys. */
  lemma CanonicalExactly(t: Type, bs: bytes)
    requires SerdeType(t) && Reads(t, bs).Ok?
    ensures Enc(Reads(t, bs).value) == bs[..Reads(t, bs).used] <==> Tidy(CanonicalOrder(), t, bs)
  {
    hide Enc, Write, Reads, Tidy, SerdeType, CanonicalOrder, IsOrder;
    CanonicalOrderIsOrder();
    RewritesExactly(CanonicalOrder(), t, bs);
    CanonicalIsWritten(Reads(t, bs).value);
  }

  /** The reader takes 2 for true, and true is written as 1. */
  lemma LooseFlagRead(ord: KeyOrder)
    requires IsOrder(ord)
    ensures Reads(TBool, [2]) == Ok(Bool(true), 1) && Write(ord, Bool(true)) == [1]
  {
    RewritesExactly(ord, TBool, [2]);
  }
}

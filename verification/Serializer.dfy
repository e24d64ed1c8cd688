/** The stateful canonical serializer: a growing buffer and a container depth budget. */
module Serializer {
  import opened Bytes
  import opened Order
  import opened Leb128
  import opened Values
  import opened Serializing

  const MAX_CONTAINER_DEPTH: nat := 500      // BCS_MAX_CONTAINER_DEPTH

  // ---- little-endian digits as the integer methods push them ----

  lemma LE16(n: nat)
    requires n < 0x1_0000
    ensures ToLE(2, n) == [n % 256, n / 0x100 % 256]
  {
    assert ToLE(1, n / 256) == [n / 256 % 256];
  }

  lemma LE32(n: nat)
    ensures ToLE(4, n) == [n % 256, n / 0x100 % 256, n / 0x1_0000 % 256, n / 0x100_0000 % 256]
  {
    var a := n / 256;
    var b := a / 256;
    var c := b / 256;
    assert b == n / 0x1_0000 && c == n / 0x100_0000;
    hide Pow256;
    assert ToLE(1, c) == [c % 256];
    assert ToLE(2, b) == [b % 256, c % 256];
    assert ToLE(3, a) == [a % 256, b % 256, c % 256];
  }

  lemma LE64(n: nat)
    ensures ToLE(8, n) == [n % 256, n / 0x100 % 256, n / 0x1_0000 % 256, n / 0x100_0000 % 256,
                           n / 0x1_0000_0000 % 256, n / 0x100_0000_0000 % 256,
                           n / 0x1_0000_0000_0000 % 256, n / 0x100_0000_0000_0000 % 256]
  {
    var h := n / 0x1_0000_0000;
    LE32(n);
    LE32(h);
    LESplit4(4, n);
    assert h / 0x100 == n / 0x100_0000_0000;
    assert h / 0x1_0000 == n / 0x1_0000_0000_0000;
    assert h / 0x100_0000 == n / 0x100_0000_0000_0000;
  }

  /** The four low bytes, then the rest. */
  lemma LESplit4(w: nat, n: nat)
    ensures ToLE(w + 4, n) == ToLE(4, n) + ToLE(w, n / 0x1_0000_0000)
  {
    var a := n / 256;
    var b := a / 256;
    var c := b / 256;
    var d := c / 256;
    assert d == n / 0x1_0000_0000;
    assert ToLE(w + 1, c) == [c % 256] + ToLE(w, d);
    assert ToLE(w + 2, b) == [b % 256] + ToLE(w + 1, c);
    assert ToLE(w + 3, a) == [a % 256] + ToLE(w + 2, b);
    assert ToLE(w + 4, n) == [n % 256] + ToLE(w + 3, a);
    assert ToLE(1, c) == [c % 256] + ToLE(0, d);
    assert ToLE(2, b) == [b % 256] + ToLE(1, c);
    assert ToLE(3, a) == [a % 256] + ToLE(2, b);
    assert ToLE(4, n) == [n % 256] + ToLE(3, a);
  }

  const TWO_64: nat := 0x1_0000_0000_0000_0000

  lemma Pow64()
    ensures Pow256(8) == TWO_64
  {
    assert Pow256(4) == 0x1_0000_0000;
    assert Pow256(6) == 0x1_0000_0000_0000;
  }

  /** The two halves of a 128-bit number, low half first, are its sixteen bytes. */
  lemma LE128(low: nat, high: nat)
    requires low < TWO_64 && high < TWO_64
    ensures ToLE(16, low + TWO_64 * high) == ToLE(8, low) + ToLE(8, high)
  {
    hide ToLE, FromLE, Pow256;
    var a, b := ToLE(8, low), ToLE(8, high);
    Pow64();
    FromToLE(8, low);
    FromToLE(8, high);
    FromLEConcat(a, b);
    ToFromLE(a + b);
  }

  // ---- sorting the tail of a buffer ----

  /** Offsets into a buffer, in order. */
  ghost predicate ValidOffsets(buf: bytes, offsets: seq<nat>) {
    && (forall i, j :: 0 <= i < j < |offsets| ==> offsets[i] <= offsets[j])
    && (forall i :: 0 <= i < |offsets| ==> offsets[i] <= |buf|)
  }

  /** The slices that start at the offsets; the last one reaches the end. */
  function Slices(buf: bytes, offsets: seq<nat>): (r: seq<bytes>)
    requires ValidOffsets(buf, offsets)
    ensures |r| == |offsets|
  {
    seq(|offsets|, i requires 0 <= i < |offsets| =>
      buf[offsets[i]..if i + 1 < |offsets| then offsets[i + 1] else |buf|])
  }

  function SortTail(buf: bytes, offsets: seq<nat>): (r: bytes)
    requires ValidOffsets(buf, offsets)
  {
    if |offsets| <= 1 then buf else buf[..offsets[0]] + Join(SortSlices(Slices(buf, offsets)))
  }

  lemma {:induction false} JoinSlices(buf: bytes, offsets: seq<nat>)
    requires ValidOffsets(buf, offsets) && offsets != []
    ensures Join(Slices(buf, offsets)) == buf[offsets[0]..]
  {
    var s := Slices(buf, offsets);
    if |offsets| > 1 {
      assert s[1..] == Slices(buf, offsets[1..]);
      JoinSlices(buf, offsets[1..]);
    } else {
      assert s[1..] == [];
    }
  }

  /** Taking out one part. */
  lemma JoinWithout(b: seq<bytes>, j: nat)
    requires j < |b|
    ensures multiset(b) == multiset(b[..j] + b[j + 1..]) + multiset{b[j]}
    ensures |Join(b)| == |Join(b[..j] + b[j + 1..])| + |b[j]|
  {
    var head, tail := b[..j], b[j + 1..];
    assert b == head + ([b[j]] + tail);
    assert Join([b[j]] + tail) == b[j] + Join(tail) by { assert ([b[j]] + tail)[1..] == tail; }
    hide Join;
    JoinAppend(head, tail);
    JoinAppend(head, [b[j]] + tail);
  }

  lemma Cancel(p: multiset<bytes>, q: multiset<bytes>, x: bytes)
    requires p + multiset{x} == q + multiset{x}
    ensures p == q
  {
    assert p == (p + multiset{x}) - multiset{x};
    assert q == (q + multiset{x}) - multiset{x};
  }

  lemma {:induction false} JoinPermuted(a: seq<bytes>, b: seq<bytes>)
    requires multiset(a) == multiset(b)
    ensures |Join(a)| == |Join(b)|
  {
    hide Join;
    assert |a| == |multiset(a)| == |b|;
    if a == [] {
      assert b == [];
    } else {
      assert a[0] in multiset(b);
      var j :| 0 <= j < |b| && b[j] == a[0];
      JoinWithout(b, j);
      JoinWithout(a, 0);
      assert a[..0] + a[1..] == a[1..];
      Cancel(multiset(a[1..]), multiset(b[..j] + b[j + 1..]), a[0]);
      JoinPermuted(a[1..], b[..j] + b[j + 1..]);
    }
  }

  /**
    * Sorting keeps the length of the buffer and every byte before the first offset, and
    * leaves behind it the same slices in lexicographic order.
    */
  lemma SortTailKeeps(buf: bytes, offsets: seq<nat>)
    requires ValidOffsets(buf, offsets) && offsets != []
    ensures |SortTail(buf, offsets)| == |buf|
    ensures SortTail(buf, offsets)[..offsets[0]] == buf[..offsets[0]]
    ensures exists sorted :: multiset(sorted) == multiset(Slices(buf, offsets)) && Sorted(sorted)
                          && SortTail(buf, offsets)[offsets[0]..] == Join(sorted)
  {
    var slices := Slices(buf, offsets);
    var sorted := SortSlices(slices);
    JoinSlices(buf, offsets);
    JoinPermuted(slices, sorted);
    if |offsets| == 1 {
      assert Sorted(slices);
      SortedUnique(slices, sorted);
    }
    assert buf == buf[..offsets[0]] + buf[offsets[0]..];
  }

  /** Offsets recorded before the sorted tail, as an enclosing map holds them, keep their meaning. */
  lemma OuterOffsetsSurvive(buf: bytes, outer: seq<nat>, inner: seq<nat>)
    requires ValidOffsets(buf, outer) && ValidOffsets(buf, inner) && inner != []
    requires forall i :: 0 <= i < |outer| ==> outer[i] <= inner[0]
    ensures ValidOffsets(SortTail(buf, inner), outer)
    ensures forall i :: 0 <= i < |outer| - 1 ==>
              Slices(SortTail(buf, inner), outer)[i] == Slices(buf, outer)[i]
  {
    hide SortTail;
    var after := SortTail(buf, inner);
    SortTailKeeps(buf, inner);
    forall i | 0 <= i < |outer| - 1 ensures Slices(after, outer)[i] == Slices(buf, outer)[i] {
      SamePart(after, buf, inner[0], outer[i], outer[i + 1]);
    }
  }

  lemma SamePart(a: bytes, b: bytes, n: nat, i: nat, j: nat)
    requires i <= j <= n <= |a| && n <= |b| && a[..n] == b[..n]
    ensures a[i..j] == b[i..j]
  {
    assert a[i..j] == a[..n][i..j];
    assert b[i..j] == b[..n][i..j];
  }

  // ---- lemmas for the loops ----

  lemma FollowAssociates(a: bytes, b: bytes, c: Outcome<bytes>)
    ensures Follow(Done(a), Follow(Done(b), c)) == Follow(Done(a + b), c)
  {
    if c.Done? { assert a + (b + c.value) == (a + b) + c.value; }
  }

  lemma FollowNothing(c: Outcome<bytes>)
    ensures Follow(Done([]), c) == c
  {
    if c.Done? { assert [] + c.value == c.value; }
  }

  /** The call after a successful one continues its specification. */
  lemma WroteFollow(r: Outcome<()>, a: bytes, b: Outcome<bytes>, before: bytes, mid: bytes, after: bytes)
    requires mid == before + a && Wrote(r, b, mid, after)
    ensures Wrote(r, Follow(Done(a), b), before, after)
  {
    if b.Done? { assert (before + a) + b.value == before + (a + b.value); }
  }

  /** The items from `i` on, after what the items before them wrote. */
  lemma SerItemsStep(ord: KeyOrder, items: seq<Value>, i: nat, b: nat, written: bytes)
    requires IsOrder(ord) && i < |items|
    ensures Follow(Done(written), SerItems(ord, items[i..], b))
            == match Ser(ord, items[i], b)
               case Thrown(e) => Thrown(e)
               case Done(bs) => Follow(Done(written + bs), SerItems(ord, items[i + 1..], b))
  {
    hide Ser;
    assert items[i..][1..] == items[i + 1..];
    var r := Ser(ord, items[i], b);
    if r.Done? { FollowAssociates(written, r.value, SerItems(ord, items[i + 1..], b)); }
  }

  /** The slices from key `i` on, after the slices of the keys before it. */
  function After(slices: seq<bytes>, rest: Outcome<seq<bytes>>): (r: Outcome<seq<bytes>>) {
    match rest
    case Thrown(e) => Thrown(e)
    case Done(more) => Done(slices + more)
  }

  lemma AfterNone(slices: seq<bytes>, rest: Outcome<seq<bytes>>)
    requires slices == []
    ensures After(slices, rest) == rest
  {
    if rest.Done? { assert slices + rest.value == rest.value; }
  }

  lemma SerEntriesStep(ord: KeyOrder, v: Value, o: seq<Value>, i: nat, b: nat, slices: seq<bytes>)
    requires IsOrder(ord) && v.Map? && i < |o| && forall k :: k in o ==> k in v.entries
    ensures o[i] in v.entries
    ensures After(slices, SerEntries(ord, v, o[i..], b))
            == match Follow(Ser(ord, o[i], b), Ser(ord, v.entries[o[i]], b))
               case Thrown(e) => Thrown(e)
               case Done(slice) => After(slices + [slice], SerEntries(ord, v, o[i + 1..], b))
  {
    hide Ser;
    assert o[i] in o;
    assert o[i..][1..] == o[i + 1..];
    var r := SerEntries(ord, v, o[i + 1..], b);
    var first := Follow(Ser(ord, o[i], b), Ser(ord, v.entries[o[i]], b));
    if r.Done? && first.Done? {
      assert slices + ([first.value] + r.value) == (slices + [first.value]) + r.value;
    }
  }

  /** `offsets` are where the slices begin, behind `start`, in `start + Join(slices)`. */
  ghost predicate Marks(start: bytes, slices: seq<bytes>, offsets: seq<nat>) {
    |offsets| == |slices| && forall i :: 0 <= i < |offsets| ==> offsets[i] == |start| + |Join(slices[..i])|
  }

  lemma MarksNone(start: bytes)
    ensures Marks(start, [], [])
  {
  }

  lemma AfterAll(ord: KeyOrder, v: Value, o: seq<Value>, b: nat, slices: seq<bytes>)
    requires IsOrder(ord) && v.Map? && forall k :: k in o ==> k in v.entries
    ensures After(slices, SerEntries(ord, v, o[|o|..], b)) == Done(slices)
  {
    assert slices + [] == slices;
  }

  lemma MarksCons(start: bytes, slices: seq<bytes>, offsets: seq<nat>, slice: bytes)
    requires Marks(start, slices, offsets)
    ensures Marks(start, slices + [slice], offsets + [|start + Join(slices)|])
    ensures start + Join(slices + [slice]) == start + Join(slices) + slice
  {
    hide Join;
    JoinAppend(slices, [slice]);
    JoinOne(slice);
    assert start + (Join(slices) + slice) == (start + Join(slices)) + slice;
    forall i | 0 <= i < |slices| ensures (slices + [slice])[..i] == slices[..i] { }
    assert (slices + [slice])[..|slices|] == slices;
  }

  lemma JoinOne(x: bytes)
    ensures Join([x]) == x
  {
    assert Join([x][1..]) == [];
  }

  lemma JoinNone(parts: seq<bytes>)
    requires parts == []
    ensures Join(parts) == []
  {
  }

  lemma JoinPrefix(slices: seq<bytes>, i: nat)
    requires i < |slices|
    ensures Join(slices[..i + 1]) == Join(slices[..i]) + slices[i]
    ensures Join(slices) == Join(slices[..i]) + (slices[i] + Join(slices[i + 1..]))
  {
    hide Join;
    SplitAt(slices, i);
    JoinThree(slices[..i], slices[i], slices[i + 1..]);
  }

  lemma SplitAt<T>(s: seq<T>, i: nat)
    requires i < |s|
    ensures s[..i + 1] == s[..i] + [s[i]]
    ensures s == s[..i] + ([s[i]] + s[i + 1..])
  {
  }

  lemma JoinThree(head: seq<bytes>, x: bytes, tail: seq<bytes>)
    ensures Join(head + [x]) == Join(head) + x
    ensures Join(head + ([x] + tail)) == Join(head) + (x + Join(tail))
  {
    hide Join;
    JoinOne(x);
    JoinAppend(head, [x]);
    JoinAppend([x], tail);
    JoinAppend(head, [x] + tail);
  }

  /** Cutting a buffer at its marks gives the slices back. */
  lemma MarkedSlices(start: bytes, slices: seq<bytes>, offsets: seq<nat>)
    requires Marks(start, slices, offsets)
    ensures ValidOffsets(start + Join(slices), offsets)
    ensures Slices(start + Join(slices), offsets) == slices
    ensures offsets != [] ==> offsets[0] == |start|
  {
    var buf := start + Join(slices);
    forall i, j | 0 <= i <= j < |offsets| ensures offsets[i] <= offsets[j] <= |buf| {
      MarksOrdered(start, slices, offsets, i, j);
      JoinPrefix(slices, j);
    }
    forall i | 0 <= i < |offsets| ensures Slices(buf, offsets)[i] == slices[i] {
      JoinPrefix(slices, i);
      var before, after := Join(slices[..i]), Join(slices[i + 1..]);
      if i + 1 == |offsets| {
        assert slices[i + 1..] == [] && after == [];
      } else {
        assert offsets[i + 1] == |start| + |Join(slices[..i + 1])|;
      }
      MiddleOf(start, before, slices[i], after);
    }
    if offsets != [] { assert slices[..0] == []; }
  }

  lemma MiddleOf(a: bytes, b: bytes, c: bytes, d: bytes)
    ensures (a + (b + (c + d)))[|a| + |b|..|a| + |b| + |c|] == c
  {
  }

  lemma {:induction false} MarksOrdered(start: bytes, slices: seq<bytes>, offsets: seq<nat>, i: nat, j: nat)
    requires Marks(start, slices, offsets) && i <= j < |offsets|
    ensures offsets[i] <= offsets[j]
    decreases j - i
  {
    if i < j {
      MarksOrdered(start, slices, offsets, i, j - 1);
      JoinPrefix(slices, j - 1);
    }
  }

  /** Sorting at the marks is sorting the slices. */
  lemma SortMarked(start: bytes, slices: seq<bytes>, offsets: seq<nat>)
    requires Marks(start, slices, offsets)
    ensures ValidOffsets(start + Join(slices), offsets)
    ensures SortTail(start + Join(slices), offsets) == start + Join(SortSlices(slices))
  {
    hide Join, Marks, Slices, ValidOffsets;
    assert |offsets| == |slices| by { MarkedSlices(start, slices, offsets); }
    MarkedSlices(start, slices, offsets);
    if |slices| <= 1 {
      assert Sorted(slices);
      SortedUnique(slices, SortSlices(slices));
    } else {
      assert (start + Join(slices))[..|start|] == start;
    }
  }

  // ---- the serializer ----

  /** A call that appends to the buffer did what `spec` says. */
  ghost predicate Wrote(r: Outcome<()>, spec: Outcome<bytes>, before: bytes, after: bytes) {
    match spec
    case Thrown(e) => r == Thrown(e)
    case Done(bs) => r == Done(()) && after == before + bs
  }

  class BcsSerializer {
    var buffer: bytes       // bytes_
    var budget: nat         // container_depth_budget_

    constructor ()
      ensures buffer == [] && budget == 500
    {
      buffer, budget := [], MAX_CONTAINER_DEPTH;
    }

    method SerializeU8(n: nat)
      requires n < 0x100
      modifies this`buffer
      ensures buffer == old(buffer) + ToLE(1, n)
    {
      buffer := buffer + [n];
    }

    method SerializeU16(n: nat)
      requires n < 0x1_0000
      modifies this`buffer
      ensures buffer == old(buffer) + ToLE(2, n)
    {
      LE16(n);
      buffer := buffer + [n % 256];
      buffer := buffer + [n / 0x100 % 256];
    }

    method SerializeU32(n: nat)
      requires n < 0x1_0000_0000
      modifies this`buffer
      ensures buffer == old(buffer) + ToLE(4, n)
    {
      LE32(n);
      buffer := buffer + [n % 256];
      buffer := buffer + [n / 0x100 % 256];
      buffer := buffer + [n / 0x1_0000 % 256];
      buffer := buffer + [n / 0x100_0000 % 256];
    }

    method SerializeU64(n: nat)
      requires n < TWO_64
      modifies this`buffer
      ensures buffer == old(buffer) + ToLE(8, n)
    {
      LE64(n);
      buffer := buffer + [n % 256];
      buffer := buffer + [n / 0x100 % 256];
      buffer := buffer + [n / 0x1_0000 % 256];
      buffer := buffer + [n / 0x100_0000 % 256];
      buffer := buffer + [n / 0x1_0000_0000 % 256];
      buffer := buffer + [n / 0x100_0000_0000 % 256];
      buffer := buffer + [n / 0x1_0000_0000_0000 % 256];
      buffer := buffer + [n / 0x100_0000_0000_0000 % 256];
    }

    method SerializeU128(high: nat, low: nat)
      requires high < TWO_64 && low < TWO_64
      modifies this`buffer
      ensures buffer == old(buffer) + ToLE(16, low + TWO_64 * high)
    {
      LE128(low, high);
      SerializeU64(low);
      SerializeU64(high);
    }

    method SerializeBool(b: bool)
      modifies this`buffer
      ensures buffer == old(buffer) + [if b then 1 else 0]
    {
      buffer := buffer + [if b then 1 else 0];
    }

    method SerializeU32AsUleb128(n: nat)
      modifies this`buffer
      ensures buffer == old(buffer) + Uleb(n)
    {
      var value := n;
      while value >= 0x80
        invariant buffer + Uleb(value) == old(buffer) + Uleb(n)
        decreases value
      {
        assert Uleb(value) == [value % 128 + 128] + Uleb(value / 128);
        buffer := buffer + [value % 128 + 128];
        value := value / 128;
      }
      buffer := buffer + [value];
    }

    method SerializeLen(n: nat) returns (r: Outcome<()>)
      modifies this`buffer
      ensures n <= 0x7FFF_FFFF ==> r == Done(()) && buffer == old(buffer) + Uleb(n)
      ensures n > 0x7FFF_FFFF ==> r == Thrown(LengthTooLarge) && buffer == old(buffer)
    {
      if n > MAX_LENGTH { return Thrown(LengthTooLarge); }
      SerializeU32AsUleb128(n);
      return Done(());
    }

    method SerializeStr(chars: bytes) returns (r: Outcome<()>)
      modifies this`buffer
      ensures Wrote(r, Follow(SerLen(|chars|), Done(chars)), old(buffer), buffer)
    {
      r := SerializeLen(|chars|);
      if r.Thrown? { return; }
      ghost var start := buffer;
      for i := 0 to |chars|
        invariant buffer == start + chars[..i]
      {
        buffer := buffer + [chars[i]];
      }
      assert chars[..|chars|] == chars;
    }

    method IncreaseContainerDepth() returns (r: Outcome<()>)
      modifies this`budget
      ensures old(budget) == 0 ==> r == Thrown(TooManyContainers) && budget == old(budget)
      ensures old(budget) > 0 ==> r == Done(()) && budget == old(budget) - 1
    {
      if budget == 0 { return Thrown(TooManyContainers); }
      budget := budget - 1;
      return Done(());
    }

    method DecreaseContainerDepth()
      modifies this`budget
      ensures budget == old(budget) + 1
    {
      budget := budget + 1;
    }

    method SortLastEntries(offsets: seq<nat>)
      requires ValidOffsets(buffer, offsets)
      modifies this`buffer
      ensures buffer == SortTail(old(buffer), offsets)
    {
      hide SortSlices, Join;
      if |offsets| <= 1 { return; }
      var ends := offsets + [|buffer|];
      var slices: seq<bytes> := [];
      for i := 1 to |ends|
        invariant slices == Slices(buffer, offsets)[..i - 1]
      {
        slices := slices + [buffer[ends[i - 1]..ends[i]]];
      }
      assert slices == Slices(buffer, offsets);
      buffer := buffer[..offsets[0]];
      AppendAll(SortSlices(slices));
    }

    /** The loop that writes sorted slices back. */
    method AppendAll(slices: seq<bytes>)
      modifies this`buffer
      ensures buffer == old(buffer) + Join(slices)
    {
      hide Join;
      JoinNone(slices[..0]);
      for i := 0 to |slices|
        invariant buffer == old(buffer) + Join(slices[..i])
      {
        JoinPrefix(slices, i);
        buffer := buffer + slices[i];
      }
      assert slices[..|slices|] == slices;
    }

    /** Serializable<T>::serialize, over every T derived from the supported types. */
    method Serialize(ord: KeyOrder, v: Value, ghost g: Grammar, ghost t: Type) returns (r: Outcome<()>)
      requires IsOrder(ord) && WellTyped(g, t, v)
      modifies this
      ensures Wrote(r, Ser(ord, v, old(budget)), old(buffer), buffer)
      ensures r.Done? ==> budget == old(budget)
      decreases v, 1, 0
    {
      ghost var before, b := buffer, budget;
      match v
      case Unit => r := Done(());
      case Bool(b) =>
        SerializeBool(b);
        r := Done(());
      case UInt(w, n) =>
        SerializeUInt(w, n);
        r := Done(());
      case Str(chars) => r := SerializeStr(chars);
      case None =>
        SerializeBool(false);
        r := Done(());
      case Some(x) =>
        SerializeBool(true);
        ghost var mid := buffer;
        r := Serialize(ord, x, g, t.elem);
        WroteFollow(r, [1], Ser(ord, x, b), before, mid, buffer);
      case Pair(x, y) =>
        r := Serialize(ord, x, g, t.fst);
        if r.Done? {
          ghost var mid := buffer;
          r := Serialize(ord, y, g, t.snd);
          WroteFollow(r, Ser(ord, x, b).value, Ser(ord, y, b), before, mid, buffer);
        }
      case Vec(items) =>
        r := SerializeLen(|items|);
        if r.Done? {
          ghost var mid := buffer;
          r := SerializeItems(ord, items, g, t.elem);
          WroteFollow(r, Uleb(|items|), SerItems(ord, items, b), before, mid, buffer);
        }
      case Arr(items) => r := SerializeItems(ord, items, g, t.elem);
      case Map(m) =>
        r := SerializeMap(ord, v, g, t);
      case Variant(i, x) =>
        SerializeU32AsUleb128(i);
        ghost var mid := buffer;
        r := Serialize(ord, x, g, t.cases[i]);
        WroteFollow(r, Uleb(i), Ser(ord, x, b), before, mid, buffer);
      case Struct(x) =>
        r := IncreaseContainerDepth();
        if r.Done? {
          r := Serialize(ord, x, g, if t.TStruct? then t.body else BodyOf(g, t.name));
          if r.Done? { DecreaseContainerDepth(); }
        }
    }

    method SerializeUInt(w: Width, n: nat)
      requires n < Pow256(w.Size())
      modifies this`buffer
      ensures buffer == old(buffer) + ToLE(w.Size(), n)
    {
      hide ToLE, Pow256;
      Widths();
      match w
      case W8 => SerializeU8(n);
      case W16 => SerializeU16(n);
      case W32 => SerializeU32(n);
      case W64 => SerializeU64(n);
      case W128 =>
        HalvesOf(n);
        SerializeU128(n / TWO_64, n % TWO_64);
    }

    /** The loop over a vector or an array. */
    method SerializeItems(ord: KeyOrder, items: seq<Value>, ghost g: Grammar, ghost t: Type)
      returns (r: Outcome<()>)
      requires IsOrder(ord) && forall i :: 0 <= i < |items| ==> WellTyped(g, t, items[i])
      modifies this
      ensures Wrote(r, SerItems(ord, items, old(budget)), old(buffer), buffer)
      ensures r.Done? ==> budget == old(budget)
      decreases items, 1, 0
    {
      hide Ser, WellTyped;
      ghost var written: bytes := [];
      assert items[0..] == items && buffer == buffer + written;
      FollowNothing(SerItems(ord, items, budget));
      for i := 0 to |items|
        invariant budget == old(budget) && buffer == old(buffer) + written
        invariant SerItems(ord, items, budget) == Follow(Done(written), SerItems(ord, items[i..], budget))
      {
        SerItemsStep(ord, items, i, budget, written);
        r := Serialize(ord, items[i], g, t);
        if r.Thrown? { return; }
        written := written + Ser(ord, items[i], budget).value;
      }
      r := Done(());
    }

    method SerializeMap(ord: KeyOrder, v: Value, ghost g: Grammar, ghost t: Type) returns (r: Outcome<()>)
      requires IsOrder(ord) && v.Map? && t.TMap? && WellTyped(g, t, v)
      modifies this
      ensures Wrote(r, Ser(ord, v, old(budget)), old(buffer), buffer)
      ensures r.Done? ==> budget == old(budget)
      decreases v, 0, 1
    {
      hide WellTyped, SerEntries, SortSlices, Join, Uleb;
      ghost var before, b := buffer, budget;
      r := SerializeLen(|v.entries|);
      if r.Thrown? { return; }
      ghost var mid := buffer;
      r := SerializeEntries(ord, v, g, t);
      if r.Done? {
        WroteFollow(r, Uleb(|v.entries|), Done(Join(SortSlices(SerEntries(ord, v, ord(v.entries.Keys), b).value))),
                    before, mid, buffer);
      }
    }

    /** The loop over a map, which records where every entry begins, and the sort after it. */
    method SerializeEntries(ord: KeyOrder, v: Value, ghost g: Grammar, ghost t: Type)
      returns (r: Outcome<()>)
      requires IsOrder(ord) && v.Map? && t.TMap? && WellTyped(g, t, v)
      modifies this
      ensures forall k :: k in ord(v.entries.Keys) ==> k in v.entries
      ensures match SerEntries(ord, v, ord(v.entries.Keys), old(budget))
              case Thrown(e) => r == Thrown(e)
              case Done(slices) => r == Done(()) && buffer == old(buffer) + Join(SortSlices(slices))
      ensures r.Done? ==> budget == old(budget)
      decreases v, 0, 0
    {
      hide Ser, SerEntries, After, WellTyped, Fits, SortSlices, SortTail, Join, Marks;
      var o := ord(v.entries.Keys);
      assert Enumerates(o, v.entries.Keys);
      var offsets: seq<nat> := [];
      ghost var slices: seq<bytes> := [];
      assert o[0..] == o;
      JoinNone(slices);
      assert buffer == buffer + Join(slices);
      AfterNone(slices, SerEntries(ord, v, o, budget));
      MarksNone(buffer);
      for i := 0 to |o|
        invariant budget == old(budget) && buffer == old(buffer) + Join(slices)
        invariant |offsets| == i && Marks(old(buffer), slices, offsets)
        invariant SerEntries(ord, v, o, budget) == After(slices, SerEntries(ord, v, o[i..], budget))
      {
        SerEntriesStep(ord, v, o, i, budget, slices);
        MapTyped(g, t, v, o[i]);
        ghost var before := buffer;
        offsets := offsets + [|buffer|];
        r := Serialize(ord, o[i], g, t.key);
        if r.Thrown? { return; }
        r := Serialize(ord, v.entries[o[i]], g, t.val);
        if r.Thrown? { return; }
        ghost var slice := Ser(ord, o[i], budget).value + Ser(ord, v.entries[o[i]], budget).value;
        assert buffer == before + slice;
        assert offsets == offsets[..i] + [|before|];
        MarksCons(old(buffer), slices, offsets[..i], slice);
        slices := slices + [slice];
      }
      AfterAll(ord, v, o, budget, slices);
      SortMarked(old(buffer), slices, offsets);
      SortLastEntries(offsets);
      r := Done(());
    }
  }

  lemma HalvesOf(n: nat)
    requires n < TWO_64 * TWO_64
    ensures n == n % TWO_64 + TWO_64 * (n / TWO_64) && n / TWO_64 < TWO_64
  {
  }

  lemma Widths()
    ensures Pow256(1) == 0x100 && Pow256(2) == 0x1_0000 && Pow256(4) == 0x1_0000_0000
    ensures Pow256(8) == TWO_64 && Pow256(16) == TWO_64 * TWO_64
  {
    Pow64();
    assert Pow256(2) == 0x1_0000;
    assert Pow256(4) == 0x1_0000_0000;
    assert Pow256(10) == 0x1_0000 * TWO_64;
    assert Pow256(12) == 0x1_0000_0000 * TWO_64;
    assert Pow256(14) == 0x1_0000_0000_0000 * TWO_64;
  }
}

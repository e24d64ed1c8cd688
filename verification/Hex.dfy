/** Hexadecimal text: bytes_to_hex, hex_to_bytes and hex_to_array_u8. */
module Hex {
  import opened Bytes

  // ---- digits ----

  const DIGITS: string := "0123456789abcdef"

  function HexValue(c: char): (d: Option<nat>)
    ensures d.Just? ==> d.get < 16
  {
    if '0' <= c <= '9' then Just(c as int - '0' as int)
    else if 'a' <= c <= 'f' then Just(c as int - 'a' as int + 10)
    else if 'A' <= c <= 'F' then Just(c as int - 'A' as int + 10)
    else Nothing
  }

  function HexDigit(d: nat): (c: char)
    requires d < 16
    ensures HexValue(c) == Just(d) && c != 'x'
  {
    DIGITS[d]
  }

  /**
    * How a string stream extracts a number from two characters. Only pairs of hexadecimal
    * digits are pinned down; what other pairs give is up to the stream.
    */
  type Stream = (char, char) -> byte

  ghost predicate ReadsHex(stream: Stream) {
    forall c, d :: HexValue(c).Just? && HexValue(d).Just? ==>
                     stream(c, d) == 16 * HexValue(c).get + HexValue(d).get
  }

  // ---- to text ----

  function ToHex(bs: bytes): (s: string)
    ensures |s| == 2 * |bs|
  {
    if bs == [] then "" else [HexDigit(bs[0] / 16), HexDigit(bs[0] % 16)] + ToHex(bs[1..])
  }

  /** Every byte is two lower-case digits, the high one first. */
  lemma HexText(bs: bytes, i: nat)
    requires i < |bs|
    ensures ToHex(bs)[2 * i] == "0123456789abcdef"[bs[i] / 16]
    ensures ToHex(bs)[2 * i + 1] == "0123456789abcdef"[bs[i] % 16]
  {
    TextAt(bs, i);
  }

  lemma {:induction false} TextAt(bs: bytes, i: nat)
    requires i < |bs|
    ensures ToHex(bs)[2 * i] == HexDigit(bs[i] / 16) && ToHex(bs)[2 * i + 1] == HexDigit(bs[i] % 16)
  {
    hide HexDigit;
    if i > 0 { TextAt(bs[1..], i - 1); }
  }

  /** Digits are read in both cases, and nothing else is: '0' is 48, 'a' is 97 and 'A' is 65. */
  lemma HexValues(c: char, d: nat)
    ensures HexValue(c) == Just(d)
       <==> || (d < 10 && c as int == 48 + d)
            || (10 <= d < 16 && (c as int == 97 + (d - 10) || c as int == 65 + (d - 10)))
  {
  }

  /** Upper-case text is read like lower-case text. */
  lemma UpperCaseRead(stream: Stream)
    requires ReadsHex(stream)
    ensures FromHex(stream, "AB") == Done([0xAB]) == FromHex(stream, "ab")
  {
    hide HexValue;
    HexValues('A', 10);
    HexValues('B', 11);
    HexValues('a', 10);
    HexValues('b', 11);
    TwoCharacters(stream, 'A', 'B');
    TwoCharacters(stream, 'a', 'b');
    assert "AB" == ['A', 'B'] && "ab" == ['a', 'b'];
  }

  lemma TwoCharacters(stream: Stream, c: char, d: char)
    ensures c != '0' ==> FromHex(stream, [c, d]) == Done([stream(c, d)])
  {
    var s: string := [c, d];
    assert s[2..] == "";
    assert Pairs(stream, "") == Done([]);
    assert [stream(c, d)] + [] == [stream(c, d)];
    assert Pairs(stream, s) == Done([stream(s[0], s[1])] + []);
  }

  /** Some stream reads hexadecimal digits, and what it makes of other characters is free. */
  lemma StreamExists(c: char, d: char, b: byte) returns (stream: Stream)
    requires HexValue(c) == Nothing || HexValue(d) == Nothing
    ensures ReadsHex(stream) && stream(c, d) == b
  {
    stream := (x, y) =>
      if HexValue(x).Just? && HexValue(y).Just? then 16 * HexValue(x).get + HexValue(y).get else b;
  }

  /** Exactly the two characters 0x are skipped in front. */
  lemma PrefixExactly(stream: Stream, s: string)
    ensures FromHex(stream, s) == if "0x" <= s then Pairs(stream, s[2..]) else Pairs(stream, s)
  {
    hide Pairs;
    assert "0x" <= s <==> |s| >= 2 && s[0] == '0' && s[1] == 'x';
  }

  method BytesToHex(bs: bytes) returns (s: string)
    ensures s == ToHex(bs)
  {
    s := "";
    for i := 0 to |bs|
      invariant s + ToHex(bs[i..]) == ToHex(bs)
    {
      assert bs[i..][1..] == bs[i + 1..];
      s := s + [HexDigit(bs[i] / 16), HexDigit(bs[i] % 16)];
    }
    assert s + "" == s;
  }

  // ---- from text ----

  /** Pairs of characters, one byte each; a lone last character takes the iterator past the end. */
  function Pairs(stream: Stream, s: string): (r: Outcome<bytes>) {
    if s == "" then Done([])
    else if |s| == 1 then Thrown(PastEnd)
    else
      match Pairs(stream, s[2..])
      case Thrown(e) => Thrown(e)
      case Done(rest) => Done([stream(s[0], s[1])] + rest)
  }

  predicate HasPrefix(s: string) {
    |s| >= 2 && s[0] == '0' && s[1] == 'x'
  }

  function FromHex(stream: Stream, s: string): (r: Outcome<bytes>) {
    Pairs(stream, if HasPrefix(s) then s[2..] else s)
  }

  function Prepend(done: bytes, r: Outcome<bytes>): (s: Outcome<bytes>) {
    match r
    case Thrown(e) => Thrown(e)
    case Done(bs) => Done(done + bs)
  }

  method HexToBytes(stream: Stream, str: string) returns (r: Outcome<bytes>)
    ensures r == FromHex(stream, str)
  {
    var result: bytes := [];
    var begin: nat := 0;
    if HasPrefix(str) { begin := 2; }
    ghost var text := if HasPrefix(str) then str[2..] else str;
    assert text == str[begin..];
    PrependNothing(Pairs(stream, text));
    while begin != |str|
      invariant begin <= |str|
      invariant Pairs(stream, text) == Prepend(result, Pairs(stream, str[begin..]))
      decreases |str| - begin
    {
      if begin + 1 == |str| { return Thrown(PastEnd); }
      PairStep(stream, str, begin, result);
      result := result + [stream(str[begin], str[begin + 1])];
      begin := begin + 2;
    }
    assert result + [] == result;
    return Done(result);
  }

  lemma PrependNothing(r: Outcome<bytes>)
    ensures Prepend([], r) == r
  {
    if r.Done? { assert [] + r.value == r.value; }
  }

  lemma PairStep(stream: Stream, s: string, i: nat, done: bytes)
    requires i + 2 <= |s|
    ensures Prepend(done, Pairs(stream, s[i..]))
            == Prepend(done + [stream(s[i], s[i + 1])], Pairs(stream, s[i + 2..]))
  {
    assert s[i..][2..] == s[i + 2..];
    var r := Pairs(stream, s[i + 2..]);
    if r.Done? {
      var b := stream(s[i], s[i + 1]);
      assert done + ([b] + r.value) == (done + [b]) + r.value;
    }
  }

  // ---- they are inverse ----

  /** The first two characters stand for the first byte. */
  lemma HexHead(stream: Stream, bs: bytes, rest: string)
    requires ReadsHex(stream) && bs != []
    ensures var s := ToHex(bs) + rest;
            stream(s[0], s[1]) == bs[0] && s[2..] == ToHex(bs[1..]) + rest
  {
    hide HexDigit, HexValue;
    var high, low := bs[0] / 16, bs[0] % 16;
    assert stream(HexDigit(high), HexDigit(low)) == 16 * high + low;
    TwoThen(HexDigit(high), HexDigit(low), ToHex(bs[1..]), rest);
  }

  lemma TwoThen<T>(a: T, b: T, tail: seq<T>, rest: seq<T>)
    ensures var s := ([a, b] + tail) + rest;
            s[0] == a && s[1] == b && s[2..] == tail + rest
  {
  }

  lemma {:induction false} PairsOfHex(stream: Stream, bs: bytes, rest: string)
    requires ReadsHex(stream)
    ensures Pairs(stream, ToHex(bs) + rest) == Prepend(bs, Pairs(stream, rest))
  {
    if bs == [] {
      assert ToHex(bs) + rest == rest;
      PrependNothing(Pairs(stream, rest));
    } else {
      hide ToHex, ReadsHex;
      HexHead(stream, bs, rest);
      PairsOfHex(stream, bs[1..], rest);
      PairStep(stream, ToHex(bs) + rest, 0, []);
      PrependNothing(Pairs(stream, (ToHex(bs) + rest)[0..]));
      assert (ToHex(bs) + rest)[0..] == ToHex(bs) + rest;
      hide Pairs;
      PrependTwice(bs, Pairs(stream, rest));
    }
  }

  lemma PrependTwice(bs: bytes, r: Outcome<bytes>)
    requires bs != []
    ensures Prepend([] + [bs[0]], Prepend(bs[1..], r)) == Prepend(bs, r)
  {
    if r.Done? { assert ([] + [bs[0]]) + (bs[1..] + r.value) == bs + r.value; }
  }

  lemma HexHasNoPrefix(bs: bytes)
    ensures !HasPrefix(ToHex(bs))
  {
  }

  /** Decoding inverts encoding, with or without the 0x prefix. */
  lemma HexRoundTrip(stream: Stream, bs: bytes)
    requires ReadsHex(stream)
    ensures FromHex(stream, ToHex(bs)) == Done(bs)
    ensures FromHex(stream, "0x" + ToHex(bs)) == Done(bs)
  {
    HexHasNoPrefix(bs);
    PairsOfHex(stream, bs, "");
    assert ToHex(bs) + "" == ToHex(bs) && bs + [] == bs;
    assert ("0x" + ToHex(bs))[2..] == ToHex(bs);
  }

  /** Text decodes exactly when, without its prefix, it has an even number of characters. */
  lemma {:induction false} PairsExactly(stream: Stream, s: string)
    ensures Pairs(stream, s).Done? <==> |s| % 2 == 0
    ensures |s| % 2 == 0 ==> |Pairs(stream, s).value| == |s| / 2
    ensures |s| % 2 != 0 ==> Pairs(stream, s) == Thrown(PastEnd)
  {
    if |s| >= 2 { PairsExactly(stream, s[2..]); }
  }

  // ---- fixed-size arrays ----

  function ArrayPairs(stream: Stream, hex: string, n: nat): (bs: bytes)
    requires 2 * n <= |hex|
    ensures |bs| == n
  {
    seq(n, i requires 0 <= i < n => stream(hex[2 * i], hex[2 * i + 1]))
  }

  /**
    * The guard compares the number of characters with the number of bytes, so text of
    * between n and 2n - 1 characters passes it and fails at the first missing character.
    */
  method HexToArray(stream: Stream, hex: string, n: nat) returns (r: Outcome<bytes>)
    ensures |hex| < n ==> r == Thrown(HexTooShort)
    ensures n <= |hex| < 2 * n ==> r == Thrown(HexOutOfRange)
    ensures 2 * n <= |hex| ==> r == Done(ArrayPairs(stream, hex, n))
  {
    if |hex| < n { return Thrown(HexTooShort); }
    var result: bytes := [];
    for i := 0 to n
      invariant |result| == i && 2 * i <= |hex|
      invariant forall j :: 0 <= j < i ==> result[j] == stream(hex[2 * j], hex[2 * j + 1])
    {
      if 2 * i + 1 >= |hex| { return Thrown(HexOutOfRange); }
      result := result + [stream(hex[2 * i], hex[2 * i + 1])];
    }
    assert result == ArrayPairs(stream, hex, n);
    return Done(result);
  }

  lemma {:induction false} ArrayRoundTrip(stream: Stream, bs: bytes, rest: string)
    requires ReadsHex(stream)
    ensures ArrayPairs(stream, ToHex(bs) + rest, |bs|) == bs
  {
    if bs != [] {
      hide ToHex, ReadsHex;
      HexHead(stream, bs, rest);
      ArrayRoundTrip(stream, bs[1..], rest);
      ArrayHead(stream, ToHex(bs) + rest, |bs|);
      assert bs == [bs[0]] + bs[1..];
    }
  }

  lemma ArrayHead(stream: Stream, s: string, n: nat)
    requires n > 0 && 2 * n <= |s|
    ensures ArrayPairs(stream, s, n) == [stream(s[0], s[1])] + ArrayPairs(stream, s[2..], n - 1)
  {
  }
}

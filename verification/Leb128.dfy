/**
  * ULEB128 numbers (section 7.6 of the DWARF Debugging Information Format, Version 4):
  * the reference encoding, the 32-bit decoder of the canonical codec and the
  * four-digit decoder of BcsSerde.
  */
module Leb128 {
  import opened Bytes

  const U32_LIMIT: nat := 0x1_0000_0000
  const MAX_LENGTH: nat := 0x7FFF_FFFF       // BCS_MAX_LENGTH
  const SHORT_LIMIT: nat := 0x1000_0000      // 2^28: four digits of seven bits

  /** The minimal encoding of `n`: seven bits a byte, high bit set on all but the last. */
  function Uleb(n: nat): (bs: bytes)
    ensures bs != []
    decreases n
  {
    if n < 128 then [n] else [n % 128 + 128] + Uleb(n / 128)
  }

  /** `m` shifted left by `i` digits of seven bits. */
  function Shift(m: nat, i: nat): (r: nat) {
    if i == 0 then m else 128 * Shift(m, i - 1)
  }

  /** Splitting off the low digit. */
  lemma {:induction false} ShiftSplit(m: nat, i: nat)
    ensures Shift(m, i) == Shift(m % 128, i) + Shift(m / 128, i + 1)
  {
    if i > 0 { ShiftSplit(m, i - 1); }
  }

  lemma {:induction false} ShiftDigit(d: nat, i: nat)
    requires d < 128
    ensures Shift(d, i) + Shift(1, i) <= Shift(1, i + 1)
  {
    if i > 0 { ShiftDigit(d, i - 1); }
  }

  lemma {:induction false} ShiftGrows(i: nat, j: nat)
    requires i <= j
    ensures Shift(1, i) <= Shift(1, j)
    decreases j - i
  {
    if i < j { ShiftGrows(i, j - 1); }
  }

  // ---- the 32-bit decoder ----

  /** The decoder loop at digit `i`, with `value` collected so far. */
  function UlebFrom(bs: bytes, i: nat, value: nat): (r: Parsed<nat>)
    requires i <= 5
    ensures r.Ok? ==> r.used <= |bs| && r.value < U32_LIMIT
    decreases 5 - i
  {
    if i == 5 then Fail(UlebOverflow)
    else if bs == [] then Fail(Eof)
    else
      var digit := bs[0] % 128;
      var total := value + Shift(digit, i);
      if total >= U32_LIMIT then Fail(UlebOverflow)
      else if digit == bs[0] then
        if i > 0 && digit == 0 then Fail(UlebZeroDigit) else Ok(total, 1)
      else
        match UlebFrom(bs[1..], i + 1, total)
        case Ok(n, used) => Ok(n, used + 1)
        case Fail(e) => Fail(e)
  }

  function DecodeU32(bs: bytes): (r: Parsed<nat>)
    ensures r.Ok? ==> r.used <= |bs| && r.value < U32_LIMIT
  {
    UlebFrom(bs, 0, 0)
  }

  function DecodeLen(bs: bytes): (r: Parsed<nat>)
    ensures r.Ok? ==> r.used <= |bs| && r.value <= MAX_LENGTH
  {
    match DecodeU32(bs)
    case Ok(n, used) => if n > MAX_LENGTH then Fail(LengthTooLarge) else Ok(n, used)
    case Fail(e) => Fail(e)
  }

  /** The first byte of a long encoding and what follows it. */
  lemma UlebUnfold(m: nat, rest: bytes)
    requires m >= 128
    ensures var bs := Uleb(m) + rest;
            bs[0] % 128 == m % 128 && bs[0] >= 128 && bs[1..] == Uleb(m / 128) + rest
    ensures |Uleb(m)| == 1 + |Uleb(m / 128)|
  {
    hide Uleb;
    UlebLong(m);
    Headed(m % 128 + 128, Uleb(m / 128), rest);
    LowDigit(m % 128);
  }

  lemma UlebLong(m: nat)
    requires m >= 128
    ensures Uleb(m) == [m % 128 + 128] + Uleb(m / 128)
  {
  }

  lemma Headed(b: byte, tail: bytes, rest: bytes)
    ensures (([b] + tail) + rest)[0] == b && (([b] + tail) + rest)[1..] == tail + rest
  {
  }

  lemma LowDigit(low: nat)
    requires low < 128
    ensures (low + 128) % 128 == low
  {
  }

  lemma UlebSmall(m: nat, rest: bytes)
    requires m < 128
    ensures (Uleb(m) + rest)[0] == m && |Uleb(m)| == 1
  {
  }

  lemma {:induction false} UlebFromComplete(m: nat, i: nat, value: nat, rest: bytes)
    requires i < 5 && value + Shift(m, i) < U32_LIMIT
    requires i > 0 ==> m > 0
    ensures UlebFrom(Uleb(m) + rest, i, value) == Ok(value + Shift(m, i), |Uleb(m)|)
    decreases 5 - i
  {
    hide Uleb, Shift, UlebFrom;
    UlebTurn(Uleb(m) + rest, i, value, 0);
    if m < 128 {
      UlebSmall(m, rest);
    } else {
      UlebUnfold(m, rest);
      ShiftSplit(m, i);
      if i == 4 { FifthDigit(m); }
      UlebFromComplete(m / 128, i + 1, value + Shift(m % 128, i), rest);
    }
  }

  /** One turn of the uleb128 loop. */
  lemma UlebTurn(bs: bytes, i: nat, value: nat, n: nat)
    requires i < 5 && bs != []
    ensures var digit := bs[0] % 128;
            var total := value + Shift(digit, i);
            Plus(UlebFrom(bs, i, value), n)
            == if total >= U32_LIMIT then Fail(UlebOverflow)
               else if digit == bs[0] then
                 if i > 0 && digit == 0 then Fail(UlebZeroDigit) else Ok(total, n + 1)
               else Plus(UlebFrom(bs[1..], i + 1, total), n + 1)
  {
    hide Shift;
  }

  /** Where the loop ends without a digit to read. */
  lemma UlebEnd(bs: bytes, i: nat, value: nat)
    requires i <= 5
    ensures i == 5 ==> UlebFrom(bs, i, value) == Fail(UlebOverflow)
    ensures i < 5 && bs == [] ==> UlebFrom(bs, i, value) == Fail(Eof)
  {
  }

  /** The fifth digit of a 32-bit number is its last. */
  lemma FifthDigit(m: nat)
    requires m >= 128
    ensures Shift(m, 4) >= U32_LIMIT
  {
    assert Shift(m, 1) == 128 * m;
    assert Shift(m, 2) == 128 * 128 * m;
    assert Shift(m, 3) == 128 * 128 * 128 * m;
  }

  lemma {:induction false} UlebFromSound(bs: bytes, i: nat, value: nat) returns (m: nat)
    requires i <= 5
    requires UlebFrom(bs, i, value).Ok?
    ensures UlebFrom(bs, i, value).value == value + Shift(m, i)
    ensures Uleb(m) == bs[..UlebFrom(bs, i, value).used]
    ensures i > 0 ==> m > 0
    decreases 5 - i
  {
    hide Uleb, Shift, UlebFrom;
    UlebEnd(bs, i, value);
    UlebTurn(bs, i, value, 0);
    var digit := bs[0] % 128;
    if digit == bs[0] {
      m := digit;
      UlebAlone(bs);
    } else {
      var q := UlebFromSound(bs[1..], i + 1, value + Shift(digit, i));
      m := digit + 128 * q;
      ShiftAdds(q, digit, i);
      UlebCons(bs, UlebFrom(bs[1..], i + 1, value + Shift(digit, i)).used, q);
    }
  }

  lemma UlebAlone(bs: bytes)
    requires bs != [] && bs[0] < 128
    ensures Uleb(bs[0]) == bs[..1]
  {
  }

  /** One more digit in front of a minimal encoding. */
  lemma UlebCons(bs: bytes, n: nat, q: nat)
    requires n < |bs| && bs[0] >= 128 && q > 0 && Uleb(q) == bs[1..][..n]
    ensures Uleb(bs[0] % 128 + 128 * q) == bs[..n + 1]
  {
    var m := bs[0] % 128 + 128 * q;
    assert m % 128 == bs[0] % 128 && m / 128 == q;
    assert bs[..n + 1] == [bs[0]] + bs[1..][..n];
  }

  /** Every u32 comes back from its encoding, and decoding stops at its last byte. */
  lemma U32RoundTrip(n: nat, rest: bytes)
    requires n < U32_LIMIT
    ensures DecodeU32(Uleb(n) + rest) == Ok(n, |Uleb(n)|)
  {
    UlebFromComplete(n, 0, 0, rest);
  }

  /** The decoder accepts nothing but minimal encodings of 32-bit numbers. */
  lemma U32Canonical(bs: bytes)
    requires DecodeU32(bs).Ok?
    ensures DecodeU32(bs).value < U32_LIMIT
    ensures bs[..DecodeU32(bs).used] == Uleb(DecodeU32(bs).value)
  {
    var m := UlebFromSound(bs, 0, 0);
  }

  lemma LenRoundTrip(n: nat, rest: bytes)
    requires n <= 0x7FFF_FFFF
    ensures DecodeLen(Uleb(n) + rest) == Ok(n, |Uleb(n)|)
  {
    U32RoundTrip(n, rest);
  }

  lemma {:induction false} UlebFromOverflows(m: nat, i: nat, value: nat, rest: bytes)
    requires i <= 5 && value + Shift(m, i) >= U32_LIMIT
    ensures UlebFrom(Uleb(m) + rest, i, value) == Fail(UlebOverflow)
    decreases 5 - i
  {
    hide Uleb, Shift, UlebFrom;
    UlebEnd(Uleb(m) + rest, i, value);
    if i < 5 {
      UlebTurn(Uleb(m) + rest, i, value, 0);
      if m < 128 {
        UlebSmall(m, rest);
      } else {
        UlebUnfold(m, rest);
        ShiftSplit(m, i);
        UlebFromOverflows(m / 128, i + 1, value + Shift(m % 128, i), rest);
      }
    }
  }

  /** Of the encodings of all numbers, those below 2^32 are decoded; the others overflow. */
  lemma U32Exactly(n: nat, rest: bytes)
    ensures DecodeU32(Uleb(n) + rest) == if n < 0x1_0000_0000 then Ok(n, |Uleb(n)|) else Fail(UlebOverflow)
  {
    if n < 0x1_0000_0000 { U32RoundTrip(n, rest); } else { UlebFromOverflows(n, 0, 0, rest); }
  }

  /** Lengths up to 2^31 - 1 are decoded; above, the length or from 2^32 on the number is too large. */
  lemma LenExactly(n: nat, rest: bytes)
    ensures n <= 0x7FFF_FFFF ==> DecodeLen(Uleb(n) + rest) == Ok(n, |Uleb(n)|)
    ensures 0x7FFF_FFFF < n < 0x1_0000_0000 ==> DecodeLen(Uleb(n) + rest) == Fail(LengthTooLarge)
    ensures n >= 0x1_0000_0000 ==> DecodeLen(Uleb(n) + rest) == Fail(UlebOverflow)
  {
    U32Exactly(n, rest);
  }

  /** Encodings are prefix-free, without any bound on the numbers. */
  lemma {:induction false} UlebUnique(m: nat, r: bytes, n: nat, t: bytes)
    requires Uleb(m) + r == Uleb(n) + t
    ensures m == n && r == t
    decreases m
  {
    var bs := Uleb(m) + r;
    assert bs == Uleb(n) + t;
    if m < 128 || n < 128 {
      assert bs[0] < 128 <==> m < 128;
      assert bs[0] < 128 <==> n < 128;
      assert r == bs[1..] == t;
    } else {
      assert bs[0] == m % 128 + 128 == n % 128 + 128;
      assert bs[1..] == Uleb(m / 128) + r == Uleb(n / 128) + t;
      UlebUnique(m / 128, r, n / 128, t);
    }
  }

  // ---- the four-digit decoder of BcsSerde ----

  /** `decode_integer` at digit `i`: at most four digits are read, none is rejected. */
  function ShortFrom(bs: bytes, i: nat, value: nat): (r: Parsed<nat>)
    requires i <= 4 && value < Shift(1, i)
    ensures r.Ok? ==> r.used <= |bs| && r.value < Shift(1, 4)
    decreases 4 - i
  {
    if i == 4 then Ok(value, 0)
    else if bs == [] then Fail(PastEnd)
    else
      var digit := bs[0] % 128;
      var total := value + Shift(digit, i);
      ShiftDigit(digit, i);
      ShiftGrows(i + 1, 4);
      if bs[0] < 128 then Ok(total, 1)
      else
        match ShortFrom(bs[1..], i + 1, total)
        case Ok(n, used) => Ok(n, used + 1)
        case Fail(e) => Fail(e)
  }

  function DecodeShort(bs: bytes): (r: Parsed<nat>)
    ensures r.Ok? ==> r.used <= |bs| && r.value < SHORT_LIMIT
  {
    FourDigits();
    ShortFrom(bs, 0, 0)
  }

  lemma FourDigits()
    ensures Shift(1, 4) == SHORT_LIMIT
  {
    assert Shift(1, 2) == 128 * 128;
  }

  /** The `k` low digits of `m`. */
  function LowDigits(m: nat, k: nat): (r: nat) {
    if k == 0 then 0 else m % 128 + 128 * LowDigits(m / 128, k - 1)
  }

  lemma {:induction false} LowDigitsAll(m: nat, k: nat)
    requires k > 0
    ensures m < Shift(1, k) <==> |Uleb(m)| <= k
    ensures m < Shift(1, k) ==> LowDigits(m, k) == m
  {
    if k == 1 {
    } else {
      LowDigitsAll(m / 128, k - 1);
      if m < 128 { ShiftGrows(1, k); ShiftGrows(0, k - 1); }
    }
  }

  lemma FourLowDigits(m: nat)
    ensures LowDigits(m, 4) == m % SHORT_LIMIT
  {
    var a, b, c := m / 128, m / 128 / 128, m / 128 / 128 / 128;
    assert LowDigits(c, 1) == c % 128;
    assert LowDigits(b, 2) == b % 128 + 128 * (c % 128);
    assert LowDigits(a, 3) == a % 128 + 128 * (b % 128 + 128 * (c % 128));
  }

  lemma {:induction false} ShiftAdds(m: nat, d: nat, i: nat)
    requires d < 128
    ensures Shift(d + 128 * m, i) == Shift(d, i) + Shift(m, i + 1)
  {
    assert (d + 128 * m) % 128 == d && (d + 128 * m) / 128 == m;
    ShiftSplit(d + 128 * m, i);
  }

  /** What the loop adds to `value` from digit `i` on, with `left` digits still to read. */
  lemma {:induction false} ShortFromSpec(m: nat, i: nat, left: nat, value: nat, rest: bytes)
    requires i + left == 4 && left > 0 && value < Shift(1, i)
    ensures ShortFrom(Uleb(m) + rest, i, value)
            == Ok(value + Shift(LowDigits(m, left), i), if |Uleb(m)| <= left then |Uleb(m)| else left)
    decreases left
  {
    hide Uleb, Shift, ShortFrom, LowDigits;
    var low, high := m % 128, m / 128;
    ShortTurn(Uleb(m) + rest, i, value, 0);
    LowDigitsTurn(m, left);
    if m < 128 {
      UlebSmall(m, rest);
      LowDigitsZero(left - 1);
    } else {
      UlebUnfold(m, rest);
      var total := value + Shift(low, i);
      if left == 1 {
        ShortEnd(Uleb(high) + rest, total, 1);
      } else {
        ShortFromSpec(high, i + 1, left - 1, total, rest);
      }
      ShiftAdds(LowDigits(high, left - 1), low, i);
    }
  }

  /** One turn of the four-digit loop. */
  lemma ShortTurn(bs: bytes, i: nat, value: nat, n: nat)
    requires i < 4 && value < Shift(1, i)
    ensures bs == [] ==> Plus(ShortFrom(bs, i, value), n) == Fail(PastEnd)
    ensures bs != [] ==>
              var total := value + Shift(bs[0] % 128, i);
              && total < Shift(1, i + 1)
              && Plus(ShortFrom(bs, i, value), n)
                 == (if bs[0] < 128 then Ok(total, n + 1) else Plus(ShortFrom(bs[1..], i + 1, total), n + 1))
  {
    hide Shift;
    if bs != [] { ShiftDigit(bs[0] % 128, i); }
  }

  lemma ShortEnd(bs: bytes, value: nat, n: nat)
    requires value < Shift(1, 4)
    ensures Plus(ShortFrom(bs, 4, value), n) == Ok(value, n)
  {
  }

  lemma ShortStart(bs: bytes)
    ensures 0 < Shift(1, 0) && DecodeShort(bs) == Plus(ShortFrom(bs, 0, 0), 0)
  {
  }

  lemma LowDigitsTurn(m: nat, k: nat)
    requires k > 0
    ensures LowDigits(m, k) == m % 128 + 128 * LowDigits(m / 128, k - 1)
    ensures LowDigits(m / 128, 0) == 0
  {
  }

  lemma {:induction false} LowDigitsZero(k: nat)
    ensures LowDigits(0, k) == 0
  {
    if k > 0 { LowDigitsZero(k - 1); }
  }

  /**
    * Below 2^28 the short decoder inverts the encoding; from 2^28 on it returns the
    * number modulo 2^28 and stops before the end of the encoding.
    */
  lemma ShortExactly(n: nat, rest: bytes)
    ensures n < 0x1000_0000 ==> DecodeShort(Uleb(n) + rest) == Ok(n, |Uleb(n)|)
    ensures n >= 0x1000_0000 ==>
              DecodeShort(Uleb(n) + rest) == Ok(n % 0x1000_0000, 4) && 4 < |Uleb(n)|
  {
    ShortFromSpec(n, 0, 4, 0, rest);
    FourDigits();
    LowDigitsAll(n, 4);
    FourLowDigits(n);
  }
}

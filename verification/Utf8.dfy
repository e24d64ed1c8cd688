/** The UTF-8 check that the canonical decoder applies to strings. */
module Utf8 {
  import opened Bytes

  /** How many trailing bytes a lead byte announces; nothing when the byte cannot lead. */
  function Announces(b: byte): (n: Option<nat>) {
    if b / 128 == 0 then Just(0)
    else if b / 32 == 6 then Just(1)
    else if b / 16 == 14 then Just(2)
    else if b / 8 == 30 then Just(3)
    else Nothing
  }

  predicate IsTrailing(b: byte) {
    b / 64 == 2
  }

  /** The loop of the check, with `trailing` bytes of the current code point to come. */
  predicate ValidFrom(bs: bytes, trailing: nat) {
    if bs == [] then trailing == 0
    else if trailing == 0 then
      match Announces(bs[0])
      case Just(n) => ValidFrom(bs[1..], n)
      case Nothing => false
    else IsTrailing(bs[0]) && ValidFrom(bs[1..], trailing - 1)
  }

  predicate IsValidUtf8(bs: bytes) {
    ValidFrom(bs, 0)
  }

  /** The check as the source runs it: one counter over one pass. */
  method CheckUtf8(input: bytes) returns (ok: bool)
    ensures ok == IsValidUtf8(input)
  {
    var trailing: nat := 0;
    for i := 0 to |input|
      invariant ValidFrom(input, 0) == ValidFrom(input[i..], trailing)
    {
      assert input[i..][1..] == input[i + 1..];
      if trailing == 0 {
        match Announces(input[i]) {
          case Just(n) => trailing := n;
          case Nothing => return false;
        }
      } else {
        if !IsTrailing(input[i]) { return false; }
        trailing := trailing - 1;
      }
    }
    return trailing == 0;
  }

  // ---- what the loop accepts ----

  predicate Tail(b: byte) {
    0x80 <= b <= 0xBF
  }

  /** A lead byte of one of four ranges, followed by no, one, two or three bytes 80 to BF. */
  predicate IsBlock(bs: bytes) {
    || (|bs| == 1 && bs[0] <= 0x7F)
    || (|bs| == 2 && 0xC0 <= bs[0] <= 0xDF && Tail(bs[1]))
    || (|bs| == 3 && 0xE0 <= bs[0] <= 0xEF && Tail(bs[1]) && Tail(bs[2]))
    || (|bs| == 4 && 0xF0 <= bs[0] <= 0xF7 && Tail(bs[1]) && Tail(bs[2]) && Tail(bs[3]))
  }

  /** As the check sees it: a lead byte and exactly the trailing bytes it announces. */
  lemma BlockAnnounced(bs: bytes)
    ensures IsBlock(bs)
       <==> && bs != [] && Announces(bs[0]) == Just(|bs| - 1)
            && forall i :: 1 <= i < |bs| ==> IsTrailing(bs[i])
  {
  }

  predicate AllBlocks(blocks: seq<bytes>) {
    forall i :: 0 <= i < |blocks| ==> IsBlock(blocks[i])
  }

  lemma {:induction false} TrailingRun(bs: bytes, trailing: nat, rest: bytes)
    requires |bs| == trailing && forall i :: 0 <= i < |bs| ==> IsTrailing(bs[i])
    ensures ValidFrom(bs + rest, trailing) == ValidFrom(rest, 0)
  {
    if bs == [] {
      assert bs + rest == rest;
    } else {
      assert (bs + rest)[1..] == bs[1..] + rest;
      TrailingRun(bs[1..], trailing - 1, rest);
    }
  }

  lemma BlockThen(block: bytes, rest: bytes)
    requires IsBlock(block)
    ensures IsValidUtf8(block + rest) == IsValidUtf8(rest)
  {
    BlockAnnounced(block);
    assert (block + rest)[1..] == block[1..] + rest;
    TrailingRun(block[1..], |block| - 1, rest);
  }

  lemma {:induction false} BlocksAreValid(blocks: seq<bytes>)
    requires AllBlocks(blocks)
    ensures IsValidUtf8(Join(blocks))
  {
    if blocks != [] {
      BlocksAreValid(blocks[1..]);
      BlockThen(blocks[0], Join(blocks[1..]));
    }
  }

  /** Cuts an accepted tail, whose first `trailing` bytes finish a block, into blocks. */
  lemma {:induction false} CutFrom(bs: bytes, trailing: nat) returns (blocks: seq<bytes>)
    requires ValidFrom(bs, trailing)
    ensures trailing <= |bs| && forall i :: 0 <= i < trailing ==> IsTrailing(bs[i])
    ensures AllBlocks(blocks) && bs[trailing..] == Join(blocks)
    decreases |bs|
  {
    if bs == [] {
      blocks := [];
    } else if trailing == 0 {
      var n := Announces(bs[0]).get;
      var tail := CutFrom(bs[1..], n);
      var block := bs[..n + 1];
      assert forall i :: 1 <= i < |block| ==> block[i] == bs[1..][i - 1];
      BlockAnnounced(block);
      blocks := [block] + tail;
      assert bs == block + bs[1..][n..];
    } else {
      blocks := CutFrom(bs[1..], trailing - 1);
      assert bs[trailing..] == bs[1..][trailing - 1..];
      assert forall i :: 1 <= i < trailing ==> bs[i] == bs[1..][i - 1];
    }
  }

  /** The check accepts exactly the concatenations of lead-plus-trailing blocks. */
  lemma AcceptsExactlyBlocks(bs: bytes)
    ensures IsValidUtf8(bs) <==> exists blocks: seq<bytes> :: AllBlocks(blocks) && Join(blocks) == bs
  {
    if IsValidUtf8(bs) {
      var blocks := CutFrom(bs, 0);
      assert bs[0..] == bs;
    }
    forall blocks: seq<bytes> | AllBlocks(blocks) && Join(blocks) == bs
      ensures IsValidUtf8(bs)
    {
      BlocksAreValid(blocks);
    }
  }

  /** A valid string followed by any string is valid exactly when the second one is. */
  lemma ValidConcat(a: bytes, b: bytes)
    requires IsValidUtf8(a)
    ensures IsValidUtf8(a + b) == IsValidUtf8(b)
  {
    var blocks := CutFrom(a, 0);
    assert a[0..] == a;
    DropBlocks(blocks, b);
  }

  lemma {:induction false} DropBlocks(blocks: seq<bytes>, rest: bytes)
    requires AllBlocks(blocks)
    ensures IsValidUtf8(Join(blocks) + rest) == IsValidUtf8(rest)
  {
    if blocks == [] {
      assert Join(blocks) + rest == rest;
    } else {
      assert Join(blocks) + rest == blocks[0] + (Join(blocks[1..]) + rest);
      BlockThen(blocks[0], Join(blocks[1..]) + rest);
      DropBlocks(blocks[1..], rest);
    }
  }

  // ---- comparison with section 4 of RFC 3629 ----

  /** UTF8-char of section 4 of RFC 3629. */
  predicate RfcChar(c: bytes) {
    || (|c| == 1 && c[0] <= 0x7F)
    || (|c| == 2 && 0xC2 <= c[0] <= 0xDF && Tail(c[1]))
    || (|c| == 3 && Tail(c[2])
        && ((c[0] == 0xE0 && 0xA0 <= c[1] <= 0xBF)
            || (0xE1 <= c[0] <= 0xEC && Tail(c[1]))
            || (c[0] == 0xED && 0x80 <= c[1] <= 0x9F)
            || (0xEE <= c[0] <= 0xEF && Tail(c[1]))))
    || (|c| == 4 && Tail(c[2]) && Tail(c[3])
        && ((c[0] == 0xF0 && 0x90 <= c[1] <= 0xBF)
            || (0xF1 <= c[0] <= 0xF3 && Tail(c[1]))
            || (c[0] == 0xF4 && 0x80 <= c[1] <= 0x8F)))
  }

  lemma RfcCharIsBlock(c: bytes)
    requires RfcChar(c)
    ensures IsBlock(c)
  {
  }

  predicate AllRfc(chars: seq<bytes>) {
    forall i :: 0 <= i < |chars| ==> RfcChar(chars[i])
  }

  /** UTF8-octets of section 4 of RFC 3629. */
  ghost predicate InGrammar(bs: bytes) {
    exists chars: seq<bytes> :: AllRfc(chars) && Join(chars) == bs
  }

  lemma RfcCharsAreBlocks(chars: seq<bytes>)
    requires AllRfc(chars)
    ensures AllBlocks(chars)
  {
    forall i | 0 <= i < |chars| ensures IsBlock(chars[i]) { RfcCharIsBlock(chars[i]); }
  }

  /** Every UTF8-octets string of the RFC grammar passes the check. */
  lemma RfcAccepted(chars: seq<bytes>)
    requires AllRfc(chars)
    ensures IsValidUtf8(Join(chars))
  {
    RfcCharsAreBlocks(chars);
    BlocksAreValid(chars);
  }

  /**
    * What the check lets through beyond the grammar, as seen at position `i`: an overlong
    * form, a surrogate, or a code point above U+10FFFF.
    */
  predicate LooseAt(bs: bytes, i: nat)
    requires i < |bs|
  {
    || bs[i] == 0xC0 || bs[i] == 0xC1 || bs[i] >= 0xF5
    || (i + 1 < |bs| &&
        (|| (bs[i] == 0xE0 && bs[i + 1] < 0xA0) || (bs[i] == 0xED && bs[i + 1] > 0x9F)
         || (bs[i] == 0xF0 && bs[i + 1] < 0x90) || (bs[i] == 0xF4 && bs[i + 1] > 0x8F)))
  }

  predicate Strict(bs: bytes) {
    forall i :: 0 <= i < |bs| ==> !LooseAt(bs, i)
  }

  lemma BlockRfc(c: bytes)
    requires IsBlock(c)
    ensures RfcChar(c) <==> !LooseAt(c, 0)
  {
  }

  /** A block shows looseness at its lead byte only, whatever follows it. */
  lemma StrictBlock(c: bytes, rest: bytes)
    requires IsBlock(c)
    ensures Strict(c + rest) <==> RfcChar(c) && Strict(rest)
  {
    BlockRfc(c);
    var bs := c + rest;
    assert LooseAt(bs, 0) <==> LooseAt(c, 0);
    forall i | 1 <= i < |c| ensures !LooseAt(bs, i) { assert bs[i] == c[i]; }
    forall i | |c| <= i < |bs| ensures LooseAt(bs, i) <==> LooseAt(rest, i - |c|) {
      assert bs[i] == rest[i - |c|];
      if i + 1 < |bs| { assert bs[i + 1] == rest[i + 1 - |c|]; }
    }
    if Strict(bs) {
      forall i | 0 <= i < |rest| ensures !LooseAt(rest, i) { assert !LooseAt(bs, i + |c|); }
    }
  }

  lemma {:induction false} StrictBlocks(blocks: seq<bytes>)
    requires AllBlocks(blocks)
    ensures Strict(Join(blocks)) <==> AllRfc(blocks)
  {
    hide IsBlock, RfcChar, Strict;
    if blocks == [] {
      StrictNothing();
    } else {
      StrictBlock(blocks[0], Join(blocks[1..]));
      StrictBlocks(blocks[1..]);
      assert forall i :: 1 <= i < |blocks| ==> blocks[i] == blocks[1..][i - 1];
    }
  }

  lemma StrictNothing()
    ensures Strict([])
  {
  }

  /**
    * The grammar exactly: a string is UTF8-octets if and only if it passes the check and no
    * position of it is loose.
    */
  lemma RfcExactly(bs: bytes)
    ensures InGrammar(bs) <==> IsValidUtf8(bs) && Strict(bs)
  {
    hide IsBlock, RfcChar, Strict, AllRfc, AllBlocks, ValidFrom;
    if InGrammar(bs) {
      var chars: seq<bytes> :| AllRfc(chars) && Join(chars) == bs;
      RfcAccepted(chars);
      RfcCharsAreBlocks(chars);
      StrictBlocks(chars);
    }
    if IsValidUtf8(bs) && Strict(bs) {
      var blocks := CutFrom(bs, 0);
      assert bs[0..] == bs;
      StrictBlocks(blocks);
    }
  }

  /** The check is wider than the grammar: the overlong form C0 80 passes it. */
  lemma OverlongAccepted()
    ensures IsValidUtf8([0xC0, 0x80]) && !InGrammar([0xC0, 0x80])
  {
    BlockThen([0xC0, 0x80], []);
    assert LooseAt([0xC0, 0x80], 0);
    RfcExactly([0xC0, 0x80]);
  }
}

/**
 UTF-8 as the URL decoder uses it: bytes are decoded with the "replace" error
 handler, so every ill-formed piece becomes one U+FFFD (one replacement per
 maximal subpart of an ill-formed sequence, as section 3.9 of the Unicode
 Standard recommends). The encoder is the reference partner of the decoder.
 */
module Utf8 {

  newtype byte = x: int | 0 <= x < 0x100

  const Replacement: char := '\U{FFFD}'

  predicate IsContinuation(b: byte) {
    0x80 <= b < 0xC0
  }

  function Char2(b0: byte, b1: byte): (c: char)
    requires 0xC2 <= b0 <= 0xDF && IsContinuation(b1)
    ensures 0x80 <= c as int < 0x800
  {
    ((b0 as int - 0xC0) * 0x40 + (b1 as int - 0x80)) as char
  }

  function Char3(b0: byte, b1: byte, b2: byte): (c: char)
    requires 0xE0 <= b0 <= 0xEF && IsContinuation(b1) && IsContinuation(b2)
    requires b0 == 0xE0 ==> 0xA0 <= b1
    requires b0 == 0xED ==> b1 <= 0x9F
    ensures 0x800 <= c as int < 0x1_0000
  {
    ((b0 as int - 0xE0) * 0x1000 + (b1 as int - 0x80) * 0x40 + (b2 as int - 0x80)) as char
  }

  function Char4(b0: byte, b1: byte, b2: byte, b3: byte): (c: char)
    requires 0xF0 <= b0 <= 0xF4 && IsContinuation(b1) && IsContinuation(b2) && IsContinuation(b3)
    requires b0 == 0xF0 ==> 0x90 <= b1
    requires b0 == 0xF4 ==> b1 <= 0x8F
    ensures 0x1_0000 <= c as int
  {
    ((b0 as int - 0xF0) * 0x4_0000 + (b1 as int - 0x80) * 0x1000
      + (b2 as int - 0x80) * 0x40 + (b3 as int - 0x80)) as char
  }

  /** Lowest and highest byte allowed right after lead byte `b0` (Table 3-7 of the Unicode Standard). */
  function SecondLow(b0: byte): byte {
    if b0 == 0xE0 then 0xA0 else if b0 == 0xF0 then 0x90 else 0x80
  }

  function SecondHigh(b0: byte): byte {
    if b0 == 0xED then 0x9F else if b0 == 0xF4 then 0x8F else 0xBF
  }

  /**
   The first character that `bs` starts with and how many bytes it takes.
   An ill-formed start yields U+FFFD for its longest well-formed prefix
   (at least one byte).
   */
  function DecodeFirst(bs: seq<byte>): (r: (char, nat))
    requires bs != []
    ensures 1 <= r.1 <= |bs| && r.1 <= 4
    ensures bs[0] < 0x80 ==> r == (bs[0] as int as char, 1)
  {
    var b0 := bs[0];
    if b0 < 0x80 then
      (b0 as int as char, 1)
    else if 0xC2 <= b0 <= 0xDF then
      if 2 <= |bs| && IsContinuation(bs[1]) then (Char2(b0, bs[1]), 2) else (Replacement, 1)
    else if 0xE0 <= b0 <= 0xEF then
      if |bs| < 2 || !(SecondLow(b0) <= bs[1] <= SecondHigh(b0)) then (Replacement, 1)
      else if |bs| < 3 || !IsContinuation(bs[2]) then (Replacement, 2)
      else (Char3(b0, bs[1], bs[2]), 3)
    else if 0xF0 <= b0 <= 0xF4 then
      if |bs| < 2 || !(SecondLow(b0) <= bs[1] <= SecondHigh(b0)) then (Replacement, 1)
      else if |bs| < 3 || !IsContinuation(bs[2]) then (Replacement, 2)
      else if |bs| < 4 || !IsContinuation(bs[3]) then (Replacement, 3)
      else (Char4(b0, bs[1], bs[2], bs[3]), 4)
    else
      (Replacement, 1)
  }

  /** `bytes.decode("utf-8", "replace")` */
  function Decode(bs: seq<byte>): (s: string)
    ensures |s| <= |bs|
    ensures s == [] <==> bs == []
    decreases |bs|
  {
    if bs == [] then []
    else
      var (c, n) := DecodeFirst(bs);
      [c] + Decode(bs[n..])
  }

  predicate IsAscii(bs: seq<byte>) {
    forall i :: 0 <= i < |bs| ==> bs[i] < 0x80
  }

  /** Bytes below 0x80 decode one-for-one to the characters with the same code. */
  lemma {:induction false} DecodeAscii(bs: seq<byte>)
    requires IsAscii(bs)
    ensures |Decode(bs)| == |bs|
    ensures forall i :: 0 <= i < |bs| ==> Decode(bs)[i] as int == bs[i] as int
  {
    if bs != [] {
      DecodeAscii(bs[1..]);
    }
  }

  /** Decoding a concatenation splits at any byte below 0x80 that the left part ends before. */
  lemma {:induction false} DecodeAppendAscii(bs: seq<byte>, b: byte)
    requires b < 0x80
    ensures Decode(bs + [b]) == Decode(bs) + [b as int as char]
    decreases |bs|
  {
    if bs == [] {
      assert [b][1..] == [];
    } else {
      var (c, n) := DecodeFirst(bs);
      var (c', n') := DecodeFirst(bs + [b]);
      assert (bs + [b])[..|bs|] == bs;
      DecodeFirstStable(bs, [b]);
      assert (c', n') == (c, n);
      assert (bs + [b])[n..] == bs[n..] + [b];
      DecodeAppendAscii(bs[n..], b);
    }
  }

  /** Appending bytes that start with one below 0x80 does not change how `bs` starts to decode. */
  lemma DecodeFirstStable(bs: seq<byte>, tail: seq<byte>)
    requires bs != [] && tail != [] && tail[0] < 0x80
    ensures DecodeFirst(bs + tail) == DecodeFirst(bs)
  {
    var t := bs + tail;
    assert t[0] == bs[0];
    assert 1 < |bs| ==> t[1] == bs[1];
    assert 2 < |bs| ==> t[2] == bs[2];
    assert 3 < |bs| ==> t[3] == bs[3];
    assert t[|bs|] == tail[0];
  }

  /** The UTF-8 encoding of one Unicode scalar value. */
  function EncodeChar(c: char): (bs: seq<byte>)
    ensures 1 <= |bs| <= 4
  {
    var x := c as int;
    if x < 0x80 then
      [x as byte]
    else if x < 0x800 then
      [(0xC0 + x / 0x40) as byte, (0x80 + x % 0x40) as byte]
    else if x < 0x1_0000 then
      [(0xE0 + x / 0x1000) as byte, (0x80 + x / 0x40 % 0x40) as byte, (0x80 + x % 0x40) as byte]
    else
      [(0xF0 + x / 0x4_0000) as byte, (0x80 + x / 0x1000 % 0x40) as byte,
       (0x80 + x / 0x40 % 0x40) as byte, (0x80 + x % 0x40) as byte]
  }

  function Encode(s: string): (bs: seq<byte>)
    ensures |s| <= |bs|
  {
    if s == [] then [] else EncodeChar(s[0]) + Encode(s[1..])
  }

  /** The decoder reads back exactly the character the encoder wrote, whatever follows it. */
  lemma DecodeFirstEncodeChar(c: char, rest: seq<byte>)
    ensures DecodeFirst(EncodeChar(c) + rest) == (c, |EncodeChar(c)|)
  {
    var x := c as int;
    if x < 0x80 {
    } else if x < 0x800 {
      DecodeFirstTwo(c, rest);
    } else if x < 0x1_0000 {
      DecodeFirstThree(c, rest);
    } else {
      DecodeFirstFour(c, rest);
    }
  }

  lemma DecodeFirstTwo(c: char, rest: seq<byte>)
    requires 0x80 <= c as int < 0x800
    ensures DecodeFirst(EncodeChar(c) + rest) == (c, 2)
  {
    var x := c as int;
    var hi, lo := x / 0x40, x % 0x40;
    assert x == hi * 0x40 + lo && 2 <= hi < 0x20;
    var bs := EncodeChar(c) + rest;
    assert bs[0] as int == 0xC0 + hi && bs[1] as int == 0x80 + lo;
  }

  lemma DecodeFirstThree(c: char, rest: seq<byte>)
    requires 0x800 <= c as int < 0x1_0000
    ensures DecodeFirst(EncodeChar(c) + rest) == (c, 3)
  {
    var x := c as int;
    var q, lo := x / 0x40, x % 0x40;
    var hi, mid := q / 0x40, q % 0x40;
    assert x == q * 0x40 + lo;
    assert q == hi * 0x40 + mid;
    assert hi == x / 0x1000;
    assert x == hi * 0x1000 + mid * 0x40 + lo;
    assert x < 0xD800 || 0xE000 <= x;
    var bs := EncodeChar(c) + rest;
    assert bs[0] as int == 0xE0 + hi && bs[1] as int == 0x80 + mid && bs[2] as int == 0x80 + lo;
  }

  lemma DecodeFirstFour(c: char, rest: seq<byte>)
    requires 0x1_0000 <= c as int
    ensures DecodeFirst(EncodeChar(c) + rest) == (c, 4)
  {
    var x := c as int;
    var q, lo := x / 0x40, x % 0x40;
    var q2, mid := q / 0x40, q % 0x40;
    var hi, upper := q2 / 0x40, q2 % 0x40;
    assert x == q * 0x40 + lo;
    assert q == q2 * 0x40 + mid;
    assert q2 == hi * 0x40 + upper;
    assert q2 == x / 0x1000 && hi == x / 0x4_0000;
    assert x == hi * 0x4_0000 + upper * 0x1000 + mid * 0x40 + lo;
    var bs := EncodeChar(c) + rest;
    assert bs[0] as int == 0xF0 + hi && bs[1] as int == 0x80 + upper;
    assert bs[2] as int == 0x80 + mid && bs[3] as int == 0x80 + lo;
  }

  /** Round trip: decoding an encoding gives back the string. */
  lemma {:induction false} DecodeEncode(s: string)
    ensures Decode(Encode(s)) == s
  {
    if s != [] {
      var e := EncodeChar(s[0]);
      DecodeFirstEncodeChar(s[0], Encode(s[1..]));
      assert (e + Encode(s[1..]))[|e|..] == Encode(s[1..]);
      DecodeEncode(s[1..]);
    }
  }
}

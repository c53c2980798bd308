/** UTF-8 as sections 3 and 4 of RFC 3629 define it, one scalar value at a time and for whole texts. */
module Utf8 {
  import opened Bytes

  // A Unicode scalar value: a code point that is not a surrogate.
  type scalar = c: int | 0 <= c < 0xD800 || 0xE000 <= c <= 0x10FFFF

  type Text = seq<scalar>

  predicate IsTail(b: byte) {
    0x80 <= b <= 0xBF
  }

  // A continuation byte carrying the low six bits of x.
  function Tail(x: int): (b: byte)
    ensures IsTail(b)
  {
    0x80 + x % 64
  }

  // A leading byte: the length mark `base` plus the remaining high bits.
  function Lead(base: byte, high: int): (b: byte)
    requires 0 <= high < 256 - base
    ensures b >= base
  {
    base + high
  }

  function EncodeChar(c: scalar): (b: seq<byte>)
    ensures 1 <= |b| <= 4
    ensures c < 0x80 ==> b == [c]
    ensures c >= 0x80 ==> |b| >= 2 && forall i :: 0 <= i < |b| ==> b[i] >= 0x80
  {
    var high := c / 64;
    if c < 0x80 then [Lead(0, c)]
    else if c < 0x800 then [Lead(0xC0, high), Tail(c)]
    else if c < 0x10000 then [Lead(0xE0, high / 64), Tail(high), Tail(c)]
    else [Lead(0xF0, high / 64 / 64), Tail(high / 64), Tail(high), Tail(c)]
  }

  // A scalar value and the number of bytes it took.
  datatype Step = Step(value: scalar, length: nat)

  // The first character of `b`, if its bytes match the syntax of section 4 of RFC 3629.
  function DecodeChar(b: seq<byte>): (r: Option<Step>)
    requires b != []
    ensures r.Some? ==> 1 <= r.value.length <= |b|
  {
    var b0 := b[0];
    if b0 < 0x80 then Some(Step(b0, 1))
    else if 0xC2 <= b0 <= 0xDF then
      if |b| < 2 || !IsTail(b[1]) then None
      else Some(Step((b0 as int - 0xC0) * 64 + (b[1] - 0x80), 2))
    else if 0xE0 <= b0 <= 0xEF then
      if |b| < 3 || !IsTail(b[1]) || !IsTail(b[2])
        || (b0 == 0xE0 && b[1] < 0xA0) || (b0 == 0xED && b[1] > 0x9F) then None
      else Some(Step(((b0 as int - 0xE0) * 64 + (b[1] - 0x80)) * 64 + (b[2] - 0x80), 3))
    else if 0xF0 <= b0 <= 0xF4 then
      if |b| < 4 || !IsTail(b[1]) || !IsTail(b[2]) || !IsTail(b[3])
         || (b0 == 0xF0 && b[1] < 0x90) || (b0 == 0xF4 && b[1] > 0x8F) then None
      else Some(Step((((b0 as int - 0xF0) * 64 + (b[1] - 0x80)) * 64 + (b[2] - 0x80)) * 64 + (b[3] - 0x80), 4))
    else None
  }

  // Only the first four bytes matter.
  lemma DecodeCharPrefix(e: seq<byte>, rest: seq<byte>)
    requires e != [] && DecodeChar(e).Some?
    ensures DecodeChar(e + rest) == DecodeChar(e)
  {
    var b := e + rest;
    assert b[0] == e[0];
    assert |e| > 1 ==> b[1] == e[1];
    assert |e| > 2 ==> b[2] == e[2];
    assert |e| > 3 ==> b[3] == e[3];
  }

  lemma Split64(x: int)
    ensures x == x / 64 * 64 + x % 64 && 0 <= x % 64 < 64
  {
  }

  lemma Join64(q: int, r: int)
    requires 0 <= r < 64
    ensures (q * 64 + r) / 64 == q && (q * 64 + r) % 64 == r
  {
  }

  lemma DecodeEncodeChar(c: scalar)
    ensures DecodeChar(EncodeChar(c)) == Some(Step(c, |EncodeChar(c)|))
  {
    Split64(c);
    Split64(c / 64);
    Split64(c / 64 / 64);
  }

  // What a byte carries beside its mark.
  ghost function Bits(b: byte, mark: int): int {
    b as int - mark
  }

  /**
   The table of section 3 of RFC 3629: how many bytes, what marks each, and how their bits add up.
   */
  lemma EncodeCharBits(c: scalar)
    ensures var b := EncodeChar(c);
      && (c < 0x80 <==> |b| == 1) && (0x80 <= c < 0x800 <==> |b| == 2) && (0x800 <= c < 0x1_0000 <==> |b| == 3)
      && (forall i :: 1 <= i < |b| ==> 0x80 <= b[i] < 0xC0)
      && match |b|
         case 1 => b[0] == c
         case 2 => 0xC0 <= b[0] < 0xE0 && c == 0x40 * Bits(b[0], 0xC0) + Bits(b[1], 0x80)
         case 3 =>
           && 0xE0 <= b[0] < 0xF0
           && c == 0x1000 * Bits(b[0], 0xE0) + 0x40 * Bits(b[1], 0x80) + Bits(b[2], 0x80)
         case _ =>
           && |b| == 4 && 0xF0 <= b[0] < 0xF8
           && c == 0x4_0000 * Bits(b[0], 0xF0) + 0x1000 * Bits(b[1], 0x80) + 0x40 * Bits(b[2], 0x80) + Bits(b[3], 0x80)
  {
    Split64(c);
    Split64(c / 64);
    Split64(c / 64 / 64);
  }

  lemma EncodeDecodeChar(b: seq<byte>)
    requires b != [] && DecodeChar(b).Some?
    ensures EncodeChar(DecodeChar(b).value.value) == b[..DecodeChar(b).value.length]
  {
    var b0 := b[0];
    if b0 >= 0xF0 {
      EncodeFour(b0, b[1], b[2], b[3]);
      assert b[..4] == [b0, b[1], b[2], b[3]];
    } else if b0 >= 0xE0 {
      EncodeThree(b0, b[1], b[2]);
      assert b[..3] == [b0, b[1], b[2]];
    } else if b0 >= 0x80 {
      Join64(b0 - 0xC0, b[1] - 0x80);
      assert b[..2] == [b0, b[1]];
    }
  }

  lemma EncodeThree(b0: byte, b1: byte, b2: byte)
    requires DecodeChar([b0, b1, b2]).Some? && 0xE0 <= b0 <= 0xEF
    ensures EncodeChar(DecodeChar([b0, b1, b2]).value.value) == [b0, b1, b2]
  {
    var high := (b0 - 0xE0) * 64 + (b1 - 0x80);
    Join64(b0 - 0xE0, b1 - 0x80);
    Join64(high, b2 - 0x80);
  }

  lemma EncodeFour(b0: byte, b1: byte, b2: byte, b3: byte)
    requires DecodeChar([b0, b1, b2, b3]).Some? && 0xF0 <= b0
    ensures EncodeChar(DecodeChar([b0, b1, b2, b3]).value.value) == [b0, b1, b2, b3]
  {
    var top := (b0 - 0xF0) * 64 + (b1 - 0x80);
    var high := top * 64 + (b2 - 0x80);
    Join64(b0 - 0xF0, b1 - 0x80);
    Join64(top, b2 - 0x80);
    Join64(high, b3 - 0x80);
  }

  function Encode(t: Text): seq<byte> {
    if t == [] then [] else EncodeChar(t[0]) + Encode(t[1..])
  }

  // The text, or nothing when any part of the bytes is not UTF-8.
  function Decode(b: seq<byte>): Option<Text> {
    if b == [] then Some([]) else
      var first := DecodeChar(b);
      if first.None? then None else
        var rest := Decode(b[first.value.length..]);
        if rest.None? then None else Some([first.value.value] + rest.value)
  }

  /** Decoding an encoded text gives back the text. */
  lemma {:induction false} DecodeEncode(t: Text)
    ensures Decode(Encode(t)) == Some(t)
  {
    if t != [] {
      var first, rest := EncodeChar(t[0]), Encode(t[1..]);
      DecodeEncodeChar(t[0]);
      DecodeCharPrefix(first, rest);
      assert (first + rest)[|first|..] == rest;
      DecodeEncode(t[1..]);
      assert [t[0]] + t[1..] == t;
    }
  }

  lemma DecodeFirst(b: seq<byte>, t: Text)
    requires b != [] && Decode(b) == Some(t)
    ensures t != [] && 0 < |EncodeChar(t[0])| <= |b|
    ensures EncodeChar(t[0]) == b[..|EncodeChar(t[0])|] && Decode(b[|EncodeChar(t[0])|..]) == Some(t[1..])
  {
    EncodeDecodeChar(b);
    assert t[1..] == Decode(b[DecodeChar(b).value.length..]).value;
  }

  /** Bytes that decode are the encoding of what they decode to. */
  lemma {:induction false} EncodeDecode(b: seq<byte>, t: Text)
    requires Decode(b) == Some(t)
    ensures Encode(t) == b
    decreases |b|
  {
    if b != [] {
      DecodeFirst(b, t);
      var n := |EncodeChar(t[0])|;
      EncodeDecode(b[n..], t[1..]);
      assert b[..n] + b[n..] == b;
    }
  }

  lemma {:induction false} EncodeConcat(t: Text, u: Text)
    ensures Encode(t + u) == Encode(t) + Encode(u)
  {
    if t == [] {
      assert t + u == u;
    } else {
      assert (t + u)[1..] == t[1..] + u;
      EncodeConcat(t[1..], u);
    }
  }
}

/** Go strings are byte sequences holding UTF-8 text. `len(s)` counts bytes,
    while `for _, r := range s` walks the decoded code points. This module fixes
    the encoding of section 3 of RFC 3629 so that a string can be modelled by its
    sequence of code points and its byte length recovered from it. */
module Utf8 {

  import opened Options

  type Byte = b: int | 0 <= b < 0x100

  /** A Unicode scalar value: a code point that is not a surrogate. Go's
      `range` yields exactly these for a well-formed string. */
  type Rune = c: int | 0 <= c <= 0x10FFFF && !(0xD800 <= c <= 0xDFFF)

  /** Number of bytes RFC 3629 uses for `c`. */
  function Width(c: Rune): (w: nat)
    ensures 1 <= w <= 4
    ensures w == 1 <==> c < 0x80
  {
    if c < 0x80 then 1
    else if c < 0x800 then 2
    else if c < 0x10000 then 3
    else 4
  }

  predicate IsContinuation(b: Byte) {
    0x80 <= b < 0xC0
  }

  /** The UTF-8 bytes of one scalar value: the value is cut into 6-bit groups,
      the lead byte carries the width marker and the highest group, and every
      other group goes into a continuation byte `10xxxxxx`. */
  function EncodeRune(c: Rune): (bs: seq<Byte>)
    ensures |bs| == Width(c)
    ensures c < 0x80 ==> bs == [c]
    ensures c >= 0x80 ==> bs[0] >= 0xC0 && forall k :: 1 <= k < |bs| ==> IsContinuation(bs[k])
  {
    var g0, c1 := c % 0x40, c / 0x40;
    var g1, c2 := c1 % 0x40, c1 / 0x40;
    var g2, c3 := c2 % 0x40, c2 / 0x40;
    if c < 0x80 then [c]
    else if c < 0x800 then [0xC0 + c1, 0x80 + g0]
    else if c < 0x10000 then [0xE0 + c2, 0x80 + g1, 0x80 + g0]
    else [0xF0 + c3, 0x80 + g2, 0x80 + g1, 0x80 + g0]
  }

  /** Splitting off the low six bits and putting them back is the identity. */
  lemma SixBits(hi: int, lo: int)
    requires 0 <= hi && 0 <= lo < 0x40
    ensures (hi * 0x40 + lo) / 0x40 == hi && (hi * 0x40 + lo) % 0x40 == lo
  {
  }

  /** Byte length of a string given by its code points: the sum of the widths. */
  function ByteLen(s: seq<Rune>): nat
  {
    if s == [] then 0 else Width(s[0]) + ByteLen(s[1..])
  }

  /** The UTF-8 bytes of a string given by its code points. */
  function Encode(s: seq<Rune>): (bs: seq<Byte>)
    ensures |bs| == ByteLen(s)
  {
    if s == [] then [] else EncodeRune(s[0]) + Encode(s[1..])
  }

  /** Decodes the first code point of `bs`, giving it with its width; `None`
      when `bs` does not start with a well-formed sequence (a stray
      continuation byte, a truncated sequence, an overlong form, a surrogate
      or a value above U+10FFFF). */
  function DecodeRune(bs: seq<Byte>): (r: Option<(Rune, nat)>)
    ensures r.Some? ==> r.value.1 == Width(r.value.0) && r.value.1 <= |bs|
  {
    if |bs| == 0 then None
    else
      var b0: int := bs[0];
      if b0 < 0x80 then Some((b0, 1))
      else if 0xC0 <= b0 < 0xE0 then
        if |bs| < 2 || !IsContinuation(bs[1]) then None
        else
          var v := (b0 - 0xC0) * 0x40 + (bs[1] - 0x80);
          if v < 0x80 then None else Some((v, 2))
      else if 0xE0 <= b0 < 0xF0 then
        if |bs| < 3 || !IsContinuation(bs[1]) || !IsContinuation(bs[2]) then None
        else
          var v := ((b0 - 0xE0) * 0x40 + (bs[1] - 0x80)) * 0x40 + (bs[2] - 0x80);
          if v < 0x800 || 0xD800 <= v <= 0xDFFF then None else Some((v, 3))
      else if 0xF0 <= b0 < 0xF8 then
        if |bs| < 4 || !IsContinuation(bs[1]) || !IsContinuation(bs[2]) || !IsContinuation(bs[3]) then None
        else
          var v := (((b0 - 0xF0) * 0x40 + (bs[1] - 0x80)) * 0x40 + (bs[2] - 0x80)) * 0x40 + (bs[3] - 0x80);
          if v < 0x10000 || v > 0x10FFFF then None else Some((v, 4))
      else None
  }

  /** Decodes a whole byte string; `None` when it is not well-formed UTF-8. */
  function Decode(bs: seq<Byte>): Option<seq<Rune>>
    decreases |bs|
  {
    if bs == [] then Some([])
    else match DecodeRune(bs)
      case None => None
      case Some((c, w)) =>
        match Decode(bs[w..])
        case None => None
        case Some(rest) => Some([c] + rest)
  }

  /** Decoding the encoding of `c` in front of any bytes gives `c` back. */
  lemma DecodeRuneOfEncodeRune(c: Rune, rest: seq<Byte>)
    ensures DecodeRune(EncodeRune(c) + rest) == Some((c, Width(c)))
  {
    var bs := EncodeRune(c) + rest;
    var g0, c1 := c % 0x40, c / 0x40;
    var g1, c2 := c1 % 0x40, c1 / 0x40;
    var g2, c3 := c2 % 0x40, c2 / 0x40;
    assert c == c1 * 0x40 + g0 && c1 == c2 * 0x40 + g1 && c2 == c3 * 0x40 + g2;
    if c < 0x80 {
    } else if c < 0x800 {
      assert bs[0] == 0xC0 + c1 && bs[1] == 0x80 + g0;
    } else if c < 0x10000 {
      assert bs[0] == 0xE0 + c2 && bs[1] == 0x80 + g1 && bs[2] == 0x80 + g0;
    } else {
      assert bs[0] == 0xF0 + c3 && bs[1] == 0x80 + g2 && bs[2] == 0x80 + g1 && bs[3] == 0x80 + g0;
    }
  }

  /** A well-formed two-byte sequence is the encoding of its value. */
  lemma EncodeTwo(b0: int, b1: int)
    requires 0xC0 <= b0 < 0xE0 && 0x80 <= b1 < 0xC0
    requires (b0 - 0xC0) * 0x40 + (b1 - 0x80) >= 0x80
    ensures EncodeRune((b0 - 0xC0) * 0x40 + (b1 - 0x80)) == [b0, b1]
  {
    SixBits(b0 - 0xC0, b1 - 0x80);
  }

  /** A well-formed three-byte sequence is the encoding of its value. */
  lemma EncodeThree(b0: int, b1: int, b2: int)
    requires 0xE0 <= b0 < 0xF0 && 0x80 <= b1 < 0xC0 && 0x80 <= b2 < 0xC0
    requires var v := ((b0 - 0xE0) * 0x40 + (b1 - 0x80)) * 0x40 + (b2 - 0x80);
             v >= 0x800 && !(0xD800 <= v <= 0xDFFF)
    ensures EncodeRune(((b0 - 0xE0) * 0x40 + (b1 - 0x80)) * 0x40 + (b2 - 0x80)) == [b0, b1, b2]
  {
    var x1 := (b0 - 0xE0) * 0x40 + (b1 - 0x80);
    SixBits(x1, b2 - 0x80);
    SixBits(b0 - 0xE0, b1 - 0x80);
  }

  /** A well-formed four-byte sequence is the encoding of its value. */
  lemma EncodeFour(b0: int, b1: int, b2: int, b3: int)
    requires 0xF0 <= b0 < 0xF8 && 0x80 <= b1 < 0xC0 && 0x80 <= b2 < 0xC0 && 0x80 <= b3 < 0xC0
    requires var v := (((b0 - 0xF0) * 0x40 + (b1 - 0x80)) * 0x40 + (b2 - 0x80)) * 0x40 + (b3 - 0x80);
             0x10000 <= v <= 0x10FFFF
    ensures EncodeRune((((b0 - 0xF0) * 0x40 + (b1 - 0x80)) * 0x40 + (b2 - 0x80)) * 0x40 + (b3 - 0x80))
            == [b0, b1, b2, b3]
  {
    var x1 := (b0 - 0xF0) * 0x40 + (b1 - 0x80);
    var x2 := x1 * 0x40 + (b2 - 0x80);
    SixBits(x2, b3 - 0x80);
    SixBits(x1, b2 - 0x80);
    SixBits(b0 - 0xF0, b1 - 0x80);
  }

  /** A successfully decoded first code point occupies exactly its encoding. */
  lemma EncodeRuneOfDecodeRune(bs: seq<Byte>)
    requires DecodeRune(bs).Some?
    ensures bs[..DecodeRune(bs).value.1] == EncodeRune(DecodeRune(bs).value.0)
  {
    var b0: int := bs[0];
    if b0 < 0x80 {
      assert bs[..1] == [bs[0]];
    } else if b0 < 0xE0 {
      EncodeTwo(b0, bs[1]);
      assert bs[..2] == [bs[0], bs[1]];
    } else if b0 < 0xF0 {
      EncodeThree(b0, bs[1], bs[2]);
      assert bs[..3] == [bs[0], bs[1], bs[2]];
    } else {
      EncodeFour(b0, bs[1], bs[2], bs[3]);
      assert bs[..4] == [bs[0], bs[1], bs[2], bs[3]];
    }
  }

  /** Round trip: every string of scalar values decodes from its encoding. */
  lemma {:induction false} DecodeEncode(s: seq<Rune>)
    ensures Decode(Encode(s)) == Some(s)
    decreases |s|
  {
    if s != [] {
      var c, rest := s[0], s[1..];
      var bs := Encode(s);
      assert bs == EncodeRune(c) + Encode(rest);
      DecodeRuneOfEncodeRune(c, Encode(rest));
      assert bs[Width(c)..] == Encode(rest);
      DecodeEncode(rest);
      assert s == [c] + rest;
    }
  }

  /** Encoding a string front to back: the first code point's bytes, then the rest. */
  lemma EncodeCons(c: Rune, s: seq<Rune>)
    ensures Encode([c] + s) == EncodeRune(c) + Encode(s)
  {
    assert ([c] + s)[1..] == s;
  }

  /** One step of a successful decode: the first code point, which occupies
      exactly its encoding, then the decoded rest. */
  lemma DecodeSplit(bs: seq<Byte>) returns (c: Rune, w: nat, rest: seq<Rune>)
    requires bs != [] && Decode(bs).Some?
    ensures w <= |bs| && Decode(bs[w..]) == Some(rest)
    ensures Decode(bs).value == [c] + rest
    ensures Encode(Decode(bs).value) == bs[..w] + Encode(rest)
  {
    c, w := DecodeRune(bs).value.0, DecodeRune(bs).value.1;
    rest := Decode(bs[w..]).value;
    EncodeRuneOfDecodeRune(bs);
    EncodeCons(c, rest);
  }

  /** Bytes that agree with both halves of a split are the whole. */
  lemma Rejoin(bs: seq<Byte>, w: nat, whole: seq<Byte>, tail: seq<Byte>)
    requires w <= |bs| && whole == bs[..w] + tail && tail == bs[w..]
    ensures whole == bs
  {
  }

  /** Round trip the other way: a byte string that decodes is the encoding of
      what it decodes to, so a well-formed Go string and its code points
      determine each other. */
  lemma {:induction false} EncodeDecode(bs: seq<Byte>)
    requires Decode(bs).Some?
    ensures Encode(Decode(bs).value) == bs
    decreases |bs|
  {
    if bs != [] {
      var c, w, rest := DecodeSplit(bs);
      EncodeDecode(bs[w..]);
      Rejoin(bs, w, Encode(Decode(bs).value), Encode(rest));
    }
  }

  /** Every code point takes between one and four bytes. */
  lemma {:induction false} ByteLenBounds(s: seq<Rune>)
    ensures |s| <= ByteLen(s) <= 4 * |s|
    ensures ByteLen(s) == |s| <==> forall k :: 0 <= k < |s| ==> s[k] < 0x80
    decreases |s|
  {
    if s != [] {
      ByteLenBounds(s[1..]);
      assert forall k :: 0 <= k < |s| - 1 ==> s[1..][k] == s[k + 1];
    }
  }
}

/** A reference UTF-8 encoder, as in section 3 of RFC 3629, against which the
    encoder used for `\u` and `\U` escapes is compared. */
module Utf8 {
  import opened Syntax

  const MaxCodePoint: nat := 0x10FFFF

  /** A Unicode scalar value: a code point up to 0x10FFFF that is not a
      surrogate (0xD800 to 0xDFFF). RFC 3629 encodes exactly these. */
  predicate IsScalarValue(cp: nat) {
    cp <= MaxCodePoint && !(0xD800 <= cp <= 0xDFFF)
  }

  /** The number of bytes RFC 3629 uses for a code point. */
  function Width(cp: nat): (n: nat)
    requires cp <= MaxCodePoint
    ensures 1 <= n <= 4
  {
    if cp < 0x80 then 1 else if cp < 0x800 then 2 else if cp < 0x10000 then 3 else 4
  }

  /** A continuation byte, 10xxxxxx. */
  predicate IsContinuation(b: Byte) {
    0x80 <= b as int < 0xC0
  }

  /** The first byte of an `n`-byte sequence: 0xxxxxxx, 110xxxxx, 1110xxxx or 11110xxx. */
  predicate IsLead(b: Byte, n: nat) {
    if n == 1 then b as int < 0x80
    else if n == 2 then 0xC0 <= b as int < 0xE0
    else if n == 3 then 0xE0 <= b as int < 0xF0
    else n == 4 && 0xF0 <= b as int < 0xF8
  }

  /** The UTF-8 bytes of a code point: a lead byte that announces the length,
      then continuation bytes carrying six bits each, most significant first. */
  function Encode(cp: nat): (b: Bytes)
    requires IsScalarValue(cp)
    ensures |b| == Width(cp)
    ensures IsLead(b[0], |b|)
    ensures forall k :: 1 <= k < |b| ==> IsContinuation(b[k])
  {
    var c1 := cp / 64;
    var c2 := c1 / 64;
    var c3 := c2 / 64;
    if cp < 0x80 then [Chr(cp)]
    else if cp < 0x800 then [Chr(0xC0 + c1), Chr(0x80 + cp % 64)]
    else if cp < 0x10000 then [Chr(0xE0 + c2), Chr(0x80 + c1 % 64), Chr(0x80 + cp % 64)]
    else [Chr(0xF0 + c3), Chr(0x80 + c2 % 64), Chr(0x80 + c1 % 64), Chr(0x80 + cp % 64)]
  }

  /** The code point of one encoded sequence: the payload bits of the lead byte
      followed by six bits from each continuation byte. */
  function Decode(b: Bytes): nat
    requires 1 <= |b| <= 4
  {
    if |b| == 1 then b[0] as nat
    else if |b| == 2 then (b[0] as nat % 32) * 64 + b[1] as nat % 64
    else if |b| == 3 then ((b[0] as nat % 16) * 64 + b[1] as nat % 64) * 64 + b[2] as nat % 64
    else (((b[0] as nat % 8) * 64 + b[1] as nat % 64) * 64 + b[2] as nat % 64) * 64 + b[3] as nat % 64
  }

  /** Splitting off the low six bits. */
  lemma Split64(n: nat)
    ensures n == (n / 64) * 64 + n % 64 && n % 64 < 64
  {
  }

  /** A continuation byte 0x80 + x keeps x in its low six bits. */
  lemma Mod64(k: nat, x: nat)
    requires x < 64
    ensures (k * 64 + x) % 64 == x
  {
  }

  /** Decoding an encoded code point gives it back. */
  lemma DecodeEncode(cp: nat)
    requires IsScalarValue(cp)
    ensures Decode(Encode(cp)) == cp
  {
    if cp < 0x80 {
    } else if cp < 0x800 {
      DecodeEncodeTwo(cp);
    } else if cp < 0x10000 {
      DecodeEncodeThree(cp);
    } else {
      DecodeEncodeFour(cp);
    }
  }

  lemma DecodeEncodeTwo(cp: nat)
    requires 0x80 <= cp < 0x800
    ensures Decode(Encode(cp)) == cp
  {
    var b := Encode(cp);
    Split64(cp);
    Mod64(2, cp % 64);
    assert b[0] as nat % 32 == cp / 64;
    assert b[1] as nat % 64 == cp % 64;
  }

  lemma DecodeEncodeThree(cp: nat)
    requires 0x800 <= cp < 0x10000 && IsScalarValue(cp)
    ensures Decode(Encode(cp)) == cp
  {
    var b := Encode(cp);
    var c1 := cp / 64;
    Split64(cp);
    Split64(c1);
    Mod64(2, cp % 64);
    Mod64(2, c1 % 64);
    assert b[0] as nat % 16 == c1 / 64;
    assert b[1] as nat % 64 == c1 % 64;
    assert b[2] as nat % 64 == cp % 64;
  }

  lemma DecodeEncodeFour(cp: nat)
    requires 0x10000 <= cp <= MaxCodePoint
    ensures Decode(Encode(cp)) == cp
  {
    var b := Encode(cp);
    var c1 := cp / 64;
    var c2 := c1 / 64;
    Split64(cp);
    Split64(c1);
    Split64(c2);
    Mod64(2, cp % 64);
    Mod64(2, c1 % 64);
    Mod64(2, c2 % 64);
    assert b[0] as nat % 8 == c2 / 64;
    assert b[1] as nat % 64 == c2 % 64;
    assert b[2] as nat % 64 == c1 % 64;
    assert b[3] as nat % 64 == cp % 64;
  }
}

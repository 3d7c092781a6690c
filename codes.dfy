/**
  Shortcode generation (`generateCode`, backend/index.js): random bytes written in the
  base64url alphabet of section 5 of RFC 4648 without padding, then cut to as many
  characters as there were bytes. The random bytes are an input; the decoder below is
  not part of the service, it is the inverse that shows the encoding loses nothing.
*/
module Codes {
  import opened Wrappers

  /** One octet, as `crypto.randomBytes` yields it. */
  type byte = x: int | 0 <= x < 256

  /** A 6-bit value; one character of the encoding stands for one. */
  type sextet = x: int | 0 <= x < 64

  /** The length `generateCode` uses when called without an argument. */
  const DefaultCodeLength: nat := 6

  /** What one `generateCode()` call draws: `crypto.randomBytes(6)`. */
  type Draw = b: seq<byte> | |b| == DefaultCodeLength witness [0, 0, 0, 0, 0, 0]

  /** The 64 characters of the URL- and filename-safe alphabet. */
  predicate IsUrlSafeChar(c: char) {
    ('A' <= c <= 'Z') || ('a' <= c <= 'z') || ('0' <= c <= '9') || c == '-' || c == '_'
  }

  predicate IsUrlSafe(s: string) {
    forall i :: 0 <= i < |s| ==> IsUrlSafeChar(s[i])
  }

  /** The character that stands for `v`: `A`-`Z`, `a`-`z`, `0`-`9`, then `-` and `_`. */
  function Digit(v: sextet): (c: char)
    ensures IsUrlSafeChar(c)
  {
    if v < 26 then ('A' as int + v) as char
    else if v < 52 then ('a' as int + (v - 26)) as char
    else if v < 62 then ('0' as int + (v - 52)) as char
    else if v == 62 then '-'
    else '_'
  }

  /**
    The value a character of the alphabet stands for: with `Digit`, a bijection between
    sextets and the alphabet. Other characters read as 0; `Decode` rejects them first.
  */
  function DigitValue(c: char): (v: sextet)
    ensures IsUrlSafeChar(c) ==> Digit(v) == c
  {
    if 'A' <= c <= 'Z' then c as int - 'A' as int
    else if 'a' <= c <= 'z' then c as int - 'a' as int + 26
    else if '0' <= c <= '9' then c as int - '0' as int + 52
    else if c == '-' then 62
    else if c == '_' then 63
    else 0
  }

  lemma DigitValueOfDigit(v: sextet)
    ensures DigitValue(Digit(v)) == v
  {
  }

  /** Number of characters of the unpadded encoding of `n` bytes. */
  function EncodedLength(n: nat): nat {
    4 * (n / 3) + (if n % 3 == 0 then 0 else n % 3 + 1)
  }

  /*
    Three bytes a, b, c hold 24 bits that read as four 6-bit values:
      SextetA(a) = a's top 6 bits, SextetB(a, b) = a's low 2 bits and b's top 4,
      SextetC(b, c) = b's low 4 bits and c's top 2, SextetD(c) = c's low 6 bits.
    OctetA, OctetB and OctetC put the bytes back together from them.
  */
  function SextetA(a: byte): sextet { a / 4 }
  function SextetB(a: byte, b: byte): sextet { a % 4 * 16 + b / 16 }
  function SextetC(b: byte, c: byte): sextet { b % 16 * 4 + c / 64 }
  function SextetD(c: byte): sextet { c % 64 }

  function OctetA(w: sextet, x: sextet): byte { w * 4 + x / 16 }
  function OctetB(x: sextet, y: sextet): byte { x % 16 * 16 + y / 4 }
  function OctetC(y: sextet, z: sextet): byte { y % 4 * 64 + z }

  /** Recombining the 6-bit values of three bytes gives the bytes back. */
  lemma GroupArithmetic(a: byte, b: byte, c: byte)
    ensures OctetA(SextetA(a), SextetB(a, b)) == a
    ensures OctetB(SextetB(a, b), SextetC(b, c)) == b
    ensures OctetC(SextetC(b, c), SextetD(c)) == c
  {
  }

  /**
    The bytes cut into 6-bit groups, most significant bits first: every 3 bytes give 4
    groups, a final 2 bytes give 3 and a final byte 2, the missing low bits being zero.
  */
  function Sextets(b: seq<byte>): (s: seq<sextet>)
    ensures |s| == EncodedLength(|b|)
    decreases |b|
  {
    if |b| == 0 then []
    else if |b| == 1 then [SextetA(b[0]), SextetB(b[0], 0)]
    else if |b| == 2 then [SextetA(b[0]), SextetB(b[0], b[1]), SextetC(b[1], 0)]
    else [SextetA(b[0]), SextetB(b[0], b[1]), SextetC(b[1], b[2]), SextetD(b[2])] + Sextets(b[3..])
  }

  /** Bytes put back together from 6-bit groups; a lone final group and left-over bits are dropped. */
  function Octets(s: seq<sextet>): seq<byte>
    decreases |s|
  {
    if |s| <= 1 then []
    else if |s| == 2 then [OctetA(s[0], s[1])]
    else if |s| == 3 then [OctetA(s[0], s[1]), OctetB(s[1], s[2])]
    else [OctetA(s[0], s[1]), OctetB(s[1], s[2]), OctetC(s[2], s[3])] + Octets(s[4..])
  }

  /** `Buffer.toString("base64url")`: unpadded base64url. */
  function Encode(b: seq<byte>): (s: string)
    ensures |s| == EncodedLength(|b|)
    ensures IsUrlSafe(s)
  {
    var v := Sextets(b);
    seq(|v|, i requires 0 <= i < |v| => Digit(v[i]))
  }

  /** The inverse of `Encode`: fails on characters outside the alphabet and on impossible lengths. */
  function Decode(s: string): Option<seq<byte>> {
    if IsUrlSafe(s) && |s| % 4 != 1 then
      Some(Octets(seq(|s|, i requires 0 <= i < |s| => DigitValue(s[i]))))
    else
      None
  }

  /** Putting the 6-bit groups of any byte string back together gives the byte string. */
  lemma {:induction false} OctetsOfSextets(b: seq<byte>)
    ensures Octets(Sextets(b)) == b
    decreases |b|
  {
    if |b| == 0 {
    } else if |b| == 1 {
      assert Octets(Sextets(b)) == [b[0]] == b;
    } else if |b| == 2 {
      GroupArithmetic(b[0], b[1], 0);
      assert Octets(Sextets(b)) == [b[0], b[1]] == b;
    } else {
      var g := [SextetA(b[0]), SextetB(b[0], b[1]), SextetC(b[1], b[2]), SextetD(b[2])];
      var rest := Sextets(b[3..]);
      assert Sextets(b) == g + rest;
      assert (g + rest)[4..] == rest;
      OctetsOfSextets(b[3..]);
      GroupArithmetic(b[0], b[1], b[2]);
      assert Octets(g + rest) == [b[0], b[1], b[2]] + b[3..];
      assert [b[0], b[1], b[2]] + b[3..] == b;
    }
  }

  /** No unpadded encoding has a length of the form 4k + 1. */
  lemma EncodedLengthIsDecodable(n: nat)
    ensures EncodedLength(n) % 4 != 1
  {
  }

  /** Writing 6-bit values as characters and decoding the result reads the values back as bytes. */
  lemma DecodeDigits(v: seq<sextet>)
    requires |v| % 4 != 1
    ensures Decode(seq(|v|, i requires 0 <= i < |v| => Digit(v[i]))) == Some(Octets(v))
  {
    var s := seq(|v|, i requires 0 <= i < |v| => Digit(v[i]));
    var w := seq(|s|, i requires 0 <= i < |s| => DigitValue(s[i]));
    forall i | 0 <= i < |s|
      ensures w[i] == v[i]
    {
      DigitValueOfDigit(v[i]);
    }
    assert w == v;
  }

  /** Encoding is lossless: decoding the encoding of any byte string gives it back. */
  lemma DecodeEncode(b: seq<byte>)
    ensures Decode(Encode(b)) == Some(b)
  {
    EncodedLengthIsDecodable(|b|);
    DecodeDigits(Sextets(b));
    OctetsOfSextets(b);
  }

  /** The unpadded encoding of `n` bytes never has fewer than `n` characters. */
  lemma EncodingCoversLength(n: nat)
    ensures EncodedLength(n) >= n
  {
  }

  /** `String.prototype.slice(0, end)` for a non-negative `end`: clamps at the string's length. */
  function SliceTo(s: string, end: nat): (r: string)
    ensures r <= s && |r| == if end <= |s| then end else |s|
  {
    if end <= |s| then s[..end] else s
  }

  /** `generateCode(length)` with `random` the `length` bytes drawn from `crypto.randomBytes`. */
  function GenerateCode(random: seq<byte>): (code: string)
    ensures |code| == |random|
    ensures IsUrlSafe(code)
  {
    EncodingCoversLength(|random|);
    SliceTo(Encode(random), |random|)
  }

  /**
    The 6 characters of a default-length code hold 36 of the 48 random bits: decoding the
    code gives back exactly the first four random bytes.
  */
  lemma DefaultCodeCarriesFourBytes(random: seq<byte>)
    requires |random| == DefaultCodeLength
    ensures Decode(GenerateCode(random)) == Some(random[..4])
  {
    var a := [SextetA(random[0]), SextetB(random[0], random[1]), SextetC(random[1], random[2]), SextetD(random[2])];
    var b := [SextetA(random[3]), SextetB(random[3], random[4]), SextetC(random[4], random[5]), SextetD(random[5])];
    assert Sextets(random[3..]) == b + Sextets(random[3..][3..]);
    assert Sextets(random) == a + b;
    var v := a + b[..2];
    assert GenerateCode(random) == seq(|v|, i requires 0 <= i < |v| => Digit(v[i]));
    DecodeDigits(v);
    SixSextets(random[0], random[1], random[2], random[3], random[4]);
    assert random[..4] == [random[0], random[1], random[2], random[3]];
  }

  /** Six 6-bit values, the first four from whole bytes: they give back four bytes. */
  lemma SixSextets(r0: byte, r1: byte, r2: byte, r3: byte, r4: byte)
    ensures Octets([SextetA(r0), SextetB(r0, r1), SextetC(r1, r2), SextetD(r2), SextetA(r3), SextetB(r3, r4)])
            == [r0, r1, r2, r3]
  {
    var v := [SextetA(r0), SextetB(r0, r1), SextetC(r1, r2), SextetD(r2), SextetA(r3), SextetB(r3, r4)];
    GroupArithmetic(r0, r1, r2);
    GroupArithmetic(r3, r4, 0);
    assert v[4..] == [SextetA(r3), SextetB(r3, r4)];
  }
}

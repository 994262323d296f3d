/**
  Byte strings and the two text encodings a signature goes through:
  lowercase hexadecimal (Go's `hex.EncodeToString`) and standard base64 with
  `=` padding (Go's `base64.StdEncoding`, the encoding of section 4 of
  RFC 4648). Each encoder has a decoder beside it and a round-trip lemma, so
  that the encoders are known to lose no information.
*/
module Codec {
  import opened Wrappers

  /** Go's `byte`. A Go `string` is an immutable sequence of these. */
  type byte = bv8
  type Bytes = seq<byte>

  // ASCII codes of the characters the encodings use.
  const CharZero: byte := 0x30       // '0'
  const CharUpperA: byte := 0x41     // 'A'
  const CharLowerA: byte := 0x61     // 'a'
  const CharPlus: byte := 0x2B       // '+'
  const CharSlash: byte := 0x2F      // '/'
  const CharPad: byte := 0x3D        // '='
  const CharColon: byte := 0x3A      // ':'

  function Zeros(n: nat): (z: Bytes)
    ensures |z| == n
    ensures forall i :: 0 <= i < n ==> z[i] == 0
  {
    seq(n, _ => 0)
  }

  /** The bytes of a Go string literal; every literal in this model is ASCII. */
  function Ascii(s: string): Bytes
  {
    seq(|s|, i requires 0 <= i < |s| => ((s[i] as int) % 256) as bv8)
  }

  // ---------------------------------------------------------------------
  // Hexadecimal, lowercase, two digits per byte (high nibble first)
  // ---------------------------------------------------------------------

  predicate IsLowerHexDigit(c: byte)
  {
    CharZero <= c <= CharZero + 9 || CharLowerA <= c <= CharLowerA + 5
  }

  /** The value of a lowercase hexadecimal digit. */
  function HexValue(c: byte): (v: Option<byte>)
    ensures v.Some? <==> IsLowerHexDigit(c)
    ensures v.Some? ==> v.value < 16
  {
    if CharZero <= c <= CharZero + 9 then Some(c - CharZero)
    else if CharLowerA <= c <= CharLowerA + 5 then Some(c - CharLowerA + 10)
    else None
  }

  /** The lowercase digit of a nibble; `HexValue` reads it back. */
  function HexDigit(n: byte): (c: byte)
    requires n < 16
    ensures IsLowerHexDigit(c) && HexValue(c) == Some(n)
  {
    if n < 10 then CharZero + n else CharLowerA + (n - 10)
  }

  function HexEncode(s: Bytes): (r: Bytes)
    ensures |r| == 2 * |s|
    ensures forall i :: 0 <= i < |r| ==> IsLowerHexDigit(r[i])
  {
    if s == [] then []
    else [HexDigit(s[0] >> 4), HexDigit(s[0] & 0x0F)] + HexEncode(s[1..])
  }

  /** The inverse of `HexEncode`: `None` on odd length or a non-digit. */
  function HexDecode(s: Bytes): Option<Bytes>
  {
    if |s| == 0 then Some([])
    else if |s| == 1 then None
    else
      match (HexValue(s[0]), HexValue(s[1]), HexDecode(s[2..]))
      case (Some(hi), Some(lo), Some(rest)) => Some([(hi << 4) | lo] + rest)
      case _ => None
  }

  lemma {:induction false} HexRoundTrip(s: Bytes)
    ensures HexDecode(HexEncode(s)) == Some(s)
  {
    if s != [] {
      var e := HexEncode(s);
      assert e[2..] == HexEncode(s[1..]);
      HexRoundTrip(s[1..]);
      var b := s[0];
      assert ((b >> 4) << 4) | (b & 0x0F) == b;
      assert [b] + s[1..] == s;
    }
  }

  /** A digit is the digit of its own value. */
  lemma HexDigitOfValue(c: byte)
    requires IsLowerHexDigit(c)
    ensures HexDigit(HexValue(c).value) == c
  {
  }

  /** A byte joined from two nibbles splits back into them. */
  lemma NibblesSplit(hi: byte, lo: byte)
    requires hi < 16 && lo < 16
    ensures ((hi << 4) | lo) >> 4 == hi && ((hi << 4) | lo) & 0x0F == lo
  {
  }

  /** Hex decoding accepts only the text `HexEncode` writes: any text that
      decodes is the encoding of what it decodes to. */
  lemma {:induction false} HexCanonical(t: Bytes, s: Bytes)
    requires HexDecode(t) == Some(s)
    ensures HexEncode(s) == t
    decreases |t|
  {
    if |t| != 0 {
      var hi, lo := HexValue(t[0]).value, HexValue(t[1]).value;
      var rest := HexDecode(t[2..]).value;
      assert s == [(hi << 4) | lo] + rest;
      HexCanonical(t[2..], rest);
      NibblesSplit(hi, lo);
      HexDigitOfValue(t[0]);
      HexDigitOfValue(t[1]);
      assert s[1..] == rest;
      assert [t[0], t[1]] + t[2..] == t;
    }
  }

  /** Test vector: the bytes 0x0f 0xa0 encode to "0fa0", high nibble
      first, lowercase letters, leading zero kept. */
  lemma HexVectors()
    ensures HexEncode([0x0F, 0xA0]) == [0x30, 0x66, 0x61, 0x30]
    ensures HexEncode([]) == []
  {
    assert HexEncode([0x0F, 0xA0]) == [HexDigit(0x00), HexDigit(0x0F)] + HexEncode([0xA0]);
    assert HexEncode([0xA0]) == [HexDigit(0x0A), HexDigit(0x00)] + HexEncode([]);
  }

  // ---------------------------------------------------------------------
  // Base64, standard alphabet (RFC 4648, section 4, Table 1), `=` padding
  // ---------------------------------------------------------------------

  predicate IsBase64Char(c: byte)
  {
    || CharUpperA <= c <= CharUpperA + 25
    || CharLowerA <= c <= CharLowerA + 25
    || CharZero <= c <= CharZero + 9
    || c == CharPlus
    || c == CharSlash
  }

  /** The 6-bit value of an alphabet character. */
  function Base64Value(c: byte): (v: Option<byte>)
    ensures v.Some? <==> IsBase64Char(c)
    ensures v.Some? ==> v.value < 64
  {
    if CharUpperA <= c <= CharUpperA + 25 then Some(c - CharUpperA)
    else if CharLowerA <= c <= CharLowerA + 25 then Some(c - CharLowerA + 26)
    else if CharZero <= c <= CharZero + 9 then Some(c - CharZero + 52)
    else if c == CharPlus then Some(62)
    else if c == CharSlash then Some(63)
    else None
  }

  /** The alphabet character of a 6-bit value; `Base64Value` reads it back. */
  function Base64Char(v: byte): (c: byte)
    requires v < 64
    ensures IsBase64Char(c) && Base64Value(c) == Some(v)
  {
    if v < 26 then CharUpperA + v
    else if v < 52 then CharLowerA + (v - 26)
    else if v < 62 then CharZero + (v - 52)
    else if v == 62 then CharPlus
    else CharSlash
  }

  /** Number of `=` characters that end the encoding of `n` bytes. */
  function PadLength(n: nat): nat
  {
    (3 - n % 3) % 3
  }

  /** `r` is base64 text whose last `pad` characters are `=` and whose
      other characters all belong to the alphabet. */
  predicate IsPadded(r: Bytes, pad: nat)
  {
    && pad <= |r|
    && (forall i :: 0 <= i < |r| - pad ==> IsBase64Char(r[i]))
    && (forall i :: |r| - pad <= i < |r| ==> r[i] == CharPad)
  }

  lemma PaddedAfterQuantum(q: Bytes, rest: Bytes, pad: nat)
    requires |q| == 4 && IsPadded(q, 0) && IsPadded(rest, pad)
    ensures IsPadded(q + rest, pad)
  {
    var r := q + rest;
    forall i | 0 <= i < |r| - pad ensures IsBase64Char(r[i]) {
      if i >= 4 { assert r[i] == rest[i - 4]; }
    }
  }

  /** Three more input bytes make one more group and keep the padding. */
  lemma GroupArithmetic(n: nat)
    requires n >= 3
    ensures 4 * ((n - 3 + 2) / 3) + 4 == 4 * ((n + 2) / 3)
    ensures PadLength(n - 3) == PadLength(n)
  {
    assert (n + 2) / 3 == (n - 3 + 2) / 3 + 1;
    assert n % 3 == (n - 3) % 3;
  }

  // The four sextets of three bytes, most significant bits first; a
  // missing byte at the end of the input counts as zero.
  function Sextet0(b0: byte): (v: byte) ensures v < 64 { b0 >> 2 }
  function Sextet1(b0: byte, b1: byte): (v: byte) ensures v < 64 { ((b0 & 0x03) << 4) | (b1 >> 4) }
  function Sextet2(b1: byte, b2: byte): (v: byte) ensures v < 64 { ((b1 & 0x0F) << 2) | (b2 >> 6) }
  function Sextet3(b2: byte): (v: byte) ensures v < 64 { b2 & 0x3F }

  /** Four characters for three bytes: the 24 bits cut into four sextets. */
  function EncodeQuantum(b0: byte, b1: byte, b2: byte): (q: Bytes)
    ensures |q| == 4 && IsPadded(q, 0)
  {
    [ Base64Char(Sextet0(b0)), Base64Char(Sextet1(b0, b1)),
      Base64Char(Sextet2(b1, b2)), Base64Char(Sextet3(b2)) ]
  }

  /** One final byte: two characters and two `=`. */
  function EncodeOneByteTail(b0: byte): (q: Bytes)
    ensures |q| == 4 && IsPadded(q, 2)
  {
    [Base64Char(Sextet0(b0)), Base64Char(Sextet1(b0, 0)), CharPad, CharPad]
  }

  /** Two final bytes: three characters and one `=`. */
  function EncodeTwoByteTail(b0: byte, b1: byte): (q: Bytes)
    ensures |q| == 4 && IsPadded(q, 1)
  {
    [Base64Char(Sextet0(b0)), Base64Char(Sextet1(b0, b1)), Base64Char(Sextet2(b1, 0)), CharPad]
  }

  function Base64Encode(s: Bytes): (r: Bytes)
    ensures |r| == 4 * ((|s| + 2) / 3)
    ensures IsPadded(r, PadLength(|s|))
    decreases |s|
  {
    if |s| == 0 then []
    else if |s| == 1 then EncodeOneByteTail(s[0])
    else if |s| == 2 then EncodeTwoByteTail(s[0], s[1])
    else
      var q, rest := EncodeQuantum(s[0], s[1], s[2]), Base64Encode(s[3..]);
      GroupArithmetic(|s|);
      PaddedAfterQuantum(q, rest, PadLength(|s| - 3));
      q + rest
  }

  // The three bytes a group of four sextets stands for.
  function FirstByte(v0: byte, v1: byte): byte { (v0 << 2) | (v1 >> 4) }
  function SecondByte(v1: byte, v2: byte): byte { ((v1 & 0x0F) << 4) | (v2 >> 2) }
  function ThirdByte(v2: byte, v3: byte): byte { ((v2 & 0x03) << 6) | v3 }

  /** The bits of `v` selected by `mask` are all zero. */
  predicate LowBitsClear(v: byte, mask: byte)
  {
    v & mask == 0
  }

  /** Decodes one group of four characters; only the `last` group may
      carry padding. Decoding is strict, as section 3.5 of RFC 4648 allows:
      the bits of the last character that belong to no byte must be zero,
      so that every byte string has exactly one encoding. */
  function DecodeQuantum(q: Bytes, last: bool): Option<Bytes>
    requires |q| == 4
  {
    var x0, x1, x2, x3 := Base64Value(q[0]), Base64Value(q[1]), Base64Value(q[2]), Base64Value(q[3]);
    if x0.None? || x1.None? then None
    else if last && q[2] == CharPad && q[3] == CharPad then
      if !LowBitsClear(x1.value, 0x0F) then None
      else Some([FirstByte(x0.value, x1.value)])
    else if x2.None? then None
    else if last && q[3] == CharPad then
      if !LowBitsClear(x2.value, 0x03) then None
      else Some([FirstByte(x0.value, x1.value), SecondByte(x1.value, x2.value)])
    else if x3.None? then None
    else
      Some([FirstByte(x0.value, x1.value), SecondByte(x1.value, x2.value), ThirdByte(x2.value, x3.value)])
  }

  /** The inverse of `Base64Encode`: `None` unless the text is a sequence
      of four-character groups over the alphabet, padded only at the end. */
  function Base64Decode(s: Bytes): Option<Bytes>
    decreases |s|
  {
    if |s| == 0 then Some([])
    else if |s| < 4 then None
    else
      match (DecodeQuantum(s[..4], |s| == 4), Base64Decode(s[4..]))
      case (Some(q), Some(rest)) => Some(q + rest)
      case _ => None
  }

  /** Joining the sextets of three bytes gives the bytes back. */
  lemma SextetsRejoin(b0: byte, b1: byte, b2: byte)
    ensures FirstByte(Sextet0(b0), Sextet1(b0, b1)) == b0
    ensures SecondByte(Sextet1(b0, b1), Sextet2(b1, b2)) == b1
    ensures ThirdByte(Sextet2(b1, b2), Sextet3(b2)) == b2
  {
  }

  /** A lone group is decoded as the last one. */
  lemma DecodeLoneQuantum(e: Bytes, b: Bytes)
    requires |e| == 4 && DecodeQuantum(e, true) == Some(b)
    ensures Base64Decode(e) == Some(b)
  {
    assert e[..4] == e && e[4..] == [];
    assert b + [] == b;
  }

  lemma DecodeDoublePadded(c0: byte, c1: byte)
    requires IsBase64Char(c0) && IsBase64Char(c1) && LowBitsClear(Base64Value(c1).value, 0x0F)
    ensures Base64Decode([c0, c1, CharPad, CharPad])
         == Some([FirstByte(Base64Value(c0).value, Base64Value(c1).value)])
  {
    var e := [c0, c1, CharPad, CharPad];
    DecodeLoneQuantum(e, [FirstByte(Base64Value(c0).value, Base64Value(c1).value)]);
  }

  lemma DecodeSinglePadded(c0: byte, c1: byte, c2: byte)
    requires IsBase64Char(c0) && IsBase64Char(c1) && IsBase64Char(c2) && LowBitsClear(Base64Value(c2).value, 0x03)
    ensures Base64Decode([c0, c1, c2, CharPad])
         == Some([FirstByte(Base64Value(c0).value, Base64Value(c1).value),
                  SecondByte(Base64Value(c1).value, Base64Value(c2).value)])
  {
    var e := [c0, c1, c2, CharPad];
    assert c2 != CharPad;
    DecodeLoneQuantum(e, [FirstByte(Base64Value(c0).value, Base64Value(c1).value),
                          SecondByte(Base64Value(c1).value, Base64Value(c2).value)]);
  }

  /** The last sextet of a padded group carries zero bits where no input
      bits are left. */
  lemma TailSextetsClear(b0: byte, b1: byte)
    ensures LowBitsClear(Sextet1(b0, 0), 0x0F)
    ensures LowBitsClear(Sextet2(b1, 0), 0x03)
  {
  }

  lemma DecodeOneByteTail(b0: byte)
    ensures Base64Decode(Base64Encode([b0])) == Some([b0])
  {
    TailSextetsClear(b0, 0);
    DecodeDoublePadded(Base64Char(Sextet0(b0)), Base64Char(Sextet1(b0, 0)));
    SextetsRejoin(b0, 0, 0);
  }

  lemma DecodeTwoByteTail(b0: byte, b1: byte)
    ensures Base64Decode(Base64Encode([b0, b1])) == Some([b0, b1])
  {
    TailSextetsClear(b0, b1);
    DecodeSinglePadded(Base64Char(Sextet0(b0)), Base64Char(Sextet1(b0, b1)), Base64Char(Sextet2(b1, 0)));
    SextetsRejoin(b0, b1, 0);
  }

  lemma DecodeFullQuantum(b0: byte, b1: byte, b2: byte, last: bool)
    ensures DecodeQuantum(EncodeQuantum(b0, b1, b2), last) == Some([b0, b1, b2])
  {
    var q := EncodeQuantum(b0, b1, b2);
    SextetsRejoin(b0, b1, b2);
    assert q[2] != CharPad && q[3] != CharPad;
  }

  /** Decoding reads a leading group on its own, then the rest. */
  lemma DecodeAfterQuantum(q: Bytes, rest: Bytes, b: Bytes, t: Bytes)
    requires |q| == 4
    requires DecodeQuantum(q, rest == []) == Some(b) && Base64Decode(rest) == Some(t)
    ensures Base64Decode(q + rest) == Some(b + t)
  {
    var e := q + rest;
    assert e[..4] == q && e[4..] == rest;
  }

  lemma SplitsAfterThree(s: Bytes)
    requires |s| >= 3
    ensures [s[0], s[1], s[2]] + s[3..] == s
  {
  }

  /** Encoding three bytes ahead of some input puts one group ahead of its
      encoding, and decoding takes the group off again. */
  lemma RoundTripStep(s: Bytes)
    requires |s| >= 3
    requires Base64Decode(Base64Encode(s[3..])) == Some(s[3..])
    ensures Base64Decode(Base64Encode(s)) == Some(s)
  {
    var q, rest := EncodeQuantum(s[0], s[1], s[2]), Base64Encode(s[3..]);
    assert Base64Encode(s) == q + rest;
    DecodeFullQuantum(s[0], s[1], s[2], rest == []);
    DecodeAfterQuantum(q, rest, [s[0], s[1], s[2]], s[3..]);
    SplitsAfterThree(s);
  }

  lemma {:induction false} Base64RoundTrip(s: Bytes)
    ensures Base64Decode(Base64Encode(s)) == Some(s)
    decreases |s|
  {
    if |s| == 0 {
      assert Base64Encode(s) == [];
    } else if |s| == 1 {
      assert [s[0]] == s;
      DecodeOneByteTail(s[0]);
    } else if |s| == 2 {
      assert [s[0], s[1]] == s;
      DecodeTwoByteTail(s[0], s[1]);
    } else {
      Base64RoundTrip(s[3..]);
      RoundTripStep(s);
    }
  }

  /** An alphabet character is the character of its own value. */
  lemma Base64CharOfValue(c: byte)
    requires IsBase64Char(c)
    ensures Base64Char(Base64Value(c).value) == c
  {
  }

  /** Cutting the bytes that four sextets stand for gives the sextets back. */
  lemma SextetsSplit(v0: byte, v1: byte, v2: byte, v3: byte)
    requires v0 < 64 && v1 < 64 && v2 < 64 && v3 < 64
    ensures Sextet0(FirstByte(v0, v1)) == v0
    ensures Sextet1(FirstByte(v0, v1), SecondByte(v1, v2)) == v1
    ensures Sextet2(SecondByte(v1, v2), ThirdByte(v2, v3)) == v2
    ensures Sextet3(ThirdByte(v2, v3)) == v3
  {
  }

  /** In a padded group, a last sextet whose unused bits are zero comes back
      from the bytes with zero bits filled in. */
  lemma PaddedSextetsSplit(v0: byte, v1: byte, v2: byte)
    requires v0 < 64 && v1 < 64 && v2 < 64
    ensures LowBitsClear(v1, 0x0F) ==> Sextet1(FirstByte(v0, v1), 0) == v1
    ensures LowBitsClear(v2, 0x03) ==> Sextet2(SecondByte(v1, v2), 0) == v2
  {
  }

  /** A full group of alphabet characters is the encoding of the three
      bytes it decodes to. */
  lemma EncodeDecodedFull(c0: byte, c1: byte, c2: byte, c3: byte)
    requires IsBase64Char(c0) && IsBase64Char(c1) && IsBase64Char(c2) && IsBase64Char(c3)
    ensures
      var v0, v1, v2, v3 := Base64Value(c0).value, Base64Value(c1).value, Base64Value(c2).value, Base64Value(c3).value;
      EncodeQuantum(FirstByte(v0, v1), SecondByte(v1, v2), ThirdByte(v2, v3)) == [c0, c1, c2, c3]
  {
    var v0, v1, v2, v3 := Base64Value(c0).value, Base64Value(c1).value, Base64Value(c2).value, Base64Value(c3).value;
    SextetsSplit(v0, v1, v2, v3);
    Base64CharOfValue(c0);
    Base64CharOfValue(c1);
    Base64CharOfValue(c2);
    Base64CharOfValue(c3);
  }

  /** A group with one `=` is the encoding of the two bytes it decodes to. */
  lemma EncodeDecodedSingle(c0: byte, c1: byte, c2: byte)
    requires IsBase64Char(c0) && IsBase64Char(c1) && IsBase64Char(c2) && LowBitsClear(Base64Value(c2).value, 0x03)
    ensures
      var v0, v1, v2 := Base64Value(c0).value, Base64Value(c1).value, Base64Value(c2).value;
      EncodeTwoByteTail(FirstByte(v0, v1), SecondByte(v1, v2)) == [c0, c1, c2, CharPad]
  {
    var v0, v1, v2 := Base64Value(c0).value, Base64Value(c1).value, Base64Value(c2).value;
    SextetsSplit(v0, v1, v2, 0);
    PaddedSextetsSplit(v0, v1, v2);
    Base64CharOfValue(c0);
    Base64CharOfValue(c1);
    Base64CharOfValue(c2);
  }

  /** A group with two `=` is the encoding of the byte it decodes to. */
  lemma EncodeDecodedDouble(c0: byte, c1: byte)
    requires IsBase64Char(c0) && IsBase64Char(c1) && LowBitsClear(Base64Value(c1).value, 0x0F)
    ensures
      var v0, v1 := Base64Value(c0).value, Base64Value(c1).value;
      EncodeOneByteTail(FirstByte(v0, v1)) == [c0, c1, CharPad, CharPad]
  {
    var v0, v1 := Base64Value(c0).value, Base64Value(c1).value;
    SextetsSplit(v0, v1, 0, 0);
    PaddedSextetsSplit(v0, v1, 0);
    Base64CharOfValue(c0);
    Base64CharOfValue(c1);
  }

  /** A group that decodes is the encoding of its bytes: three bytes from a
      full group, and one or two only from a padded last group. */
  lemma EncodeDecodedQuantum(q: Bytes, last: bool, b: Bytes)
    requires |q| == 4 && DecodeQuantum(q, last) == Some(b)
    ensures 1 <= |b| <= 3
    ensures |b| == 3 ==> EncodeQuantum(b[0], b[1], b[2]) == q
    ensures |b| == 2 ==> last && EncodeTwoByteTail(b[0], b[1]) == q
    ensures |b| == 1 ==> last && EncodeOneByteTail(b[0]) == q
  {
    if last && q[2] == CharPad && q[3] == CharPad {
      EncodeDecodedDouble(q[0], q[1]);
    } else if last && q[3] == CharPad {
      EncodeDecodedSingle(q[0], q[1], q[2]);
    } else {
      EncodeDecodedFull(q[0], q[1], q[2], q[3]);
    }
  }

  /** Base64 decoding accepts only the text `Base64Encode` writes: any text
      that decodes is the encoding of what it decodes to. */
  lemma {:induction false} Base64Canonical(t: Bytes, s: Bytes)
    requires Base64Decode(t) == Some(s)
    ensures Base64Encode(s) == t
    decreases |t|
  {
    if |t| != 0 {
      var b := DecodeQuantum(t[..4], |t| == 4).value;
      var rest := Base64Decode(t[4..]).value;
      assert s == b + rest;
      Base64Canonical(t[4..], rest);
      EncodeDecodedQuantum(t[..4], |t| == 4, b);
      assert t[..4] + t[4..] == t;
      if |b| == 3 {
        assert s[3..] == rest;
      } else {
        assert rest == [] && s == b;
        assert t[..4] == t;
      }
    }
  }

  /** Test vectors of section 10 of RFC 4648: "f", "fo", "foo" encode to
      "Zg==", "Zm8=", "Zm9v". */
  lemma Base64Vectors()
    ensures Base64Encode([0x66]) == [0x5A, 0x67, CharPad, CharPad]
    ensures Base64Encode([0x66, 0x6F]) == [0x5A, 0x6D, 0x38, CharPad]
    ensures Base64Encode([0x66, 0x6F, 0x6F]) == [0x5A, 0x6D, 0x39, 0x76]
  {
    assert [0x66, 0x6F, 0x6F][3..] == [];
  }
}

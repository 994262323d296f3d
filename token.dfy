/**
  The signature token: the HMAC digest written as lowercase hexadecimal,
  and that text's bytes written as padded standard base64. All three copies
  of `generateHMAC` end with these two steps.
*/
module Token {
  import opened Wrappers
  import opened Codec
  import opened HmacSha512

  /** Length of the token of a 64-byte digest: base64 of 128 hex digits. */
  const TokenLength: nat := 172

  /** `hex.EncodeToString`, then `base64.StdEncoding.EncodeToString` of the
      hex text's bytes. */
  function Encode(digest: Bytes): (t: Bytes)
    ensures |t| == 4 * ((2 * |digest| + 2) / 3)
    ensures IsPadded(t, PadLength(2 * |digest|))
  {
    Base64Encode(HexEncode(digest))
  }

  /** Reads a token back: base64-decodes it, then hex-decodes the text. */
  function Decode(t: Bytes): Option<Bytes>
  {
    match Base64Decode(t)
    case None => None
    case Some(hex) => HexDecode(hex)
  }

  lemma RoundTrip(digest: Bytes)
    ensures Decode(Encode(digest)) == Some(digest)
  {
    Base64RoundTrip(HexEncode(digest));
    HexRoundTrip(digest);
  }

  /** The double encoding loses nothing: two tokens are equal exactly when
      their digests are. */
  lemma EncodeInjective(d1: Bytes, d2: Bytes)
    ensures Encode(d1) == Encode(d2) <==> d1 == d2
  {
    if Encode(d1) == Encode(d2) {
      RoundTrip(d1);
      RoundTrip(d2);
    }
  }

  /** 171 characters of the standard base64 alphabet followed by exactly
      one `=`. */
  predicate IsToken(t: Bytes)
  {
    && |t| == TokenLength
    && (forall i :: 0 <= i < TokenLength - 1 ==> IsBase64Char(t[i]))
    && t[TokenLength - 1] == CharPad
  }

  /** The token of a digest has the shape of a token, and `=` occurs in it
      only as its last character. */
  lemma DigestTokenShape(digest: Bytes)
    requires |digest| == DigestSize
    ensures IsToken(Encode(digest))
    ensures forall i :: 0 <= i < |Encode(digest)| ==> (Encode(digest)[i] == CharPad <==> i == TokenLength - 1)
  {
    var t := Encode(digest);
    assert PadLength(2 * |digest|) == 1;
    assert !IsBase64Char(CharPad);
  }

  /** The token of an HMAC; its decoding gives the HMAC back. */
  function Sign(sha: Sha512, key: Bytes, message: Bytes): (t: Bytes)
    ensures IsToken(t)
    ensures Decode(t) == Some(Hmac(sha, key, message))
  {
    var mac := Hmac(sha, key, message);
    DigestTokenShape(mac);
    RoundTrip(mac);
    Encode(mac)
  }

  /** Two tokens computed with one key agree exactly when the HMACs do. */
  lemma SignEqualIffHmacEqual(sha: Sha512, k1: Bytes, m1: Bytes, k2: Bytes, m2: Bytes)
    ensures Sign(sha, k1, m1) == Sign(sha, k2, m2) <==> Hmac(sha, k1, m1) == Hmac(sha, k2, m2)
  {
    EncodeInjective(Hmac(sha, k1, m1), Hmac(sha, k2, m2));
  }

  /** A token is fixed by its digest: the only text that decodes to a
      digest is the encoding of that digest. */
  lemma DecodeIffEncode(t: Bytes, digest: Bytes)
    ensures Decode(t) == Some(digest) <==> t == Encode(digest)
  {
    if Decode(t) == Some(digest) {
      var hex := Base64Decode(t).value;
      HexCanonical(hex, digest);
      Base64Canonical(t, hex);
    }
    if t == Encode(digest) {
      RoundTrip(digest);
    }
  }

  /** Whatever decodes to the HMAC of a message under a key is exactly the
      token `Sign` computes for them. */
  lemma SignDeterminedByHmac(sha: Sha512, key: Bytes, message: Bytes, t: Bytes)
    ensures Decode(t) == Some(Hmac(sha, key, message)) <==> t == Sign(sha, key, message)
  {
    DecodeIffEncode(t, Hmac(sha, key, message));
  }
}

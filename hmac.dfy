/**
  HMAC-SHA512 as Go's `hmac.New(sha512.New, key)` computes it, following
  section 2 of RFC 2104. SHA-512 itself is not modelled: it is any function
  from messages to 64-byte digests, passed in by the caller.
*/
module HmacSha512 {
  import opened Codec

  /** SHA-512's block size B and output length L, in bytes. */
  const BlockSize: nat := 128
  const DigestSize: nat := 64

  const InnerPad: byte := 0x36
  const OuterPad: byte := 0x5C

  /** An uninterpreted SHA-512: any function whose digests are 64 bytes. */
  type Sha512 = f: Bytes -> Bytes | forall m :: |f(m)| == DigestSize
    witness (m: Bytes) => Zeros(DigestSize)

  /** The key as one block: a key longer than B is first hashed, then the
      key is padded with zero bytes to B bytes. */
  function BlockKey(sha: Sha512, key: Bytes): (k0: Bytes)
    ensures |k0| == BlockSize
    ensures |key| <= BlockSize ==> k0[..|key|] == key
    ensures |key| <= BlockSize ==> forall i :: |key| <= i < BlockSize ==> k0[i] == 0
    ensures |key| > BlockSize ==> k0[..DigestSize] == sha(key)
    ensures |key| > BlockSize ==> forall i :: DigestSize <= i < BlockSize ==> k0[i] == 0
  {
    var k := if |key| > BlockSize then sha(key) else key;
    k + Zeros(BlockSize - |k|)
  }

  /** Each byte of the block key combined with a pad byte. */
  function XorPad(k0: Bytes, pad: byte): (r: Bytes)
    ensures |r| == |k0|
  {
    seq(|k0|, i requires 0 <= i < |k0| => k0[i] ^ pad)
  }

  /** H(K0 ^ opad || H(K0 ^ ipad || text)). */
  function Hmac(sha: Sha512, key: Bytes, text: Bytes): (mac: Bytes)
    ensures |mac| == DigestSize
  {
    var k0 := BlockKey(sha, key);
    sha(XorPad(k0, OuterPad) + sha(XorPad(k0, InnerPad) + text))
  }

  /** Zero bytes appended to a short key change nothing: such a key is
      padded to the same block. */
  lemma ZeroExtendedKeyAgrees(sha: Sha512, key: Bytes, n: nat, text: Bytes)
    requires |key| + n <= BlockSize
    ensures Hmac(sha, key + Zeros(n), text) == Hmac(sha, key, text)
  {
    var k1, k2 := BlockKey(sha, key + Zeros(n)), BlockKey(sha, key);
    forall i | 0 <= i < BlockSize ensures k1[i] == k2[i] {
      if i < |key| {
        assert k1[i] == k1[..|key| + n][i] == (key + Zeros(n))[i];
      } else if i < |key| + n {
        assert k1[i] == k1[..|key| + n][i] == (key + Zeros(n))[i];
      }
    }
    assert k1 == k2;
  }

  /** An empty key is not special: it is the all-zero block key, the same
      as any key made only of up to B zero bytes. */
  lemma EmptyKeyIsZeroKey(sha: Sha512, n: nat, text: Bytes)
    requires n <= BlockSize
    ensures BlockKey(sha, []) == Zeros(BlockSize)
    ensures Hmac(sha, [], text) == Hmac(sha, Zeros(n), text)
  {
    assert [] + Zeros(n) == Zeros(n);
    ZeroExtendedKeyAgrees(sha, [], n, text);
  }
}

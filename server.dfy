/**
  The server program (`server/main.go`). Its `generateHMAC` signs the raw
  request body, with no decoding.
*/
module Server {
  import opened Wrappers
  import opened Codec
  import opened HmacSha512
  import opened Token

  /** `generateHMAC` of `server/main.go`: the token of the HMAC of the
      payload bytes themselves. */
  function GenerateHMAC(sha: Sha512, payload: Bytes, key: Bytes): (t: Bytes)
    ensures IsToken(t)
    ensures Decode(t) == Some(Hmac(sha, key, payload))
  {
    Sign(sha, key, payload)
  }

  /** Two server tokens under one key agree exactly when the HMACs of the
      two payloads do: the encoding adds no collisions of its own. */
  lemma TokensAgreeIffHmacsAgree(sha: Sha512, key: Bytes, p1: Bytes, p2: Bytes)
    ensures GenerateHMAC(sha, p1, key) == GenerateHMAC(sha, p2, key) <==> Hmac(sha, key, p1) == Hmac(sha, key, p2)
  {
    SignEqualIffHmacEqual(sha, key, p1, key, p2);
  }
}

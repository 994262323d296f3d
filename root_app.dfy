/**
  The root program (`main.go`). Its `generateHMAC` does not sign the bytes
  it is given. It decodes them as JSON into a `RequestPayload`, ignoring any
  decoding error, and signs the text `RequestID:CustomerName:TransactionDatetime`.
  JSON decoding is not modelled: the decoder is a parameter.
*/
module RootApp {
  import opened Wrappers
  import opened Codec
  import opened HmacSha512
  import opened Token
  import opened Payload

  /** What `json.Unmarshal` into a zero `RequestPayload` leaves behind. */
  datatype Unmarshalled =
    | Decoded(fields: RequestPayload)       // no error
    | SyntaxError                           // not JSON: nothing is assigned
    | TypeError(partial: RequestPayload)    // a mistyped field is skipped: every field that did decode stays

  /** `json.Unmarshal` specialised to `RequestPayload`. */
  type Unmarshaler = Bytes -> Unmarshalled

  /** `marshaler`: the decoded fields, whatever error decoding reported. */
  function Marshaler(unmarshal: Unmarshaler, req: Bytes): (p: RequestPayload)
    ensures unmarshal(req).SyntaxError? ==> p == EmptyPayload
  {
    match unmarshal(req)
    case Decoded(fields) => fields
    case SyntaxError => EmptyPayload
    case TypeError(partial) => partial
  }

  /** `strBuilder`: `fmt.Sprintf("%s:%s:%s", RequestID, CustomerName,
      TransactionDatetime)`. */
  function StrBuilder(req: RequestPayload): (s: Bytes)
    ensures |s| == |req.requestID| + |req.customerName| + |req.transactionDatetime| + 2
  {
    req.requestID + [CharColon] + req.customerName + [CharColon] + req.transactionDatetime
  }

  /** The message the root program signs for a request body. */
  function SignedMessage(unmarshal: Unmarshaler, payload: Bytes): Bytes
  {
    StrBuilder(Marshaler(unmarshal, payload))
  }

  /** `generateHMAC` of `main.go`. */
  function GenerateHMAC(sha: Sha512, unmarshal: Unmarshaler, payload: Bytes, key: Bytes): (t: Bytes)
    ensures IsToken(t)
    ensures Decode(t) == Some(Hmac(sha, key, SignedMessage(unmarshal, payload)))
  {
    Sign(sha, key, SignedMessage(unmarshal, payload))
  }

  // ---------------------------------------------------------------------
  // Reading a signed message back into fields
  // ---------------------------------------------------------------------

  /** The first position of `c` in `s`, if any. */
  function IndexOf(s: Bytes, c: byte): (r: Option<nat>)
    ensures r.Some? ==> r.value < |s| && s[r.value] == c && c !in s[..r.value]
    ensures r.None? ==> c !in s
  {
    if s == [] then None
    else if s[0] == c then Some(0)
    else
      match IndexOf(s[1..], c)
      case None => None
      case Some(k) =>
        assert s[..k + 1] == [s[0]] + s[1..][..k];
        Some(k + 1)
  }

  /** Splits a signed message at its first two colons. */
  function SplitMessage(s: Bytes): Option<RequestPayload>
  {
    match IndexOf(s, CharColon)
    case None => None
    case Some(i) =>
      var rest := s[i + 1..];
      match IndexOf(rest, CharColon)
      case None => None
      case Some(j) => Some(RequestPayload(rest[j + 1..], rest[..j], s[..i]))
  }

  /** A payload whose first two fields hold no colon is what its message
      splits back into. */
  predicate ColonFree(p: RequestPayload)
  {
    CharColon !in p.requestID && CharColon !in p.customerName
  }

  lemma {:induction false} IndexOfFirst(a: Bytes, c: byte, b: Bytes)
    requires c !in a
    ensures IndexOf(a + [c] + b, c) == Some(|a|)
  {
    var s := a + [c] + b;
    if a != [] {
      assert s[0] == a[0] != c;
      assert s[1..] == a[1..] + [c] + b;
      IndexOfFirst(a[1..], c, b);
    }
  }

  lemma AroundColon(a: Bytes, b: Bytes)
    ensures (a + [CharColon] + b)[..|a|] == a && (a + [CharColon] + b)[|a| + 1..] == b
  {
  }

  /** `SplitMessage` inverts `StrBuilder` on colon-free payloads. */
  lemma SplitStrBuilder(p: RequestPayload)
    requires ColonFree(p)
    ensures SplitMessage(StrBuilder(p)) == Some(p)
  {
    var id, name, dt := p.requestID, p.customerName, p.transactionDatetime;
    var rest := name + [CharColon] + dt;
    StrBuilderNests(id, name, dt);
    IndexOfFirst(id, CharColon, rest);
    IndexOfFirst(name, CharColon, dt);
    AroundColon(id, rest);
    AroundColon(name, dt);
  }

  lemma JoinAtColon(s: Bytes, i: nat)
    requires i < |s| && s[i] == CharColon
    ensures s[..i] + [CharColon] + s[i + 1..] == s
  {
  }

  lemma StrBuilderNests(id: Bytes, name: Bytes, dt: Bytes)
    ensures StrBuilder(RequestPayload(dt, name, id)) == id + [CharColon] + (name + [CharColon] + dt)
  {
  }

  /** The two colons `SplitMessage` cuts at. */
  lemma SplitCuts(s: Bytes, p: RequestPayload) returns (i: nat, j: nat)
    requires SplitMessage(s) == Some(p)
    ensures i < |s| && s[i] == CharColon && CharColon !in s[..i]
    ensures j < |s[i + 1..]| && s[i + 1..][j] == CharColon && CharColon !in s[i + 1..][..j]
    ensures p == RequestPayload(s[i + 1..][j + 1..], s[i + 1..][..j], s[..i])
  {
    i := IndexOf(s, CharColon).value;
    j := IndexOf(s[i + 1..], CharColon).value;
  }

  /** `SplitMessage` only returns a colon-free payload whose message is
      its input. */
  lemma StrBuilderSplit(s: Bytes, p: RequestPayload)
    requires SplitMessage(s) == Some(p)
    ensures ColonFree(p) && StrBuilder(p) == s
  {
    var i, j := SplitCuts(s, p);
    var t := s[i + 1..];
    JoinAtColon(t, j);
    JoinAtColon(s, i);
    StrBuilderNests(s[..i], t[..j], t[j + 1..]);
  }

  /** `strBuilder` is injective on colon-free payloads. */
  lemma StrBuilderInjectiveOnColonFree(p: RequestPayload, q: RequestPayload)
    requires ColonFree(p) && ColonFree(q)
    ensures StrBuilder(p) == StrBuilder(q) <==> p == q
  {
    SplitStrBuilder(p);
    SplitStrBuilder(q);
  }

  /** ... and only there: moving a colon from the end of the request id to
      the front of the customer name leaves the message unchanged. */
  lemma ColonShiftCollides(a: Bytes, b: Bytes, c: Bytes, dt: Bytes)
    ensures RequestPayload(dt, c, a + [CharColon] + b) != RequestPayload(dt, b + [CharColon] + c, a)
    ensures StrBuilder(RequestPayload(dt, c, a + [CharColon] + b)) == StrBuilder(RequestPayload(dt, b + [CharColon] + c, a))
  {
    assert |a + [CharColon] + b| != |a|;
    assert a + [CharColon] + b + [CharColon] + c == a + [CharColon] + (b + [CharColon] + c);
  }

  // ---------------------------------------------------------------------
  // What the root program's signature depends on
  // ---------------------------------------------------------------------

  /** Bodies that decode to the same fields get the same token. */
  lemma TokenDependsOnFieldsOnly(sha: Sha512, unmarshal: Unmarshaler, b1: Bytes, b2: Bytes, key: Bytes)
    requires Marshaler(unmarshal, b1) == Marshaler(unmarshal, b2)
    ensures GenerateHMAC(sha, unmarshal, b1, key) == GenerateHMAC(sha, unmarshal, b2, key)
  {
  }

  /** A body that is not JSON is signed as the text "::", so every such body
      has one and the same token. */
  lemma InvalidJsonSignsColons(sha: Sha512, unmarshal: Unmarshaler, b1: Bytes, b2: Bytes, key: Bytes)
    requires unmarshal(b1).SyntaxError? && unmarshal(b2).SyntaxError?
    ensures SignedMessage(unmarshal, b1) == [CharColon, CharColon]
    ensures GenerateHMAC(sha, unmarshal, b1, key) == GenerateHMAC(sha, unmarshal, b2, key)
  {
    assert Marshaler(unmarshal, b1) == EmptyPayload == Marshaler(unmarshal, b2);
    var e: Bytes := [];
    assert StrBuilder(EmptyPayload) == e + [CharColon] + e + [CharColon] + e;
  }

  /** Payloads that differ only in where a colon sits share a token. */
  lemma ColonShiftSharesToken(sha: Sha512, unmarshal: Unmarshaler, b1: Bytes, b2: Bytes, key: Bytes,
                              a: Bytes, b: Bytes, c: Bytes, dt: Bytes)
    requires Marshaler(unmarshal, b1) == RequestPayload(dt, c, a + [CharColon] + b)
    requires Marshaler(unmarshal, b2) == RequestPayload(dt, b + [CharColon] + c, a)
    ensures Marshaler(unmarshal, b1) != Marshaler(unmarshal, b2)
    ensures GenerateHMAC(sha, unmarshal, b1, key) == GenerateHMAC(sha, unmarshal, b2, key)
  {
    ColonShiftCollides(a, b, c, dt);
  }
}

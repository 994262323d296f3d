/**
  The client program (`client/client.go`), up to the point where the signed
  request is ready to send. It marshals a payload to JSON, signs exactly
  those bytes and puts the token in the `x-signature` header. JSON encoding
  is not modelled: the encoder is a parameter.
*/
module Client {
  import opened Wrappers
  import opened Codec
  import opened HmacSha512
  import opened Token
  import opened Payload
  import Middleware
  import RootApp
  import Server

  /** `json.Marshal` applied to a `RequestPayload`: `None` when it reports
      an error. */
  type Marshal = RequestPayload -> Option<Bytes>

  /** The payload the client sends. */
  const DemoPayload := RequestPayload(Ascii("2024-08-15T14:00:00Z"), Ascii("John Doe"), Ascii("123456789"))

  /** What `json.Marshal` makes of `DemoPayload`: the fields in declaration
      order under their JSON tags. */
  const DemoJson := "{" + "\"transaction_datetime\":\"2024-08-15T14:00:00Z\",\"customer_name\":\"John Doe\",\"request_id\":\"123456789\"}"
  const DemoBody := Ascii(DemoJson)

  const ServerURL := "http://localhost:8080/"
  const ContentTypeHeader := "Content-Type"
  /** The header the client writes its token into. */
  const SignatureHeader := "x-signature"

  /** An HTTP request ready to be sent. */
  datatype OutboundRequest = OutboundRequest(verb: string, url: string, header: map<string, Bytes>, body: Bytes)

  /** `generateHMAC` of `client/client.go`. */
  function GenerateHMAC(sha: Sha512, payload: Bytes, key: Bytes): (t: Bytes)
    ensures IsToken(t)
    ensures Decode(t) == Some(Hmac(sha, key, payload))
  {
    Sign(sha, key, payload)
  }

  /** Marshal the payload, sign the marshalled bytes, and build the POST
      request with its two headers. `None` where the program stops in
      `log.Fatal`. */
  function BuildRequest(marshal: Marshal, sha: Sha512, payload: RequestPayload, key: Bytes): (r: Option<OutboundRequest>)
    ensures r.Some? <==> marshal(payload).Some?
  {
    match marshal(payload)
    case None => None
    case Some(payloadBytes) =>
      var signature := GenerateHMAC(sha, payloadBytes, key);
      Some(OutboundRequest("POST", ServerURL,
                           map[ContentTypeHeader := Ascii("application/json"),
                               SignatureHeader := signature],
                           payloadBytes))
  }

  /** The client writes its token under the very name both servers read
      it from. */
  lemma SameSignatureHeader()
    ensures SignatureHeader == Middleware.SignatureHeader
  {
  }

  /** The client's copy of `generateHMAC` is the server's. */
  lemma SameTokenAsServer(sha: Sha512, payload: Bytes, key: Bytes)
    ensures GenerateHMAC(sha, payload, key) == Server.GenerateHMAC(sha, payload, key)
  {
  }

  /** The request carries, under `x-signature`, a token whose decoding is
      the HMAC of exactly the bytes in its body. */
  lemma SignatureCoversBody(marshal: Marshal, sha: Sha512, payload: RequestPayload, key: Bytes)
    requires marshal(payload).Some?
    ensures var r := BuildRequest(marshal, sha, payload, key).value;
      && r.body == marshal(payload).value
      && Middleware.HeaderValue(r.header, SignatureHeader) == GenerateHMAC(sha, r.body, key)
      && IsToken(Middleware.HeaderValue(r.header, SignatureHeader))
      && Decode(Middleware.HeaderValue(r.header, SignatureHeader)) == Some(Hmac(sha, key, r.body))
  {
    var r := BuildRequest(marshal, sha, payload, key).value;
    assert SignatureHeader in r.header;
  }

  /** The server program, with the same key, accepts the request the client
      builds: the handler runs and the client receives 200 `Valid!`. */
  lemma ServerAcceptsClientRequest(marshal: Marshal, sha: Sha512, payload: RequestPayload, key: Bytes)
    requires marshal(payload).Some?
    ensures var r := BuildRequest(marshal, sha, payload, key).value;
      var signature := Middleware.HeaderValue(r.header, Middleware.SignatureHeader);
      && Middleware.Check(Middleware.ServerProgram, sha, key, signature, Middleware.Replay(r.body)).forward
      && Middleware.Recorded(Middleware.Respond(Middleware.ServerProgram, sha, key, signature, Middleware.Replay(r.body)))
           == Middleware.Response(Middleware.StatusOK, "Valid!")
  {
    var r := BuildRequest(marshal, sha, payload, key).value;
    SignatureCoversBody(marshal, sha, payload, key);
    SameSignatureHeader();
    SameTokenAsServer(sha, r.body, key);
    Middleware.ValidSignatureAccepted(Middleware.ServerProgram, sha, key, Middleware.Replay(r.body));
  }

  /** An unset secret is the empty key, which is not refused: the request is
      signed as with a key of up to 128 zero bytes. */
  lemma EmptySecretIsZeroKey(marshal: Marshal, sha: Sha512, payload: RequestPayload, n: nat)
    requires n <= BlockSize
    ensures BuildRequest(marshal, sha, payload, []) == BuildRequest(marshal, sha, payload, Zeros(n))
  {
    if marshal(payload).Some? {
      EmptyKeyIsZeroKey(sha, n, marshal(payload).value);
    }
  }

  /** The root program signs something other than the bytes the client
      signs: for the demo payload its message is the colon-joined fields,
      which starts with `1` where the JSON body starts with `{`. */
  lemma RootProgramSignsOtherMessage(unmarshal: RootApp.Unmarshaler)
    requires unmarshal(DemoBody) == RootApp.Decoded(DemoPayload)
    ensures RootApp.SignedMessage(unmarshal, DemoBody) != DemoBody
  {
    DemoBodyOpensObject();
    DemoMessageOpensWithId(unmarshal);
  }

  lemma DemoBodyOpensObject()
    ensures |DemoBody| > 0 && DemoBody[0] == 0x7B
  {
    assert DemoJson[0] == '{';
  }

  lemma DemoMessageOpensWithId(unmarshal: RootApp.Unmarshaler)
    requires unmarshal(DemoBody) == RootApp.Decoded(DemoPayload)
    ensures |RootApp.SignedMessage(unmarshal, DemoBody)| > 0 && RootApp.SignedMessage(unmarshal, DemoBody)[0] == 0x31
  {
    var m := RootApp.SignedMessage(unmarshal, DemoBody);
    assert m[0] == DemoPayload.requestID[0];
  }

  /** So the root program, unlike the server program, accepts the client's
      demo request only if the HMACs of the two messages collide. */
  lemma RootProgramAcceptsClientOnlyOnCollision(marshal: Marshal, unmarshal: RootApp.Unmarshaler, sha: Sha512, key: Bytes)
    requires marshal(DemoPayload) == Some(DemoBody)
    ensures var r := BuildRequest(marshal, sha, DemoPayload, key).value;
      var signature := Middleware.HeaderValue(r.header, Middleware.SignatureHeader);
      (Middleware.Check(Middleware.RootProgram(unmarshal), sha, key, signature, Middleware.Replay(r.body)).forward <==>
       Hmac(sha, key, DemoBody) == Hmac(sha, key, RootApp.SignedMessage(unmarshal, DemoBody)))
  {
    SignatureCoversBody(marshal, sha, DemoPayload, key);
    SameSignatureHeader();
    SameTokenAsServer(sha, DemoBody, key);
    Middleware.RootAcceptsRawTokenOnlyOnCollision(unmarshal, sha, key, Middleware.Replay(DemoBody));
  }
}

/**
  `signatureChecker` and `handler`, which `main.go` and `server/main.go`
  define alike except for the `generateHMAC` the checker calls. The checker
  reads the `x-signature` header, reads the body and puts back a replayable
  copy, recomputes the token and compares. It either writes a 403 or calls
  the wrapped handler as its last step.

  The request and the response writer are objects the checker changes in
  place. `Decide` is the specification of one run of the checker, given the
  header, the token of the bytes read and whether the read failed: the
  writes it makes and whether it hands over to the handler. `Check` is
  `Decide` with the token a program's `generateHMAC` computes.
*/
module Middleware {
  import opened Wrappers
  import opened Codec
  import opened HmacSha512
  import opened Token
  import RootApp
  import Server

  const StatusOK := 200
  const StatusForbidden := 403
  const StatusInternalServerError := 500

  /** The header that carries the claimed signature. */
  const SignatureHeader := "x-signature"

  /** One call on an `http.ResponseWriter`. */
  datatype Write = Status(code: int) | Text(text: string)

  /** The text `http.Error` writes for a message: `fmt.Fprintln`'s line. */
  function ErrorLine(msg: string): string
  {
    msg + "\n"
  }

  /** `http.Error(w, msg, code)`: the status, then the message's line. */
  function HttpError(msg: string, code: int): seq<Write>
  {
    [Status(code), Text(ErrorLine(msg))]
  }

  const InvalidSignature := HttpError("Invalid Signature", StatusForbidden)
  const ReadFailure := HttpError("Internal Server Error", StatusInternalServerError)

  /** What `handler` writes: `fmt.Fprintf(w, "Valid!")`. */
  const HandlerWrites := [Text("Valid!")]

  /** A request body stream: the bytes it yields, and whether reading it
      ends in an error instead of end-of-file. */
  datatype Body = Body(data: Bytes, readError: bool)

  /** `ioutil.NopCloser(bytes.NewBuffer(data))`: yields `data`, then EOF. */
  function Replay(data: Bytes): Body
  {
    Body(data, false)
  }

  /** Which program's checker runs: the root one signs the decoded fields,
      the server one the raw body. */
  datatype Program = RootProgram(unmarshal: RootApp.Unmarshaler) | ServerProgram

  /** The `generateHMAC` the program's checker calls on the body read. */
  function ExpectedSignature(prog: Program, sha: Sha512, body: Bytes, key: Bytes): (t: Bytes)
    ensures IsToken(t)
  {
    match prog
    case RootProgram(unmarshal) => RootApp.GenerateHMAC(sha, unmarshal, body, key)
    case ServerProgram => Server.GenerateHMAC(sha, body, key)
  }

  /** The outcome of one run of the checker. */
  datatype Decision = Decision(writes: seq<Write>, forward: bool)

  /** The checker's decision from the header value, the token recomputed
      over the bytes read, and whether reading the body failed. A failed
      read writes a 500 and the checker carries on. */
  function Decide(signature: Bytes, expected: Bytes, readError: bool): Decision
  {
    if signature == [] then Decision(InvalidSignature, false)
    else
      var before := if readError then ReadFailure else [];
      if signature != expected then
        Decision(before + InvalidSignature, false)
      else
        Decision(before, true)
  }

  /** The checker, given the header value, the body stream and the key. */
  function Check(prog: Program, sha: Sha512, key: Bytes, signature: Bytes, body: Body): Decision
  {
    Decide(signature, ExpectedSignature(prog, sha, body.data, key), body.readError)
  }

  /** Everything written for a decision when the checker wraps `handler`. */
  function Outcome(d: Decision): seq<Write>
  {
    d.writes + if d.forward then HandlerWrites else []
  }

  /** Everything written when the checker wraps `handler`. */
  function Respond(prog: Program, sha: Sha512, key: Bytes, signature: Bytes, body: Body): seq<Write>
  {
    Outcome(Check(prog, sha, key, signature, body))
  }

  /** `Header.Get(name)`: the value, or the empty string when the header is
      absent. */
  function HeaderValue(header: map<string, Bytes>, name: string): Bytes
  {
    if name in header then header[name] else []
  }

  class Request {
    var header: map<string, Bytes>
    var body: Body

    constructor (header: map<string, Bytes>, body: Body)
      ensures this.header == header && this.body == body
    {
      this.header := header;
      this.body := body;
    }

    function HeaderGet(name: string): Bytes
      reads this
    {
      HeaderValue(header, name)
    }

    /** `ioutil.ReadAll(r.Body)`: drains the stream and returns the bytes
        read and whether reading failed. */
    method ReadAll() returns (data: Bytes, failed: bool)
      modifies this
      ensures data == old(body).data && failed == old(body).readError
      ensures body == Body([], false) && header == old(header)
    {
      data, failed := body.data, body.readError;
      body := Body([], false);
    }
  }

  class ResponseWriter {
    var writes: seq<Write>

    constructor ()
      ensures writes == []
    {
      writes := [];
    }

    method WriteHeader(code: int)
      modifies this
      ensures writes == old(writes) + [Status(code)]
    {
      writes := writes + [Status(code)];
    }

    method Write(text: string)
      modifies this
      ensures writes == old(writes) + [Text(text)]
    {
      writes := writes + [Text(text)];
    }
  }

  method Error(w: ResponseWriter, msg: string, code: int)
    modifies w
    ensures w.writes == old(w.writes) + HttpError(msg, code)
  {
    w.WriteHeader(code);
    w.Write(ErrorLine(msg));
  }

  lemma AppendAssociates(a: seq<Write>, b: seq<Write>, c: seq<Write>)
    ensures (a + b) + c == a + (b + c)
  {
  }

  /** The program's `generateHMAC` with the key fixed, as the checker
      calls it on the bytes it read. */
  function Signer(prog: Program, sha: Sha512, key: Bytes): Bytes -> Bytes
  {
    body => ExpectedSignature(prog, sha, body, key)
  }

  /** `signatureChecker(next)` serving one request, with `generateHMAC`
      the signing function it calls; `next` is whether the wrapped handler
      is then called. */
  method SignatureChecker(generateHMAC: Bytes -> Bytes, w: ResponseWriter, r: Request)
    returns (next: bool)
    modifies w, r
    ensures w.writes == old(w.writes)
      + Decide(old(r.HeaderGet(SignatureHeader)), generateHMAC(old(r.body).data), old(r.body).readError).writes
    ensures next == Decide(old(r.HeaderGet(SignatureHeader)), generateHMAC(old(r.body).data), old(r.body).readError).forward
    ensures r.header == old(r.header)
    ensures r.body == if old(r.HeaderGet(SignatureHeader)) == [] then old(r.body) else Replay(old(r.body).data)
  {
    var signature := r.HeaderGet(SignatureHeader);
    ghost var d := Decide(signature, generateHMAC(r.body.data), r.body.readError);
    if signature == [] {
      Error(w, "Invalid Signature", StatusForbidden);
      return false;
    }

    var body, err := r.ReadAll();
    ghost var before := w.writes;
    if err {
      Error(w, "Internal Server Error", StatusInternalServerError);
    }
    assert w.writes == before + if err then ReadFailure else [];

    r.body := Replay(body);

    var expected := generateHMAC(body);
    if signature != expected {
      Error(w, "Invalid Signature", StatusForbidden);
      AppendAssociates(old(w.writes), if err then ReadFailure else [], InvalidSignature);
      return false;
    }

    next := true;
    assert d == Decision(if err then ReadFailure else [], true);
  }

  /** `handler`. */
  method Handler(w: ResponseWriter, r: Request)
    modifies w
    ensures w.writes == old(w.writes) + HandlerWrites
  {
    w.Write("Valid!");
  }

  /** `signatureChecker(http.HandlerFunc(handler))` serving one request. The
      handler sees the replayed body: reading it gives the bytes the checker
      read, with no error. */
  method Serve(generateHMAC: Bytes -> Bytes, w: ResponseWriter, r: Request)
    modifies w, r
    ensures w.writes == old(w.writes)
      + Outcome(Decide(old(r.HeaderGet(SignatureHeader)), generateHMAC(old(r.body).data), old(r.body).readError))
    ensures r.header == old(r.header)
    ensures r.body == if old(r.HeaderGet(SignatureHeader)) == [] then old(r.body) else Replay(old(r.body).data)
  {
    ghost var d := Decide(r.HeaderGet(SignatureHeader), generateHMAC(r.body.data), r.body.readError);
    var next := SignatureChecker(generateHMAC, w, r);
    if next {
      Handler(w, r);
      AppendAssociates(old(w.writes), d.writes, HandlerWrites);
    } else {
      assert d.writes + [] == d.writes;
    }
  }

  /** One program serving one request: the writes are those `Respond`
      describes for the header and body the request arrived with. */
  method ServeWith(prog: Program, sha: Sha512, key: Bytes, w: ResponseWriter, r: Request)
    modifies w, r
    ensures w.writes == old(w.writes) + Respond(prog, sha, key, old(r.HeaderGet(SignatureHeader)), old(r.body))
    ensures r.header == old(r.header)
    ensures r.body == if old(r.HeaderGet(SignatureHeader)) == [] then old(r.body) else Replay(old(r.body).data)
  {
    Serve(Signer(prog, sha, key), w, r);
  }

  // ---------------------------------------------------------------------
  // What a client sees: Go's ResponseWriter keeps the first status written,
  // and a text written before any status implies 200.
  // ---------------------------------------------------------------------

  datatype Response = Response(code: int, body: string)

  /** The status is set by the first write: a status, or 200 when a text
      comes first or nothing is written. Later statuses are ignored. */
  function StatusOf(writes: seq<Write>): int
  {
    if writes == [] then StatusOK
    else
      match writes[0]
      case Status(code) => code
      case Text(_) => StatusOK
  }

  /** The body: every text written, in order. */
  function BodyOf(writes: seq<Write>): string
  {
    if writes == [] then ""
    else (if writes[0].Text? then writes[0].text else "") + BodyOf(writes[1..])
  }

  lemma {:induction false} BodyOfAppend(a: seq<Write>, b: seq<Write>)
    ensures BodyOf(a + b) == BodyOf(a) + BodyOf(b)
  {
    if a != [] {
      assert (a + b)[1..] == a[1..] + b;
      BodyOfAppend(a[1..], b);
    } else {
      assert a + b == b;
    }
  }

  lemma BodyOfHttpError(msg: string, code: int)
    ensures BodyOf(HttpError(msg, code)) == ErrorLine(msg)
  {
    var ws := HttpError(msg, code);
    assert ws[1..] == [Text(ErrorLine(msg))] && ws[1..][1..] == [];
    assert BodyOf(ws[1..]) == ErrorLine(msg) + "";
  }

  /** The status and body a client receives for a sequence of writes. */
  function Recorded(writes: seq<Write>): Response
  {
    Response(StatusOf(writes), BodyOf(writes))
  }

  /** `http.Error` as the first write decides the status; the writes after
      it only add to the body. */
  lemma RecordedAfterError(msg: string, code: int, ws: seq<Write>)
    ensures Recorded(HttpError(msg, code) + ws) == Response(code, ErrorLine(msg) + BodyOf(ws))
  {
    BodyOfAppend(HttpError(msg, code), ws);
    BodyOfHttpError(msg, code);
  }

  /** The handler alone answers 200 `Valid!`. */
  lemma RecordedHandler()
    ensures Recorded(HandlerWrites) == Response(StatusOK, "Valid!")
  {
    assert HandlerWrites[1..] == [];
  }

  // ---------------------------------------------------------------------
  // Properties of the checker
  // ---------------------------------------------------------------------

  /** An empty header is refused with 403 whatever the token and the body. */
  lemma DecideMissing(expected: Bytes, readError: bool)
    ensures Decide([], expected, readError) == Decision(InvalidSignature, false)
    ensures Recorded(Outcome(Decide([], expected, readError))) == Response(StatusForbidden, ErrorLine("Invalid Signature"))
  {
    assert Outcome(Decide([], expected, readError)) == InvalidSignature + [];
    RecordedAfterError("Invalid Signature", StatusForbidden, []);
  }

  /** A header other than the token is refused: 403, or 500 with both
      messages when the body read failed first. */
  lemma DecideWrong(signature: Bytes, expected: Bytes, readError: bool)
    requires signature != expected
    ensures !Decide(signature, expected, readError).forward
    ensures !readError || signature == [] ==>
      Recorded(Outcome(Decide(signature, expected, readError))) == Response(StatusForbidden, ErrorLine("Invalid Signature"))
    ensures readError && signature != [] ==>
      Recorded(Outcome(Decide(signature, expected, readError)))
        == Response(StatusInternalServerError, ErrorLine("Internal Server Error") + ErrorLine("Invalid Signature"))
  {
    var ws := Outcome(Decide(signature, expected, readError));
    if readError && signature != [] {
      assert ws == ReadFailure + InvalidSignature;
      RecordedAfterError("Internal Server Error", StatusInternalServerError, InvalidSignature);
      BodyOfHttpError("Invalid Signature", StatusForbidden);
    } else {
      assert ws == InvalidSignature + [];
      RecordedAfterError("Invalid Signature", StatusForbidden, []);
    }
  }

  /** A header equal to a non-empty token runs the handler, after the 500
      when the body read failed. */
  lemma DecideMatching(expected: Bytes, readError: bool)
    requires expected != []
    ensures Decide(expected, expected, readError) == Decision(if readError then ReadFailure else [], true)
    ensures !readError ==> Recorded(Outcome(Decide(expected, expected, readError))) == Response(StatusOK, "Valid!")
    ensures readError ==>
      Recorded(Outcome(Decide(expected, expected, readError)))
        == Response(StatusInternalServerError, ErrorLine("Internal Server Error") + "Valid!")
  {
    var ws := Outcome(Decide(expected, expected, readError));
    RecordedHandler();
    if readError {
      assert ws == ReadFailure + HandlerWrites;
      RecordedAfterError("Internal Server Error", StatusInternalServerError, HandlerWrites);
    } else {
      assert ws == HandlerWrites;
    }
  }

  /** An absent or empty header is refused with 403 `Invalid Signature\n`,
      before the body is read, and the handler does not run. */
  lemma MissingSignatureRejected(prog: Program, sha: Sha512, key: Bytes, body: Body)
    ensures Check(prog, sha, key, [], body) == Decision(InvalidSignature, false)
    ensures Recorded(Respond(prog, sha, key, [], body)) == Response(StatusForbidden, ErrorLine("Invalid Signature"))
  {
    DecideMissing(ExpectedSignature(prog, sha, body.data, key), body.readError);
  }

  /** The handler runs exactly when the header is byte-equal to the token
      recomputed over the body read. */
  lemma ForwardIffSignatureMatches(prog: Program, sha: Sha512, key: Bytes, signature: Bytes, body: Body)
    ensures Check(prog, sha, key, signature, body).forward <==> signature == ExpectedSignature(prog, sha, body.data, key)
  {
    assert ExpectedSignature(prog, sha, body.data, key) != [];
  }

  /** Any header other than the expected token is refused, whatever its
      length or prefix: 403 `Invalid Signature\n`, or, after a failed body
      read, the 500 status with both messages in the body. */
  lemma WrongSignatureRejected(prog: Program, sha: Sha512, key: Bytes, signature: Bytes, body: Body)
    requires signature != ExpectedSignature(prog, sha, body.data, key)
    ensures !Check(prog, sha, key, signature, body).forward
    ensures !body.readError || signature == [] ==>
      Recorded(Respond(prog, sha, key, signature, body)) == Response(StatusForbidden, ErrorLine("Invalid Signature"))
    ensures body.readError && signature != [] ==>
      Recorded(Respond(prog, sha, key, signature, body))
        == Response(StatusInternalServerError, ErrorLine("Internal Server Error") + ErrorLine("Invalid Signature"))
  {
    DecideWrong(signature, ExpectedSignature(prog, sha, body.data, key), body.readError);
  }

  /** The expected token with a body read in full gives 200 `Valid!`. */
  lemma ValidSignatureAccepted(prog: Program, sha: Sha512, key: Bytes, body: Body)
    requires !body.readError
    ensures Check(prog, sha, key, ExpectedSignature(prog, sha, body.data, key), body) == Decision([], true)
    ensures Recorded(Respond(prog, sha, key, ExpectedSignature(prog, sha, body.data, key), body)) == Response(StatusOK, "Valid!")
  {
    DecideMatching(ExpectedSignature(prog, sha, body.data, key), false);
  }

  /** A failed body read does not stop the checker: the 500 is written, and
      a header matching the token of the bytes read before the failure still
      runs the handler, whose text follows the error message. */
  lemma ReadErrorFallsThrough(prog: Program, sha: Sha512, key: Bytes, body: Body)
    requires body.readError
    ensures Check(prog, sha, key, ExpectedSignature(prog, sha, body.data, key), body) == Decision(ReadFailure, true)
    ensures Recorded(Respond(prog, sha, key, ExpectedSignature(prog, sha, body.data, key), body))
      == Response(StatusInternalServerError, ErrorLine("Internal Server Error") + "Valid!")
  {
    DecideMatching(ExpectedSignature(prog, sha, body.data, key), true);
  }

  /** In the root program the decision depends on the body only through the
      three decoded fields. */
  lemma RootDecisionDependsOnFieldsOnly(unmarshal: RootApp.Unmarshaler, sha: Sha512, key: Bytes,
                                        signature: Bytes, b1: Body, b2: Body)
    requires RootApp.Marshaler(unmarshal, b1.data) == RootApp.Marshaler(unmarshal, b2.data)
    requires b1.readError == b2.readError
    ensures Check(RootProgram(unmarshal), sha, key, signature, b1) == Check(RootProgram(unmarshal), sha, key, signature, b2)
  {
    RootApp.TokenDependsOnFieldsOnly(sha, unmarshal, b1.data, b2.data, key);
  }

  /** The root program accepts a token computed over the raw body, as the
      server program and the client compute it, only when the HMAC of the
      body collides with the HMAC of the colon-joined fields. */
  lemma RootAcceptsRawTokenOnlyOnCollision(unmarshal: RootApp.Unmarshaler, sha: Sha512, key: Bytes, body: Body)
    ensures Check(RootProgram(unmarshal), sha, key, Server.GenerateHMAC(sha, body.data, key), body).forward
      <==> Hmac(sha, key, body.data) == Hmac(sha, key, RootApp.SignedMessage(unmarshal, body.data))
  {
    ForwardIffSignatureMatches(RootProgram(unmarshal), sha, key, Server.GenerateHMAC(sha, body.data, key), body);
    SignEqualIffHmacEqual(sha, key, body.data, key, RootApp.SignedMessage(unmarshal, body.data));
  }
}

# hmac-example in Dafny

A model of budsx/hmac-example. The repository has three small Go programs
that sign JSON requests with HMAC-SHA512:

- the root program (`main.go`) is a server;
- `server/main.go` is a second server;
- `client/client.go` is a client.

The client marshals a `RequestPayload` to JSON and signs those bytes. It
sends the token in the `x-signature` header. A token is the HMAC digest
written as lowercase hexadecimal, and that text written as padded standard
base64 (RFC 4648). Both servers wrap a handler in `signatureChecker`, which
works like this:

1. It refuses an empty header with 403.
2. It reads the body and puts back a replayable copy.
3. It recomputes the token with its own `generateHMAC` and compares.
4. Only if they match does it run `handler`, which answers `Valid!`.

The two servers differ in what they sign:

- `server/main.go` signs the raw body, exactly as the client does.
- `main.go` decodes the body as JSON and ignores any decoding error. It then
  signs the text `RequestID:CustomerName:TransactionDatetime`.

Modules:

- `Codec` covers Go strings as bytes, `hex.EncodeToString` and
  `base64.StdEncoding.EncodeToString`. Each encoder has a decoder, and
  round trips are proved in both directions. The base64 decoder is strict
  (section 3.5 of RFC 4648): unused bits before padding must be zero, so
  each byte string has exactly one encoding.
- `HmacSha512` is `hmac.New(sha512.New, key)` as section 2 of RFC 2104
  describes it. SHA-512 is a parameter: any function with 64-byte digests.
- `Token` is the hex-then-base64 token, its decoder and its shape.
- `Payload` is the shared `RequestPayload` record.
- `RootApp` covers `marshaler`, `strBuilder` and `generateHMAC` of
  `main.go`. JSON decoding is a parameter.
- `Server` is `generateHMAC` of `server/main.go`.
- `Middleware` covers `signatureChecker` and `handler`. The request and
  the response writer are classes that are changed in place. `Decide` and
  `Check` specify one run of the checker. `Recorded` gives the status and
  body a client receives.
- `Client` covers the client up to the request it sends. JSON encoding is
  a parameter.

## Model

| member | source | states |
|---|---|---|
| Codec.HexEncode | client/client.go:63 | The hex text is twice as long as the input and holds only lowercase hexadecimal digits. |
| Codec.HexRoundTrip | client/client.go:63 | Decoding the hex text gives back the digest bytes. |
| Codec.HexCanonical | client/client.go:63 | Hex decoding accepts only what the encoder writes: text that decodes to some bytes is their encoding. |
| Codec.HexVectors | client/client.go:63 | The bytes 0x0f 0xa0 encode to `0fa0`: high nibble first, lowercase, leading zero kept. |
| Codec.Base64Encode | client/client.go:64 | The encoding has 4 characters per started group of 3 bytes. It ends in exactly `(3 - n mod 3) mod 3` `=` characters, and every other character is in the standard alphabet. |
| Codec.Base64RoundTrip | client/client.go:64 | Decoding the base64 text gives back the input bytes, for every input length. |
| Codec.EncodeDecodedQuantum | client/client.go:64 | A group of four characters that decodes is the encoding of its bytes: three from a full group, one or two only from a padded last group. |
| Codec.Base64Canonical | client/client.go:64 | Base64 decoding accepts only what the encoder writes: text that decodes to some bytes is their encoding. |
| Codec.Base64Vectors | client/client.go:64 | "f", "fo" and "foo" encode to "Zg==", "Zm8=" and "Zm9v", as in section 10 of RFC 4648. |
| HmacSha512.BlockKey | client/client.go:61 | The key becomes 128 bytes. A short key is kept as a prefix with zero bytes after it. A key over 128 bytes is replaced by its digest. |
| HmacSha512.Hmac | client/client.go:61-63 | `H(K0 ^ opad \|\| H(K0 ^ ipad \|\| text))` is a 64-byte digest. |
| HmacSha512.ZeroExtendedKeyAgrees | client/client.go:61 | Appending zero bytes to a key of at most 128 bytes does not change the HMAC. |
| HmacSha512.EmptyKeyIsZeroKey | client/client.go:34-35 | An empty key gives the all-zero block key. Its HMAC equals the HMAC under any key of up to 128 zero bytes. |
| Token.RoundTrip | server/main.go:35-36 | Base64 then hex decoding of the token gives back the digest. |
| Token.EncodeInjective | server/main.go:35-36 | Two tokens are equal exactly when their digests are. |
| Token.DigestTokenShape | server/main.go:35-36 | The token of a 64-byte digest is 172 characters: 171 from the alphabet and a single trailing `=`. |
| Token.Sign | server/main.go:33-36 | The token has that shape and decodes to the HMAC of the message. |
| Token.SignEqualIffHmacEqual | server/main.go:32-37 | Two tokens are equal exactly when the two HMACs are. |
| Token.DecodeIffEncode | server/main.go:35-36 | A text decodes to a digest exactly when it is that digest's token. |
| Token.SignDeterminedByHmac | server/main.go:32-37 | The token `generateHMAC` returns is the only text that decodes to the HMAC of the message. |
| RootApp.Marshaler | main.go:35-39 | When the body is not JSON, nothing is assigned: the result is the empty payload. |
| RootApp.StrBuilder | main.go:41-50 | The message is as long as the three fields plus two colons. Which field sits where is stated by `RootApp.SplitStrBuilder`, for payloads whose first two fields are colon-free. |
| RootApp.GenerateHMAC | main.go:17-27 | The root token has token shape and decodes to the HMAC of the colon-joined decoded fields, not of the body. |
| RootApp.SplitStrBuilder | main.go:41-50 | Splitting the message at its first two colons gives the payload back when the first two fields hold no colon. |
| RootApp.StrBuilderSplit | main.go:41-50 | Any split result is colon-free in its first two fields and rebuilds the message it came from. |
| RootApp.StrBuilderInjectiveOnColonFree | main.go:41-50 | On payloads whose first two fields are colon-free, messages are equal exactly when the payloads are. |
| RootApp.ColonShiftCollides | main.go:41-50 | Moving a colon between the request id and the customer name gives a different payload with the same message. |
| RootApp.TokenDependsOnFieldsOnly | main.go:17-27 | Bodies that decode to the same fields get the same root token. |
| RootApp.InvalidJsonSignsColons | main.go:35-39 | Every non-JSON body is signed as the message "::", so all such bodies share one token. |
| RootApp.ColonShiftSharesToken | main.go:17-27 | Bodies whose fields differ only by where such a colon sits share a root token. |
| Server.GenerateHMAC | server/main.go:32-37 | The server token has token shape and decodes to the HMAC of the raw body. |
| Server.TokensAgreeIffHmacsAgree | server/main.go:32-37 | Two server tokens under one key agree exactly when the HMACs of the bodies do. |
| Middleware.ExpectedSignature | main.go:67 | The token either program recomputes always has token shape, so it is never empty. |
| Middleware.Request.ReadAll | main.go:60 | Returns the stream's bytes and whether the read failed, and leaves the stream drained. |
| Middleware.Error | main.go:56 | `http.Error` appends the status and then the message line to the writes. |
| Middleware.SignatureChecker | main.go:52-77 | The writes and the hand-over are those `Decide` gives for the header, the token of the bytes read, and the read error. The header is unchanged. The body is the replayable copy once it has been read, and untouched when the header is empty. |
| Middleware.Handler | main.go:79-81 | Appends the text `Valid!`. |
| Middleware.Serve | main.go:85 | The writes are the checker's, followed by the handler's if it hands over. When it hands over, the handler sees a replay of the bytes read, with no error. |
| Middleware.ServeWith | server/main.go:39-69 | Serving one request with a program's own `generateHMAC` writes exactly `Respond` for the request's original header and body. |
| Middleware.RecordedAfterError | main.go:62 | After `http.Error`, the client sees the error's status. The body is the message line followed by whatever is written later. |
| Middleware.RecordedHandler | main.go:80 | The handler alone gives status 200 with body `Valid!`. |
| Middleware.DecideMissing | main.go:54-58 | An empty header is refused with 403 `Invalid Signature\n`, whatever the token and the body. |
| Middleware.DecideWrong | main.go:70-73 | A header other than the token is refused. The response is 403, or 500 with both messages when the read failed. |
| Middleware.DecideMatching | main.go:60-75 | A header equal to a non-empty token hands over. The response is 200 `Valid!`, or 500 with the error line then `Valid!` when the read failed. |
| Middleware.MissingSignatureRejected | server/main.go:41-45 | With no header, the handler does not run and the client gets 403 `Invalid Signature\n`. |
| Middleware.ForwardIffSignatureMatches | server/main.go:55-63 | The handler runs exactly when the header is byte-equal to the recomputed token. |
| Middleware.WrongSignatureRejected | server/main.go:58-61 | Any other header, whatever its length or prefix, is refused with 403, or with 500 after a failed read. |
| Middleware.ValidSignatureAccepted | server/main.go:55-63 | The right token with a fully read body gives 200 `Valid!`. |
| Middleware.ReadErrorFallsThrough | main.go:60-63 | A failed read does not stop the checker. The 500 is written, and the right token for the bytes read still runs the handler. |
| Middleware.RootDecisionDependsOnFieldsOnly | main.go:67 | In the root program, the checker's decision depends on the body only through the decoded fields. |
| Middleware.RootAcceptsRawTokenOnlyOnCollision | main.go:67-70 | The root program accepts a raw-body token only when the raw-body HMAC collides with the HMAC of the colon-joined fields. |
| Client.GenerateHMAC | client/client.go:60-65 | The client token has token shape and decodes to the HMAC of the marshalled bytes. |
| Client.SameTokenAsServer | client/client.go:60-65 | The client's `generateHMAC` gives the same token as the server's for every body and key. |
| Client.BuildRequest | client/client.go:29-43 | A request is built exactly when marshalling succeeds. When marshalling fails, the client stops. |
| Client.SameSignatureHeader | client/client.go:43 | The client writes the token under `x-signature`, the name both servers read. |
| Client.SignatureCoversBody | client/client.go:35-43 | The `x-signature` header holds a token whose decoding is the HMAC of exactly the request body. |
| Client.ServerAcceptsClientRequest | client/client.go:35-43 | With the same key, the server program runs the handler for the client's request, and the client receives 200 `Valid!`. |
| Client.EmptySecretIsZeroKey | client/client.go:34-35 | An unset secret signs as the empty key, the same as a key of up to 128 zero bytes. |
| Client.RootProgramSignsOtherMessage | client/client.go:23-29 | For the client's payload, the root program signs a message other than the body the client signs. |
| Client.RootProgramAcceptsClientOnlyOnCollision | client/client.go:35-43 | The root program accepts the client's request only if those two HMACs collide. |

## Left out

- Running the servers is not modelled. That covers `main`, `http.NewServeMux`, `ListenAndServe`, routing and the `log.Fatal` exit. Each request is one call of `Middleware.Serve`.
- `os.Getenv("SECRET_SIGNATURE")` is not modelled. The key is a parameter, and an unset variable is the empty key.
- Logging is not modelled. That covers `log.Println` in `strBuilder`, the printing of both tokens, and the printing of the secret at server/main.go:53. None of them changes a response.
- SHA-512 is not defined. It is a parameter with 64-byte output, because its compression function has nothing to do with how the token is built.
- `Middleware.SignatureChecker`: the comparison is plain equality. The timing side of `hmac.Equal`'s constant-time comparison cannot be expressed in the model.
- JSON decoding and encoding are parameters: `RootApp.Unmarshaler` and `Client.Marshal`. The decoder result keeps three cases: a decoded payload, a syntax error with nothing assigned, and a type error that keeps every field that did decode. `json.Unmarshal` skips a mistyped field and goes on with the rest.
- `Client.DemoBody` is written out as the JSON that `json.Marshal` produces for the client's payload. It is not derived.
- Header-name canonicalisation by `Header.Set` and `Header.Get` is not modelled. Headers are keyed by the literal name on both sides, which gives the same lookups for the names used here.
- `Middleware.HeaderValue` holds one value per header name. A Go request can carry several `x-signature` values, and `Header.Get` returns the first of them; requests with repeated header names are not modelled.
- `http.Error` also sets `Content-Type` and `X-Content-Type-Options` headers. Response headers are not modelled; only the status and the body are.
- The client's `http.NewRequest` cannot fail on its constant URL and method, so that error branch is absent. Sending the request with `client.Do`, reading the response and printing it are not modelled.
- The invalid-signature test in server/main_test.go:75-81 expects a base64 string as the 403 body. The checker writes `Invalid Signature\n`. The model follows the code: see `Middleware.WrongSignatureRejected`.
- The body stream is a value with bytes and an error flag. A read that fails part-way yields the bytes read before the failure.

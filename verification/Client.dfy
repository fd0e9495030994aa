/** The client facade of src/client.rs over an arbitrary protocol adapter. */
module Client {
  import opened Common
  import opened Text
  import opened Base64
  import opened Auth
  import opened Crypto
  import opened Header
  import opened Config
  import opened Message
  import opened EnvelopeSupport
  import opened HeaderContext
  import opened Adapter
  import opened AdapterWire
  import opened AdapterLaws
  import opened Envelope

  /** The operations of a `ProtocolAdapter`; nothing is assumed of them. */
  datatype AdapterOps = AdapterOps(
    requestContext: (ClientIdentity, ProtocolRequestContext) -> Result<AuthContext, AdapterErrorKind>,
    buildRequest: (ClientIdentity, ProtocolRequestContext, SecureEnvelope) -> Result<RequestParts, AdapterErrorKind>,
    parseResponse: ResponseParts -> Result<ParsedResponse, AdapterErrorKind>,
    pinned: Option<HeaderAuthentication>)

  datatype SecureClient = SecureClient(party: Party, adapter: AdapterOps)

  /** `HeaderProtocolAdapter::request_authentication_context`. */
  function RequestAuthContext(s: HeaderSchema, context: ProtocolRequestContext): Result<AuthContext, AdapterErrorKind> {
    match s.authentication
    case LegacyAuthentication => Ok(Legacy)
    case BoundAuthentication => EncodeRequestContext(context.operation, context.metadata.requestId)
  }

  function HeaderAdapter(s: HeaderSchema): AdapterOps {
    AdapterOps(
      (identity, context) => RequestAuthContext(s, context),
      (identity, context, envelope) => BuildRequestResult(s, identity, context, envelope),
      response => ParseResult(s, response),
      Some(s.authentication))
  }

  /** `authentication_matches_pin`: kinds only. */
  predicate MatchesPin(mode: AuthMode, pinned: HeaderAuthentication) {
    mode.ContextBound? <==> pinned.BoundAuthentication?
  }

  /** `SecureClient::new`. */
  function NewClient(config: ClientConfig, keys: KeyMaterial, adapter: AdapterOps): Result<SecureClient, Error> {
    if adapter.pinned.Some? && !MatchesPin(config.authMode, adapter.pinned.value) then Err(Error.AuthenticationContext)
    else Ok(SecureClient(Party(config, keys), adapter))
  }

  /** A client is accepted exactly when its adapter pins no kind or the kind of its configuration. */
  lemma NewClientMeans(config: ClientConfig, keys: KeyMaterial, adapter: AdapterOps)
    ensures NewClient(config, keys, adapter) ==
            if || adapter.pinned.None?
               || (adapter.pinned == Some(LegacyAuthentication) && config.authMode == LegacyPlaintext)
               || (adapter.pinned == Some(BoundAuthentication) && config.authMode.ContextBound?)
            then Ok(SecureClient(Party(config, keys), adapter)) else Err(Error.AuthenticationContext)
  {
  }

  /** A header client that was accepted never meets a context of the wrong kind, in either direction. */
  lemma PinnedContextsMatch(config: ClientConfig, keys: KeyMaterial, s: HeaderSchema, context: ProtocolRequestContext,
                            response: ResponseParts)
    ensures NewClient(config, keys, HeaderAdapter(s)).Ok? <==> MatchesPin(config.authMode, s.authentication)
    ensures NewClient(config, keys, HeaderAdapter(s)).Ok? ==>
              && (RequestAuthContext(s, context).Ok? ==> KindsMatch(config.authMode, RequestAuthContext(s, context).value))
              && (ParseResult(s, response).Ok? ==> KindsMatch(config.authMode, ParseResult(s, response).value.authContext))
  {
    hide RequiredResponseHeader, TrimmedNonempty, HasDuplicate, First, Encodable, IsContextValue, IsHeaderValue;
  }

  //
  // Requests.
  //

  /** The adapter's request around the sealed plaintext, before caller headers are added. */
  function AdapterRequest(suite: Suite, client: SecureClient, plaintext: bytes, context: ProtocolRequestContext, draws: Draws)
    : Result<RequestParts, Error>
  {
    var identity := client.party.config.identity;
    var authContext :- client.adapter.requestContext(identity, context).OrElse(ProtocolAdapter);
    var envelope :- SealResult(suite, client.party, plaintext, authContext, draws);
    client.adapter.buildRequest(identity, context, envelope).OrElse(ProtocolAdapter)
  }

  /** What `build_request` returns. */
  function ClientRequest(suite: Suite, client: SecureClient, plaintext: bytes, context: RequestContext, draws: Draws)
    : Result<RequestParts, Error>
  {
    var parts :- AdapterRequest(suite, client, plaintext, context.protocol, draws);
    var appended :- AppendOutcome(parts.headers, context.additionalHeaders);
    Ok(RequestParts(parts.headers + context.additionalHeaders, parts.body))
  }

  /**
    * `SecureClient::build_request`, for any adapter, well-behaved or not: success means the adapter's headers
    * unchanged, then the caller's headers in order, all names distinct; any repetition is a header conflict.
    */
  method BuildClientRequest(suite: Suite, client: SecureClient, plaintext: bytes, context: RequestContext, draws: Draws)
    returns (r: Result<RequestParts, Error>)
    ensures r == ClientRequest(suite, client, plaintext, context, draws)
    ensures var emitted := AdapterRequest(suite, client, plaintext, context.protocol, draws);
            match emitted
            case Err(error) => r == Err(error)
            case Ok(parts) =>
              && (r.Ok? <==> WellFormed(parts.headers + context.additionalHeaders))
              && (r.Ok? ==> r.value == RequestParts(parts.headers + context.additionalHeaders, parts.body))
              && (r.Err? && AllValid(parts.headers) && AllValid(context.additionalHeaders) ==> r.error == HeaderConflict)
  {
    hide SealResult, Collect, WellFormed;
    var identity := client.party.config.identity;
    var authContext :- client.adapter.requestContext(identity, context.protocol).OrElse(ProtocolAdapter);
    var envelope :- SealResult(suite, client.party, plaintext, authContext, draws);
    var parts :- client.adapter.buildRequest(identity, context.protocol, envelope).OrElse(ProtocolAdapter);
    AppendWellFormed(parts.headers, context.additionalHeaders);
    CollectAcceptsWellFormed(parts.headers);
    CollectFailsOnlyOverNames(parts.headers);
    var request := new HeaderCollection.Unchecked(parts.headers);
    var additional := new HeaderCollection.Unchecked(context.additionalHeaders);
    var _ :- request.Revalidate();
    var _ :- request.AppendChecked(additional);
    r := Ok(RequestParts(request.entries, parts.body));
  }

  /** The envelope a request carries, read by name. */
  function EnvelopeIn(s: HeaderSchema, r: RequestParts): Option<SecureEnvelope> {
    var signature := Lookup(r.headers, s.requestSignature.original);
    var wrappedKey := Lookup(r.headers, s.requestWrappedKey.original);
    var cipher := if s.requestCipher.Body? then Some(r.body) else Lookup(r.headers, s.requestCipher.name.original);
    if signature.None? || wrappedKey.None? || cipher.None? then None
    else Some(SecureEnvelope(cipher.value, wrappedKey.value, signature.value))
  }

  /** The context that authenticates a request. */
  function RequesterContext(s: HeaderSchema, context: ProtocolRequestContext): Result<AuthContext, AdapterErrorKind> {
    if s.authentication.LegacyAuthentication? then Ok(Legacy)
    else ContextFor(Request(context.operation, context.metadata.requestId))
  }

  lemma {:induction false} LookupInPrefix(a: seq<Entry>, b: seq<Entry>, name: string)
    requires Lookup(a, name).Some?
    ensures Lookup(a + b, name) == Lookup(a, name)
  {
    if !SameIgnoringCase(a[0].name.original, name) {
      assert (a + b)[1..] == a[1..] + b;
      LookupInPrefix(a[1..], b, name);
    }
  }

  lemma SameTextDiffersOnlyInCase(s: string)
    ensures DifferOnlyInCase(s, s)
  {
  }

  /**
    * End to end: what a header client sends, caller headers included, carries an envelope that a matched receiver opens to
    * the caller's plaintext, under the context of the request's operation and id.
    */
  lemma RequestRoundTrip(suite: Suite, client: SecureClient, s: HeaderSchema, receiver: Party, plaintext: bytes,
                         context: RequestContext, draws: Draws)
    requires Lawful(suite) && Matched(suite, client.party, receiver)
    requires client.adapter == HeaderAdapter(s) && BuiltSchema(s)
    requires |plaintext| <= receiver.config.maxPlaintextBytes
    requires ClientRequest(suite, client, plaintext, context, draws).Ok?
    ensures var r := ClientRequest(suite, client, plaintext, context, draws).value;
            && RequesterContext(s, context.protocol).Ok?
            && EnvelopeIn(s, r).Some?
            && (|EnvelopeIn(s, r).value.cipher| <= USIZE_MAX ==>
                  OpenResult(suite, receiver, EnvelopeIn(s, r).value, RequesterContext(s, context.protocol).value)
                  == Ok(plaintext))
  {
    hide SealResult, OpenResult, BuildRequestResult, Lookup, WellFormed, Collect, EncodeRequestContext, DifferOnlyInCase,
      BuiltSchema, Lawful, Matched;
    var identity := client.party.config.identity;
    var authContext := RequestAuthContext(s, context.protocol).value;
    assert RequesterContext(s, context.protocol) == Ok(authContext);
    var envelope := SealResult(suite, client.party, plaintext, authContext, draws).value;
    var parts := BuildRequestResult(s, identity, context.protocol, envelope).value;
    var r := ClientRequest(suite, client, plaintext, context, draws).value;
    assert r == RequestParts(parts.headers + context.additionalHeaders, parts.body);
    BuiltRequestAnswersEveryName(s, identity, context.protocol, envelope);
    SameTextDiffersOnlyInCase(s.requestSignature.original);
    SameTextDiffersOnlyInCase(s.requestWrappedKey.original);
    LookupInPrefix(parts.headers, context.additionalHeaders, s.requestSignature.original);
    LookupInPrefix(parts.headers, context.additionalHeaders, s.requestWrappedKey.original);
    if s.requestCipher.InHeader? {
      SameTextDiffersOnlyInCase(s.requestCipher.name.original);
      LookupInPrefix(parts.headers, context.additionalHeaders, s.requestCipher.name.original);
    }
    assert EnvelopeIn(s, r) == Some(envelope);
    if |envelope.cipher| <= USIZE_MAX {
      OpenInvertsSeal(suite, client.party, receiver, plaintext, authContext, draws);
    }
  }

  /** How a request fails before its headers are joined, for every adapter: in its context, in sealing, or in building. */
  lemma RequestFailures(suite: Suite, client: SecureClient, plaintext: bytes, context: RequestContext, draws: Draws)
    ensures var identity := client.party.config.identity;
            var authContext := client.adapter.requestContext(identity, context.protocol);
            var r := ClientRequest(suite, client, plaintext, context, draws);
            && (authContext.Err? ==> r == Err(ProtocolAdapter))
            && (authContext.Ok? ==>
                  var sealed := SealResult(suite, client.party, plaintext, authContext.value, draws);
                  && (sealed.Err? ==> r == Err(sealed.error))
                  && (sealed.Ok? && client.adapter.buildRequest(identity, context.protocol, sealed.value).Err? ==>
                        r == Err(ProtocolAdapter)))
  {
    hide SealResult, Collect, WellFormed;
  }

  /** A header client asks for the context of the request's operation and id, and fails exactly when there is none. */
  lemma HeaderRequestContext(s: HeaderSchema, identity: ClientIdentity, context: ProtocolRequestContext)
    ensures HeaderAdapter(s).requestContext(identity, context) == RequesterContext(s, context)
  {
    hide EncodeRequestContext;
  }

  //
  // Responses.
  //

  /** `SecureClient::open_response`. */
  function OpenResponse(suite: Suite, client: SecureClient, response: ResponseParts): Result<bytes, Error> {
    var parsed :- client.adapter.parseResponse(response).OrElse(ProtocolAdapter);
    if parsed.remoteSigningCertificateId != client.party.config.identity.expectedRemoteSigningCertificateId then
      Err(ProtocolAdapter)
    else OpenResult(suite, client.party, parsed.envelope, parsed.authContext)
  }

  /**
    * For every adapter, a response is opened only if it parses and names exactly the expected certificate; any other
    * certificate, or no parse, is an adapter failure before anything is opened.
    */
  lemma OnlyTheExpectedCertificateOpens(suite: Suite, client: SecureClient, response: ResponseParts)
    ensures var parsed := client.adapter.parseResponse(response);
            && (OpenResponse(suite, client, response).Ok? ==>
                  parsed.Ok? && parsed.value.remoteSigningCertificateId == ExpectedId(client))
            && (parsed.Err? || parsed.value.remoteSigningCertificateId != ExpectedId(client) ==>
                  OpenResponse(suite, client, response) == Err(ProtocolAdapter))
            && (parsed.Ok? && parsed.value.remoteSigningCertificateId == ExpectedId(client) ==>
                  OpenResponse(suite, client, response)
                  == OpenResult(suite, client.party, parsed.value.envelope, parsed.value.authContext))
  {
    hide OpenResult;
  }

  /** A header client refuses every response whose certificate header, trimmed, is not the expected id, sent once. */
  lemma OtherCertificatesAreRefused(suite: Suite, client: SecureClient, s: HeaderSchema, response: ResponseParts)
    requires client.adapter == HeaderAdapter(s)
    requires !CarriesOnce(response.headers, s.responseRemoteSigningCertificate, ExpectedId(client))
    ensures OpenResponse(suite, client, response) == Err(ProtocolAdapter)
  {
    hide OpenResult, ParseResult, CarriesOnce, FirstParseFailure;
    ParseMeans(s, response);
    OnlyTheExpectedCertificateOpens(suite, client, response);
  }

  /** The context under which a responder answers. */
  function ResponderContext(s: HeaderSchema, requestId: string): Result<AuthContext, AdapterErrorKind> {
    if s.authentication.LegacyAuthentication? then Ok(Legacy) else EncodeResponseContext(requestId)
  }

  lemma {:induction false} EncodedIsCarriable(b: bytes)
    requires b != []
    ensures Carriable(Encode(b))
  {
    EncodedLength(b);
    EncodedAlphabet(b);
    var s := Encode(b);
    forall i | 0 <= i < |s| ensures !IsWhitespace(s[i]) && !IsDisallowedValueChar(s[i]) {
      assert IsBase64Char(s[i]);
    }
  }

  /**
    * End to end: whatever else the response carries and however its headers are ordered or cased, if it carries the
    * responder's envelope, the expected certificate id and the request id once each, the plaintext comes out.
    */
  lemma ResponseRoundTrip(suite: Suite, responder: Party, client: SecureClient, s: HeaderSchema, requestId: string,
                          p: bytes, draws: Draws, response: ResponseParts)
    requires Lawful(suite) && Matched(suite, responder, client.party)
    requires client.adapter == HeaderAdapter(s) && ResponderContext(s, requestId).Ok?
    requires |p| <= client.party.config.maxPlaintextBytes
    requires SealResult(suite, responder, p, ResponderContext(s, requestId).value, draws).Ok?
    requires |SealResult(suite, responder, p, ResponderContext(s, requestId).value, draws).value.cipher| <= USIZE_MAX
    requires client.party.config.identity.expectedRemoteSigningCertificateId != ""
    requires Carries(s, response, SealResult(suite, responder, p, ResponderContext(s, requestId).value, draws).value,
                     client.party.config.identity.expectedRemoteSigningCertificateId, requestId)
    ensures OpenResponse(suite, client, response) == Ok(p)
  {
    hide SealResult, OpenResult, ParseResult, Carries, EncodeResponseContext, Lawful;
    var context := ResponderContext(s, requestId).value;
    var envelope := SealResult(suite, responder, p, context, draws).value;
    SealedFieldsAreCarriable(suite, responder, client.party.keys.localDecryption, p, context, draws);
    ParseReadsWhatIsCarried(s, response, envelope, client.party.config.identity.expectedRemoteSigningCertificateId, requestId);
    OpenInvertsSeal(suite, responder, client.party, p, context, draws);
  }

  lemma SealedFieldsAreCarriable(suite: Suite, party: Party, recipient: PrivateKey, p: bytes, context: AuthContext, draws: Draws)
    requires Lawful(suite) && SealResult(suite, party, p, context, draws).Ok?
    requires party.keys.remoteEncryption == suite.publicOf(recipient)
    ensures var e := SealResult(suite, party, p, context, draws).value;
            Carriable(e.cipher) && Carriable(e.wrappedSessionKey) && Carriable(e.signature)
  {
    hide SealResult;
    var payload, key, wrapped, input, signature := SealedShape(suite, party, p, context, draws);
    EncodedIsCarriable(payload);
    EncodedIsCarriable(wrapped);
    EncodedIsCarriable(signature);
  }

  //
  // The expected certificate id.
  //

  function ExpectedId(client: SecureClient): string {
    client.party.config.identity.expectedRemoteSigningCertificateId
  }

  /** An expected certificate id that no header can carry makes a header client refuse every response. */
  lemma UncarriableIdRejectsEverything(suite: Suite, client: SecureClient, s: HeaderSchema, response: ResponseParts)
    requires client.adapter == HeaderAdapter(s) && !Carriable(ExpectedId(client))
    ensures OpenResponse(suite, client, response) == Err(ProtocolAdapter)
  {
    hide OpenResult, ParseResult, Carriable;
    if ParseResult(s, response).Ok? { ParsedCertificateIdIsCarriable(s, response); }
  }

  /**
    * Exactly when a header client can be answered: with a matched responder whose sealed answer fits, some response opens
    * to the plaintext if and only if the expected certificate id is carriable.
    */
  lemma AnswerableExactlyWhenIdIsCarriable(suite: Suite, responder: Party, client: SecureClient, s: HeaderSchema,
                                           requestId: string, p: bytes, draws: Draws)
    requires Lawful(suite) && Matched(suite, responder, client.party)
    requires client.adapter == HeaderAdapter(s) && BuiltSchema(s) && ResponderContext(s, requestId).Ok?
    requires s.authentication.BoundAuthentication? ==> IsHeaderValue(requestId)
    requires |p| <= client.party.config.maxPlaintextBytes
    requires SealResult(suite, responder, p, ResponderContext(s, requestId).value, draws).Ok?
    requires |SealResult(suite, responder, p, ResponderContext(s, requestId).value, draws).value.cipher| <= USIZE_MAX
    ensures Carriable(ExpectedId(client)) <==> exists response :: OpenResponse(suite, client, response) == Ok(p)
    ensures Carriable(ExpectedId(client)) ==>
              var envelope := SealResult(suite, responder, p, ResponderContext(s, requestId).value, draws).value;
              OpenResponse(suite, client, CarryingResponse(s, envelope, ExpectedId(client), requestId)) == Ok(p)
  {
    hide SealResult, OpenResponse, Carries, CarryingResponse, ResponderContext, Lawful, Matched;
    if Carriable(ExpectedId(client)) {
      var context := ResponderContext(s, requestId).value;
      var envelope := SealResult(suite, responder, p, context, draws).value;
      MatchedEncryptsForReceiver(suite, responder, client.party);
      SealedFieldsAreCarriable(suite, responder, client.party.keys.localDecryption, p, context, draws);
      CarryingResponseCarries(s, envelope, ExpectedId(client), requestId);
      ResponseRoundTrip(suite, responder, client, s, requestId, p, draws,
                        CarryingResponse(s, envelope, ExpectedId(client), requestId));
    } else {
      forall response ensures OpenResponse(suite, client, response) != Ok(p) {
        UncarriableIdRejectsEverything(suite, client, s, response);
      }
    }
  }

  lemma MatchedEncryptsForReceiver(suite: Suite, sender: Party, receiver: Party)
    requires Matched(suite, sender, receiver)
    ensures sender.keys.remoteEncryption == suite.publicOf(receiver.keys.localDecryption)
  {
  }

  /** A small configuration that expects the given certificate id. */
  function ConfigExpecting(id: string): ClientConfig {
    ClientConfig(ClientIdentity("a", "a", "a", id, "a"), [1], [1], LegacyPlaintext, ZERO_IV, LegacyCbc, 1)
  }

  /** The builder accepts ids that are not carriable: one with whitespace at its end, one with a control character inside. */
  lemma BuilderAcceptsUncarriableIds()
    ensures forall id :: id in {"a ", "a\U{0001}b"} ==>
              Build(BuilderFor(ConfigExpecting(id))) == Ok(ConfigExpecting(id)) && !Carriable(id)
  {
    hide Build, BuilderFor;
    forall id | id in {"a ", "a\U{0001}b"}
      ensures Build(BuilderFor(ConfigExpecting(id))) == Ok(ConfigExpecting(id)) && !Carriable(id)
    {
      assert !IsWhitespace(id[0]);
      assert !IsWhitespace("a"[0]);
      BuiltIsReachable(ConfigExpecting(id));
      assert id == "a " ==> IsWhitespace(id[1]);
      assert id == "a\U{0001}b" ==> IsDisallowedValueChar(id[1]);
    }
  }
}

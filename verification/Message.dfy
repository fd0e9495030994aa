/** The protocol-neutral values of src/message.rs. */
module Message {
  import opened Common
  import opened Text
  import opened Auth
  import opened Header

  datatype SecureEnvelope = SecureEnvelope(cipher: string, wrappedSessionKey: string, signature: string)

  datatype RequestMetadata = RequestMetadata(requestId: string, requestTime: string)

  datatype ProtocolRequestContext = ProtocolRequestContext(operation: string, metadata: RequestMetadata)

  datatype RequestContext = RequestContext(protocol: ProtocolRequestContext, additionalHeaders: seq<Entry>)

  datatype RequestParts = RequestParts(headers: seq<Entry>, body: string)

  datatype ResponseParts = ResponseParts(headers: seq<Pair>, body: string)

  datatype ParsedResponse = ParsedResponse(
    envelope: SecureEnvelope,
    remoteSigningCertificateId: string,
    authContext: AuthContext)

  /** `validate_context_value`. */
  function ValidateContextValue(value: string): (r: Result<string, Error>)
    ensures r == if IsContextValue(value) then Ok(value) else Err(InvalidHeader)
  {
    TrimOfTrimmed(value);
    if Trim(value) == "" || HasLineBreak(value) then Err(InvalidHeader) else Ok(value)
  }

  /** `RequestContext::from_parts`: unique valid caller headers, then a valid operation. */
  method RequestContextFromParts(operation: string, metadata: RequestMetadata, additionalHeaders: seq<Entry>)
    returns (r: Result<RequestContext, Error>)
    ensures r.Ok? <==> WellFormed(additionalHeaders) && IsContextValue(operation)
    ensures r.Ok? ==> r.value == RequestContext(ProtocolRequestContext(operation, metadata), additionalHeaders)
    ensures WellFormed(additionalHeaders) && r.Err? ==> r.error == InvalidHeader
    ensures AllValid(additionalHeaders) && !DistinctNames(additionalHeaders) ==> r == Err(HeaderConflict)
  {
    var outcome, collection := HeaderCollection.FromTypedPairs(additionalHeaders);
    if outcome.Err? {
      return Err(outcome.error);
    }
    var again := collection.Revalidate();
    assert again.Ok?;
    var validOperation :- ValidateContextValue(operation);
    r := Ok(RequestContext(ProtocolRequestContext(validOperation, metadata), collection.entries));
  }

  /** What `RequestParts::new` returns. */
  function RequestPartsOf(pairs: seq<Pair>, body: string): Result<RequestParts, Error> {
    var headers :- Collect(ToEntries(pairs));
    Ok(RequestParts(headers, body))
  }

  /** `RequestParts::new`: collects, appends to an empty collection, and validates again. */
  method NewRequestParts(pairs: seq<Pair>, body: string) returns (r: Result<RequestParts, Error>)
    ensures r == RequestPartsOf(pairs, body)
  {
    CollectAcceptsWellFormed(ToEntries(pairs));
    var outcome, incoming := HeaderCollection.FromPairs(pairs);
    if outcome.Err? {
      return Err(outcome.error);
    }
    var headers := new HeaderCollection();
    assert [] + incoming.entries == incoming.entries;
    var appended := headers.AppendChecked(incoming);
    var validated := headers.Revalidate();
    assert appended.Ok? && validated.Ok?;
    r := Ok(RequestParts(headers.entries, body));
  }

  /** `ParsedResponse::new`. */
  function NewParsedResponse(envelope: SecureEnvelope, certificateId: string, context: AuthContext)
    : (r: Result<ParsedResponse, AdapterErrorKind>)
    ensures r == if IsContextValue(certificateId) then Ok(ParsedResponse(envelope, certificateId, context))
                 else Err(InvalidField)
  {
    TrimOfTrimmed(certificateId);
    if Trim(certificateId) == "" || HasLineBreak(certificateId) then Err(InvalidField)
    else Ok(ParsedResponse(envelope, certificateId, context))
  }
}

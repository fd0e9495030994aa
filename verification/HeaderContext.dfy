/** The version-1 context bytes of the header adapter, src/adapter.rs. */
module HeaderContext {
  import opened Common
  import opened Text
  import opened Framing
  import opened Auth

  const HEADER_CONTEXT_VERSION: byte := 0x01
  const HEADER_CONTEXT_REQUEST: byte := 0x01
  const HEADER_CONTEXT_RESPONSE: byte := 0x02

  /** `require_exact_trim` accepts: not blank, and no whitespace at either end. */
  predicate IsExactlyTrimmed(value: string) { value != "" && IsTrimmed(value) }

  predicate Encodable(value: string) { IsExactlyTrimmed(value) && ByteLen(value) <= U64_MAX }

  function RequestContextBytes(operation: string, requestId: string): bytes {
    [HEADER_CONTEXT_VERSION, HEADER_CONTEXT_REQUEST] + (Field(Utf8(operation)) + Field(Utf8(requestId)))
  }

  function ResponseContextBytes(requestId: string): bytes {
    [HEADER_CONTEXT_VERSION, HEADER_CONTEXT_RESPONSE] + Field(Utf8(requestId))
  }

  /** What `encode_request_context` returns. */
  function EncodeRequestContext(operation: string, requestId: string): Result<AuthContext, AdapterErrorKind> {
    if Encodable(operation) && Encodable(requestId) then Ok(Bound(RequestContextBytes(operation, requestId)))
    else Err(InvalidField)
  }

  /** What `encode_response_context` returns. */
  function EncodeResponseContext(requestId: string): Result<AuthContext, AdapterErrorKind> {
    if Encodable(requestId) then Ok(Bound(ResponseContextBytes(requestId))) else Err(InvalidField)
  }

  function RequireExactTrim(value: string): (r: Result<string, AdapterErrorKind>)
    ensures r == if IsExactlyTrimmed(value) then Ok(value) else Err(InvalidField)
  {
    TrimOfTrimmed(value);
    if Trim(value) == "" || value != Trim(value) then Err(InvalidField) else Ok(value)
  }

  /** `encode_request_context`, pushing onto a buffer. */
  method BuildRequestContext(operation: string, requestId: string) returns (r: Result<AuthContext, AdapterErrorKind>)
    ensures r == EncodeRequestContext(operation, requestId)
  {
    var trimmedOperation :- RequireExactTrim(operation);
    var trimmedId :- RequireExactTrim(requestId);
    var buffer := new ByteBuffer();
    buffer.Extend([HEADER_CONTEXT_VERSION]);
    buffer.Extend([HEADER_CONTEXT_REQUEST]);
    var pushed := buffer.PushField(Utf8(trimmedOperation));
    if pushed.Err? {
      return Err(InvalidField);
    }
    pushed := buffer.PushField(Utf8(trimmedId));
    if pushed.Err? {
      return Err(InvalidField);
    }
    assert buffer.data == RequestContextBytes(operation, requestId);
    r := BoundContext(buffer.data).OrElse(InvalidField);
  }

  /** `encode_response_context`, pushing onto a buffer. */
  method BuildResponseContext(requestId: string) returns (r: Result<AuthContext, AdapterErrorKind>)
    ensures r == EncodeResponseContext(requestId)
  {
    var trimmedId :- RequireExactTrim(requestId);
    var buffer := new ByteBuffer();
    buffer.Extend([HEADER_CONTEXT_VERSION]);
    buffer.Extend([HEADER_CONTEXT_RESPONSE]);
    var pushed := buffer.PushField(Utf8(trimmedId));
    if pushed.Err? {
      return Err(InvalidField);
    }
    assert buffer.data == ResponseContextBytes(requestId);
    r := BoundContext(buffer.data).OrElse(InvalidField);
  }

  //
  // The bytes, written out.
  //

  /** Version, direction and prefixed UTF-8 fields; nothing for an empty, untrimmed or overlong field. */
  function ContextLayout(exchange: Exchange): Option<bytes> {
    match exchange
    case Request(operation, id) =>
      if operation == "" || !IsTrimmed(operation) || id == "" || !IsTrimmed(id)
         || |Utf8(operation)| > U64_MAX || |Utf8(id)| > U64_MAX
      then None
      else Some([1, 1] + Prefixed(Utf8(operation)) + Prefixed(Utf8(id)))
    case Response(id) =>
      if id == "" || !IsTrimmed(id) || |Utf8(id)| > U64_MAX then None
      else Some([1, 2] + Prefixed(Utf8(id)))
  }

  /** The adapter's contexts are exactly the written-out bytes. */
  lemma ContextMeans(exchange: Exchange)
    ensures ContextFor(exchange) ==
            if ContextLayout(exchange).Some? then Ok(Bound(ContextLayout(exchange).value)) else Err(InvalidField)
  {
    hide BigEndian, Utf8;
    match exchange
    case Request(operation, id) =>
      assert [1 as byte, 1] + Prefixed(Utf8(operation)) + Prefixed(Utf8(id)) == RequestContextBytes(operation, id);
    case Response(id) =>
      assert [1 as byte, 2] + Prefixed(Utf8(id)) == ResponseContextBytes(id);
  }

  //
  // Unique readability.
  //

  /** What a header-adapter exchange binds besides the plaintext. */
  datatype Exchange = Request(operation: string, requestId: string) | Response(requestId: string)

  function ContextFor(exchange: Exchange): Result<AuthContext, AdapterErrorKind> {
    match exchange
    case Request(operation, requestId) => EncodeRequestContext(operation, requestId)
    case Response(requestId) => EncodeResponseContext(requestId)
  }

  /** The byte fields of a context. */
  datatype RawExchange = RawRequest(operation: bytes, requestId: bytes) | RawResponse(requestId: bytes)

  function Raw(x: Exchange): RawExchange {
    match x
    case Request(operation, requestId) => RawRequest(Utf8(operation), Utf8(requestId))
    case Response(requestId) => RawResponse(Utf8(requestId))
  }

  /** Reads a context: version, direction, then its fields and nothing after them. */
  function ReadContext(b: bytes): Option<RawExchange> {
    if |b| < 2 || b[0] != HEADER_CONTEXT_VERSION then None
    else
      var first := ReadField(b[2..]);
      if first.None? then None
      else if b[1] == HEADER_CONTEXT_RESPONSE then
        if first.value.1 == [] then Some(RawResponse(first.value.0)) else None
      else if b[1] == HEADER_CONTEXT_REQUEST then
        var second := ReadField(first.value.1);
        if second.None? || second.value.1 != [] then None else Some(RawRequest(first.value.0, second.value.0))
      else None
  }

  lemma ReadContextOfContext(x: Exchange)
    requires ContextFor(x).Ok?
    ensures ReadContext(ContextFor(x).value.context) == Some(Raw(x))
  {
    hide ReadField, Field;
    var b := ContextFor(x).value.context;
    match x
    case Request(operation, id) =>
      assert b[2..] == Field(Utf8(operation)) + Field(Utf8(id));
      ReadFieldOfField(Utf8(operation), Field(Utf8(id)));
      ReadFieldOfField(Utf8(id), []);
      assert Field(Utf8(id)) + [] == Field(Utf8(id));
    case Response(id) =>
      assert b[2..] == Field(Utf8(id)) + [];
      ReadFieldOfField(Utf8(id), []);
  }

  /** A context determines direction, operation and request id; in particular no request context is a response context. */
  lemma ContextDetermines(x: Exchange, x': Exchange)
    requires ContextFor(x).Ok? && ContextFor(x) == ContextFor(x')
    ensures x == x'
  {
    hide ContextFor, ReadContext;
    ReadContextOfContext(x);
    ReadContextOfContext(x');
    match (x, x')
    case (Request(operation, id), Request(operation', id')) =>
      Utf8Injective(operation, operation');
      Utf8Injective(id, id');
    case (Response(id), Response(id')) =>
      Utf8Injective(id, id');
    case _ =>
  }

  /**
    * Reading through both layers: equal signed transcripts come from the same
    * domain, direction, operation, request id and plaintext.
    */
  lemma SignedExchangeDetermines(mode: AuthMode, x: Exchange, p: bytes, mode': AuthMode, x': Exchange, p': bytes)
    requires ContextFor(x).Ok? && ContextFor(x').Ok?
    requires AuthenticationInput(mode, ContextFor(x).value, p).Ok?
    requires AuthenticationInput(mode, ContextFor(x).value, p) == AuthenticationInput(mode', ContextFor(x').value, p')
    ensures mode == mode' && x == x' && p == p'
  {
    InputDetermines(mode, ContextFor(x).value, p, mode', ContextFor(x').value, p');
    ContextDetermines(x, x');
  }
}

/** Building requests and parsing responses with a header schema, src/adapter.rs. */
module AdapterWire {
  import opened Common
  import opened Text
  import opened Auth
  import opened Header
  import opened Message
  import opened Config
  import opened HeaderContext
  import opened Adapter

  //
  // Requests.
  //

  /** The ten headers every request carries, in the order of `FixedRequestNames`. */
  function FixedRequestPairs(s: HeaderSchema, identity: ClientIdentity, context: ProtocolRequestContext,
                             envelope: SecureEnvelope)
    : seq<Pair>
  {
    [(s.localIdentity.original, identity.localIdentityId),
     (s.operation.original, context.operation),
     (s.requestId.original, context.metadata.requestId),
     (s.requestTime.original, context.metadata.requestTime),
     (s.apiVersion.original, identity.apiVersion),
     (s.localCertificate.original, identity.localCertificateId),
     (s.remoteSigningCertificate.original, identity.expectedRemoteSigningCertificateId),
     (s.remoteEncryptionCertificate.original, identity.remoteEncryptionCertificateId),
     (s.requestSignature.original, envelope.signature),
     (s.requestWrappedKey.original, envelope.wrappedSessionKey)]
  }

  function RequestPairs(s: HeaderSchema, identity: ClientIdentity, context: ProtocolRequestContext,
                        envelope: SecureEnvelope)
    : seq<Pair>
  {
    ToPairs(s.staticRequestHeaders) + FixedRequestPairs(s, identity, context, envelope)
    + if s.requestCipher.InHeader? then [(s.requestCipher.name.original, envelope.cipher)] else []
  }

  function RequestBody(s: HeaderSchema, envelope: SecureEnvelope): string {
    if s.requestCipher.Body? then envelope.cipher else ""
  }

  predicate AnyBlank(envelope: SecureEnvelope) {
    IsBlank(envelope.signature) || IsBlank(envelope.wrappedSessionKey) || IsBlank(envelope.cipher)
  }

  /** What `build_request` returns. */
  function BuildRequestResult(s: HeaderSchema, identity: ClientIdentity, context: ProtocolRequestContext, envelope: SecureEnvelope)
    : Result<RequestParts, AdapterErrorKind>
  {
    if AnyBlank(envelope) then Err(InvalidField)
    else RequestPartsOf(RequestPairs(s, identity, context, envelope), RequestBody(s, envelope)).OrElse(InvalidField)
  }

  function ValidateNonempty(value: string): (r: Result<(), AdapterErrorKind>)
    ensures r == if IsBlank(value) then Err(InvalidField) else Ok(())
  {
    TrimOfTrimmed(value);
    if Trim(value) == "" then Err(InvalidField) else Ok(())
  }

  /** `build_request`, extending the list of static headers. */
  method BuildRequest(s: HeaderSchema, identity: ClientIdentity, context: ProtocolRequestContext, envelope: SecureEnvelope)
    returns (r: Result<RequestParts, AdapterErrorKind>)
    ensures r == BuildRequestResult(s, identity, context, envelope)
  {
    var _ :- ValidateNonempty(envelope.signature);
    var _ :- ValidateNonempty(envelope.wrappedSessionKey);
    var _ :- ValidateNonempty(envelope.cipher);
    var headers := ToPairs(s.staticRequestHeaders);
    headers := headers + FixedRequestPairs(s, identity, context, envelope);
    var body := "";
    if s.requestCipher.Body? {
      body := envelope.cipher;
      assert headers == headers + [];
    } else {
      headers := headers + [(s.requestCipher.name.original, envelope.cipher)];
    }
    var parts := NewRequestParts(headers, body);
    r := parts.OrElse(InvalidField);
  }

  lemma RequestPairNames(s: HeaderSchema, identity: ClientIdentity, context: ProtocolRequestContext, envelope: SecureEnvelope)
    ensures var pairs := RequestPairs(s, identity, context, envelope);
            |pairs| == |RequestNames(s)| && forall i :: 0 <= i < |pairs| ==> pairs[i].0 == RequestNames(s)[i].original
  {
  }

  predicate AllHeaderValues(pairs: seq<Pair>) { forall i :: 0 <= i < |pairs| ==> IsHeaderValue(pairs[i].1) }

  /**
    * On a built schema `build_request` never fails over names: it fails exactly for a blank envelope field or a
    * value that is not a header value, and otherwise emits every pair in order.
    */
  lemma BuildRequestFailsOnlyOverValues(s: HeaderSchema, identity: ClientIdentity, context: ProtocolRequestContext,
                                        envelope: SecureEnvelope)
    requires BuiltSchema(s)
    ensures var pairs := RequestPairs(s, identity, context, envelope);
            && DistinctNames(ToEntries(pairs))
            && (AllHeaderValues(pairs) <==> Collect(ToEntries(pairs)).Ok?)
            && BuildRequestResult(s, identity, context, envelope) ==
               if AnyBlank(envelope) || !AllHeaderValues(pairs) then Err(InvalidField)
               else Ok(RequestParts(ToEntries(pairs), RequestBody(s, envelope)))
  {
    var pairs := RequestPairs(s, identity, context, envelope);
    var entries := ToEntries(pairs);
    RequestPairNames(s, identity, context, envelope);
    NamesAreTokens(s);
    forall i, j | 0 <= i < j < |entries| ensures entries[i].name.Canonical() != entries[j].name.Canonical() {
      var c := Canonicals(RequestNames(s));
      assert c[i] == entries[i].name.Canonical() && c[j] == entries[j].name.Canonical();
    }
    forall i | 0 <= i < |entries| ensures IsToken(entries[i].name.original) {
      assert entries[i].name.original == RequestNames(s)[i].original;
    }
    CollectAcceptsWellFormed(entries);
    assert AllHeaderValues(pairs) <==> WellFormed(entries);
  }

  lemma NamesAreTokens(s: HeaderSchema)
    requires BuiltSchema(s)
    ensures forall i :: 0 <= i < |RequestNames(s)| ==> IsToken(RequestNames(s)[i].original)
  {
  }

  //
  // Responses.
  //

  /** The values sent under one name, in any casing, in order. */
  function Occurrences(headers: seq<Pair>, canonical: string): seq<string> {
    if |headers| == 0 then []
    else
      var front := Occurrences(headers[..|headers| - 1], canonical);
      var last := headers[|headers| - 1];
      if Lower(last.0) == canonical then front + [last.1] else front
  }

  /** The first value sent under one name. */
  function First(headers: seq<Pair>, name: HeaderName): Option<string> {
    var values := Occurrences(headers, name.Canonical());
    if values == [] then None else Some(values[0])
  }

  function RequiredResponseHeader(value: Option<string>): Result<string, AdapterErrorKind> {
    if value.None? then Err(MissingField)
    else if !IsHeaderValue(value.value) then Err(InvalidField)
    else TrimmedNonempty(value.value)
  }

  function TrimmedNonempty(value: string): Result<string, AdapterErrorKind> {
    if Trim(value) == "" then Err(InvalidField) else Ok(Trim(value))
  }

  /** The context that authenticates a response to the request named in its headers. */
  function ResponseContext(s: HeaderSchema, requestId: Option<string>): Result<AuthContext, AdapterErrorKind> {
    match s.authentication
    case LegacyAuthentication => Ok(Legacy)
    case BoundAuthentication =>
      if requestId.None? then Err(MissingField)
      else if !IsHeaderValue(requestId.value) then Err(InvalidField)
      else EncodeResponseContext(requestId.value)
  }

  /** Some name the schema looks for is sent twice. */
  predicate HasDuplicate(s: HeaderSchema, headers: seq<Pair>) {
    exists i :: 0 <= i < |ResponseNames(s)| && |Occurrences(headers, ResponseNames(s)[i].Canonical())| > 1
  }

  /** `parse_response` as independent case-insensitive lookups. */
  function ParseResult(s: HeaderSchema, response: ResponseParts): Result<ParsedResponse, AdapterErrorKind> {
    if HasDuplicate(s, response.headers) then Err(DuplicateField)
    else
      var signature :- RequiredResponseHeader(First(response.headers, s.responseSignature));
      var wrappedKey :- RequiredResponseHeader(First(response.headers, s.responseWrappedKey));
      var certificateId :- RequiredResponseHeader(First(response.headers, s.responseRemoteSigningCertificate));
      var cipher :- if s.responseCipher.Body? then TrimmedNonempty(response.body)
                    else RequiredResponseHeader(First(response.headers, s.responseCipher.name));
      var context :- ResponseContext(s, First(response.headers, s.requestId));
      NewParsedResponse(SecureEnvelope(cipher, wrappedKey, signature), certificateId, context)
  }

  lemma {:induction false} OccurrencesConcat(a: seq<Pair>, b: seq<Pair>, canonical: string)
    ensures Occurrences(a + b, canonical) == Occurrences(a, canonical) + Occurrences(b, canonical)
    decreases |b|
  {
    if |b| == 0 {
      assert a + b == a;
    } else {
      var front := b[..|b| - 1];
      OccurrencesConcat(a, front, canonical);
      assert (a + b)[..|a + b| - 1] == a + front;
    }
  }

  /** What has been sent so far under each of the names. */
  ghost predicate SlotsAt(s: HeaderSchema, headers: seq<Pair>, signature: Option<string>, wrappedKey: Option<string>,
                          certificateId: Option<string>, cipher: Option<string>, requestId: Option<string>)
  {
    && signature == First(headers, s.responseSignature)
    && wrappedKey == First(headers, s.responseWrappedKey)
    && certificateId == First(headers, s.responseRemoteSigningCertificate)
    && (s.responseCipher.InHeader? ==> cipher == First(headers, s.responseCipher.name))
    && (s.authentication.BoundAuthentication? ==> requestId == First(headers, s.requestId))
  }

  lemma StepOccurrences(headers: seq<Pair>, i: nat, canonical: string)
    requires i < |headers|
    ensures Occurrences(headers[..i + 1], canonical) ==
            Occurrences(headers[..i], canonical) + if Lower(headers[i].0) == canonical then [headers[i].1] else []
  {
    assert headers[..i + 1][..i] == headers[..i];
  }

  /** One more header under the k-th name: a duplicate if the name was seen, otherwise its first value. */
  lemma StepMapped(s: HeaderSchema, headers: seq<Pair>, i: nat, k: nat)
    requires CollisionFree(s) && i < |headers| && !HasDuplicate(s, headers[..i])
    requires k < |ResponseNames(s)| && Lower(headers[i].0) == ResponseNames(s)[k].Canonical()
    ensures First(headers[..i], ResponseNames(s)[k]).Some? ==> HasDuplicate(s, headers)
    ensures First(headers[..i], ResponseNames(s)[k]).None? ==>
              && !HasDuplicate(s, headers[..i + 1])
              && First(headers[..i + 1], ResponseNames(s)[k]) == Some(headers[i].1)
    ensures forall j :: 0 <= j < |ResponseNames(s)| && j != k ==>
              First(headers[..i + 1], ResponseNames(s)[j]) == First(headers[..i], ResponseNames(s)[j])
  {
    hide Occurrences, ResponseNames, Lower;
    var names := ResponseNames(s);
    assert Distinct(Canonicals(names));
    var c := Canonicals(names);
    forall j | 0 <= j < |names|
      ensures Occurrences(headers[..i + 1], names[j].Canonical()) ==
              Occurrences(headers[..i], names[j].Canonical()) + if j == k then [headers[i].1] else []
    {
      StepOccurrences(headers, i, names[j].Canonical());
      assert c[j] == names[j].Canonical() && c[k] == names[k].Canonical();
    }
    if First(headers[..i], names[k]).Some? {
      OccurrencesConcat(headers[..i + 1], headers[i + 1..], names[k].Canonical());
      assert headers[..i + 1] + headers[i + 1..] == headers;
    }
  }

  /** A header under no mapped name changes nothing. */
  lemma StepUnmapped(s: HeaderSchema, headers: seq<Pair>, i: nat)
    requires i < |headers| && !HasDuplicate(s, headers[..i])
    requires forall k :: 0 <= k < |ResponseNames(s)| ==> Lower(headers[i].0) != ResponseNames(s)[k].Canonical()
    ensures !HasDuplicate(s, headers[..i + 1])
    ensures forall j :: 0 <= j < |ResponseNames(s)| ==>
              First(headers[..i + 1], ResponseNames(s)[j]) == First(headers[..i], ResponseNames(s)[j])
  {
    hide Occurrences, ResponseNames, Lower;
    forall j | 0 <= j < |ResponseNames(s)|
      ensures Occurrences(headers[..i + 1], ResponseNames(s)[j].Canonical())
              == Occurrences(headers[..i], ResponseNames(s)[j].Canonical())
    {
      StepOccurrences(headers, i, ResponseNames(s)[j].Canonical());
    }
  }

  /** The five values a response can carry. */
  datatype Slot = Signature | WrappedKey | Certificate | RequestId | Cipher

  /** The if-else cascade that selects a slot for one header name. */
  function TargetOf(s: HeaderSchema, name: string): Option<Slot> {
    if SameIgnoringCase(name, s.responseSignature.original) then Some(Signature)
    else if SameIgnoringCase(name, s.responseWrappedKey.original) then Some(WrappedKey)
    else if SameIgnoringCase(name, s.responseRemoteSigningCertificate.original) then Some(Certificate)
    else if s.authentication.BoundAuthentication? && SameIgnoringCase(name, s.requestId.original) then Some(RequestId)
    else if s.responseCipher.InHeader? && SameIgnoringCase(name, s.responseCipher.name.original) then Some(Cipher)
    else None
  }

  function SlotIndex(s: HeaderSchema, slot: Slot): nat {
    match slot
    case Signature => 0
    case WrappedKey => 1
    case Certificate => 2
    case Cipher => 3
    case RequestId => if s.responseCipher.InHeader? then 4 else 3
  }

  /** The cascade finds the position of the name among the response names, and misses only unmapped names. */
  lemma TargetIsTheName(s: HeaderSchema, name: string)
    ensures var target := TargetOf(s, name);
            && (target.Some? ==>
                  && SlotIndex(s, target.value) < |ResponseNames(s)|
                  && Lower(name) == ResponseNames(s)[SlotIndex(s, target.value)].Canonical())
            && (target.None? ==>
                  forall k :: 0 <= k < |ResponseNames(s)| ==> Lower(name) != ResponseNames(s)[k].Canonical())
  {
    hide Lower, ResponseNames;
    SlotNames(s);
  }

  /** `parse_response` up to the end of its loop: one pass that fills five optional slots. */
  method ScanHeaders(s: HeaderSchema, headers: seq<Pair>)
    returns (r: Result<(), AdapterErrorKind>, signature: Option<string>, wrappedKey: Option<string>,
             certificateId: Option<string>, cipher: Option<string>, requestId: Option<string>)
    requires CollisionFree(s)
    ensures r == if HasDuplicate(s, headers) then Err(DuplicateField) else Ok(())
    ensures r.Ok? ==> SlotsAt(s, headers, signature, wrappedKey, certificateId, cipher, requestId)
  {
    hide Lower, Occurrences, HasDuplicate, First, CollisionFree;
    r, signature, wrappedKey, certificateId, cipher, requestId := Ok(()), None, None, None, None, None;
    NothingSeen(s);
    for i := 0 to |headers|
      invariant r.Ok? && !HasDuplicate(s, headers[..i])
      invariant SlotsAt(s, headers[..i], signature, wrappedKey, certificateId, cipher, requestId)
    {
      var (name, value) := headers[i];
      TargetIsTheName(s, name);
      var target := TargetOf(s, name);
      if target.None? {
        StepUnmapped(s, headers, i);
        SlotNames(s);
      } else {
        StepMapped(s, headers, i, SlotIndex(s, target.value));
        SlotNames(s);
        var seen := false;
        match target.value {
          case Signature => seen, signature := signature.Some?, Some(value);
          case WrappedKey => seen, wrappedKey := wrappedKey.Some?, Some(value);
          case Certificate => seen, certificateId := certificateId.Some?, Some(value);
          case RequestId => seen, requestId := requestId.Some?, Some(value);
          case Cipher => seen, cipher := cipher.Some?, Some(value);
        }
        if seen {
          r := Err(DuplicateField);
          return;
        }
      }
    }
    assert headers[..|headers|] == headers;
  }

  lemma NothingSeen(s: HeaderSchema)
    ensures forall headers: seq<Pair> :: !HasDuplicate(s, headers[..0]) && SlotsAt(s, headers[..0], None, None, None, None, None)
  {
  }

  lemma SlotNames(s: HeaderSchema)
    ensures |ResponseNames(s)| == 3 + (if s.responseCipher.InHeader? then 1 else 0) + (if s.authentication.BoundAuthentication? then 1 else 0)
    ensures ResponseNames(s)[0] == s.responseSignature && ResponseNames(s)[1] == s.responseWrappedKey
    ensures ResponseNames(s)[2] == s.responseRemoteSigningCertificate
    ensures s.responseCipher.InHeader? ==> ResponseNames(s)[3] == s.responseCipher.name
    ensures s.authentication.BoundAuthentication? ==> ResponseNames(s)[SlotIndex(s, RequestId)] == s.requestId
  {
  }

  /** A repeated mapped name is the one cause of `DuplicateField`, and takes precedence over every other failure. */
  lemma DuplicatesAreReported(s: HeaderSchema, response: ResponseParts)
    ensures ParseResult(s, response) == Err(DuplicateField) <==> HasDuplicate(s, response.headers)
  {
    hide HasDuplicate, First, IsHeaderValue, Trim, IsContextValue, Encodable;
  }

  /** In bound mode a parsed response authenticates the request id it echoes. */
  lemma ParsedContextNamesTheEchoedId(s: HeaderSchema, response: ResponseParts)
    requires s.authentication.BoundAuthentication? && ParseResult(s, response).Ok?
    ensures First(response.headers, s.requestId).Some?
    ensures ContextFor(Response(First(response.headers, s.requestId).value)) == Ok(ParseResult(s, response).value.authContext)
  {
    hide HasDuplicate, First, IsHeaderValue, Trim, IsContextValue, Encodable;
  }

  /** `parse_response` agrees with independent lookups on every header list, however ordered or duplicated. */
  method ParseResponse(s: HeaderSchema, response: ResponseParts) returns (r: Result<ParsedResponse, AdapterErrorKind>)
    requires CollisionFree(s)
    ensures r == ParseResult(s, response)
  {
    hide HasDuplicate, First, RequiredResponseHeader, EncodeResponseContext, CollisionFree;
    var scanned, maybeSignature, maybeWrappedKey, maybeCertificateId, maybeCipher, requestId :=
      ScanHeaders(s, response.headers);
    if scanned.Err? {
      return Err(scanned.error);
    }
    var signature :- RequiredResponseHeader(maybeSignature);
    var wrappedKey :- RequiredResponseHeader(maybeWrappedKey);
    var certificateId :- RequiredResponseHeader(maybeCertificateId);
    var cipher;
    if s.responseCipher.Body? {
      cipher :- TrimmedNonempty(response.body);
    } else {
      cipher :- RequiredResponseHeader(maybeCipher);
    }
    var context := Legacy;
    if s.authentication.BoundAuthentication? {
      if requestId.None? {
        return Err(MissingField);
      }
      if !IsHeaderValue(requestId.value) {
        return Err(InvalidField);
      }
      context :- BuildResponseContext(requestId.value);
    }
    r := NewParsedResponse(SecureEnvelope(cipher, wrappedKey, signature), certificateId, context);
  }
}

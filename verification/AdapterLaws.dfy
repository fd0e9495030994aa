/** What parsing depends on, and how it reads back what was written. */
module AdapterLaws {
  import opened Common
  import opened Text
  import opened Auth
  import opened Header
  import opened Message
  import opened Config
  import opened HeaderContext
  import opened Adapter
  import opened AdapterWire

  //
  // Parsing depends only on what is sent under each mapped name.
  //

  ghost predicate SameUnder(s: HeaderSchema, h: seq<Pair>, h': seq<Pair>) {
    forall k :: 0 <= k < |ResponseNames(s)| ==>
      multiset(Occurrences(h, ResponseNames(s)[k].Canonical())) == multiset(Occurrences(h', ResponseNames(s)[k].Canonical()))
  }

  lemma SameLength(a: seq<string>, b: seq<string>)
    requires multiset(a) == multiset(b)
    ensures |a| == |b| && (|a| == 1 ==> a == b)
  {
    assert |multiset(a)| == |a| && |multiset(b)| == |b|;
    if |a| == 1 {
      assert a[0] in multiset(b);
      assert a[0] in b;
    }
  }

  /** Two header lists with the same values under each mapped name parse alike, error kind included. */
  lemma ParseDependsOnMappedValues(s: HeaderSchema, h: seq<Pair>, h': seq<Pair>, body: string)
    requires SameUnder(s, h, h')
    ensures ParseResult(s, ResponseParts(h, body)) == ParseResult(s, ResponseParts(h', body))
  {
    hide Occurrences, RequiredResponseHeader, TrimmedNonempty, ResponseContext, ResponseNames, NewParsedResponse;
    var names := ResponseNames(s);
    forall k | 0 <= k < |names|
      ensures |Occurrences(h, names[k].Canonical())| == |Occurrences(h', names[k].Canonical())|
      ensures |Occurrences(h, names[k].Canonical())| <= 1 ==> First(h, names[k]) == First(h', names[k])
    {
      SameLength(Occurrences(h, names[k].Canonical()), Occurrences(h', names[k].Canonical()));
    }
    assert HasDuplicate(s, h) == HasDuplicate(s, h');
    if !HasDuplicate(s, h) {
      SlotNames(s);
      UnboundIgnoresRequestId(s, First(h, s.requestId), First(h', s.requestId));
    }
  }

  lemma UnboundIgnoresRequestId(s: HeaderSchema, id: Option<string>, id': Option<string>)
    requires s.authentication.BoundAuthentication? ==> id == id'
    ensures ResponseContext(s, id) == ResponseContext(s, id')
  {
  }

  /** Taking one header out takes out its own value, if it has the name. */
  lemma OccurrencesWithout(h: seq<Pair>, k: nat, canonical: string)
    requires k < |h|
    ensures multiset(h[..k] + h[k + 1..]) == multiset(h) - multiset{h[k]}
    ensures multiset(Occurrences(h, canonical)) ==
            multiset(Occurrences([h[k]], canonical)) + multiset(Occurrences(h[..k] + h[k + 1..], canonical))
  {
    hide Occurrences;
    var left, right := h[..k], h[k + 1..];
    assert h == left + [h[k]] + right;
    OccurrencesConcat(left, right, canonical);
    OccurrencesConcat(left, [h[k]], canonical);
    OccurrencesConcat(left + [h[k]], right, canonical);
  }

  lemma {:induction false} OccurrencesOfPermutation(h: seq<Pair>, h': seq<Pair>, canonical: string)
    requires multiset(h) == multiset(h')
    ensures multiset(Occurrences(h, canonical)) == multiset(Occurrences(h', canonical))
    decreases |h|
  {
    hide Occurrences;
    if |h| == 0 {
      assert |multiset(h')| == 0;
      assert h == h';
    } else {
      var first := h[0];
      assert first in multiset(h');
      var k :| 0 <= k < |h'| && h'[k] == first;
      var rest, rest' := h[..0] + h[1..], h'[..k] + h'[k + 1..];
      OccurrencesWithout(h, 0, canonical);
      OccurrencesWithout(h', k, canonical);
      assert multiset(rest) == multiset(rest') && |rest| < |h|;
      OccurrencesOfPermutation(rest, rest', canonical);
    }
  }

  /** The order of the headers does not matter. */
  lemma ParseIgnoresOrder(s: HeaderSchema, h: seq<Pair>, h': seq<Pair>, body: string)
    requires multiset(h) == multiset(h')
    ensures ParseResult(s, ResponseParts(h, body)) == ParseResult(s, ResponseParts(h', body))
  {
    hide ParseResult, ResponseNames;
    forall k | 0 <= k < |ResponseNames(s)|
      ensures multiset(Occurrences(h, ResponseNames(s)[k].Canonical()))
              == multiset(Occurrences(h', ResponseNames(s)[k].Canonical()))
    {
      OccurrencesOfPermutation(h, h', ResponseNames(s)[k].Canonical());
    }
    ParseDependsOnMappedValues(s, h, h', body);
  }

  predicate IsUnmapped(s: HeaderSchema, name: string) {
    forall k :: 0 <= k < |ResponseNames(s)| ==> Lower(name) != ResponseNames(s)[k].Canonical()
  }

  lemma {:induction false} NoOccurrences(h: seq<Pair>, canonical: string)
    requires forall i :: 0 <= i < |h| ==> Lower(h[i].0) != canonical
    ensures Occurrences(h, canonical) == []
  {
    if |h| > 0 { NoOccurrences(h[..|h| - 1], canonical); }
  }

  /** Headers under other names, anywhere in the list, do not matter. */
  lemma ParseIgnoresUnmapped(s: HeaderSchema, left: seq<Pair>, extra: seq<Pair>, right: seq<Pair>, body: string)
    requires forall i :: 0 <= i < |extra| ==> IsUnmapped(s, extra[i].0)
    ensures ParseResult(s, ResponseParts(left + extra + right, body)) == ParseResult(s, ResponseParts(left + right, body))
  {
    hide ParseResult, ResponseNames;
    forall k | 0 <= k < |ResponseNames(s)|
      ensures Occurrences(left + extra + right, ResponseNames(s)[k].Canonical())
              == Occurrences(left + right, ResponseNames(s)[k].Canonical())
    {
      var c := ResponseNames(s)[k].Canonical();
      NoOccurrences(extra, c);
      OccurrencesConcat(left, extra, c);
      OccurrencesConcat(left + extra, right, c);
      OccurrencesConcat(left, right, c);
    }
    ParseDependsOnMappedValues(s, left + extra + right, left + right, body);
  }

  //
  // What the parser sees, and why it fails.
  //

  /** The values under a name are those of the headers whose name differs from it only in case. */
  lemma {:induction false} OccurrencesMean(headers: seq<Pair>, name: HeaderName, value: string)
    ensures var values := Occurrences(headers, name.Canonical());
            && (value in values <==>
                  exists i :: 0 <= i < |headers| && DifferOnlyInCase(headers[i].0, name.original) && headers[i].1 == value)
            && (values == [] <==> forall i :: 0 <= i < |headers| ==> !DifferOnlyInCase(headers[i].0, name.original))
            && (|values| > 1 <==>
                  exists i, j :: 0 <= i < j < |headers| && DifferOnlyInCase(headers[i].0, name.original)
                                 && DifferOnlyInCase(headers[j].0, name.original))
  {
    hide DifferOnlyInCase, Lower;
    if |headers| > 0 {
      var n := |headers| - 1;
      var front := headers[..n];
      OccurrencesMean(front, name, value);
      SameIgnoringCaseMeans(headers[n].0, name.original);
      assert forall i :: 0 <= i < n ==> front[i] == headers[i];
      var values := Occurrences(front, name.Canonical());
      if DifferOnlyInCase(headers[n].0, name.original) {
        assert Occurrences(headers, name.Canonical()) == values + [headers[n].1];
        if values != [] {
          var i :| 0 <= i < n && DifferOnlyInCase(front[i].0, name.original);
          assert DifferOnlyInCase(headers[i].0, name.original);
        }
      }
    }
  }

  /** Why the values under one name are refused. */
  function FieldFailure(values: seq<string>): Option<AdapterErrorKind> {
    if values == [] then Some(MissingField)
    else if !IsHeaderValue(values[0]) || IsBlank(values[0]) then Some(InvalidField)
    else None
  }

  function ValuesOf(response: ResponseParts, name: HeaderName): seq<string> {
    Occurrences(response.headers, name.Canonical())
  }

  /** Why the echoed request id is refused. */
  function EchoFailure(values: seq<string>): Option<AdapterErrorKind> {
    if values == [] then Some(MissingField)
    else if !Carriable(values[0]) || ByteLen(values[0]) > U64_MAX then Some(InvalidField)
    else None
  }

  function CipherFailure(s: HeaderSchema, response: ResponseParts): Option<AdapterErrorKind> {
    match s.responseCipher
    case Body => Unless(!IsBlank(response.body), InvalidField)
    case InHeader(name) => FieldFailure(ValuesOf(response, name))
  }

  /** What the parser checks, in order. */
  function FirstParseFailure(s: HeaderSchema, response: ResponseParts): Option<AdapterErrorKind> {
    Earlier(Unless(!HasDuplicate(s, response.headers), DuplicateField),
    Earlier(FieldFailure(ValuesOf(response, s.responseSignature)),
    Earlier(FieldFailure(ValuesOf(response, s.responseWrappedKey)),
    Earlier(FieldFailure(ValuesOf(response, s.responseRemoteSigningCertificate)),
    Earlier(CipherFailure(s, response),
    if s.authentication.LegacyAuthentication? then None else EchoFailure(ValuesOf(response, s.requestId)))))))
  }

  lemma RequiredMeans(headers: seq<Pair>, name: HeaderName)
    ensures var values := Occurrences(headers, name.Canonical());
            RequiredResponseHeader(First(headers, name)) ==
            if FieldFailure(values).Some? then Err(FieldFailure(values).value) else Ok(Trim(values[0]))
  {
    hide Occurrences, Trim, IsHeaderValue;
    var values := Occurrences(headers, name.Canonical());
    if values != [] { TrimOfTrimmed(values[0]); }
  }

  lemma EchoMeans(s: HeaderSchema, headers: seq<Pair>)
    requires s.authentication.BoundAuthentication?
    ensures var values := Occurrences(headers, s.requestId.Canonical());
            ResponseContext(s, First(headers, s.requestId)) ==
            if EchoFailure(values).Some? then Err(EchoFailure(values).value) else EncodeResponseContext(values[0])
    ensures var values := Occurrences(headers, s.requestId.Canonical());
            EchoFailure(values).None? ==> EncodeResponseContext(values[0]).Ok?
  {
    hide Occurrences, IsHeaderValue, IsTrimmed, ByteLen;
  }

  /**
    * The parser fails at the first check that does not hold, with its kind, and otherwise returns the one value under each
    * mapped name, trimmed, and the context of the echoed request id.
    */
  lemma ParseMeans(s: HeaderSchema, response: ResponseParts)
    ensures FirstParseFailure(s, response).Some? ==>
              ParseResult(s, response) == Err(FirstParseFailure(s, response).value)
    ensures FirstParseFailure(s, response).None? ==>
              && ParseResult(s, response).Ok?
              && var r := ParseResult(s, response).value;
              && Carries(s, response, r.envelope, r.remoteSigningCertificateId,
                         if s.authentication.BoundAuthentication? then ValuesOf(response, s.requestId)[0] else "")
              && (s.authentication.LegacyAuthentication? ==> r.authContext == Legacy)
              && (s.authentication.BoundAuthentication? ==>
                    EncodeResponseContext(ValuesOf(response, s.requestId)[0]) == Ok(r.authContext))
  {
    hide Occurrences, Trim, HasDuplicate, RequiredResponseHeader, ResponseContext, EncodeResponseContext, FieldFailure,
      EchoFailure, IsHeaderValue, IsBlank, IsContextValue, First, Carries;
    var h := response.headers;
    RequiredMeans(h, s.responseSignature);
    RequiredMeans(h, s.responseWrappedKey);
    RequiredMeans(h, s.responseRemoteSigningCertificate);
    if s.responseCipher.InHeader? { RequiredMeans(h, s.responseCipher.name); }
    TrimOfTrimmed(response.body);
    if s.authentication.BoundAuthentication? {
      EchoMeans(s, h);
    } else {
      LegacyContext(s, First(h, s.requestId));
    }
    if FirstParseFailure(s, response).None? { AcceptedIsCarried(s, response); }
  }

  /** What passes every check is carried once under each name. */
  lemma AcceptedIsCarried(s: HeaderSchema, response: ResponseParts)
    requires FirstParseFailure(s, response).None?
    ensures ValuesOf(response, s.responseSignature) != [] && ValuesOf(response, s.responseWrappedKey) != []
    ensures ValuesOf(response, s.responseRemoteSigningCertificate) != []
    ensures IsContextValue(Trim(ValuesOf(response, s.responseRemoteSigningCertificate)[0]))
    ensures s.responseCipher.InHeader? ==> ValuesOf(response, s.responseCipher.name) != []
    ensures s.authentication.BoundAuthentication? ==> ValuesOf(response, s.requestId) != []
    ensures Carries(s, response,
                    SecureEnvelope(
                      if s.responseCipher.Body? then Trim(response.body) else Trim(ValuesOf(response, s.responseCipher.name)[0]),
                      Trim(ValuesOf(response, s.responseWrappedKey)[0]), Trim(ValuesOf(response, s.responseSignature)[0])),
                    Trim(ValuesOf(response, s.responseRemoteSigningCertificate)[0]),
                    if s.authentication.BoundAuthentication? then ValuesOf(response, s.requestId)[0] else "")
  {
    hide Occurrences, Trim, HasDuplicate, FieldFailure, EchoFailure, IsHeaderValue, IsBlank, IsContextValue;
    NoDuplicateMeansOnce(s, response.headers);
    Acceptable(ValuesOf(response, s.responseSignature));
    Acceptable(ValuesOf(response, s.responseWrappedKey));
    Acceptable(ValuesOf(response, s.responseRemoteSigningCertificate));
    TrimKeepsLines(ValuesOf(response, s.responseRemoteSigningCertificate)[0]);
    if s.responseCipher.InHeader? { Acceptable(ValuesOf(response, s.responseCipher.name)); }
    if s.authentication.BoundAuthentication? { AcceptableEcho(ValuesOf(response, s.requestId)); }
  }

  lemma LegacyContext(s: HeaderSchema, id: Option<string>)
    requires s.authentication.LegacyAuthentication?
    ensures ResponseContext(s, id) == Ok(Legacy)
  {
  }

  lemma Acceptable(values: seq<string>)
    requires FieldFailure(values).None?
    ensures values != [] && IsHeaderValue(values[0]) && Trim(values[0]) != ""
  {
    hide Trim, IsHeaderValue;
    TrimOfTrimmed(values[0]);
  }

  lemma AcceptableEcho(values: seq<string>)
    requires EchoFailure(values).None?
    ensures values != [] && IsHeaderValue(values[0])
  {
    hide IsHeaderValue, IsTrimmed;
  }

  lemma NoDuplicateMeansOnce(s: HeaderSchema, headers: seq<Pair>)
    requires !HasDuplicate(s, headers)
    ensures |Occurrences(headers, s.responseSignature.Canonical())| <= 1
    ensures |Occurrences(headers, s.responseWrappedKey.Canonical())| <= 1
    ensures |Occurrences(headers, s.responseRemoteSigningCertificate.Canonical())| <= 1
    ensures s.responseCipher.InHeader? ==> |Occurrences(headers, s.responseCipher.name.Canonical())| <= 1
    ensures s.authentication.BoundAuthentication? ==> |Occurrences(headers, s.requestId.Canonical())| <= 1
  {
    hide Occurrences, ResponseNames;
    SlotNames(s);
  }

  //
  // Reading back.
  //

  /** A response that carries these values, each once, under the mapped names, whitespace around them allowed. */
  ghost predicate Carries(s: HeaderSchema, response: ResponseParts, envelope: SecureEnvelope, certificateId: string,
                          requestId: string)
  {
    && CarriesOnce(response.headers, s.responseSignature, envelope.signature)
    && CarriesOnce(response.headers, s.responseWrappedKey, envelope.wrappedSessionKey)
    && CarriesOnce(response.headers, s.responseRemoteSigningCertificate, certificateId)
    && (match s.responseCipher
        case Body => Trim(response.body) == envelope.cipher
        case InHeader(name) => CarriesOnce(response.headers, name, envelope.cipher))
    && (s.authentication.BoundAuthentication? ==>
          Occurrences(response.headers, s.requestId.Canonical()) == [requestId] && IsHeaderValue(requestId))
  }

  ghost predicate CarriesOnce(headers: seq<Pair>, name: HeaderName, trimmed: string) {
    var values := Occurrences(headers, name.Canonical());
    |values| == 1 && IsHeaderValue(values[0]) && Trim(values[0]) == trimmed
  }

  lemma TrimKeepsLines(value: string)
    requires IsHeaderValue(value) && Trim(value) != ""
    ensures IsContextValue(Trim(value))
  {
    TrimOfTrimmed(value);
    var left, right := TrimSplits(value);
    var t := Trim(value);
    assert forall i :: 0 <= i < |t| ==> t[i] == value[|left| + i];
    assert !IsWhitespace(t[0]);
  }

  /** Such a response parses to exactly those values, unless the request id cannot be bound. */
  lemma ParseReadsWhatIsCarried(s: HeaderSchema, response: ResponseParts, envelope: SecureEnvelope, certificateId: string,
                                requestId: string)
    requires Carries(s, response, envelope, certificateId, requestId)
    requires envelope.cipher != "" && envelope.wrappedSessionKey != "" && envelope.signature != "" && certificateId != ""
    ensures ParseResult(s, response) ==
            if s.authentication.LegacyAuthentication? then Ok(ParsedResponse(envelope, certificateId, Legacy))
            else if EncodeResponseContext(requestId).Ok? then
              Ok(ParsedResponse(envelope, certificateId, EncodeResponseContext(requestId).value))
            else Err(InvalidField)
  {
    hide Occurrences, Trim, IsHeaderValue, Encodable, IsContextValue;
    SlotNames(s);
    forall k | 0 <= k < |ResponseNames(s)|
      ensures |Occurrences(response.headers, ResponseNames(s)[k].Canonical())| == 1
    {
    }
    assert !HasDuplicate(s, response.headers);
    assert RequiredResponseHeader(First(response.headers, s.responseSignature)) == Ok(envelope.signature);
    assert RequiredResponseHeader(First(response.headers, s.responseWrappedKey)) == Ok(envelope.wrappedSessionKey);
    assert RequiredResponseHeader(First(response.headers, s.responseRemoteSigningCertificate)) == Ok(certificateId);
    assert s.authentication.BoundAuthentication? ==> First(response.headers, s.requestId) == Some(requestId);
    assert IsContextValue(certificateId) by {
      TrimKeepsLines(Occurrences(response.headers, s.responseRemoteSigningCertificate.Canonical())[0]);
    }
  }

  lemma {:induction false} OccurrenceOfDistinct(pairs: seq<Pair>, k: nat)
    requires k < |pairs| && DistinctNames(ToEntries(pairs))
    ensures Occurrences(pairs, Lower(pairs[k].0)) == [pairs[k].1]
  {
    hide Occurrences;
    var c := Lower(pairs[k].0);
    var left, right := pairs[..k], pairs[k + 1..];
    assert pairs == left + [pairs[k]] + right;
    var entries := ToEntries(pairs);
    assert forall i :: 0 <= i < |pairs| ==> entries[i].name.Canonical() == Lower(pairs[i].0);
    assert forall i :: 0 <= i < |left| ==> left[i] == pairs[i];
    forall i | 0 <= i < |right| ensures Lower(right[i].0) != c {
      assert right[i] == pairs[k + 1 + i];
      assert entries[k].name.Canonical() != entries[k + 1 + i].name.Canonical();
    }
    NoOccurrences(left, c);
    NoOccurrences(right, c);
    OccurrencesConcat(left, [pairs[k]], c);
    OccurrencesConcat(left + [pairs[k]], right, c);
    SingleOccurrence(pairs[k]);
  }

  lemma SingleOccurrence(p: Pair)
    ensures Occurrences([p], Lower(p.0)) == [p.1]
  {
  }

  //
  // What can be carried.
  //

  /** Text that survives the parser unchanged: a header value with something in it and no whitespace at its ends. */
  predicate Carriable(value: string) { value != "" && IsTrimmed(value) && IsHeaderValue(value) }

  /** A response with each value once and nothing else. */
  function CarryingResponse(s: HeaderSchema, envelope: SecureEnvelope, certificateId: string, requestId: string)
    : ResponseParts
  {
    ResponseParts(
      [(s.responseSignature.original, envelope.signature),
       (s.responseWrappedKey.original, envelope.wrappedSessionKey),
       (s.responseRemoteSigningCertificate.original, certificateId)]
      + (if s.responseCipher.InHeader? then [(s.responseCipher.name.original, envelope.cipher)] else [])
      + (if s.authentication.BoundAuthentication? then [(s.requestId.original, requestId)] else []),
      if s.responseCipher.Body? then envelope.cipher else "")
  }

  lemma CarryingNames(s: HeaderSchema, envelope: SecureEnvelope, certificateId: string, requestId: string)
    requires CollisionFree(s)
    ensures DistinctNames(ToEntries(CarryingResponse(s, envelope, certificateId, requestId).headers))
  {
    hide Lower;
    var pairs := CarryingResponse(s, envelope, certificateId, requestId).headers;
    var c := Canonicals(ResponseNames(s));
    assert |pairs| == |c|;
    forall i | 0 <= i < |pairs| ensures ToEntries(pairs)[i].name.Canonical() == c[i] {
      assert ResponseNames(s)[i].original == pairs[i].0;
    }
  }

  lemma CarryingResponseCarries(s: HeaderSchema, envelope: SecureEnvelope, certificateId: string, requestId: string)
    requires CollisionFree(s) && Carriable(certificateId)
    requires Carriable(envelope.cipher) && Carriable(envelope.wrappedSessionKey) && Carriable(envelope.signature)
    requires s.authentication.BoundAuthentication? ==> IsHeaderValue(requestId)
    ensures Carries(s, CarryingResponse(s, envelope, certificateId, requestId), envelope, certificateId, requestId)
  {
    hide Occurrences, Lower, Trim, IsTrimmed, IsHeaderValue, CollisionFree, DistinctNames;
    var pairs := CarryingResponse(s, envelope, certificateId, requestId).headers;
    CarryingNames(s, envelope, certificateId, requestId);
    TrimmedNonblank(envelope.cipher);
    TrimmedNonblank(envelope.wrappedSessionKey);
    TrimmedNonblank(envelope.signature);
    TrimmedNonblank(certificateId);
    OccurrenceOfDistinct(pairs, 0);
    OccurrenceOfDistinct(pairs, 1);
    OccurrenceOfDistinct(pairs, 2);
    if s.responseCipher.InHeader? { OccurrenceOfDistinct(pairs, 3); }
    if s.authentication.BoundAuthentication? { OccurrenceOfDistinct(pairs, |pairs| - 1); }
  }

  /** Every certificate id the parser returns is carriable. */
  lemma ParsedCertificateIdIsCarriable(s: HeaderSchema, response: ResponseParts)
    requires ParseResult(s, response).Ok?
    ensures Carriable(ParseResult(s, response).value.remoteSigningCertificateId)
  {
    hide HasDuplicate, ResponseContext, Trim, Occurrences;
    var value := First(response.headers, s.responseRemoteSigningCertificate).value;
    TrimOfTrimmed(value);
    var left, right := TrimSplits(value);
    assert forall i :: 0 <= i < |Trim(value)| ==> Trim(value)[i] == value[|left| + i];
  }

  /** The certificate ids some response can convey are exactly the carriable ones, for every built schema. */
  lemma ConveyableCertificateIds(s: HeaderSchema, id: string)
    requires BuiltSchema(s)
    ensures Carriable(id) <==>
              exists response :: ParseResult(s, response).Ok? && ParseResult(s, response).value.remoteSigningCertificateId == id
  {
    hide ParseResult, Carries, CarryingResponse;
    if Carriable(id) {
      var envelope := SecureEnvelope("x", "x", "x");
      var response := CarryingResponse(s, envelope, id, "x");
      CarryingResponseCarries(s, envelope, id, "x");
      ParseReadsWhatIsCarried(s, response, envelope, id, "x");
      assert ByteLen("x") == 1 by { ByteLenOfAscii("x"); }
      assert ParseResult(s, response).Ok? && ParseResult(s, response).value.remoteSigningCertificateId == id;
    }
    forall response | ParseResult(s, response).Ok? && ParseResult(s, response).value.remoteSigningCertificateId == id
      ensures Carriable(id)
    {
      ParsedCertificateIdIsCarriable(s, response);
    }
  }

  //
  // Loopback.
  //

  /** The response half of the schema names what the request half does. */
  predicate IsLoopback(s: HeaderSchema) {
    && s.responseSignature.Canonical() == s.requestSignature.Canonical()
    && s.responseWrappedKey.Canonical() == s.requestWrappedKey.Canonical()
    && s.responseRemoteSigningCertificate.Canonical() == s.remoteSigningCertificate.Canonical()
    && (s.responseCipher.Body? <==> s.requestCipher.Body?)
    && (s.responseCipher.InHeader? ==> s.responseCipher.name.Canonical() == s.requestCipher.name.Canonical())
  }

  /**
    * Loopback: parsing the request that was built returns the same envelope, the configured remote certificate id
    * without surrounding whitespace, and the context of the same request id.
    */
  lemma ParseReadsBuiltRequest(s: HeaderSchema, identity: ClientIdentity, context: ProtocolRequestContext, envelope: SecureEnvelope)
    requires BuiltSchema(s) && IsLoopback(s) && IsContextValue(identity.expectedRemoteSigningCertificateId)
    requires IsTrimmed(envelope.cipher) && IsTrimmed(envelope.wrappedSessionKey) && IsTrimmed(envelope.signature)
    requires BuildRequestResult(s, identity, context, envelope).Ok?
    ensures var parts := BuildRequestResult(s, identity, context, envelope).value;
            var certificateId := Trim(identity.expectedRemoteSigningCertificateId);
            ParseResult(s, ResponseParts(ToPairs(parts.headers), parts.body)) ==
            if s.authentication.LegacyAuthentication? then Ok(ParsedResponse(envelope, certificateId, Legacy))
            else if EncodeResponseContext(context.metadata.requestId).Ok? then
              Ok(ParsedResponse(envelope, certificateId, EncodeResponseContext(context.metadata.requestId).value))
            else Err(InvalidField)
  {
    hide Occurrences, Trim, IsHeaderValue, EncodeResponseContext, ParseResult, BuildRequestResult, BuiltSchema, Lower,
      IsContextValue, IsTrimmed;
    BuildRequestFailsOnlyOverValues(s, identity, context, envelope);
    var pairs := RequestPairs(s, identity, context, envelope);
    var parts := BuildRequestResult(s, identity, context, envelope).value;
    PairsOfEntries(pairs);
    var response := ResponseParts(pairs, parts.body);
    var n := |s.staticRequestHeaders|;
    assert pairs[n + 2] == (s.requestId.original, context.metadata.requestId);
    assert pairs[n + 6] == (s.remoteSigningCertificate.original, identity.expectedRemoteSigningCertificateId);
    assert pairs[n + 8] == (s.requestSignature.original, envelope.signature);
    assert pairs[n + 9] == (s.requestWrappedKey.original, envelope.wrappedSessionKey);
    OccurrenceOfDistinct(pairs, n + 2);
    OccurrenceOfDistinct(pairs, n + 6);
    OccurrenceOfDistinct(pairs, n + 8);
    OccurrenceOfDistinct(pairs, n + 9);
    if s.requestCipher.InHeader? {
      assert pairs[n + 10] == (s.requestCipher.name.original, envelope.cipher);
      OccurrenceOfDistinct(pairs, n + 10);
    }
    TrimmedNonblank(envelope.cipher);
    TrimmedNonblank(envelope.wrappedSessionKey);
    TrimmedNonblank(envelope.signature);
    TrimmedNonblank(identity.expectedRemoteSigningCertificateId);
    var certificateId := Trim(identity.expectedRemoteSigningCertificateId);
    assert Carries(s, response, envelope, certificateId, context.metadata.requestId);
    ParseReadsWhatIsCarried(s, response, envelope, certificateId, context.metadata.requestId);
  }

  /** A built request answers every mapped name, under any casing, with the value mapped to it. */
  lemma BuiltRequestAnswersEveryName(s: HeaderSchema, identity: ClientIdentity, context: ProtocolRequestContext,
                                     envelope: SecureEnvelope)
    requires BuiltSchema(s) && BuildRequestResult(s, identity, context, envelope).Ok?
    ensures var parts := BuildRequestResult(s, identity, context, envelope).value;
            && Answers(parts, s.localIdentity, identity.localIdentityId)
            && Answers(parts, s.operation, context.operation)
            && Answers(parts, s.requestId, context.metadata.requestId)
            && Answers(parts, s.requestTime, context.metadata.requestTime)
            && Answers(parts, s.apiVersion, identity.apiVersion)
            && Answers(parts, s.localCertificate, identity.localCertificateId)
            && Answers(parts, s.remoteSigningCertificate, identity.expectedRemoteSigningCertificateId)
            && Answers(parts, s.remoteEncryptionCertificate, identity.remoteEncryptionCertificateId)
            && Answers(parts, s.requestSignature, envelope.signature)
            && Answers(parts, s.requestWrappedKey, envelope.wrappedSessionKey)
            && (match s.requestCipher
                case Body => parts.body == envelope.cipher
                case InHeader(name) => parts.body == "" && Answers(parts, name, envelope.cipher))
            && s.staticRequestHeaders <= parts.headers
  {
    hide BuildRequestResult, BuiltSchema, Answers, AllHeaderValues, AnyBlank, DistinctNames;
    BuildRequestFailsOnlyOverValues(s, identity, context, envelope);
    var pairs := RequestPairs(s, identity, context, envelope);
    var parts := BuildRequestResult(s, identity, context, envelope).value;
    var n := |s.staticRequestHeaders|;
    forall k: nat | k < |pairs| ensures Answers(parts, HeaderName(pairs[k].0), pairs[k].1) {
      EntryAnswers(parts, pairs, k);
    }
    assert pairs[n] == (s.localIdentity.original, identity.localIdentityId);
    assert pairs[n + 1] == (s.operation.original, context.operation);
    assert pairs[n + 2] == (s.requestId.original, context.metadata.requestId);
    assert pairs[n + 3] == (s.requestTime.original, context.metadata.requestTime);
    assert pairs[n + 4] == (s.apiVersion.original, identity.apiVersion);
    assert pairs[n + 5] == (s.localCertificate.original, identity.localCertificateId);
    assert pairs[n + 6] == (s.remoteSigningCertificate.original, identity.expectedRemoteSigningCertificateId);
    assert pairs[n + 7] == (s.remoteEncryptionCertificate.original, identity.remoteEncryptionCertificateId);
    assert pairs[n + 8] == (s.requestSignature.original, envelope.signature);
    assert pairs[n + 9] == (s.requestWrappedKey.original, envelope.wrappedSessionKey);
    assert s.requestCipher.InHeader? ==> pairs[n + 10] == (s.requestCipher.name.original, envelope.cipher);
    assert forall i :: 0 <= i < n ==> parts.headers[i] == ToEntry(ToPairs(s.staticRequestHeaders)[i]);
  }

  lemma EntryAnswers(parts: RequestParts, pairs: seq<Pair>, k: nat)
    requires parts.headers == ToEntries(pairs) && DistinctNames(ToEntries(pairs)) && k < |pairs|
    ensures Answers(parts, HeaderName(pairs[k].0), pairs[k].1)
  {
    hide DifferOnlyInCase, Lookup, DistinctNames;
    forall query | DifferOnlyInCase(pairs[k].0, query) ensures Lookup(parts.headers, query) == Some(pairs[k].1) {
      LookupFindsTheUniqueEntry(parts.headers, k, query);
    }
  }

  ghost predicate Answers(parts: RequestParts, name: HeaderName, value: string) {
    forall query: string :: DifferOnlyInCase(name.original, query) ==> Lookup(parts.headers, query) == Some(value)
  }

  lemma TrimmedNonblank(value: string)
    ensures IsTrimmed(value) ==> Trim(value) == value
    ensures !IsBlank(value) ==> Trim(value) != "" && value != ""
    ensures IsContextValue(value) ==> Trim(value) != ""
  {
    TrimOfTrimmed(value);
  }

  lemma PairsOfEntries(pairs: seq<Pair>)
    ensures ToPairs(ToEntries(pairs)) == pairs
  {
  }
}

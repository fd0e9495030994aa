/**
  * Runs of clients over a network that delivers whatever it likes.
  *
  * Signatures are ideal: a delivered signature verifies only for transcripts that a holder of the key has signed
  * before. Nothing else is assumed of the network, of the keys' other uses, or of the adapters.
  */
module Protocol {
  import opened Common
  import opened Framing
  import opened Base64
  import opened Auth
  import opened Crypto
  import opened Config
  import opened Header
  import opened Message
  import opened EnvelopeSupport
  import opened HeaderContext
  import opened Adapter
  import opened AdapterWire
  import opened AdapterLaws
  import opened Envelope
  import opened Client

  datatype System = System(suite: Suite, clients: seq<SecureClient>)

  datatype Action =
    | Seal(who: nat, plaintext: bytes, context: AuthContext, draws: Draws)
    | Deliver(who: nat, envelope: SecureEnvelope, context: AuthContext)
    | DeliverResponse(who: nat, response: ResponseParts)

  datatype Event =
    | Sealed(who: nat, context: AuthContext, plaintext: bytes)
    | Opened(who: nat, context: AuthContext, plaintext: bytes)

  /** Appends what one action makes happen; failures leave no event. */
  function Step(sys: System, trace: seq<Event>, action: Action): seq<Event>
    requires action.who < |sys.clients|
  {
    var client := sys.clients[action.who];
    match action
    case Seal(who, plaintext, context, draws) =>
      if SealResult(sys.suite, client.party, plaintext, context, draws).Ok? then trace + [Sealed(who, context, plaintext)]
      else trace
    case Deliver(who, envelope, context) =>
      var outcome := OpenResult(sys.suite, client.party, envelope, context);
      if outcome.Ok? then trace + [Opened(who, context, outcome.value)] else trace
    case DeliverResponse(who, response) =>
      var outcome := OpenResponse(sys.suite, client, response);
      if outcome.Ok? then trace + [Opened(who, client.adapter.parseResponse(response).value.authContext, outcome.value)]
      else trace
  }

  /** The transcript was signed under this key and signer id by an event of the trace before position `n`. */
  ghost predicate Signed(sys: System, trace: seq<Event>, n: nat, key: PublicKey, signerId: bytes, transcript: bytes) {
    exists i :: 0 <= i < n && i < |trace| && SignedBy(sys, trace[i], key, signerId, transcript)
  }

  ghost predicate SignedBy(sys: System, event: Event, key: PublicKey, signerId: bytes, transcript: bytes) {
    && event.Sealed? && event.who < |sys.clients|
    && var party := sys.clients[event.who].party;
    && sys.suite.publicOf(party.keys.localSigning) == key
    && party.config.localSignerId == signerId
    && AuthenticationInput(party.config.authMode, event.context, event.plaintext) == Ok(transcript)
  }

  /** Ideal signatures: under the key and signer id this endpoint trusts, the text verifies only for signed transcripts. */
  ghost predicate Unforged(sys: System, trace: seq<Event>, party: Party, signature: string) {
    forall transcript: bytes |
      && Decode(signature).Some?
      && sys.suite.verify(party.keys.remoteVerification, party.config.expectedRemoteSignerId, transcript, Decode(signature).value) ::
      Signed(sys, trace, |trace|, party.keys.remoteVerification, party.config.expectedRemoteSignerId, transcript)
  }

  ghost predicate Allowed(sys: System, trace: seq<Event>, action: Action) {
    && action.who < |sys.clients|
    && var client := sys.clients[action.who];
       match action
       case Seal(_, _, _, _) => true
       case Deliver(_, envelope, _) => Unforged(sys, trace, client.party, envelope.signature)
       case DeliverResponse(_, response) =>
         var parsed := client.adapter.parseResponse(response);
         parsed.Ok? ==> Unforged(sys, trace, client.party, parsed.value.envelope.signature)
  }

  /** Each action is allowed after the actions before it. */
  ghost predicate AllowedRun(sys: System, actions: seq<Action>)
    decreases |actions|, 0
  {
    |actions| == 0 || (
      && AllowedRun(sys, actions[..|actions| - 1])
      && Allowed(sys, Run(sys, actions[..|actions| - 1]), actions[|actions| - 1]))
  }

  /** The events of a run. */
  ghost function Run(sys: System, actions: seq<Action>): seq<Event>
    requires AllowedRun(sys, actions)
    decreases |actions|, 1
  {
    if |actions| == 0 then []
    else Step(sys, Run(sys, actions[..|actions| - 1]), actions[|actions| - 1])
  }

  /** Everything opened in the trace was signed earlier in it, as the opener's key, signer id and transcript. */
  ghost predicate OpenedWereSigned(sys: System, trace: seq<Event>) {
    forall j :: 0 <= j < |trace| && trace[j].Opened? ==> OpenedWasSigned(sys, trace, j)
  }

  ghost predicate OpenedWasSigned(sys: System, trace: seq<Event>, j: nat)
    requires j < |trace| && trace[j].Opened?
  {
    && trace[j].who < |sys.clients|
    && var party := sys.clients[trace[j].who].party;
    && var input := AuthenticationInput(party.config.authMode, trace[j].context, trace[j].plaintext);
    && input.Ok?
    && Signed(sys, trace, j, party.keys.remoteVerification, party.config.expectedRemoteSignerId, input.value)
  }

  lemma StepKeepsOpenedWereSigned(sys: System, trace: seq<Event>, action: Action)
    requires OpenedWereSigned(sys, trace) && Allowed(sys, trace, action)
    ensures OpenedWereSigned(sys, Step(sys, trace, action))
  {
    hide SealResult, OpenResult, AuthenticationInput, Decode, SignedBy;
    var after := Step(sys, trace, action);
    var client := sys.clients[action.who];
    if action.Deliver? && OpenResult(sys.suite, client.party, action.envelope, action.context).Ok? {
      OpenedWasVerified(sys.suite, client.party, action.envelope, action.context);
    } else if action.DeliverResponse? && OpenResponse(sys.suite, client, action.response).Ok? {
      var parsed := client.adapter.parseResponse(action.response).value;
      OpenedWasVerified(sys.suite, client.party, parsed.envelope, parsed.authContext);
    }
    forall j | 0 <= j < |after| && after[j].Opened? ensures OpenedWasSigned(sys, after, j) {
      if j < |trace| {
        assert after[j] == trace[j];
        var party := sys.clients[trace[j].who].party;
        var input := AuthenticationInput(party.config.authMode, trace[j].context, trace[j].plaintext).value;
        SignedPersists(sys, trace, after, j, party.keys.remoteVerification, party.config.expectedRemoteSignerId, input);
      } else {
        var input := AuthenticationInput(client.party.config.authMode, after[j].context, after[j].plaintext).value;
        SignedPersists(sys, trace, after, j, client.party.keys.remoteVerification,
                       client.party.config.expectedRemoteSignerId, input);
      }
    }
  }

  lemma SignedPersists(sys: System, trace: seq<Event>, after: seq<Event>, n: nat, key: PublicKey, signerId: bytes, transcript: bytes)
    requires trace <= after && n <= |trace| && Signed(sys, trace, n, key, signerId, transcript)
    ensures Signed(sys, after, n, key, signerId, transcript)
  {
    var i :| 0 <= i < n && i < |trace| && SignedBy(sys, trace[i], key, signerId, transcript);
    assert after[i] == trace[i];
  }

  /** In every run, whatever is opened was signed before, in every authentication and envelope mode. */
  lemma {:induction false} EveryRunOpensOnlySigned(sys: System, actions: seq<Action>)
    requires AllowedRun(sys, actions)
    ensures OpenedWereSigned(sys, Run(sys, actions))
    decreases |actions|
  {
    hide Step, Allowed;
    if |actions| > 0 {
      EveryRunOpensOnlySigned(sys, actions[..|actions| - 1]);
      StepKeepsOpenedWereSigned(sys, Run(sys, actions[..|actions| - 1]), actions[|actions| - 1]);
    }
  }

  /** The action that produced an event: a seal that succeeded, or a delivery that was opened to that plaintext. */
  ghost predicate CausedBy(sys: System, event: Event, action: Action) {
    && action.who == event.who < |sys.clients|
    && var client := sys.clients[event.who];
       match action
       case Seal(_, plaintext, context, draws) =>
         event == Sealed(event.who, context, plaintext)
         && SealResult(sys.suite, client.party, plaintext, context, draws).Ok?
       case Deliver(_, envelope, context) =>
         event.Opened? && event.context == context
         && OpenResult(sys.suite, client.party, envelope, context) == Ok(event.plaintext)
       case DeliverResponse(_, response) =>
         event.Opened? && OpenResponse(sys.suite, client, response) == Ok(event.plaintext)
         && var parsed := client.adapter.parseResponse(response);
            parsed.Ok? && parsed.value.authContext == event.context
  }

  ghost predicate Caused(sys: System, event: Event, actions: seq<Action>) {
    exists k :: 0 <= k < |actions| && CausedBy(sys, event, actions[k])
  }

  /** Every event of a run has its action, and every action that succeeded its event. */
  lemma {:induction false} EventsAndActionsCorrespond(sys: System, actions: seq<Action>)
    requires AllowedRun(sys, actions)
    ensures forall event :: event in Run(sys, actions) <==> Caused(sys, event, actions)
    decreases |actions|
  {
    hide CausedBy, Step, Unforged;
    if |actions| > 0 {
      var n := |actions| - 1;
      var before := actions[..n];
      EventsAndActionsCorrespond(sys, before);
      forall event ensures event in Run(sys, actions) <==> Caused(sys, event, actions) {
        StepAddsWhatItCaused(sys, Run(sys, before), actions[n], event);
        if Caused(sys, event, before) {
          var k :| 0 <= k < n && CausedBy(sys, event, before[k]);
          assert actions[k] == before[k];
        }
        if Caused(sys, event, actions) && !CausedBy(sys, event, actions[n]) {
          var k :| 0 <= k < |actions| && CausedBy(sys, event, actions[k]);
          assert actions[k] == before[k];
        }
      }
    }
  }

  lemma StepAddsWhatItCaused(sys: System, trace: seq<Event>, action: Action, event: Event)
    requires action.who < |sys.clients|
    ensures event in Step(sys, trace, action) <==> event in trace || CausedBy(sys, event, action)
  {
    hide SealResult, OpenResult;
  }

  /** Every endpoint that signs under the key and signer id this one trusts has its authentication kind. */
  ghost predicate SignersShareKind(sys: System, verifier: Party) {
    forall i :: 0 <= i < |sys.clients| && SignsFor(sys.suite, sys.clients[i].party, verifier) ==>
      (sys.clients[i].party.config.authMode.ContextBound? <==> verifier.config.authMode.ContextBound?)
  }

  predicate SignsFor(suite: Suite, signer: Party, verifier: Party) {
    && suite.publicOf(signer.keys.localSigning) == verifier.keys.remoteVerification
    && signer.config.localSignerId == verifier.config.expectedRemoteSignerId
  }

  /** The sealing event that an opening event agrees with. */
  ghost predicate Agrees(sys: System, sealing: Event, opening: Event) {
    && sealing.Sealed? && opening.Opened? && sealing.who < |sys.clients| && opening.who < |sys.clients|
    && var signer, verifier := sys.clients[sealing.who].party, sys.clients[opening.who].party;
    && SignsFor(sys.suite, signer, verifier)
    && signer.config.authMode == verifier.config.authMode
    && sealing.context == opening.context && sealing.plaintext == opening.plaintext
  }

  /**
    * The only other way to reach the same transcript: one side is legacy, and its plaintext is, byte for byte, the
    * other side's context-bound transcript.
    */
  ghost predicate CrossesKinds(sys: System, sealing: Event, opening: Event) {
    && sealing.Sealed? && opening.Opened? && sealing.who < |sys.clients| && opening.who < |sys.clients|
    && var signer, verifier := sys.clients[sealing.who].party, sys.clients[opening.who].party;
    && SignsFor(sys.suite, signer, verifier)
    && (|| (signer.config.authMode.LegacyPlaintext? && verifier.config.authMode.ContextBound? && opening.context.Bound?
            && sealing.plaintext == Transcript(verifier.config.authMode.domain, opening.context.context, opening.plaintext))
        || (signer.config.authMode.ContextBound? && verifier.config.authMode.LegacyPlaintext? && sealing.context.Bound?
            && opening.plaintext == Transcript(signer.config.authMode.domain, sealing.context.context, sealing.plaintext)))
  }

  /** One signed transcript explains one opening: the two sides agree, or they are of different kinds. */
  lemma SignedExplainsOpened(sys: System, trace: seq<Event>, i: nat, j: nat)
    requires i < |trace| && j < |trace| && trace[j].Opened? && trace[j].who < |sys.clients|
    requires var party := sys.clients[trace[j].who].party;
             var input := AuthenticationInput(party.config.authMode, trace[j].context, trace[j].plaintext);
             input.Ok? && SignedBy(sys, trace[i], party.keys.remoteVerification, party.config.expectedRemoteSignerId, input.value)
    ensures Agrees(sys, trace[i], trace[j]) || CrossesKinds(sys, trace[i], trace[j])
  {
    hide Transcript;
    var signer, verifier := sys.clients[trace[i].who].party.config.authMode, sys.clients[trace[j].who].party.config.authMode;
    if signer.ContextBound? <==> verifier.ContextBound? {
      InputDetermines(signer, trace[i].context, trace[i].plaintext, verifier, trace[j].context, trace[j].plaintext);
    }
  }

  /**
    * Agreement: in every run over every network and in all three envelope modes, each plaintext an endpoint opens was
    * sealed before by a holder of the key and signer id it trusts, with exactly its authentication mode and domain,
    * context and plaintext. The one exception is a signer of the other authentication kind under the same key and id.
    */
  lemma Agreement(sys: System, actions: seq<Action>, j: nat)
    requires AllowedRun(sys, actions) && j < |Run(sys, actions)| && Run(sys, actions)[j].Opened?
    ensures Run(sys, actions)[j].who < |sys.clients|
    ensures exists i :: 0 <= i < j && (|| Agrees(sys, Run(sys, actions)[i], Run(sys, actions)[j])
                                       || CrossesKinds(sys, Run(sys, actions)[i], Run(sys, actions)[j]))
    ensures SignersShareKind(sys, sys.clients[Run(sys, actions)[j].who].party) ==>
              exists i :: 0 <= i < j && Agrees(sys, Run(sys, actions)[i], Run(sys, actions)[j])
  {
    hide Run, AllowedRun, AuthenticationInput, Transcript;
    EveryRunOpensOnlySigned(sys, actions);
    var trace := Run(sys, actions);
    assert OpenedWasSigned(sys, trace, j);
    var party := sys.clients[trace[j].who].party;
    var input := AuthenticationInput(party.config.authMode, trace[j].context, trace[j].plaintext).value;
    var i :| 0 <= i < j && i < |trace|
             && SignedBy(sys, trace[i], party.keys.remoteVerification, party.config.expectedRemoteSignerId, input);
    SignedExplainsOpened(sys, trace, i, j);
  }

  /**
    * Correlation, end to end: when a header client in bound mode accepts a response, a trusted peer sealed that plaintext
    * before, in the same domain. If the peer's context was that of some exchange, it was the response to the request id
    * the response echoes: never a request, never another id.
    */
  lemma AcceptedResponseAnswersItsRequest(sys: System, before: seq<Action>, who: nat, response: ResponseParts, s: HeaderSchema)
    requires AllowedRun(sys, before) && Allowed(sys, Run(sys, before), DeliverResponse(who, response))
    requires sys.clients[who].adapter == HeaderAdapter(s) && s.authentication.BoundAuthentication?
    requires SignersShareKind(sys, sys.clients[who].party)
    requires OpenResponse(sys.suite, sys.clients[who], response).Ok?
    ensures First(response.headers, s.requestId).Some?
    ensures exists i :: 0 <= i < |Run(sys, before)|
              && AnswersRequest(sys, Run(sys, before)[i], sys.clients[who].party,
                                OpenResponse(sys.suite, sys.clients[who], response).value,
                                First(response.headers, s.requestId).value)
  {
    hide Unforged, OpenResult, ParseResult, SignersShareKind, First, ContextFor;
    var action := DeliverResponse(who, response);
    var actions := before + [action];
    var trace := Run(sys, before);
    assert actions[..|actions| - 1] == before;
    assert AllowedRun(sys, actions);
    var after := Run(sys, actions);
    assert after == Step(sys, trace, action);
    ParsedContextNamesTheEchoedId(s, response);
    Agreement(sys, actions, |trace|);
    var i :| 0 <= i < |trace| && Agrees(sys, after[i], after[|trace|]);
    assert after[i] == trace[i];
    var r := First(response.headers, s.requestId).value;
    forall x | ContextFor(x) == Ok(trace[i].context) ensures x == Response(r) {
      ContextDetermines(x, Response(r));
    }
    assert AnswersRequest(sys, trace[i], sys.clients[who].party, OpenResponse(sys.suite, sys.clients[who], response).value, r);
  }

  /** A trusted peer sealed this plaintext in the verifier's mode, and under no exchange but the response to `r`. */
  ghost predicate AnswersRequest(sys: System, sealing: Event, verifier: Party, plaintext: bytes, r: string) {
    && sealing.Sealed? && sealing.who < |sys.clients|
    && SignsFor(sys.suite, sys.clients[sealing.who].party, verifier)
    && sys.clients[sealing.who].party.config.authMode == verifier.config.authMode
    && sealing.plaintext == plaintext
    && ContextFor(Response(r)) == Ok(sealing.context)
    && forall x :: ContextFor(x) == Ok(sealing.context) ==> x == Response(r)
  }

  //
  // Runs under the reference suite: the premises are met, and the condition on kinds is needed.
  //

  lemma RefTaggedDetermines(key: PublicKey, id: bytes, m: bytes, m': bytes)
    requires RefTagged(key, id, m) == RefTagged(key, id, m') && |RefTagged(key, id, m)| <= MAX_AUXILIARY_BYTES
    ensures m == m'
  {
    ReadFieldOfField(key.point, Field(id) + Field(m));
    ReadFieldOfField(key.point, Field(id) + Field(m'));
    ReadFieldOfField(id, Field(m));
    ReadFieldOfField(id, Field(m'));
    ReadFieldOfField(m, []);
    ReadFieldOfField(m', []);
    assert Field(m) + [] == Field(m) && Field(m') + [] == Field(m');
  }

  /** Reference signatures are ideal: one that was made for a signed transcript verifies for nothing else. */
  lemma RefSignatureIsUnforged(sys: System, trace: seq<Event>, verifier: Party, transcript: bytes, text: string)
    requires sys.suite == ReferenceSuite()
    requires Decode(text) == Some(RefTagged(verifier.keys.remoteVerification, verifier.config.expectedRemoteSignerId, transcript))
    requires Signed(sys, trace, |trace|, verifier.keys.remoteVerification, verifier.config.expectedRemoteSignerId, transcript)
    ensures Unforged(sys, trace, verifier, text)
  {
    hide Decode, RefTagged, Signed;
    forall t: bytes |
      sys.suite.verify(verifier.keys.remoteVerification, verifier.config.expectedRemoteSignerId, t, Decode(text).value)
      ensures t == transcript
    {
      RefTaggedDetermines(verifier.keys.remoteVerification, verifier.config.expectedRemoteSignerId, t, transcript);
    }
  }

  /** What the first client seals, a verifier that trusts its key and id may be shown. */
  lemma FirstSealIsUnforged(sys: System, p: bytes, context: AuthContext, draws: Draws, verifier: Party, text: string)
    requires sys.suite == ReferenceSuite() && |sys.clients| > 0 && SignsFor(sys.suite, sys.clients[0].party, verifier)
    requires SealResult(sys.suite, sys.clients[0].party, p, context, draws).Ok?
    requires text == SealResult(sys.suite, sys.clients[0].party, p, context, draws).value.signature
    ensures Unforged(sys, [Sealed(0, context, p)], verifier, text)
  {
    hide SealResult, Encode, Decode, AuthenticationInput, RefTagged, Unforged;
    LawsAreConsistent();
    var payload, key, wrapped, input, signature := SealedShape(sys.suite, sys.clients[0].party, p, context, draws);
    DecodeEncode(signature);
    var trace := [Sealed(0, context, p)];
    assert SignedBy(sys, trace[0], verifier.keys.remoteVerification, verifier.config.expectedRemoteSignerId, input);
    RefSignatureIsUnforged(sys, trace, verifier, input, text);
  }

  lemma TwoStepRun(sys: System, first: Action, second: Action)
    requires Allowed(sys, [], first) && Allowed(sys, Step(sys, [], first), second)
    ensures AllowedRun(sys, [first, second])
    ensures Run(sys, [first, second]) == Step(sys, Step(sys, [], first), second)
  {
    hide Unforged, Step;
    var one, two := [first], [first, second];
    assert one[..0] == [] && two[..1] == one && one[0] == first && two[1] == second;
    assert AllowedRun(sys, []) && Run(sys, []) == [];
    assert AllowedRun(sys, one) && Run(sys, one) == Step(sys, [], first);
    assert AllowedRun(sys, two) && Run(sys, two) == Step(sys, Run(sys, one), second);
  }

  /** Sealing and delivering the sealed envelope is an allowed run, and the plaintext arrives. */
  lemma HonestExchangeIsARun(sender: SecureClient, receiver: SecureClient, p: bytes, context: AuthContext, draws: Draws)
    requires Matched(ReferenceSuite(), sender.party, receiver.party)
    requires |p| <= receiver.party.config.maxPlaintextBytes
    requires SealResult(ReferenceSuite(), sender.party, p, context, draws).Ok?
    requires |SealResult(ReferenceSuite(), sender.party, p, context, draws).value.cipher| <= USIZE_MAX
    ensures var sys := System(ReferenceSuite(), [sender, receiver]);
            var envelope := SealResult(ReferenceSuite(), sender.party, p, context, draws).value;
            var actions := [Seal(0, p, context, draws), Deliver(1, envelope, context)];
            AllowedRun(sys, actions) && Run(sys, actions) == [Sealed(0, context, p), Opened(1, context, p)]
  {
    hide SealResult, OpenResult, Unforged, AllowedRun, Run;
    LawsAreConsistent();
    OpenInvertsSeal(ReferenceSuite(), sender.party, receiver.party, p, context, draws);
    var sys := System(ReferenceSuite(), [sender, receiver]);
    var envelope := SealResult(ReferenceSuite(), sender.party, p, context, draws).value;
    FirstSealIsUnforged(sys, p, context, draws, receiver.party, envelope.signature);
    assert Step(sys, [], Seal(0, p, context, draws)) == [Sealed(0, context, p)];
    TwoStepRun(sys, Seal(0, p, context, draws), Deliver(1, envelope, context));
  }

  /**
    * A responder seals an answer, and a header client accepts a response that carries it: an allowed run in which every
    * premise of `AcceptedResponseAnswersItsRequest` holds.
    */
  lemma HonestResponseIsARun(responder: SecureClient, client: SecureClient, s: HeaderSchema, requestId: string, p: bytes,
                             draws: Draws)
    requires Matched(ReferenceSuite(), responder.party, client.party)
    requires client.adapter == HeaderAdapter(s) && BuiltSchema(s) && Carriable(ExpectedId(client))
    requires ResponderContext(s, requestId).Ok? && (s.authentication.BoundAuthentication? ==> IsHeaderValue(requestId))
    requires |p| <= client.party.config.maxPlaintextBytes
    requires SealResult(ReferenceSuite(), responder.party, p, ResponderContext(s, requestId).value, draws).Ok?
    requires |SealResult(ReferenceSuite(), responder.party, p, ResponderContext(s, requestId).value, draws).value.cipher|
             <= USIZE_MAX
    ensures var sys := System(ReferenceSuite(), [responder, client]);
            var context := ResponderContext(s, requestId).value;
            var envelope := SealResult(ReferenceSuite(), responder.party, p, context, draws).value;
            var response := CarryingResponse(s, envelope, ExpectedId(client), requestId);
            var actions := [Seal(0, p, context, draws), DeliverResponse(1, response)];
            && AllowedRun(sys, actions) && Run(sys, actions) == [Sealed(0, context, p), Opened(1, context, p)]
            && OpenResponse(sys.suite, client, response) == Ok(p) && SignersShareKind(sys, client.party)
  {
    hide SealResult, OpenResult, Unforged, AllowedRun, Run, ParseResult, CarryingResponse, Carries, Carriable, OpenResponse,
      EncodeResponseContext, BuiltSchema, IsHeaderValue;
    var suite := ReferenceSuite();
    LawsAreConsistent();
    var context := ResponderContext(s, requestId).value;
    AnswerableExactlyWhenIdIsCarriable(suite, responder.party, client, s, requestId, p, draws);
    var sys := System(suite, [responder, client]);
    var envelope := SealResult(suite, responder.party, p, context, draws).value;
    var response := CarryingResponse(s, envelope, ExpectedId(client), requestId);
    CarriedResponseParses(suite, responder.party, client.party.keys.localDecryption, s, p, draws, ExpectedId(client), requestId);
    FirstSealIsUnforged(sys, p, context, draws, client.party, envelope.signature);
    assert Step(sys, [], Seal(0, p, context, draws)) == [Sealed(0, context, p)];
    TwoStepRun(sys, Seal(0, p, context, draws), DeliverResponse(1, response));
  }

  lemma CarriedResponseParses(suite: Suite, responder: Party, recipient: PrivateKey, s: HeaderSchema, p: bytes, draws: Draws,
                              id: string, requestId: string)
    requires Lawful(suite) && responder.keys.remoteEncryption == suite.publicOf(recipient)
    requires BuiltSchema(s) && Carriable(id) && ResponderContext(s, requestId).Ok?
    requires s.authentication.BoundAuthentication? ==> IsHeaderValue(requestId)
    requires SealResult(suite, responder, p, ResponderContext(s, requestId).value, draws).Ok?
    ensures var context := ResponderContext(s, requestId).value;
            var envelope := SealResult(suite, responder, p, context, draws).value;
            ParseResult(s, CarryingResponse(s, envelope, id, requestId)) == Ok(ParsedResponse(envelope, id, context))
  {
    hide SealResult, ParseResult, CarryingResponse, Carries, IsHeaderValue;
    var context := ResponderContext(s, requestId).value;
    var envelope := SealResult(suite, responder, p, context, draws).value;
    SealedFieldsAreCarriable(suite, responder, recipient, p, context, draws);
    CarryingResponseCarries(s, envelope, id, requestId);
    ParseReadsWhatIsCarried(s, CarryingResponse(s, envelope, id, requestId), envelope, id, requestId);
  }

  /** An endpoint outside the system with the verifier's configuration and another endpoint's signing key and id. */
  function Mirror(signer: Party, verifier: Party): Party {
    Party(verifier.config.(localSignerId := signer.config.localSignerId),
          KeyMaterial(signer.keys.localSigning, signer.keys.localDecryption, signer.keys.remoteVerification,
                      RefPublic(verifier.keys.localDecryption)))
  }

  /**
    * The condition on kinds is needed: when a legacy client signs, as its plaintext, the transcript that a context-bound
    * endpoint trusting the same key and id would verify, a run opens a plaintext that nobody sealed. This happens in all
    * three envelope modes.
    */
  lemma MixedKindsBreakAgreement(legacy: SecureClient, bound: SecureClient, c: bytes, p: bytes, draws: Draws)
    requires legacy.party.config.authMode.LegacyPlaintext? && bound.party.config.authMode.ContextBound?
    requires SignsFor(ReferenceSuite(), legacy.party, bound.party)
    requires SealResult(ReferenceSuite(), legacy.party, Transcript(bound.party.config.authMode.domain, c, p), Legacy, draws).Ok?
    requires SealResult(ReferenceSuite(), Mirror(legacy.party, bound.party), p, Bound(c), draws).Ok?
    requires |SealResult(ReferenceSuite(), Mirror(legacy.party, bound.party), p, Bound(c), draws).value.cipher| <= USIZE_MAX
    ensures var sys := System(ReferenceSuite(), [legacy, bound]);
            var signed := Transcript(bound.party.config.authMode.domain, c, p);
            var envelope := SealResult(ReferenceSuite(), Mirror(legacy.party, bound.party), p, Bound(c), draws).value;
            var actions := [Seal(0, signed, Legacy, draws), Deliver(1, envelope, Bound(c))];
            && AllowedRun(sys, actions) && Run(sys, actions) == [Sealed(0, Legacy, signed), Opened(1, Bound(c), p)]
            && !Agrees(sys, Run(sys, actions)[0], Run(sys, actions)[1])
            && CrossesKinds(sys, Run(sys, actions)[0], Run(sys, actions)[1])
  {
    hide OpenResult, Unforged, AllowedRun, Run, Encode, Transcript, Cbc.SealResult, Aead.SealResult;
    var suite, mirror := ReferenceSuite(), Mirror(legacy.party, bound.party);
    LawsAreConsistent();
    var signed := Transcript(bound.party.config.authMode.domain, c, p);
    var payload, key, wrapped, input, signature := SealedShape(suite, mirror, p, Bound(c), draws);
    var payload', key', wrapped', input', signature' := SealedShape(suite, legacy.party, signed, Legacy, draws);
    assert input == signed && input' == signed;
    assert signature == signature';
    OpenInvertsSeal(suite, mirror, bound.party, p, Bound(c), draws);
    var sys := System(suite, [legacy, bound]);
    var envelope := SealResult(suite, mirror, p, Bound(c), draws).value;
    FirstSealIsUnforged(sys, signed, Legacy, draws, bound.party, envelope.signature);
    assert Step(sys, [], Seal(0, signed, Legacy, draws)) == [Sealed(0, Legacy, signed)];
    TwoStepRun(sys, Seal(0, signed, Legacy, draws), Deliver(1, envelope, Bound(c)));
  }

  /** A small client of the given mode; all its keys are one key. */
  function SampleClient(mode: AuthMode): SecureClient {
    SecureClient(
      Party(ConfigExpecting("a").(authMode := mode, maxPlaintextBytes := 64),
            KeyMaterial(PrivateKey([]), PrivateKey([]), PublicKey([]), PublicKey([]))),
      AdapterOps((identity, context) => Err(InvalidField), (identity, context, envelope) => Err(InvalidField),
                 response => Err(InvalidField), None))
  }

  const SAMPLE_KEY: SessionKey := [0, 0, 0, 0, 0, 0, 0, 0, 0, 0, 0, 0, 0, 0, 0, 0]

  lemma SampleSeals(mode: AuthMode, context: AuthContext, p: bytes, draws: Draws)
    requires |p| <= 64 && draws.sessionKey.Some?
    requires AuthenticationInput(mode, context, p).Ok? && |AuthenticationInput(mode, context, p).value| <= 64
    ensures SealResult(ReferenceSuite(), SampleClient(mode).party, p, context, draws).Ok?
    ensures |SealResult(ReferenceSuite(), SampleClient(mode).party, p, context, draws).value.cipher| <= USIZE_MAX
  {
    hide Encode, AuthenticationInput;
    EncodedByteLen(RefCbcEncrypt(draws.sessionKey.value, ZERO_IV, p));
    RefCbcRoundTrip(draws.sessionKey.value, ZERO_IV, p);
  }

  /** There is a run that opens a plaintext no earlier event agrees with, so agreement cannot drop its condition. */
  lemma AgreementNeedsSharedKinds()
    ensures exists sys: System, actions: seq<Action> ::
              && AllowedRun(sys, actions) && |Run(sys, actions)| == 2 && Run(sys, actions)[1].Opened?
              && !Agrees(sys, Run(sys, actions)[0], Run(sys, actions)[1])
  {
    hide SealResult, AllowedRun, Run, Agrees, CrossesKinds;
    var legacy, bound := SampleClient(LegacyPlaintext), SampleClient(ContextBound([1]));
    var draws := Draws.Draws(Some(SAMPLE_KEY), None, [], []);
    SampleSeals(LegacyPlaintext, Legacy, Transcript([1], [1], []), draws);
    SampleSeals(ContextBound([1]), Bound([1]), [], draws);
    assert Mirror(legacy.party, bound.party) == bound.party;
    MixedKindsBreakAgreement(legacy, bound, [1], [], draws);
  }
}

/** Mode dispatch of src/envelope_crypto/mod.rs, and what sealing and opening guarantee together. */
module Envelope {
  import opened Common
  import opened Text
  import opened Base64
  import opened Sizes
  import opened Auth
  import opened Crypto
  import opened Config
  import opened Message
  import opened EnvelopeSupport
  import Cbc
  import Aead

  /** One endpoint: its configuration and its keys. */
  datatype Party = Party(config: ClientConfig, keys: KeyMaterial)

  /** `seal`. */
  function SealResult(suite: Suite, party: Party, plaintext: bytes, context: AuthContext, draws: Draws)
    : Result<SecureEnvelope, Error>
  {
    if |plaintext| > party.config.maxPlaintextBytes then Err(MessageTooLarge(party.config.maxPlaintextBytes))
    else match party.config.envelopeMode
      case Aead(algorithm) => Aead.SealResult(suite, party.config, party.keys, plaintext, context, algorithm, draws)
      case LegacyCbc => Cbc.SealResult(suite, party.config, party.keys, plaintext, context, draws)
  }

  /** `open`. */
  function OpenResult(suite: Suite, party: Party, envelope: SecureEnvelope, context: AuthContext): Result<bytes, Error> {
    match party.config.envelopeMode
    case Aead(algorithm) => Aead.OpenResult(suite, party.config, party.keys, envelope, context, algorithm)
    case LegacyCbc => Cbc.OpenEarlyReturn(suite, party.config, party.keys, envelope, context)
  }

  /** The largest encoded ciphertext an endpoint looks at. */
  function CipherTextBound(config: ClientConfig): nat {
    match config.envelopeMode
    case Aead(_) => Base64Len(SaturatingAdd(config.maxPlaintextBytes, Aead.FRAME_OVERHEAD_BYTES))
    case LegacyCbc => Base64Len(PaddedCipherLen(config.maxPlaintextBytes))
  }

  //
  // Failures.
  //

  /** On every input `open` returns a plaintext, `InvalidEnvelope`, or `MessageTooLarge` exactly for oversized text. */
  lemma OpenFailures(suite: Suite, party: Party, envelope: SecureEnvelope, context: AuthContext)
    ensures var r := OpenResult(suite, party, envelope, context);
            && (r.Err? ==> r.error == InvalidEnvelope || r.error == MessageTooLarge(party.config.maxPlaintextBytes))
            && (r == Err(MessageTooLarge(party.config.maxPlaintextBytes))
                <==> ByteLen(envelope.cipher) > CipherTextBound(party.config))
  {
    hide AuthenticationInput, AeadAad, Decode, Utf8, Base64Len, PaddedCipherLen;
  }

  /** With a built configuration `seal` never blames the configuration, and reports size exactly when the plaintext is too long. */
  lemma SealFailures(suite: Suite, party: Party, plaintext: bytes, context: AuthContext, draws: Draws)
    requires Built(party.config)
    ensures var r := SealResult(suite, party, plaintext, context, draws);
            && (r.Err? ==> r.error in {MessageTooLarge(party.config.maxPlaintextBytes), Error.AuthenticationContext, Encryption})
            && (r == Err(MessageTooLarge(party.config.maxPlaintextBytes)) <==> |plaintext| > party.config.maxPlaintextBytes)
            && (r.Ok? ==> KindsMatch(party.config.authMode, context))
  {
    hide Encode, Transcript, AadBytes;
  }

  //
  // Sizes.
  //

  lemma EncodedByteLen(b: bytes)
    ensures ByteLen(Encode(b)) == |Encode(b)| == (|b| + 2) / 3 * 4
  {
    EncodedLength(b);
    EncodedAlphabet(b);
    ByteLenOfAscii(Encode(b));
  }

  /** The bytes a sealed payload carries before Base64. */
  function PayloadLength(mode: EnvelopeMode, n: nat): nat {
    match mode
    case Aead(_) => Aead.FRAME_OVERHEAD_BYTES + n
    case LegacyCbc => CbcLength(n)
  }

  function PayloadBound(config: ClientConfig): nat {
    match config.envelopeMode
    case Aead(_) => SaturatingAdd(config.maxPlaintextBytes, Aead.FRAME_OVERHEAD_BYTES)
    case LegacyCbc => PaddedCipherLen(config.maxPlaintextBytes)
  }

  /** The shape of every sealed envelope. */
  lemma SealedShape(suite: Suite, party: Party, p: bytes, context: AuthContext, draws: Draws)
    returns (payload: bytes, key: SessionKey, wrapped: bytes, input: bytes, signature: bytes)
    requires Lawful(suite) && SealResult(suite, party, p, context, draws).Ok?
    ensures SealResult(suite, party, p, context, draws).value
            == SecureEnvelope(Encode(payload), Encode(wrapped), Encode(signature))
    ensures |payload| == PayloadLength(party.config.envelopeMode, |p|)
    ensures draws.sessionKey == Some(key)
    ensures AuthenticationInput(party.config.authMode, context, p) == Ok(input)
    ensures suite.wrap(party.keys.remoteEncryption, key, draws.wrapping) == Some(wrapped)
    ensures suite.sign(party.keys.localSigning, party.config.localSignerId, input, draws.signing) == Some(signature)
    ensures match party.config.envelopeMode
            case LegacyCbc => payload == suite.cbcEncrypt(key, party.config.iv, p)
            case Aead(algorithm) =>
              && draws.nonce.Some?
              && var header := Aead.HeaderFor(algorithm, draws.nonce.value);
              && var aad := AeadAad(party.config.authMode, context, header);
              && aad.Ok?
              && var sealed := Aead.EncryptResult(suite, algorithm, key, draws.nonce.value, aad.value, p);
              && sealed.Ok?
              && payload == Aead.Assemble(Aead.Frame(header, sealed.value.0, sealed.value.1))
  {
    hide AuthenticationInput, AeadAad, Encode, Aead.EncryptResult, Aead.HeaderFor, Aead.Assemble;
    input := AuthenticationInput(party.config.authMode, context, p).value;
    key := draws.sessionKey.value;
    wrapped := suite.wrap(party.keys.remoteEncryption, key, draws.wrapping).value;
    signature := suite.sign(party.keys.localSigning, party.config.localSignerId, input, draws.signing).value;
    match party.config.envelopeMode
    case LegacyCbc =>
      payload := suite.cbcEncrypt(key, party.config.iv, p);
    case Aead(algorithm) =>
      var header := Aead.HeaderFor(algorithm, draws.nonce.value);
      var aad := AeadAad(party.config.authMode, context, header).value;
      var sealed := Aead.EncryptResult(suite, algorithm, key, draws.nonce.value, aad, p).value;
      Aead.AeadRoundTrip(suite, algorithm, key, draws.nonce.value, aad, p);
      var frame := Aead.Frame(header, sealed.0, sealed.1);
      payload := Aead.Assemble(frame);
      Aead.FramesRoundTrip(frame, payload);
  }

  /**
    * No envelope of a plaintext within the receiver's limit is refused for its size, whoever sealed it
    * in the same mode, in the saturating cases as well.
    */
  lemma SealedFitsReceiver(suite: Suite, sender: Party, receiver: ClientConfig, p: bytes, context: AuthContext, draws: Draws)
    requires Lawful(suite) && SealResult(suite, sender, p, context, draws).Ok?
    requires sender.config.envelopeMode == receiver.envelopeMode && |p| <= receiver.maxPlaintextBytes
    requires |SealResult(suite, sender, p, context, draws).value.cipher| <= USIZE_MAX
    ensures var cipher := SealResult(suite, sender, p, context, draws).value.cipher;
            && ByteLen(cipher) <= CipherTextBound(receiver)
            && Decode(cipher).Some? && |Decode(cipher).value| <= PayloadBound(receiver)
  {
    hide SealResult, Encode, Decode;
    var payload, key, wrapped, input, signature := SealedShape(suite, sender, p, context, draws);
    DecodeEncode(payload);
    EncodedByteLen(payload);
    assert |payload| <= USIZE_MAX;
    if receiver.envelopeMode.LegacyCbc? { PaddedCipherLenAdmits(|p|, receiver.maxPlaintextBytes); }
    assert |payload| <= PayloadBound(receiver);
    Base64LenAdmits(payload, PayloadBound(receiver));
  }

  /** Nothing longer than the limit is ever opened, and nothing is opened from more bytes than the decoded bound. */
  lemma OpenedFitsLimit(suite: Suite, party: Party, envelope: SecureEnvelope, context: AuthContext)
    requires Lawful(suite) && OpenResult(suite, party, envelope, context).Ok?
    ensures |OpenResult(suite, party, envelope, context).value| <= party.config.maxPlaintextBytes
    ensures Decode(envelope.cipher).Some?
    ensures match party.config.envelopeMode
            case LegacyCbc => |Decode(envelope.cipher).value| <= PaddedCipherLen(party.config.maxPlaintextBytes)
            case Aead(_) => |Decode(envelope.cipher).value| <= party.config.maxPlaintextBytes + Aead.FRAME_OVERHEAD_BYTES
  {
    hide AuthenticationInput, AeadAad, Decode, Utf8, Base64Len, PaddedCipherLen;
    match party.config.envelopeMode
    case LegacyCbc =>
    case Aead(algorithm) =>
      var wrapped := Decode(envelope.wrappedSessionKey).value;
      var key := SessionKeyOf(suite, party.keys, wrapped).value;
      var decoded := Decode(envelope.cipher).value;
      var frame := Aead.SplitFrame(decoded).value;
      Aead.FramesRoundTrip(frame, decoded);
      var aad := AeadAad(party.config.authMode, context, frame.header).value;
      Aead.DecryptKeepsLength(suite, algorithm, key, Aead.NonceOf(frame.header), aad, frame.ciphertext, frame.tag);
  }

  //
  // Round trip.
  //

  /** The receiver mirrors the sender: keys, signer ids, authentication and envelope modes, and the IV where it is used. */
  predicate Matched(suite: Suite, sender: Party, receiver: Party) {
    && sender.keys.remoteEncryption == suite.publicOf(receiver.keys.localDecryption)
    && receiver.keys.remoteVerification == suite.publicOf(sender.keys.localSigning)
    && receiver.config.expectedRemoteSignerId == sender.config.localSignerId
    && receiver.config.authMode == sender.config.authMode
    && receiver.config.envelopeMode == sender.config.envelopeMode
    && (receiver.config.envelopeMode.LegacyCbc? ==> receiver.config.iv == sender.config.iv)
  }

  lemma AuxiliaryFits(b: bytes)
    requires |b| <= MAX_AUXILIARY_BYTES
    ensures ByteLen(Encode(b)) <= MAX_AUXILIARY_BASE64_BYTES
  {
    hide Encode, ByteLen;
    EncodedByteLen(b);
  }

  /**
    * A matched receiver opens every sealed envelope to the plaintext, in all three modes, for every draw.
    * The size premise says that the encoded ciphertext is a string the sender could hold in memory.
    */
  lemma OpenInvertsSeal(suite: Suite, sender: Party, receiver: Party, p: bytes, context: AuthContext, draws: Draws)
    requires Lawful(suite) && Matched(suite, sender, receiver)
    requires |p| <= receiver.config.maxPlaintextBytes
    requires SealResult(suite, sender, p, context, draws).Ok?
    requires |SealResult(suite, sender, p, context, draws).value.cipher| <= USIZE_MAX
    ensures OpenResult(suite, receiver, SealResult(suite, sender, p, context, draws).value, context) == Ok(p)
  {
    hide SealResult, Encode, Decode, AuthenticationInput, AeadAad, Base64Len, PaddedCipherLen, ByteLen,
      Aead.Assemble, Aead.SplitFrame, Aead.EncryptResult, Aead.DecryptResult;
    var payload, key, wrapped, input, signature := SealedShape(suite, sender, p, context, draws);
    SealedFitsReceiver(suite, sender, receiver.config, p, context, draws);
    DecodeEncode(payload);
    DecodeEncode(wrapped);
    DecodeEncode(signature);
    AuxiliaryFits(wrapped);
    AuxiliaryFits(signature);
    match receiver.config.envelopeMode
    case LegacyCbc =>
    case Aead(algorithm) =>
      var nonce := draws.nonce.value;
      var header := Aead.HeaderFor(algorithm, nonce);
      var aad := AeadAad(sender.config.authMode, context, header).value;
      var sealed := Aead.EncryptResult(suite, algorithm, key, nonce, aad, p).value;
      Aead.AeadRoundTrip(suite, algorithm, key, nonce, aad, p);
      Aead.FramesRoundTrip(Aead.Frame(header, sealed.0, sealed.1), payload);
      assert Aead.NonceOf(header) == nonce;
  }

  //
  // Pinning, the unused IV, and length safety.
  //

  /** An endpoint pinned to one AEAD algorithm never opens a frame sealed under the other, whatever the keys. */
  lemma AlgorithmsDoNotMix(suite: Suite, sender: Party, receiver: Party, p: bytes, context: AuthContext, draws: Draws,
                           context': AuthContext)
    requires Lawful(suite) && SealResult(suite, sender, p, context, draws).Ok?
    requires sender.config.envelopeMode.Aead? && receiver.config.envelopeMode.Aead?
    requires sender.config.envelopeMode != receiver.config.envelopeMode
    ensures OpenResult(suite, receiver, SealResult(suite, sender, p, context, draws).value, context').Err?
  {
    hide SealResult, Encode, Decode, AuthenticationInput, AeadAad, Base64Len, ByteLen, Aead.EncryptResult, Aead.DecryptResult,
      Aead.Assemble, Aead.SplitFrame;
    var payload, key, wrapped, input, signature := SealedShape(suite, sender, p, context, draws);
    DecodeEncode(payload);
    var algorithm := sender.config.envelopeMode.algorithm;
    var header := Aead.HeaderFor(algorithm, draws.nonce.value);
    var aad := AeadAad(sender.config.authMode, context, header).value;
    var sealed := Aead.EncryptResult(suite, algorithm, key, draws.nonce.value, aad, p).value;
    var frame := Aead.Frame(header, sealed.0, sealed.1);
    Aead.FramesRoundTrip(frame, payload);
    assert !Aead.Pinned(frame, receiver.config.envelopeMode.algorithm);
  }

  /** Every frame that opens has the one version and the configured algorithm. */
  lemma OpenedFrameIsPinned(suite: Suite, party: Party, envelope: SecureEnvelope, context: AuthContext)
    requires party.config.envelopeMode.Aead? && OpenResult(suite, party, envelope, context).Ok?
    ensures Decode(envelope.cipher).Some?
    ensures var frame := Decode(envelope.cipher).value;
            |frame| >= 30 && frame[0] == 1
            && frame[1] == if party.config.envelopeMode.algorithm == Sm4Gcm then 1 else 2
  {
    hide AuthenticationInput, AeadAad, Decode, Utf8, Base64Len;
  }

  /** Under an AEAD mode the stored IV influences nothing. */
  lemma AeadIgnoresIv(suite: Suite, party: Party, iv: Iv, p: bytes, context: AuthContext, draws: Draws, envelope: SecureEnvelope)
    requires party.config.envelopeMode.Aead?
    ensures var other := party.(config := party.config.(iv := iv));
            && SealResult(suite, other, p, context, draws) == SealResult(suite, party, p, context, draws)
            && OpenResult(suite, other, envelope, context) == OpenResult(suite, party, envelope, context)
  {
    hide AuthenticationInput, AeadAad, Encode, Decode, ByteLen, Base64Len, Aead.Assemble, Aead.SplitFrame,
      Aead.EncryptResult, Aead.DecryptResult, Aead.HeaderFor, Aead.NonceOf, SessionKeyOf;
  }

  /** The transcript and the associated data have lengths the platform can hold. */
  predicate InputsFit(party: Party, p: bytes, context: AuthContext) {
    && AuthenticationInput(party.config.authMode, context, p).Ok?
    && 80 + |DomainOf(party.config.authMode)| + |ContextOf(context)| <= USIZE_MAX
    && 80 + |DomainOf(party.config.authMode)| + |ContextOf(context)| <= U64_MAX
    && PayloadLength(party.config.envelopeMode, |p|) <= USIZE_MAX
  }

  /**
    * Under a built configuration, sealing an admitted plaintext fails only if a draw, wrapping or signing fails; under GCM
    * also if the primitive refuses the plaintext. CBC and CCM never refuse one.
    */
  lemma AdmittedPlaintextsSeal(suite: Suite, party: Party, p: bytes, context: AuthContext, draws: Draws)
    requires Lawful(suite) && Built(party.config)
    requires |p| <= party.config.maxPlaintextBytes && InputsFit(party, p, context)
    ensures SealResult(suite, party, p, context, draws).Ok? <==>
              && draws.sessionKey.Some?
              && (party.config.envelopeMode.Aead? ==> draws.nonce.Some?)
              && (party.config.envelopeMode == Aead(Sm4Gcm) ==>
                    var aad := AeadAad(party.config.authMode, context, [1, 1] + draws.nonce.value);
                    aad.Ok? && suite.gcmEncrypt(draws.sessionKey.value, draws.nonce.value, aad.value, p).Some?)
              && suite.wrap(party.keys.remoteEncryption, draws.sessionKey.value, draws.wrapping).Some?
              && suite.sign(party.keys.localSigning, party.config.localSignerId,
                            AuthenticationInput(party.config.authMode, context, p).value, draws.signing).Some?
  {
    hide Encode, Transcript, AuthenticationInput, AeadAad, Built, Lawful;
    BuiltLengthsFit(party.config, |p|);
    if party.config.envelopeMode.Aead? && draws.sessionKey.Some? && draws.nonce.Some? {
      var algorithm := party.config.envelopeMode.algorithm;
      var header := Aead.HeaderFor(algorithm, draws.nonce.value);
      AadOfFittingInputs(party, p, context, header);
      var aad := AeadAad(party.config.authMode, context, header).value;
      match algorithm
      case Sm4Ccm => CcmEncrypts(suite, draws.sessionKey.value, draws.nonce.value, aad, p);
      case Sm4Gcm => GcmKeepsLength(suite, draws.sessionKey.value, draws.nonce.value, aad, p);
    }
  }

  lemma GcmKeepsLength(suite: Suite, key: SessionKey, nonce: Nonce, aad: bytes, p: bytes)
    requires Lawful(suite)
    ensures var r := suite.gcmEncrypt(key, nonce, aad, p); r.Some? ==> |r.value.0| == |p|
  {
  }

  lemma CcmEncrypts(suite: Suite, key: SessionKey, nonce: Nonce, aad: bytes, p: bytes)
    requires Lawful(suite) && CcmEncodable(|p|) && |aad| <= U64_MAX
    ensures var r := Aead.EncryptResult(suite, Sm4Ccm, key, nonce, aad, p); r.Ok? && |r.value.0| == |p|
  {
    assert suite.ccmEncrypt(key, nonce, aad, p).Some?;
  }

  lemma AadOfFittingInputs(party: Party, p: bytes, context: AuthContext, header: bytes)
    requires |header| == 14 && InputsFit(party, p, context)
    ensures AeadAad(party.config.authMode, context, header).Ok?
    ensures |AeadAad(party.config.authMode, context, header).value| <= U64_MAX
  {
    InputKindsMatch(party, p, context);
  }

  lemma InputKindsMatch(party: Party, p: bytes, context: AuthContext)
    requires AuthenticationInput(party.config.authMode, context, p).Ok?
    ensures party.config.authMode != ContextBound([]) && KindsMatch(party.config.authMode, context)
  {
  }

  //
  // Authentication.
  //

  /** Whatever is opened was verified: the transcript of that plaintext and context, under the configured key and signer id. */
  lemma OpenedWasVerified(suite: Suite, party: Party, envelope: SecureEnvelope, context: AuthContext)
    requires OpenResult(suite, party, envelope, context).Ok?
    ensures var input := AuthenticationInput(party.config.authMode, context, OpenResult(suite, party, envelope, context).value);
            && input.Ok? && Decode(envelope.signature).Some?
            && suite.verify(party.keys.remoteVerification, party.config.expectedRemoteSignerId, input.value,
                            Decode(envelope.signature).value)
  {
    hide AuthenticationInput, AeadAad, Decode, Utf8, Base64Len, PaddedCipherLen;
  }
}

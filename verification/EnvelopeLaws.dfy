/** Sealing and opening in terms of the primitives and the bytes on the wire, for all three modes. */
module EnvelopeLaws {
  import opened Common
  import opened Text
  import opened Base64
  import opened Sizes
  import opened Auth
  import opened Crypto
  import opened Config
  import opened Message
  import opened EnvelopeSupport
  import opened Envelope
  import Cbc
  import Aead

  //
  // Opening.
  //

  /** The texts decode and the wrapped key unwraps to sixteen bytes. */
  predicate Unwraps(suite: Suite, party: Party, envelope: SecureEnvelope) {
    && ByteLen(envelope.wrappedSessionKey) <= 16384 && ByteLen(envelope.signature) <= 16384
    && Decode(envelope.cipher).Some? && Decode(envelope.wrappedSessionKey).Some? && Decode(envelope.signature).Some?
    && var key := suite.unwrap(party.keys.localDecryption, Decode(envelope.wrappedSessionKey).value);
    && key.Some? && |key.value| == 16
  }

  function UnwrappedKey(suite: Suite, party: Party, envelope: SecureEnvelope): SessionKey
    requires Unwraps(suite, party, envelope)
  {
    suite.unwrap(party.keys.localDecryption, Decode(envelope.wrappedSessionKey).value).value
  }

  /** The primitive of the configured mode turns the payload into this plaintext, under the unwrapped key. */
  predicate PayloadYields(suite: Suite, party: Party, envelope: SecureEnvelope, context: AuthContext, p: bytes)
    requires Unwraps(suite, party, envelope)
  {
    var f, key := Decode(envelope.cipher).value, UnwrappedKey(suite, party, envelope);
    var limit := party.config.maxPlaintextBytes;
    match party.config.envelopeMode
    case LegacyCbc =>
      && |f| <= PaddedCipherLen(limit) && |p| <= limit
      && suite.cbcDecrypt(key, party.config.iv, f) == Some(p)
    case Aead(algorithm) =>
      && 30 <= |f| <= limit + 30 && f[0] == 1
      && var aad := AadLayout(party.config.authMode, context, f[..14]);
      && aad.Some?
      && match algorithm
         case Sm4Gcm => f[1] == 1 && suite.gcmDecrypt(key, f[2..14], aad.value, f[14..|f| - 16], f[|f| - 16..]) == Some(p)
         case Sm4Ccm => f[1] == 2 && suite.ccmDecrypt(key, f[2..14], aad.value, f[14..]) == Some(p)
  }

  /** The configured remote key and signer id vouch for this plaintext in this context. */
  predicate Vouched(suite: Suite, party: Party, envelope: SecureEnvelope, context: AuthContext, p: bytes)
    requires Decode(envelope.signature).Some?
  {
    var t := SigningLayout(party.config.authMode, context, p);
    t.Some? && suite.verify(party.keys.remoteVerification, party.config.expectedRemoteSignerId, t.value,
                            Decode(envelope.signature).value)
  }

  predicate OpensTo(suite: Suite, party: Party, envelope: SecureEnvelope, context: AuthContext, p: bytes) {
    && ByteLen(envelope.cipher) <= CipherTextBound(party.config)
    && Unwraps(suite, party, envelope)
    && PayloadYields(suite, party, envelope, context, p)
    && Vouched(suite, party, envelope, context, p)
  }

  lemma CbcOpenMeans(suite: Suite, party: Party, envelope: SecureEnvelope, context: AuthContext, p: bytes)
    requires party.config.envelopeMode.LegacyCbc?
    ensures OpenResult(suite, party, envelope, context) == Ok(p) <==> OpensTo(suite, party, envelope, context, p)
  {
    hide AuthenticationInput, SigningLayout, Decode, ByteLen, Base64Len, PaddedCipherLen;
    InputMeans(party.config.authMode, context, p);
    EmptyDomainHasNoLayout(party.config.authMode, context, p);
  }

  lemma EmptyDomainHasNoLayout(mode: AuthMode, context: AuthContext, p: bytes)
    ensures mode == ContextBound([]) ==> SigningLayout(mode, context, p).None?
    ensures mode == ContextBound([]) ==> AadLayout(mode, context, p).None?
  {
  }

  lemma CcmTail(f: bytes)
    requires |f| >= 30
    ensures f[14..|f| - 16] + f[|f| - 16..] == f[14..]
  {
  }

  lemma AeadOpenMeans(suite: Suite, party: Party, envelope: SecureEnvelope, context: AuthContext, p: bytes)
    requires party.config.envelopeMode.Aead?
    ensures OpenResult(suite, party, envelope, context) == Ok(p) <==> OpensTo(suite, party, envelope, context, p)
  {
    hide AuthenticationInput, AeadAad, SigningLayout, AadLayout, Decode, ByteLen, Base64Len;
    InputMeans(party.config.authMode, context, p);
    EmptyDomainHasNoLayout(party.config.authMode, context, p);
    if Decode(envelope.cipher).Some? && |Decode(envelope.cipher).value| >= 30 {
      var f := Decode(envelope.cipher).value;
      EmptyDomainHasNoLayout(party.config.authMode, context, f[..14]);
      AadMeans(party.config.authMode, context, f[..14]);
      CcmTail(f);
      assert Aead.NonceOf(f[..14]) == f[2..14];
    }
  }

  /**
    * What opening means, in both directions: the texts fit and decode, the key unwraps, the primitive of the configured
    * mode turns exactly these payload bytes into the plaintext, and the trusted key signed that plaintext in this context.
    */
  lemma OpenMeans(suite: Suite, party: Party, envelope: SecureEnvelope, context: AuthContext, p: bytes)
    ensures OpenResult(suite, party, envelope, context) == Ok(p) <==> OpensTo(suite, party, envelope, context, p)
  {
    if party.config.envelopeMode.LegacyCbc? {
      CbcOpenMeans(suite, party, envelope, context, p);
    } else {
      AeadOpenMeans(suite, party, envelope, context, p);
    }
  }

  /** When `Cbc.Open` verifies: exactly when the texts fit and decode and the key unwraps. */
  lemma CbcVerifiesExactlyAfterUnwrapping(suite: Suite, party: Party, envelope: SecureEnvelope)
    ensures Cbc.Prepare(suite, party.config, party.keys, envelope).Ok? <==>
              && ByteLen(envelope.cipher) <= Base64Len(PaddedCipherLen(party.config.maxPlaintextBytes))
              && Unwraps(suite, party, envelope)
              && |Decode(envelope.cipher).value| <= PaddedCipherLen(party.config.maxPlaintextBytes)
    ensures Cbc.Prepare(suite, party.config, party.keys, envelope).Ok? ==>
              Cbc.Prepare(suite, party.config, party.keys, envelope).value ==
              Cbc.Material(Decode(envelope.cipher).value, UnwrappedKey(suite, party, envelope), Decode(envelope.signature).value)
  {
    hide Decode, ByteLen, Base64Len, PaddedCipherLen;
  }

  /** Over what it verifies: the transcript of the plaintext, of the raw ciphertext when decryption failed, or of nothing. */
  lemma CbcVerifiedTranscript(suite: Suite, config: ClientConfig, m: Cbc.Material, context: AuthContext)
    ensures var decrypted := suite.cbcDecrypt(m.sessionKey, config.iv, m.cipher);
            var t := SigningLayout(config.authMode, context, if decrypted.Some? then decrypted.value else m.cipher);
            Cbc.VerifiedTranscript(suite, config, m, context) == if t.Some? then t.value else []
  {
    hide AuthenticationInput, SigningLayout;
    var decrypted := suite.cbcDecrypt(m.sessionKey, config.iv, m.cipher);
    var p := if decrypted.Some? then decrypted.value else m.cipher;
    InputMeans(config.authMode, context, p);
    EmptyDomainHasNoLayout(config.authMode, context, p);
  }

  //
  // Sealing.
  //

  /** The payload bytes before Base64, under the drawn key and nonce. */
  function SealedPayload(suite: Suite, config: ClientConfig, p: bytes, context: AuthContext, draws: Draws): Option<bytes>
    requires draws.sessionKey.Some?
  {
    var key := draws.sessionKey.value;
    match config.envelopeMode
    case LegacyCbc => Some(suite.cbcEncrypt(key, config.iv, p))
    case Aead(algorithm) =>
      if draws.nonce.None? then None else
      var nonce := draws.nonce.value;
      var header: bytes := (if algorithm == Sm4Gcm then [1, 1] else [1, 2]) + nonce;
      var aad := AadLayout(config.authMode, context, header);
      if aad.None? then None else
      match algorithm
      case Sm4Gcm =>
        var sealed := suite.gcmEncrypt(key, nonce, aad.value, p);
        if sealed.None? || 30 + |sealed.value.0| > USIZE_MAX then None
        else Some(header + sealed.value.0 + sealed.value.1)
      case Sm4Ccm =>
        var sealed := suite.ccmEncrypt(key, nonce, aad.value, p);
        if sealed.None? || |sealed.value| < 16 || 14 + |sealed.value| > USIZE_MAX then None
        else Some(header + sealed.value)
  }

  predicate SealsTo(suite: Suite, party: Party, p: bytes, context: AuthContext, draws: Draws, envelope: SecureEnvelope) {
    && |p| <= party.config.maxPlaintextBytes && draws.sessionKey.Some?
    && var t := SigningLayout(party.config.authMode, context, p);
    && var payload := SealedPayload(suite, party.config, p, context, draws);
    && var wrapped := suite.wrap(party.keys.remoteEncryption, draws.sessionKey.value, draws.wrapping);
    && t.Some? && payload.Some? && wrapped.Some?
    && var signature := suite.sign(party.keys.localSigning, party.config.localSignerId, t.value, draws.signing);
    && signature.Some?
    && Decode(envelope.cipher) == payload && Decode(envelope.wrappedSessionKey) == wrapped
    && Decode(envelope.signature) == signature
  }

  lemma EncodesTo(text: string, b: bytes)
    ensures text == Encode(b) <==> Decode(text) == Some(b)
  {
    DecodeEncode(b);
    if Decode(text) == Some(b) { DecodeIsCanonical(text); }
  }

  lemma AeadPayloadMeans(suite: Suite, config: ClientConfig, p: bytes, context: AuthContext, draws: Draws,
                         algorithm: Config.AeadAlgorithm)
    requires config.envelopeMode == Aead(algorithm) && draws.sessionKey.Some? && config.authMode != ContextBound([])
    ensures SealedPayload(suite, config, p, context, draws) ==
            if draws.nonce.None? then None else
            var header := Aead.HeaderFor(algorithm, draws.nonce.value);
            var aad := AeadAad(config.authMode, context, header);
            if aad.Err? then None else
            var sealed := Aead.EncryptResult(suite, algorithm, draws.sessionKey.value, draws.nonce.value, aad.value, p);
            if sealed.Err? || 30 + |sealed.value.0| > USIZE_MAX then None
            else Some(Aead.Assemble(Aead.Frame(header, sealed.value.0, sealed.value.1)))
  {
    hide AeadAad, AadLayout;
    if draws.nonce.Some? {
      var header := Aead.HeaderFor(algorithm, draws.nonce.value);
      AadMeans(config.authMode, context, header);
      var aad := AadLayout(config.authMode, context, header);
      if aad.Some? && algorithm == Sm4Ccm {
        var joined := suite.ccmEncrypt(draws.sessionKey.value, draws.nonce.value, aad.value, p);
        if joined.Some? && |joined.value| >= 16 {
          var (c, tag) := Aead.SplitJoined(joined.value).value;
          assert c + tag == joined.value;
          assert header + c + tag == header + joined.value;
        }
      }
    }
  }

  /**
    * What sealing means, in both directions: the envelope's texts decode to the payload made with the drawn key and nonce,
    * that key wrapped for the peer, and the signature over the plaintext in its context.
    */
  lemma SealMeans(suite: Suite, party: Party, p: bytes, context: AuthContext, draws: Draws, envelope: SecureEnvelope)
    ensures SealResult(suite, party, p, context, draws) == Ok(envelope)
            <==> SealsTo(suite, party, p, context, draws, envelope)
  {
    hide AuthenticationInput, AeadAad, SigningLayout, SealedPayload, Encode, Decode, Aead.HeaderFor, Aead.EncryptResult,
      Aead.Assemble;
    InputMeans(party.config.authMode, context, p);
    EmptyDomainHasNoLayout(party.config.authMode, context, p);
    var t := SigningLayout(party.config.authMode, context, p);
    if t.Some? && draws.sessionKey.Some? {
      var wrapped := suite.wrap(party.keys.remoteEncryption, draws.sessionKey.value, draws.wrapping);
      var signature := suite.sign(party.keys.localSigning, party.config.localSignerId, t.value, draws.signing);
      if wrapped.Some? { EncodesTo(envelope.wrappedSessionKey, wrapped.value); }
      if signature.Some? { EncodesTo(envelope.signature, signature.value); }
      var payload := SealedPayload(suite, party.config, p, context, draws);
      if payload.Some? { EncodesTo(envelope.cipher, payload.value); }
      match party.config.envelopeMode
      case LegacyCbc => CbcPayload(suite, party.config, p, context, draws);
      case Aead(algorithm) => AeadPayloadMeans(suite, party.config, p, context, draws, algorithm);
    }
  }

  lemma CbcPayload(suite: Suite, config: ClientConfig, p: bytes, context: AuthContext, draws: Draws)
    requires config.envelopeMode.LegacyCbc? && draws.sessionKey.Some?
    ensures SealedPayload(suite, config, p, context, draws)
            == Some(suite.cbcEncrypt(draws.sessionKey.value, config.iv, p))
  {
  }

  /** Which failure sealing reports: size first, then the configuration, then the context, and otherwise encryption. */
  lemma SealFailureMeans(suite: Suite, party: Party, p: bytes, context: AuthContext, draws: Draws)
    ensures var r := SealResult(suite, party, p, context, draws);
            r.Err? ==>
              r.error ==
              if |p| > party.config.maxPlaintextBytes then MessageTooLarge(party.config.maxPlaintextBytes)
              else if party.config.authMode == ContextBound([]) then Configuration("domain_separator")
              else if SigningLayout(party.config.authMode, context, p).None? then Error.AuthenticationContext
              else if party.config.envelopeMode.Aead? && draws.sessionKey.Some? && draws.nonce.Some?
                      && AadLayout(party.config.authMode, context,
                                   (if party.config.envelopeMode.algorithm == Sm4Gcm then [1, 1] else [1, 2])
                                   + draws.nonce.value).None?
              then Error.AuthenticationContext
              else Encryption
  {
    hide AuthenticationInput, AeadAad, SigningLayout, AadLayout, Encode, Aead.Assemble;
    InputMeans(party.config.authMode, context, p);
    if party.config.envelopeMode.Aead? && draws.nonce.Some? {
      AadMeans(party.config.authMode, context, Aead.HeaderFor(party.config.envelopeMode.algorithm, draws.nonce.value));
    }
  }
}

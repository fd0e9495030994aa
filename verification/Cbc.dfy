/** The compatibility SM4-CBC payload mode, src/envelope_crypto/cbc.rs. */
module Cbc {
  import opened Common
  import opened Text
  import opened Base64
  import opened Sizes
  import opened Auth
  import opened Crypto
  import opened Config
  import opened Message
  import opened EnvelopeSupport

  /** What `seal` returns. */
  function SealResult(suite: Suite, config: ClientConfig, keys: KeyMaterial, plaintext: bytes, context: AuthContext, draws: Draws)
    : Result<SecureEnvelope, Error>
  {
    var input :- AuthenticationInput(config.authMode, context, plaintext);
    var sessionKey :- OkOr(draws.sessionKey, Encryption);
    var cipher := suite.cbcEncrypt(sessionKey, config.iv, plaintext);
    var wrapped :- OkOr(suite.wrap(keys.remoteEncryption, sessionKey, draws.wrapping), Encryption);
    var signature :- OkOr(suite.sign(keys.localSigning, config.localSignerId, input, draws.signing), Encryption);
    Ok(SecureEnvelope(Encode(cipher), Encode(wrapped), Encode(signature)))
  }

  /** What is in hand once the size checks, decoding and key unwrapping have succeeded. */
  datatype Material = Material(cipher: bytes, sessionKey: SessionKey, signature: bytes)

  function Prepare(suite: Suite, config: ClientConfig, keys: KeyMaterial, envelope: SecureEnvelope): Result<Material, Error> {
    var maxCipherBytes := PaddedCipherLen(config.maxPlaintextBytes);
    if ByteLen(envelope.cipher) > Base64Len(maxCipherBytes) then Err(MessageTooLarge(config.maxPlaintextBytes))
    else if AuxiliaryTooLong(envelope) then Err(InvalidEnvelope)
    else
      var cipher :- DecodeBase64(envelope.cipher);
      if |cipher| > maxCipherBytes then Err(InvalidEnvelope)
      else
        var wrapped :- DecodeBase64(envelope.wrappedSessionKey);
        var signature :- DecodeBase64(envelope.signature);
        var sessionKey :- SessionKeyOf(suite, keys, wrapped);
        Ok(Material(cipher, sessionKey, signature))
  }

  /** The obvious `open`: stop at the first thing that is wrong. */
  function OpenEarlyReturn(suite: Suite, config: ClientConfig, keys: KeyMaterial, envelope: SecureEnvelope, context: AuthContext)
    : Result<bytes, Error>
  {
    var m :- Prepare(suite, config, keys, envelope);
    var plaintext :- OkOr(suite.cbcDecrypt(m.sessionKey, config.iv, m.cipher), InvalidEnvelope);
    if |plaintext| > config.maxPlaintextBytes then Err(InvalidEnvelope)
    else
      var input :- AuthenticationInput(config.authMode, context, plaintext).OrElse(InvalidEnvelope);
      if suite.verify(keys.remoteVerification, config.expectedRemoteSignerId, input, m.signature) then Ok(plaintext)
      else Err(InvalidEnvelope)
  }

  /** One call of the signature check. */
  datatype Verification = Verification(key: PublicKey, signerId: bytes, transcript: bytes, signature: bytes)

  /** Records every verification, as the tally `VERIFY_CALLS` counts them. */
  class VerificationLog {
    var calls: seq<Verification>

    constructor ()
      ensures calls == []
    {
      calls := [];
    }
  }

  /** `verify_transcript`: the only place where `Open` verifies. */
  method VerifyTranscript(suite: Suite, config: ClientConfig, keys: KeyMaterial, transcript: bytes, signature: bytes,
                          log: VerificationLog)
    returns (verified: bool)
    modifies log
    ensures verified == suite.verify(keys.remoteVerification, config.expectedRemoteSignerId, transcript, signature)
    ensures log.calls == old(log.calls)
                         + [Verification(keys.remoteVerification, config.expectedRemoteSignerId, transcript, signature)]
  {
    log.calls := log.calls + [Verification(keys.remoteVerification, config.expectedRemoteSignerId, transcript, signature)];
    verified := suite.verify(keys.remoteVerification, config.expectedRemoteSignerId, transcript, signature);
  }

  /** The transcript `Open` verifies: of the plaintext, or of the raw ciphertext when decryption failed. */
  function VerifiedTranscript(suite: Suite, config: ClientConfig, m: Material, context: AuthContext): bytes {
    var decrypted := suite.cbcDecrypt(m.sessionKey, config.iv, m.cipher);
    var input := AuthenticationInput(config.authMode, context, if decrypted.Some? then decrypted.value else m.cipher);
    if input.Ok? then input.value else []
  }

  /**
    * `open`: outcome flags joined at the end, a fallback transcript, and one verification.
    *
    * It agrees with the early-return form on every input. It verifies exactly once when the session
    * key unwraps and never otherwise. When decryption fails it refuses, whatever the verification said.
    */
  method Open(suite: Suite, config: ClientConfig, keys: KeyMaterial, envelope: SecureEnvelope, context: AuthContext,
              log: VerificationLog)
    returns (r: Result<bytes, Error>)
    modifies log
    ensures r == OpenEarlyReturn(suite, config, keys, envelope, context)
    ensures var prepared := Prepare(suite, config, keys, envelope);
            log.calls == old(log.calls) +
                         if prepared.Err? then []
                         else [Verification(keys.remoteVerification, config.expectedRemoteSignerId,
                                            VerifiedTranscript(suite, config, prepared.value, context),
                                            prepared.value.signature)]
    ensures var prepared := Prepare(suite, config, keys, envelope);
            prepared.Ok? && suite.cbcDecrypt(prepared.value.sessionKey, config.iv, prepared.value.cipher).None? ==>
              r == Err(InvalidEnvelope)
  {
    var plaintextLimit := config.maxPlaintextBytes;
    var maxCipherBytes := PaddedCipherLen(plaintextLimit);
    var maxCipherBase64Bytes := Base64Len(maxCipherBytes);
    assert log.calls + [] == log.calls;

    if ByteLen(envelope.cipher) > maxCipherBase64Bytes {
      return Err(MessageTooLarge(plaintextLimit));
    }
    if AuxiliaryTooLong(envelope) {
      return Err(InvalidEnvelope);
    }
    var cipher :- DecodeBase64(envelope.cipher);
    if |cipher| > maxCipherBytes {
      return Err(InvalidEnvelope);
    }
    var wrapped :- DecodeBase64(envelope.wrappedSessionKey);
    var signature :- DecodeBase64(envelope.signature);
    var sessionKey :- UnwrapSessionKey(suite, keys, wrapped);

    var decrypted := suite.cbcDecrypt(sessionKey, config.iv, cipher);
    var paddingOk := decrypted.Some?;
    var plaintext := if decrypted.Some? then decrypted.value else cipher;
    var lengthOk := |plaintext| <= plaintextLimit;

    var input := BuildAuthenticationInput(config.authMode, context, plaintext);
    var inputOk := input.Ok?;
    var transcript := if input.Ok? then input.value else [];

    var verified := VerifyTranscript(suite, config, keys, transcript, signature, log);

    if paddingOk && lengthOk && inputOk && verified {
      r := Ok(plaintext);
    } else {
      r := Err(InvalidEnvelope);
    }
  }
}

/** The helpers every payload mode shares, src/envelope_crypto/mod.rs. */
module EnvelopeSupport {
  import opened Common
  import opened Text
  import opened Base64
  import opened Crypto
  import opened Message

  const MAX_AUXILIARY_BASE64_BYTES: nat := 16 * 1024

  /** Every random value one `seal` consumes; a draw can fail. */
  datatype Draws = Draws(sessionKey: Option<SessionKey>, nonce: Option<Nonce>, wrapping: bytes, signing: bytes)

  predicate AuxiliaryTooLong(envelope: SecureEnvelope) {
    || ByteLen(envelope.wrappedSessionKey) > MAX_AUXILIARY_BASE64_BYTES
    || ByteLen(envelope.signature) > MAX_AUXILIARY_BASE64_BYTES
  }

  /** `decode_base64`. */
  function DecodeBase64(text: string): Result<bytes, Error> { OkOr(Decode(text), InvalidEnvelope) }

  /** What `unwrap_session_key` returns. */
  function SessionKeyOf(suite: Suite, keys: KeyMaterial, wrapped: bytes): Result<SessionKey, Error> {
    var key := suite.unwrap(keys.localDecryption, wrapped);
    if key.None? || |key.value| != SESSION_KEY_BYTES then Err(InvalidEnvelope) else Ok(key.value)
  }

  /** `unwrap_session_key`, copying into a fixed buffer. */
  method UnwrapSessionKey(suite: Suite, keys: KeyMaterial, wrapped: bytes) returns (r: Result<SessionKey, Error>)
    ensures r == SessionKeyOf(suite, keys, wrapped)
  {
    var unwrapped :- OkOr(suite.unwrap(keys.localDecryption, wrapped), InvalidEnvelope);
    if |unwrapped| != SESSION_KEY_BYTES {
      return Err(InvalidEnvelope);
    }
    var sessionKey := new byte[SESSION_KEY_BYTES](_ => 0);
    for i := 0 to SESSION_KEY_BYTES
      invariant sessionKey[..i] == unwrapped[..i]
    {
      sessionKey[i] := unwrapped[i];
    }
    assert sessionKey[..] == unwrapped;
    r := Ok(sessionKey[..]);
  }
}

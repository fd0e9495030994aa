/** The SM4-GCM and SM4-CCM payload modes, src/envelope_crypto/aead.rs. */
module Aead {
  import opened Common
  import opened Text
  import opened Base64
  import opened Sizes
  import opened Auth
  import opened Crypto
  import opened Config
  import opened Message
  import opened EnvelopeSupport

  const FRAME_VERSION: byte := 0x01
  const FRAME_HEADER_BYTES: nat := 14
  const FRAME_OVERHEAD_BYTES: nat := FRAME_HEADER_BYTES + TAG_BYTES

  function AlgorithmByte(algorithm: AeadAlgorithm): byte {
    match algorithm
    case Sm4Gcm => 0x01
    case Sm4Ccm => 0x02
  }

  //
  // Frames.
  //

  type FrameHeader = h: bytes | |h| == FRAME_HEADER_BYTES witness seq(FRAME_HEADER_BYTES, _ => 0)

  datatype Frame = Frame(header: FrameHeader, ciphertext: bytes, tag: Tag)

  function HeaderFor(algorithm: AeadAlgorithm, nonce: Nonce): FrameHeader {
    [FRAME_VERSION, AlgorithmByte(algorithm)] + nonce
  }

  function NonceOf(header: FrameHeader): Nonce { header[2..] }

  function Assemble(frame: Frame): bytes { frame.header + frame.ciphertext + frame.tag }

  /** Reads a frame; too short is the only failure. */
  function SplitFrame(b: bytes): Option<Frame> {
    if |b| < FRAME_OVERHEAD_BYTES then None
    else Some(Frame(b[..FRAME_HEADER_BYTES], b[FRAME_HEADER_BYTES..|b| - TAG_BYTES], b[|b| - TAG_BYTES..]))
  }

  /** Assembling and splitting are mutually inverse, for empty ciphertexts as well. */
  lemma FramesRoundTrip(frame: Frame, b: bytes)
    ensures SplitFrame(Assemble(frame)) == Some(frame)
    ensures SplitFrame(b).Some? <==> |b| >= FRAME_OVERHEAD_BYTES
    ensures SplitFrame(b).Some? ==> Assemble(SplitFrame(b).value) == b
    ensures |Assemble(frame)| == FRAME_OVERHEAD_BYTES + |frame.ciphertext|
  {
    var a := Assemble(frame);
    assert a[..FRAME_HEADER_BYTES] == frame.header;
    assert a[FRAME_HEADER_BYTES..|a| - TAG_BYTES] == frame.ciphertext;
    assert a[|a| - TAG_BYTES..] == frame.tag;
    if SplitFrame(b).Some? {
      var cut := |b| - TAG_BYTES;
      assert b == b[..FRAME_HEADER_BYTES] + b[FRAME_HEADER_BYTES..cut] + b[cut..];
    }
  }

  //
  // The two algorithms behind one interface.
  //

  /** The result of splitting a joined ciphertext and tag. */
  function SplitJoined(joined: bytes): Option<(bytes, Tag)> {
    if |joined| < TAG_BYTES then None
    else Some((joined[..|joined| - TAG_BYTES], joined[|joined| - TAG_BYTES..]))
  }

  /** `split_ciphertext_and_tag`: cuts the tag off its argument. */
  method SplitCiphertextAndTag(joined: ByteBuffer) returns (r: Option<(bytes, Tag)>)
    modifies joined
    ensures r == SplitJoined(old(joined.data))
    ensures r.Some? ==> r.value.0 == joined.data && joined.data + r.value.1 == old(joined.data)
  {
    if |joined.data| < TAG_BYTES {
      return None;
    }
    var tag := joined.SplitOff(|joined.data| - TAG_BYTES);
    r := Some((joined.data, tag));
  }

  function GcmEncrypted(suite: Suite, key: SessionKey, nonce: Nonce, aad: bytes, plaintext: bytes)
    : Result<(bytes, Tag), Error>
  {
    OkOr(suite.gcmEncrypt(key, nonce, aad, plaintext), Encryption)
  }

  function GcmDecrypted(suite: Suite, key: SessionKey, nonce: Nonce, aad: bytes, ciphertext: bytes, tag: Tag)
    : Result<bytes, Error>
  {
    OkOr(suite.gcmDecrypt(key, nonce, aad, ciphertext, tag), InvalidEnvelope)
  }

  function EncryptResult(suite: Suite, algorithm: AeadAlgorithm, key: SessionKey, nonce: Nonce, aad: bytes, plaintext: bytes)
    : Result<(bytes, Tag), Error>
  {
    match algorithm
    case Sm4Gcm => GcmEncrypted(suite, key, nonce, aad, plaintext)
    case Sm4Ccm =>
      var joined :- OkOr(suite.ccmEncrypt(key, nonce, aad, plaintext), Encryption);
      OkOr(SplitJoined(joined), Encryption)
  }

  function DecryptResult(suite: Suite, algorithm: AeadAlgorithm, key: SessionKey, nonce: Nonce, aad: bytes,
                         ciphertext: bytes, tag: Tag)
    : Result<bytes, Error>
  {
    match algorithm
    case Sm4Gcm => GcmDecrypted(suite, key, nonce, aad, ciphertext, tag)
    case Sm4Ccm => OkOr(suite.ccmDecrypt(key, nonce, aad, ciphertext + tag), InvalidEnvelope)
  }

  /** `aead_encrypt`. */
  method Encrypt(suite: Suite, algorithm: AeadAlgorithm, key: SessionKey, nonce: Nonce, aad: bytes, plaintext: bytes)
    returns (r: Result<(bytes, Tag), Error>)
    ensures r == EncryptResult(suite, algorithm, key, nonce, aad, plaintext)
  {
    match algorithm
    case Sm4Gcm =>
      r := GcmEncrypted(suite, key, nonce, aad, plaintext);
    case Sm4Ccm =>
      var joined :- OkOr(suite.ccmEncrypt(key, nonce, aad, plaintext), Encryption);
      var buffer := new ByteBuffer();
      buffer.Extend(joined);
      assert buffer.data == joined;
      var split := SplitCiphertextAndTag(buffer);
      r := OkOr(split, Encryption);
  }

  /** `aead_decrypt`. */
  method Decrypt(suite: Suite, algorithm: AeadAlgorithm, key: SessionKey, nonce: Nonce, aad: bytes,
                 ciphertext: bytes, tag: Tag)
    returns (r: Result<bytes, Error>)
    ensures r == DecryptResult(suite, algorithm, key, nonce, aad, ciphertext, tag)
  {
    match algorithm
    case Sm4Gcm =>
      r := GcmDecrypted(suite, key, nonce, aad, ciphertext, tag);
    case Sm4Ccm =>
      var joined := new ByteBuffer();
      joined.Extend(ciphertext);
      joined.Extend(tag);
      assert joined.data == ciphertext + tag;
      r := OkOr(suite.ccmDecrypt(key, nonce, aad, joined.data), InvalidEnvelope);
  }

  /** Decryption undoes encryption, and both keep the payload length. */
  lemma AeadRoundTrip(suite: Suite, algorithm: AeadAlgorithm, key: SessionKey, nonce: Nonce, aad: bytes, p: bytes)
    requires Lawful(suite)
    requires EncryptResult(suite, algorithm, key, nonce, aad, p).Ok?
    ensures var (c, tag) := EncryptResult(suite, algorithm, key, nonce, aad, p).value;
            |c| == |p| && DecryptResult(suite, algorithm, key, nonce, aad, c, tag) == Ok(p)
  {
    if algorithm == Sm4Ccm {
      var joined := suite.ccmEncrypt(key, nonce, aad, p).value;
      var (c, tag) := SplitJoined(joined).value;
      assert c + tag == joined;
    }
  }

  lemma DecryptKeepsLength(suite: Suite, algorithm: AeadAlgorithm, key: SessionKey, nonce: Nonce, aad: bytes, c: bytes, tag: Tag)
    requires Lawful(suite)
    ensures var r := DecryptResult(suite, algorithm, key, nonce, aad, c, tag); r.Ok? ==> |r.value| == |c|
  {
  }

  //
  // Sealing.
  //

  /** What `seal` returns. */
  function SealResult(suite: Suite, config: ClientConfig, keys: KeyMaterial, plaintext: bytes, context: AuthContext,
                      algorithm: AeadAlgorithm, draws: Draws)
    : Result<SecureEnvelope, Error>
  {
    var input :- AuthenticationInput(config.authMode, context, plaintext);
    var sessionKey :- OkOr(draws.sessionKey, Encryption);
    var nonce :- OkOr(draws.nonce, Encryption);
    var header := HeaderFor(algorithm, nonce);
    var aad :- AeadAad(config.authMode, context, header);
    var sealed :- EncryptResult(suite, algorithm, sessionKey, nonce, aad, plaintext);
    if FRAME_OVERHEAD_BYTES + |sealed.0| > USIZE_MAX then Err(Encryption)
    else
      var wrapped :- OkOr(suite.wrap(keys.remoteEncryption, sessionKey, draws.wrapping), Encryption);
      var signature :- OkOr(suite.sign(keys.localSigning, config.localSignerId, input, draws.signing), Encryption);
      Ok(SecureEnvelope(Encode(Assemble(Frame(header, sealed.0, sealed.1))), Encode(wrapped), Encode(signature)))
  }

  /** The frame header, written by index. */
  method WriteFrameHeader(algorithm: AeadAlgorithm, nonce: Nonce) returns (header: array<byte>)
    ensures fresh(header) && header[..] == HeaderFor(algorithm, nonce)
  {
    header := new byte[FRAME_HEADER_BYTES](_ => 0);
    header[0] := FRAME_VERSION;
    header[1] := AlgorithmByte(algorithm);
    for i := 0 to NONCE_BYTES
      invariant header[..2] == [FRAME_VERSION, AlgorithmByte(algorithm)]
      invariant header[2..2 + i] == nonce[..i]
    {
      header[2 + i] := nonce[i];
    }
    assert header[..] == header[..2] + header[2..14];
  }

  /** `seal`, writing the header by index and growing the frame. */
  method Seal(suite: Suite, config: ClientConfig, keys: KeyMaterial, plaintext: bytes, context: AuthContext,
              algorithm: AeadAlgorithm, draws: Draws)
    returns (r: Result<SecureEnvelope, Error>)
    ensures r == SealResult(suite, config, keys, plaintext, context, algorithm, draws)
  {
    hide AuthenticationInput, AeadAad, EncryptResult, Encode, HeaderFor;
    var input :- BuildAuthenticationInput(config.authMode, context, plaintext);
    var sessionKey :- OkOr(draws.sessionKey, Encryption);
    var nonce :- OkOr(draws.nonce, Encryption);

    var header := WriteFrameHeader(algorithm, nonce);
    var aad :- BuildAeadAad(config.authMode, context, header);

    var sealed :- Encrypt(suite, algorithm, sessionKey, nonce, aad, plaintext);
    var (ciphertext, tag) := sealed;
    if CheckedAdd(FRAME_OVERHEAD_BYTES, |ciphertext|).None? {
      return Err(Encryption);
    }
    var frame := new ByteBuffer();
    frame.Extend(header[..]);
    frame.Extend(ciphertext);
    frame.Extend(tag);
    assert frame.data == Assemble(Frame(header[..], ciphertext, tag));

    var wrapped :- OkOr(suite.wrap(keys.remoteEncryption, sessionKey, draws.wrapping), Encryption);
    var signature :- OkOr(suite.sign(keys.localSigning, config.localSignerId, input, draws.signing), Encryption);
    r := Ok(SecureEnvelope(Encode(frame.data), Encode(wrapped), Encode(signature)));
  }

  //
  // Opening.
  //

  /** The frame is of the pinned version and algorithm. */
  predicate Pinned(frame: Frame, algorithm: AeadAlgorithm) {
    frame.header[0] == FRAME_VERSION && frame.header[1] == AlgorithmByte(algorithm)
  }

  /** What `open` returns. */
  function OpenResult(suite: Suite, config: ClientConfig, keys: KeyMaterial, envelope: SecureEnvelope, context: AuthContext,
                      algorithm: AeadAlgorithm)
    : Result<bytes, Error>
  {
    if ByteLen(envelope.cipher) > Base64Len(SaturatingAdd(config.maxPlaintextBytes, FRAME_OVERHEAD_BYTES)) then
      Err(MessageTooLarge(config.maxPlaintextBytes))
    else if AuxiliaryTooLong(envelope) then Err(InvalidEnvelope)
    else
      var decoded :- DecodeBase64(envelope.cipher);
      var wrapped :- DecodeBase64(envelope.wrappedSessionKey);
      var signature :- DecodeBase64(envelope.signature);
      var frame :- OkOr(SplitFrame(decoded), InvalidEnvelope);
      if !Pinned(frame, algorithm) || |frame.ciphertext| > config.maxPlaintextBytes then Err(InvalidEnvelope)
      else
        var sessionKey :- SessionKeyOf(suite, keys, wrapped);
        var aad :- AeadAad(config.authMode, context, frame.header).OrElse(InvalidEnvelope);
        var plaintext :- DecryptResult(suite, algorithm, sessionKey, NonceOf(frame.header), aad, frame.ciphertext, frame.tag);
        var input :- AuthenticationInput(config.authMode, context, plaintext).OrElse(InvalidEnvelope);
        if suite.verify(keys.remoteVerification, config.expectedRemoteSignerId, input, signature) then Ok(plaintext)
        else Err(InvalidEnvelope)
  }

  /** Copies bytes into a fresh fixed buffer. */
  method CopyToArray(source: bytes) returns (a: array<byte>)
    ensures fresh(a) && a[..] == source
  {
    a := new byte[|source|](_ => 0);
    for i := 0 to |source|
      invariant a[..i] == source[..i]
    {
      a[i] := source[i];
    }
    assert a[..] == a[..|source|];
  }

  /** `open`, reading the frame by index; every index is in range on every decoded frame. */
  method Open(suite: Suite, config: ClientConfig, keys: KeyMaterial, envelope: SecureEnvelope, context: AuthContext,
              algorithm: AeadAlgorithm)
    returns (r: Result<bytes, Error>)
    ensures r == OpenResult(suite, config, keys, envelope, context, algorithm)
  {
    hide AuthenticationInput, AeadAad, DecryptResult, Decode;
    var plaintextLimit := config.maxPlaintextBytes;
    var maxFrameBytes := SaturatingAdd(plaintextLimit, FRAME_OVERHEAD_BYTES);
    if ByteLen(envelope.cipher) > Base64Len(maxFrameBytes) {
      return Err(MessageTooLarge(plaintextLimit));
    }
    if AuxiliaryTooLong(envelope) {
      return Err(InvalidEnvelope);
    }
    var frame :- DecodeBase64(envelope.cipher);
    var wrapped :- DecodeBase64(envelope.wrappedSessionKey);
    var signature :- DecodeBase64(envelope.signature);

    if |frame| < FRAME_OVERHEAD_BYTES {
      return Err(InvalidEnvelope);
    }
    if frame[0] != FRAME_VERSION || frame[1] != AlgorithmByte(algorithm) {
      return Err(InvalidEnvelope);
    }
    var headerBytes, body := frame[..FRAME_HEADER_BYTES], frame[FRAME_HEADER_BYTES..];
    var ciphertextLen := |body| - TAG_BYTES;
    if ciphertextLen > plaintextLimit {
      return Err(InvalidEnvelope);
    }
    var ciphertext, tagBytes := body[..ciphertextLen], body[ciphertextLen..];
    assert ciphertext == frame[FRAME_HEADER_BYTES..|frame| - TAG_BYTES];
    assert tagBytes == frame[|frame| - TAG_BYTES..];
    var header := CopyToArray(headerBytes);
    var tag := CopyToArray(tagBytes);
    var nonce := header[2..];
    assert nonce == NonceOf(header[..]);

    var sessionKey :- UnwrapSessionKey(suite, keys, wrapped);
    var aad := BuildAeadAad(config.authMode, context, header);
    if aad.Err? {
      return Err(InvalidEnvelope);
    }
    var plaintext :- Decrypt(suite, algorithm, sessionKey, nonce, aad.value, ciphertext, tag[..]);
    var input := BuildAuthenticationInput(config.authMode, context, plaintext);
    if input.Err? {
      return Err(InvalidEnvelope);
    }
    if !suite.verify(keys.remoteVerification, config.expectedRemoteSignerId, input.value, signature) {
      return Err(InvalidEnvelope);
    }
    r := Ok(plaintext);
  }
}

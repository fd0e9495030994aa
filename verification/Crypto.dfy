/**
  * The SM2 and SM4 primitives as a parameter, with the laws the envelope code relies on.
  *
  * Every random draw is an explicit argument, so statements hold for every draw.
  */
module Crypto {
  import opened Common
  import opened Framing

  datatype PrivateKey = PrivateKey(scalar: bytes)

  datatype PublicKey = PublicKey(point: bytes)

  /** The four directional key roles of `KeyMaterial`. */
  datatype KeyMaterial = KeyMaterial(
    localSigning: PrivateKey,
    localDecryption: PrivateKey,
    remoteVerification: PublicKey,
    remoteEncryption: PublicKey)

  const SESSION_KEY_BYTES: nat := 16
  const NONCE_BYTES: nat := 12
  const TAG_BYTES: nat := 16
  const SM4_BLOCK_BYTES: nat := 16

  type SessionKey = k: bytes | |k| == SESSION_KEY_BYTES witness seq(SESSION_KEY_BYTES, _ => 0)
  type Nonce = n: bytes | |n| == NONCE_BYTES witness seq(NONCE_BYTES, _ => 0)
  type Tag = t: bytes | |t| == TAG_BYTES witness seq(TAG_BYTES, _ => 0)
  type Iv = v: bytes | |v| == SM4_BLOCK_BYTES witness seq(SM4_BLOCK_BYTES, _ => 0)

  datatype Suite = Suite(
    publicOf: PrivateKey -> PublicKey,
    // SM2 encryption of a session key: recipient, key, random bytes
    wrap: (PublicKey, SessionKey, bytes) -> Option<bytes>,
    unwrap: (PrivateKey, bytes) -> Option<bytes>,
    // SM2 signature: key, signer id, message, random bytes
    sign: (PrivateKey, bytes, bytes, bytes) -> Option<bytes>,
    verify: (PublicKey, bytes, bytes, bytes) -> bool,
    cbcEncrypt: (SessionKey, Iv, bytes) -> bytes,
    cbcDecrypt: (SessionKey, Iv, bytes) -> Option<bytes>,
    // GCM: key, nonce, associated data, plaintext
    gcmEncrypt: (SessionKey, Nonce, bytes, bytes) -> Option<(bytes, Tag)>,
    gcmDecrypt: (SessionKey, Nonce, bytes, bytes, Tag) -> Option<bytes>,
    // CCM with a 16-byte tag appended to the ciphertext
    ccmEncrypt: (SessionKey, Nonce, bytes, bytes) -> Option<bytes>,
    ccmDecrypt: (SessionKey, Nonce, bytes, bytes) -> Option<bytes>)

  /** The longest byte string whose Base64 text has at most 16 KiB. */
  const MAX_AUXILIARY_BYTES: nat := 12_288

  ghost predicate WrapLaw(suite: Suite) {
    forall sk: PrivateKey, key: SessionKey, r: bytes | suite.wrap(suite.publicOf(sk), key, r).Some? ::
      var wrapped := suite.wrap(suite.publicOf(sk), key, r).value;
      1 <= |wrapped| <= MAX_AUXILIARY_BYTES && suite.unwrap(sk, wrapped) == Some(key)
  }

  ghost predicate SignLaw(suite: Suite) {
    forall sk: PrivateKey, id: bytes, m: bytes, r: bytes | suite.sign(sk, id, m, r).Some? ::
      var signature := suite.sign(sk, id, m, r).value;
      1 <= |signature| <= MAX_AUXILIARY_BYTES && suite.verify(suite.publicOf(sk), id, m, signature)
  }

  /** PKCS#7 always adds between one byte and one block. */
  function CbcLength(n: nat): nat { (n / SM4_BLOCK_BYTES + 1) * SM4_BLOCK_BYTES }

  ghost predicate CbcLaw(suite: Suite) {
    forall key: SessionKey, iv: Iv, p: bytes :: suite.cbcDecrypt(key, iv, suite.cbcEncrypt(key, iv, p)) == Some(p)
                         && |suite.cbcEncrypt(key, iv, p)| == CbcLength(|p|)
  }

  ghost predicate GcmLaw(suite: Suite) {
    && (forall key: SessionKey, nonce: Nonce, aad: bytes, p: bytes | suite.gcmEncrypt(key, nonce, aad, p).Some? ::
          var (c, tag) := suite.gcmEncrypt(key, nonce, aad, p).value;
          |c| == |p| && suite.gcmDecrypt(key, nonce, aad, c, tag) == Some(p))
    && (forall key: SessionKey, nonce: Nonce, aad: bytes, c: bytes, tag: Tag | suite.gcmDecrypt(key, nonce, aad, c, tag).Some? ::
          |suite.gcmDecrypt(key, nonce, aad, c, tag).value| == |c|)
  }

  /** Payload lengths that fit the length field of `q = 15 - 12` bytes of NIST SP 800-38C, appendix A.1. */
  predicate CcmEncodable(n: nat) { n < Pow256(15 - NONCE_BYTES) }

  ghost predicate CcmLaw(suite: Suite) {
    && (forall key: SessionKey, nonce: Nonce, aad: bytes, p: bytes | suite.ccmEncrypt(key, nonce, aad, p).Some? ::
          var joined := suite.ccmEncrypt(key, nonce, aad, p).value;
          |joined| == |p| + TAG_BYTES && suite.ccmDecrypt(key, nonce, aad, joined) == Some(p))
    && (forall key: SessionKey, nonce: Nonce, aad: bytes, joined: bytes | suite.ccmDecrypt(key, nonce, aad, joined).Some? ::
          |suite.ccmDecrypt(key, nonce, aad, joined).value| + TAG_BYTES == |joined|)
    && (forall key: SessionKey, nonce: Nonce, aad: bytes, p: bytes | CcmEncodable(|p|) && |aad| <= U64_MAX ::
          suite.ccmEncrypt(key, nonce, aad, p).Some?)
  }

  /** What this SDK expects of `gmcrypto-core`. */
  ghost predicate Lawful(suite: Suite) {
    WrapLaw(suite) && SignLaw(suite) && CbcLaw(suite) && GcmLaw(suite) && CcmLaw(suite)
  }

  //
  // The laws are consistent: a suite without secrecy satisfies them, and its signatures are ideal.
  //

  function RefPublic(sk: PrivateKey): PublicKey { PublicKey(sk.scalar) }
  function RefWrap(pk: PublicKey, key: SessionKey, r: bytes): Option<bytes> { Some(key) }
  function RefUnwrap(sk: PrivateKey, wrapped: bytes): Option<bytes> { Some(wrapped) }
  function RefTagged(pk: PublicKey, id: bytes, m: bytes): bytes { Field(pk.point) + (Field(id) + Field(m)) }
  function RefSign(sk: PrivateKey, id: bytes, m: bytes, r: bytes): Option<bytes> {
    var signature := RefTagged(PublicKey(sk.scalar), id, m);
    if |signature| <= MAX_AUXILIARY_BYTES then Some(signature) else None
  }
  predicate RefVerify(pk: PublicKey, id: bytes, m: bytes, signature: bytes) {
    signature == RefTagged(pk, id, m) && |signature| <= MAX_AUXILIARY_BYTES
  }
  function RefCbcEncrypt(key: SessionKey, iv: Iv, p: bytes): bytes {
    var n := CbcLength(|p|) - |p|;
    p + seq(n, _ => n)
  }
  function RefCbcDecrypt(key: SessionKey, iv: Iv, c: bytes): Option<bytes> {
    if |c| == 0 || c[|c| - 1] > |c| then None else Some(c[..|c| - c[|c| - 1]])
  }
  function RefGcmEncrypt(key: SessionKey, nonce: Nonce, aad: bytes, p: bytes): Option<(bytes, Tag)> {
    Some((p, key))
  }
  function RefGcmDecrypt(key: SessionKey, nonce: Nonce, aad: bytes, c: bytes, tag: Tag): Option<bytes> {
    if tag == key then Some(c) else None
  }
  function RefCcmEncrypt(key: SessionKey, nonce: Nonce, aad: bytes, p: bytes): Option<bytes> { Some(p + key) }
  function RefCcmDecrypt(key: SessionKey, nonce: Nonce, aad: bytes, joined: bytes): Option<bytes> {
    if |joined| < TAG_BYTES then None else Some(joined[..|joined| - TAG_BYTES])
  }

  function ReferenceSuite(): Suite {
    Suite(RefPublic, RefWrap, RefUnwrap, RefSign, RefVerify, RefCbcEncrypt, RefCbcDecrypt,
          RefGcmEncrypt, RefGcmDecrypt, RefCcmEncrypt, RefCcmDecrypt)
  }

  lemma RefCbcRoundTrip(key: SessionKey, iv: Iv, p: bytes)
    ensures RefCbcDecrypt(key, iv, RefCbcEncrypt(key, iv, p)) == Some(p)
    ensures |RefCbcEncrypt(key, iv, p)| == CbcLength(|p|)
  {
    var c := RefCbcEncrypt(key, iv, p);
    assert c[|c| - 1] == CbcLength(|p|) - |p|;
    assert c[..|p|] == p;
  }

  /** The laws have a model. */
  lemma LawsAreConsistent()
    ensures Lawful(ReferenceSuite())
  {
    var suite := ReferenceSuite();
    forall key: SessionKey, iv: Iv, p: bytes
      ensures suite.cbcDecrypt(key, iv, suite.cbcEncrypt(key, iv, p)) == Some(p)
              && |suite.cbcEncrypt(key, iv, p)| == CbcLength(|p|)
    {
      RefCbcRoundTrip(key, iv, p);
    }
    forall key: SessionKey, nonce: Nonce, aad: bytes, p: bytes
      ensures suite.ccmEncrypt(key, nonce, aad, p) == Some(p + key)
      ensures suite.ccmDecrypt(key, nonce, aad, p + key) == Some(p)
    {
      assert (p + key)[..|p|] == p;
    }
  }
}

/** `ClientConfig` and its builder, src/client_config.rs with the `aead` feature enabled. */
module Config {
  import opened Common
  import opened Text
  import opened Framing
  import opened Auth
  import opened Crypto

  const DEFAULT_MAX_PLAINTEXT_BYTES: usize := 16 * 1024 * 1024
  const SM4_CCM_MAX_PLAINTEXT_BYTES: usize := 0x100_0000 - 1
  const SM4_CCM_DEFAULT_MAX_PLAINTEXT_BYTES: usize := 64 * 1024
  const MAX_SIGNER_ID_BYTES: nat := 0xFFFF / 8

  datatype AeadAlgorithm = Sm4Gcm | Sm4Ccm

  datatype EnvelopeMode = LegacyCbc | Aead(algorithm: AeadAlgorithm)

  datatype ClientIdentity = ClientIdentity(
    localIdentityId: string,
    apiVersion: string,
    localCertificateId: string,
    expectedRemoteSigningCertificateId: string,
    remoteEncryptionCertificateId: string)

  datatype ClientConfig = ClientConfig(
    identity: ClientIdentity,
    localSignerId: bytes,
    expectedRemoteSignerId: bytes,
    authMode: AuthMode,
    iv: Iv,
    envelopeMode: EnvelopeMode,
    maxPlaintextBytes: usize)

  datatype ClientConfigBuilder = ClientConfigBuilder(
    localIdentityId: Option<string>,
    apiVersion: Option<string>,
    localCertificateId: Option<string>,
    expectedRemoteSigningCertificateId: Option<string>,
    remoteEncryptionCertificateId: Option<string>,
    localSignerId: Option<bytes>,
    expectedRemoteSignerId: Option<bytes>,
    authMode: Option<AuthMode>,
    iv: Option<Iv>,
    envelopeMode: Option<EnvelopeMode>,
    maxPlaintextBytes: Option<usize>)

  const ZERO_IV: Iv := [0, 0, 0, 0, 0, 0, 0, 0, 0, 0, 0, 0, 0, 0, 0, 0]

  function RequiredHeaderValue(value: Option<string>, field: string): Result<string, Error> {
    if value.None? || Trim(value.value) == "" || HasLineBreak(value.value) then Err(Configuration(field))
    else Ok(value.value)
  }

  function RequiredSignerId(value: Option<bytes>, field: string): Result<bytes, Error> {
    if value.None? || value.value == [] || |value.value| > MAX_SIGNER_ID_BYTES then Err(Configuration(field))
    else Ok(value.value)
  }

  function ChosenIv(iv: Option<Iv>, mode: EnvelopeMode): Result<Iv, Error> {
    match mode
    case LegacyCbc => OkOr(iv, Configuration("iv"))
    case Aead(_) => if iv.Some? then Err(Configuration("iv")) else Ok(ZERO_IV)
  }

  function ChosenLimit(limit: Option<usize>, mode: EnvelopeMode): Result<usize, Error> {
    var max := if limit.Some? then limit.value
               else if mode == Aead(Sm4Ccm) then SM4_CCM_DEFAULT_MAX_PLAINTEXT_BYTES
               else DEFAULT_MAX_PLAINTEXT_BYTES;
    if max == 0 || (mode == Aead(Sm4Ccm) && max > SM4_CCM_MAX_PLAINTEXT_BYTES) then
      Err(Configuration("max_plaintext_bytes"))
    else Ok(max)
  }

  /** `ClientConfigBuilder::build`. */
  function Build(b: ClientConfigBuilder): Result<ClientConfig, Error> {
    var localIdentityId :- RequiredHeaderValue(b.localIdentityId, "local_identity_id");
    var apiVersion :- RequiredHeaderValue(b.apiVersion, "api_version");
    var localCertificateId :- RequiredHeaderValue(b.localCertificateId, "local_certificate_id");
    var expectedRemote :- RequiredHeaderValue(b.expectedRemoteSigningCertificateId, "expected_remote_signing_certificate_id");
    var remoteEncryption :- RequiredHeaderValue(b.remoteEncryptionCertificateId, "remote_encryption_certificate_id");
    var localSignerId :- RequiredSignerId(b.localSignerId, "local_signer_id");
    var remoteSignerId :- RequiredSignerId(b.expectedRemoteSignerId, "expected_remote_signer_id");
    var envelopeMode :- OkOr(b.envelopeMode, Configuration("envelope_mode"));
    var iv :- ChosenIv(b.iv, envelopeMode);
    var authMode :- OkOr(b.authMode, Configuration("authentication_mode"));
    var validated :- Validate(authMode);
    var limit :- ChosenLimit(b.maxPlaintextBytes, envelopeMode);
    Ok(ClientConfig(ClientIdentity(localIdentityId, apiVersion, localCertificateId, expectedRemote, remoteEncryption),
                    localSignerId, remoteSignerId, authMode, iv, envelopeMode, limit))
  }

  predicate IsSignerId(id: bytes) { 1 <= |id| <= MAX_SIGNER_ID_BYTES }

  /** What every configuration that leaves the builder satisfies. */
  predicate Built(c: ClientConfig) {
    && IsContextValue(c.identity.localIdentityId) && IsContextValue(c.identity.apiVersion)
    && IsContextValue(c.identity.localCertificateId)
    && IsContextValue(c.identity.expectedRemoteSigningCertificateId)
    && IsContextValue(c.identity.remoteEncryptionCertificateId)
    && IsSignerId(c.localSignerId) && IsSignerId(c.expectedRemoteSignerId)
    && c.authMode != ContextBound([])
    && (c.envelopeMode.Aead? ==> c.iv == ZERO_IV)
    && 1 <= c.maxPlaintextBytes
    && (c.envelopeMode == Aead(Sm4Ccm) ==> c.maxPlaintextBytes <= SM4_CCM_MAX_PLAINTEXT_BYTES)
  }

  /** The builder that asks for exactly a given configuration. */
  function BuilderFor(c: ClientConfig): ClientConfigBuilder {
    ClientConfigBuilder(
      Some(c.identity.localIdentityId), Some(c.identity.apiVersion), Some(c.identity.localCertificateId),
      Some(c.identity.expectedRemoteSigningCertificateId), Some(c.identity.remoteEncryptionCertificateId),
      Some(c.localSignerId), Some(c.expectedRemoteSignerId), Some(c.authMode),
      if c.envelopeMode.Aead? then None else Some(c.iv), Some(c.envelopeMode), Some(c.maxPlaintextBytes))
  }

  lemma RequiredHeaderValueAccepts(value: Option<string>, field: string)
    ensures RequiredHeaderValue(value, field) ==
            if value.Some? && IsContextValue(value.value) then Ok(value.value) else Err(Configuration(field))
  {
    if value.Some? { TrimOfTrimmed(value.value); }
  }

  lemma BuildSatisfiesBuilt(b: ClientConfigBuilder)
    requires Build(b).Ok?
    ensures Built(Build(b).value)
    ensures b.maxPlaintextBytes.None? ==>
              Build(b).value.maxPlaintextBytes == if b.envelopeMode == Some(Aead(Sm4Ccm)) then 0x1_0000 else 0x100_0000
  {
    hide IsContextValue, RequiredHeaderValue;
    RequiredHeaderValueAccepts(b.localIdentityId, "local_identity_id");
    RequiredHeaderValueAccepts(b.apiVersion, "api_version");
    RequiredHeaderValueAccepts(b.localCertificateId, "local_certificate_id");
    RequiredHeaderValueAccepts(b.expectedRemoteSigningCertificateId, "expected_remote_signing_certificate_id");
    RequiredHeaderValueAccepts(b.remoteEncryptionCertificateId, "remote_encryption_certificate_id");
  }

  lemma BuiltIsReachable(c: ClientConfig)
    requires Built(c)
    ensures Build(BuilderFor(c)) == Ok(c)
  {
    hide IsContextValue, RequiredHeaderValue;
    var b := BuilderFor(c);
    RequiredHeaderValueAccepts(b.localIdentityId, "local_identity_id");
    RequiredHeaderValueAccepts(b.apiVersion, "api_version");
    RequiredHeaderValueAccepts(b.localCertificateId, "local_certificate_id");
    RequiredHeaderValueAccepts(b.expectedRemoteSigningCertificateId, "expected_remote_signing_certificate_id");
    RequiredHeaderValueAccepts(b.remoteEncryptionCertificateId, "remote_encryption_certificate_id");
  }

  /** The builder produces exactly the configurations that satisfy `Built`. */
  lemma BuildProducesExactlyBuilt(c: ClientConfig)
    ensures Built(c) <==> exists b :: Build(b) == Ok(c)
  {
    hide Build, Built;
    if Built(c) {
      BuiltIsReachable(c);
    }
    if exists b :: Build(b) == Ok(c) {
      var b :| Build(b) == Ok(c);
      BuildSatisfiesBuilt(b);
    }
  }

  predicate GivenId(value: Option<string>) { value.Some? && IsContextValue(value.value) }

  predicate GivenSigner(value: Option<bytes>) { value.Some? && 1 <= |value.value| <= 8191 }

  /** The limit asked for, or the default of the mode. */
  function RequestedLimit(b: ClientConfigBuilder): nat {
    if b.maxPlaintextBytes.Some? then b.maxPlaintextBytes.value
    else if b.envelopeMode == Some(Aead(Sm4Ccm)) then 0x1_0000
    else 0x100_0000
  }

  predicate LimitFits(b: ClientConfigBuilder) {
    RequestedLimit(b) >= 1 && (b.envelopeMode == Some(Aead(Sm4Ccm)) ==> RequestedLimit(b) <= 0xFF_FFFF)
  }

  /** What the builder checks, in order, and the field it blames. */
  function FirstBadField(b: ClientConfigBuilder): Option<string> {
    Earlier(Unless(GivenId(b.localIdentityId), "local_identity_id"),
    Earlier(Unless(GivenId(b.apiVersion), "api_version"),
    Earlier(Unless(GivenId(b.localCertificateId), "local_certificate_id"),
    Earlier(Unless(GivenId(b.expectedRemoteSigningCertificateId), "expected_remote_signing_certificate_id"),
    Earlier(Unless(GivenId(b.remoteEncryptionCertificateId), "remote_encryption_certificate_id"),
    Earlier(Unless(GivenSigner(b.localSignerId), "local_signer_id"),
    Earlier(Unless(GivenSigner(b.expectedRemoteSignerId), "expected_remote_signer_id"),
    Earlier(Unless(b.envelopeMode.Some?, "envelope_mode"),
    Earlier(Unless(b.iv.Some? <==> b.envelopeMode == Some(LegacyCbc), "iv"),
    Earlier(Unless(b.authMode.Some?, "authentication_mode"),
    Earlier(Unless(b.authMode != Some(ContextBound([])), "domain_separator"),
    Unless(LimitFits(b), "max_plaintext_bytes"))))))))))))
  }

  /** The builder fails at the first check that does not hold and blames its field; there is no other failure. */
  lemma BuildReportsFirstBadField(b: ClientConfigBuilder)
    ensures Build(b).Err? <==> FirstBadField(b).Some?
    ensures Build(b).Err? ==> Build(b).error == Configuration(FirstBadField(b).value)
  {
    hide IsContextValue, RequiredHeaderValue;
    RequiredHeaderValueAccepts(b.localIdentityId, "local_identity_id");
    RequiredHeaderValueAccepts(b.apiVersion, "api_version");
    RequiredHeaderValueAccepts(b.localCertificateId, "local_certificate_id");
    RequiredHeaderValueAccepts(b.expectedRemoteSigningCertificateId, "expected_remote_signing_certificate_id");
    RequiredHeaderValueAccepts(b.remoteEncryptionCertificateId, "remote_encryption_certificate_id");
  }

  /** A built configuration holds the values that were given. */
  lemma BuildKeepsGivenValues(b: ClientConfigBuilder)
    requires Build(b).Ok?
    ensures var c := Build(b).value;
            && b.localIdentityId == Some(c.identity.localIdentityId) && b.apiVersion == Some(c.identity.apiVersion)
            && b.localCertificateId == Some(c.identity.localCertificateId)
            && b.expectedRemoteSigningCertificateId == Some(c.identity.expectedRemoteSigningCertificateId)
            && b.remoteEncryptionCertificateId == Some(c.identity.remoteEncryptionCertificateId)
            && b.localSignerId == Some(c.localSignerId) && b.expectedRemoteSignerId == Some(c.expectedRemoteSignerId)
            && b.authMode == Some(c.authMode) && b.envelopeMode == Some(c.envelopeMode)
            && (b.iv.Some? ==> b.iv == Some(c.iv)) && RequestedLimit(b) == c.maxPlaintextBytes
  {
    hide IsContextValue, RequiredHeaderValue;
    RequiredHeaderValueAccepts(b.localIdentityId, "local_identity_id");
    RequiredHeaderValueAccepts(b.apiVersion, "api_version");
    RequiredHeaderValueAccepts(b.localCertificateId, "local_certificate_id");
    RequiredHeaderValueAccepts(b.expectedRemoteSigningCertificateId, "expected_remote_signing_certificate_id");
    RequiredHeaderValueAccepts(b.remoteEncryptionCertificateId, "remote_encryption_certificate_id");
  }

  /** Signer id lengths in bits fit sixteen bits; plaintexts a CCM client admits fit its length field. */
  lemma BuiltLengthsFit(c: ClientConfig, n: nat)
    requires Built(c) && n <= c.maxPlaintextBytes
    ensures 8 * |c.localSignerId| <= 0xFFFF && 8 * |c.expectedRemoteSignerId| <= 0xFFFF
    ensures c.envelopeMode == Aead(Sm4Ccm) ==> CcmEncodable(n)
  {
    assert Pow256(3) == 0x100_0000;
  }
}

/** The schema-driven header adapter of src/adapter.rs. */
module Adapter {
  import opened Common
  import opened Text
  import opened Header

  /** Names come from `HeaderName::new`, so they are tokens. */
  type Name = n: HeaderName | IsToken(n.original) witness HeaderName("x")

  datatype CipherLocation = Body | InHeader(name: Name)

  datatype HeaderAuthentication = LegacyAuthentication | BoundAuthentication

  datatype HeaderSchema = HeaderSchema(
    staticRequestHeaders: seq<Entry>,
    localIdentity: Name,
    operation: Name,
    requestId: Name,
    requestTime: Name,
    apiVersion: Name,
    localCertificate: Name,
    remoteSigningCertificate: Name,
    remoteEncryptionCertificate: Name,
    requestSignature: Name,
    requestWrappedKey: Name,
    requestCipher: CipherLocation,
    responseSignature: Name,
    responseWrappedKey: Name,
    responseRemoteSigningCertificate: Name,
    responseCipher: CipherLocation,
    authentication: HeaderAuthentication)

  //
  // Collisions.
  //

  function Canonicals(names: seq<HeaderName>): (c: seq<string>)
    ensures |c| == |names| && forall i :: 0 <= i < |names| ==> c[i] == names[i].Canonical()
  {
    seq(|names|, i requires 0 <= i < |names| => names[i].Canonical())
  }

  function EntryNames(entries: seq<Entry>): (names: seq<HeaderName>)
    ensures |names| == |entries| && forall i :: 0 <= i < |entries| ==> names[i] == entries[i].name
  {
    seq(|entries|, i requires 0 <= i < |entries| => entries[i].name)
  }

  predicate Distinct(s: seq<string>) { forall i, j :: 0 <= i < j < |s| ==> s[i] != s[j] }

  function CipherName(location: CipherLocation): seq<HeaderName> {
    if location.InHeader? then [location.name] else []
  }

  function FixedRequestNames(s: HeaderSchema): seq<HeaderName> {
    [s.localIdentity, s.operation, s.requestId, s.requestTime, s.apiVersion, s.localCertificate,
     s.remoteSigningCertificate, s.remoteEncryptionCertificate, s.requestSignature, s.requestWrappedKey]
  }

  /** Every name a request may carry. */
  function RequestNames(s: HeaderSchema): seq<HeaderName> {
    EntryNames(s.staticRequestHeaders) + FixedRequestNames(s) + CipherName(s.requestCipher)
  }

  function FixedResponseNames(s: HeaderSchema): seq<HeaderName> {
    [s.responseSignature, s.responseWrappedKey, s.responseRemoteSigningCertificate]
  }

  function BoundResponseNames(s: HeaderSchema): seq<HeaderName> {
    if s.authentication.BoundAuthentication? then [s.requestId] else []
  }

  /** Every name a response is searched for; the request id only when it is authenticated. */
  function ResponseNames(s: HeaderSchema): seq<HeaderName> {
    FixedResponseNames(s) + CipherName(s.responseCipher) + BoundResponseNames(s)
  }

  predicate CollisionFree(s: HeaderSchema) {
    Distinct(Canonicals(RequestNames(s))) && Distinct(Canonicals(ResponseNames(s)))
  }

  /** The hash set of names, compared by canonical form. */
  class MappingSet {
    var names: set<string>

    constructor ()
      ensures names == {}
    {
      names := {};
    }

    /** `insert_mapping` for each name in turn, stopping at the first repetition. */
    method InsertAll(added: seq<HeaderName>, ghost before: seq<HeaderName>) returns (r: Result<(), AdapterErrorKind>)
      requires Distinct(Canonicals(before)) && names == set c | c in Canonicals(before)
      modifies this
      ensures r == if Distinct(Canonicals(before + added)) then Ok(()) else Err(InvalidMapping)
      ensures r.Ok? ==> names == set c | c in Canonicals(before + added)
    {
      assert before + added[..0] == before;
      for i := 0 to |added|
        invariant Distinct(Canonicals(before + added[..i]))
        invariant names == set c | c in Canonicals(before + added[..i])
      {
        var canonical := added[i].Canonical();
        ghost var all := Canonicals(before + added);
        ghost var k := |before| + i;
        assert all[..k] == Canonicals(before + added[..i]);
        assert Canonicals(before + added[..i + 1]) == all[..k] + [canonical];
        if canonical in names {
          assert exists j :: 0 <= j < k && all[j] == all[k] by {
            assert canonical in all[..k];
          }
          return Err(InvalidMapping);
        }
        assert canonical !in all[..k];
        names := names + {canonical};
      }
      assert added[..|added|] == added;
      r := Ok(());
    }
  }

  /** Inserts three groups of names into one fresh set. */
  method InsertGroups(first: seq<HeaderName>, second: seq<HeaderName>, third: seq<HeaderName>)
    returns (r: Result<(), AdapterErrorKind>)
    ensures r == if Distinct(Canonicals(first + second + third)) then Ok(()) else Err(InvalidMapping)
  {
    hide Canonicals, Distinct;
    NoCanonicals();
    DistinctPrefix(first + second + third, |first|);
    DistinctPrefix(first + second + third, |first + second|);
    assert (first + second + third)[..|first|] == first;
    assert (first + second + third)[..|first + second|] == first + second;
    var names := new MappingSet();
    assert [] + first == first;
    var _ :- names.InsertAll(first, []);
    var _ :- names.InsertAll(second, first);
    var _ :- names.InsertAll(third, first + second);
    r := Ok(());
  }

  /** `validate_collisions` accepts exactly the schemas whose request names and whose response names are distinct. */
  method ValidateCollisions(s: HeaderSchema) returns (r: Result<(), AdapterErrorKind>)
    ensures r == if CollisionFree(s) then Ok(()) else Err(InvalidMapping)
  {
    hide Canonicals, Distinct;
    var _ :- InsertGroups(EntryNames(s.staticRequestHeaders), FixedRequestNames(s), CipherName(s.requestCipher));
    var _ :- InsertGroups(FixedResponseNames(s), CipherName(s.responseCipher), BoundResponseNames(s));
    r := Ok(());
  }

  lemma NoCanonicals()
    ensures Canonicals([]) == [] && Distinct([])
  {
  }

  lemma DistinctPrefix(names: seq<HeaderName>, k: nat)
    requires k <= |names|
    ensures Distinct(Canonicals(names)) ==> Distinct(Canonicals(names[..k]))
  {
  }

  //
  // The schema builder.
  //

  datatype HeaderSchemaBuilder = HeaderSchemaBuilder(
    staticRequestHeaders: seq<Pair>,
    localIdentity: Option<string>,
    operation: Option<string>,
    requestId: Option<string>,
    requestTime: Option<string>,
    apiVersion: Option<string>,
    localCertificate: Option<string>,
    remoteSigningCertificate: Option<string>,
    remoteEncryptionCertificate: Option<string>,
    requestSignature: Option<string>,
    requestWrappedKey: Option<string>,
    requestCipher: Option<CipherLocation>,
    responseSignature: Option<string>,
    responseWrappedKey: Option<string>,
    responseRemoteSigningCertificate: Option<string>,
    responseCipher: Option<CipherLocation>,
    legacyAuthentication: bool,
    contextBoundAuthentication: bool)

  function RequiredHeader(value: Option<string>): Result<Name, AdapterErrorKind> {
    if value.None? then Err(MissingField)
    else if IsToken(value.value) then Ok(HeaderName(value.value))
    else Err(InvalidMapping)
  }

  predicate IsStaticHeader(p: Pair) { !IsBlank(p.1) && IsToken(p.0) && IsHeaderValue(p.1) }

  /** `HeaderSchemaBuilder::build`. */
  function BuildSchema(b: HeaderSchemaBuilder): Result<HeaderSchema, AdapterErrorKind> {
    if b.staticRequestHeaders == [] || b.requestCipher.None? || b.responseCipher.None? then Err(MissingField)
    else if b.legacyAuthentication && b.contextBoundAuthentication then Err(InvalidMapping)
    else if !b.legacyAuthentication && !b.contextBoundAuthentication then Err(MissingField)
    else if exists i :: 0 <= i < |b.staticRequestHeaders| && !IsStaticHeader(b.staticRequestHeaders[i]) then
      Err(InvalidMapping)
    else
      var localIdentity :- RequiredHeader(b.localIdentity);
      var operation :- RequiredHeader(b.operation);
      var requestId :- RequiredHeader(b.requestId);
      var requestTime :- RequiredHeader(b.requestTime);
      var apiVersion :- RequiredHeader(b.apiVersion);
      var localCertificate :- RequiredHeader(b.localCertificate);
      var remoteSigning :- RequiredHeader(b.remoteSigningCertificate);
      var remoteEncryption :- RequiredHeader(b.remoteEncryptionCertificate);
      var requestSignature :- RequiredHeader(b.requestSignature);
      var requestWrappedKey :- RequiredHeader(b.requestWrappedKey);
      var responseSignature :- RequiredHeader(b.responseSignature);
      var responseWrappedKey :- RequiredHeader(b.responseWrappedKey);
      var responseRemoteSigning :- RequiredHeader(b.responseRemoteSigningCertificate);
      var schema := HeaderSchema(
        ToEntries(b.staticRequestHeaders), localIdentity, operation, requestId, requestTime, apiVersion,
        localCertificate, remoteSigning, remoteEncryption, requestSignature, requestWrappedKey,
        b.requestCipher.value, responseSignature, responseWrappedKey, responseRemoteSigning,
        b.responseCipher.value,
        if b.contextBoundAuthentication then BoundAuthentication else LegacyAuthentication);
      if CollisionFree(schema) then Ok(schema) else Err(InvalidMapping)
  }

  /** What every schema that leaves the builder satisfies. */
  predicate BuiltSchema(s: HeaderSchema) {
    && s.staticRequestHeaders != []
    && (forall i :: 0 <= i < |s.staticRequestHeaders| ==>
          ValidEntry(s.staticRequestHeaders[i]) && !IsBlank(s.staticRequestHeaders[i].value))
    && CollisionFree(s)
  }

  function ToPairs(entries: seq<Entry>): (pairs: seq<Pair>)
    ensures |pairs| == |entries| && ToEntries(pairs) == entries
    ensures forall i :: 0 <= i < |entries| ==> pairs[i] == (entries[i].name.original, entries[i].value)
  {
    seq(|entries|, i requires 0 <= i < |entries| => (entries[i].name.original, entries[i].value))
  }

  function SchemaBuilderFor(s: HeaderSchema): HeaderSchemaBuilder {
    HeaderSchemaBuilder(
      ToPairs(s.staticRequestHeaders), Some(s.localIdentity.original), Some(s.operation.original),
      Some(s.requestId.original), Some(s.requestTime.original), Some(s.apiVersion.original),
      Some(s.localCertificate.original), Some(s.remoteSigningCertificate.original),
      Some(s.remoteEncryptionCertificate.original), Some(s.requestSignature.original),
      Some(s.requestWrappedKey.original), Some(s.requestCipher), Some(s.responseSignature.original),
      Some(s.responseWrappedKey.original), Some(s.responseRemoteSigningCertificate.original), Some(s.responseCipher),
      s.authentication.LegacyAuthentication?, s.authentication.BoundAuthentication?)
  }

  lemma BuildSchemaSatisfiesBuilt(b: HeaderSchemaBuilder)
    requires BuildSchema(b).Ok?
    ensures BuiltSchema(BuildSchema(b).value)
  {
    hide CollisionFree, IsToken, IsHeaderValue, IsBlank;
  }

  lemma BuiltSchemaIsReachable(s: HeaderSchema)
    requires BuiltSchema(s)
    ensures BuildSchema(SchemaBuilderFor(s)) == Ok(s)
  {
    hide CollisionFree, IsHeaderValue, IsBlank;
  }

  /** The builder produces exactly the schemas that satisfy `BuiltSchema`. */
  lemma BuildSchemaProducesExactlyBuilt(s: HeaderSchema)
    ensures BuiltSchema(s) <==> exists b :: BuildSchema(b) == Ok(s)
  {
    hide BuildSchema, BuiltSchema;
    if BuiltSchema(s) {
      BuiltSchemaIsReachable(s);
    }
    if exists b :: BuildSchema(b) == Ok(s) {
      var b :| BuildSchema(b) == Ok(s);
      BuildSchemaSatisfiesBuilt(b);
    }
  }

  /** No two of the names differ only in case. */
  predicate NoTwoAlike(names: seq<HeaderName>) {
    forall i, j :: 0 <= i < j < |names| ==> !DifferOnlyInCase(names[i].original, names[j].original)
  }

  lemma DistinctMeans(names: seq<HeaderName>)
    ensures Distinct(Canonicals(names)) <==> NoTwoAlike(names)
  {
    hide DifferOnlyInCase, Lower;
    var c := Canonicals(names);
    forall i, j | 0 <= i < j < |names|
      ensures c[i] == c[j] <==> DifferOnlyInCase(names[i].original, names[j].original)
    {
      SameIgnoringCaseMeans(names[i].original, names[j].original);
    }
  }

  /** Why a required header name is refused. */
  function NameFailure(value: Option<string>): Option<AdapterErrorKind> {
    if value.None? then Some(MissingField) else if !IsToken(value.value) then Some(InvalidMapping) else None
  }

  predicate StaticHeadersFit(b: HeaderSchemaBuilder) {
    forall p :: p in b.staticRequestHeaders ==> !IsBlank(p.1) && IsToken(p.0) && IsHeaderValue(p.1)
  }

  /** What the schema builder checks before collisions, in order. */
  function FirstSchemaFailure(b: HeaderSchemaBuilder): Option<AdapterErrorKind> {
    Earlier(Unless(b.staticRequestHeaders != [] && b.requestCipher.Some? && b.responseCipher.Some?, MissingField),
    Earlier(Unless(!(b.legacyAuthentication && b.contextBoundAuthentication), InvalidMapping),
    Earlier(Unless(b.legacyAuthentication || b.contextBoundAuthentication, MissingField),
    Earlier(Unless(StaticHeadersFit(b), InvalidMapping),
    Earlier(NameFailure(b.localIdentity),
    Earlier(NameFailure(b.operation),
    Earlier(NameFailure(b.requestId),
    Earlier(NameFailure(b.requestTime),
    Earlier(NameFailure(b.apiVersion),
    Earlier(NameFailure(b.localCertificate),
    Earlier(NameFailure(b.remoteSigningCertificate),
    Earlier(NameFailure(b.remoteEncryptionCertificate),
    Earlier(NameFailure(b.requestSignature),
    Earlier(NameFailure(b.requestWrappedKey),
    Earlier(NameFailure(b.responseSignature),
    Earlier(NameFailure(b.responseWrappedKey),
    NameFailure(b.responseRemoteSigningCertificate)))))))))))))))))
  }

  /** The schema a builder that passes those checks describes. */
  function Described(b: HeaderSchemaBuilder): HeaderSchema
    requires FirstSchemaFailure(b).None?
  {
    HeaderSchema(
      ToEntries(b.staticRequestHeaders), HeaderName(b.localIdentity.value), HeaderName(b.operation.value),
      HeaderName(b.requestId.value), HeaderName(b.requestTime.value), HeaderName(b.apiVersion.value),
      HeaderName(b.localCertificate.value), HeaderName(b.remoteSigningCertificate.value),
      HeaderName(b.remoteEncryptionCertificate.value), HeaderName(b.requestSignature.value),
      HeaderName(b.requestWrappedKey.value), b.requestCipher.value, HeaderName(b.responseSignature.value),
      HeaderName(b.responseWrappedKey.value), HeaderName(b.responseRemoteSigningCertificate.value),
      b.responseCipher.value, if b.contextBoundAuthentication then BoundAuthentication else LegacyAuthentication)
  }

  lemma StaticCheck(b: HeaderSchemaBuilder)
    ensures (exists i :: 0 <= i < |b.staticRequestHeaders| && !IsStaticHeader(b.staticRequestHeaders[i]))
            <==> !StaticHeadersFit(b)
  {
    hide IsToken, IsHeaderValue, IsBlank;
  }

  /**
    * The schema builder fails at the first check that does not hold, with its kind. When they all hold it returns the
    * described schema, unless two of its request names or two of its response names differ only in case.
    */
  lemma BuildSchemaMeans(b: HeaderSchemaBuilder)
    ensures BuildSchema(b) ==
            if FirstSchemaFailure(b).Some? then Err(FirstSchemaFailure(b).value)
            else if NoTwoAlike(RequestNames(Described(b))) && NoTwoAlike(ResponseNames(Described(b))) then Ok(Described(b))
            else Err(InvalidMapping)
  {
    hide IsToken, IsHeaderValue, IsBlank, NoTwoAlike, Distinct, RequestNames, ResponseNames, IsStaticHeader,
      StaticHeadersFit;
    StaticCheck(b);
    if FirstSchemaFailure(b).None? {
      DistinctMeans(RequestNames(Described(b)));
      DistinctMeans(ResponseNames(Described(b)));
    }
  }
}

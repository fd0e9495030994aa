/** Authentication modes, contexts, the signed transcript and the AEAD associated data of src/auth.rs. */
module Auth {
  import opened Common
  import opened Text
  import opened Framing

  const TRANSCRIPT_VERSION: byte := 1

  datatype AuthMode = LegacyPlaintext | ContextBound(domain: bytes)

  datatype AuthContext = Legacy | Bound(context: bytes)

  const AEAD_AAD_LABEL: bytes := ByteString("gmcrypto-envelope-lite/aead-aad/v1")

  /** `AuthenticationMode::validate`: an empty domain separator is a configuration error. */
  function Validate(mode: AuthMode): Result<(), Error> {
    if mode == ContextBound([]) then Err(Configuration("domain_separator")) else Ok(())
  }

  /** `AuthenticationContext::context_bound`: only empty bytes are refused. */
  function BoundContext(context: bytes): (r: Result<AuthContext, Error>)
    ensures r.Ok? <==> |context| > 0
    ensures r.Ok? ==> r.value.Bound? && r.value.context == context
  {
    if context == [] then Err(Error.AuthenticationContext) else Ok(Bound(context))
  }

  /** The bytes that are signed in context-bound mode. */
  function Transcript(domain: bytes, context: bytes, plaintext: bytes): bytes {
    [TRANSCRIPT_VERSION] + (Field(domain) + (Field(context) + Field(plaintext)))
  }

  /** The associated data of one AEAD envelope. */
  function AadBytes(header: bytes, domain: bytes, context: bytes): bytes {
    Field(AEAD_AAD_LABEL) + (Field(header) + (Field(domain) + Field(context)))
  }

  predicate KindsMatch(mode: AuthMode, context: AuthContext) {
    mode.LegacyPlaintext? <==> context.Legacy?
  }

  /** The field has a length the prefix can hold. */
  predicate Prefixable(value: bytes) { |value| <= U64_MAX }

  /** What `authentication_input` returns. */
  function AuthenticationInput(mode: AuthMode, context: AuthContext, plaintext: bytes): Result<bytes, Error> {
    if mode == ContextBound([]) then Err(Configuration("domain_separator"))
    else if !KindsMatch(mode, context) then Err(Error.AuthenticationContext)
    else if mode.LegacyPlaintext? then Ok(plaintext)
    else if 25 + |mode.domain| + |context.context| + |plaintext| > USIZE_MAX then Err(Error.AuthenticationContext)
    else if !(Prefixable(mode.domain) && Prefixable(context.context) && Prefixable(plaintext)) then
      Err(Error.AuthenticationContext)
    else Ok(Transcript(mode.domain, context.context, plaintext))
  }

  function DomainOf(mode: AuthMode): bytes { if mode.LegacyPlaintext? then [] else mode.domain }

  function ContextOf(context: AuthContext): bytes { if context.Legacy? then [] else context.context }

  /** What `aead_aad` returns. */
  function AeadAad(mode: AuthMode, context: AuthContext, header: bytes): Result<bytes, Error>
    requires |header| == 14
  {
    if mode == ContextBound([]) then Err(Configuration("domain_separator"))
    else if !KindsMatch(mode, context) then Err(Error.AuthenticationContext)
    else if 80 + |DomainOf(mode)| + |ContextOf(context)| > USIZE_MAX then Err(Error.AuthenticationContext)
    else if !(Prefixable(DomainOf(mode)) && Prefixable(ContextOf(context))) then Err(Error.AuthenticationContext)
    else Ok(AadBytes(header, DomainOf(mode), ContextOf(context)))
  }

  //
  // The code that builds them.
  //

  /** A growing byte vector. */
  class ByteBuffer {
    var data: bytes

    constructor ()
      ensures data == []
    {
      data := [];
    }

    method Extend(tail: bytes)
      modifies this
      ensures data == old(data) + tail
    {
      data := data + tail;
    }

    /** `split_off`: keeps the front and returns the rest. */
    method SplitOff(at: nat) returns (tail: bytes)
      requires at <= |data|
      modifies this
      ensures data == old(data)[..at] && tail == old(data)[at..]
    {
      tail := data[at..];
      data := data[..at];
    }

    /** `push_field`: refuses a length that is not a `u64`, and then appends nothing. */
    method PushField(value: bytes) returns (r: Result<(), Error>)
      modifies this
      ensures r.Ok? <==> |value| <= U64_MAX
      ensures r.Ok? ==> data == old(data) + Field(value)
      ensures r.Err? ==> r.error == Error.AuthenticationContext && data == old(data)
    {
      if |value| > U64_MAX {
        return Err(Error.AuthenticationContext);
      }
      Extend(BigEndian(|value|, 8));
      Extend(value);
      r := Ok(());
    }
  }

  /** `authentication_input`, step by step; the reserved capacity is the final length. */
  method BuildAuthenticationInput(mode: AuthMode, context: AuthContext, plaintext: bytes)
    returns (r: Result<bytes, Error>)
    ensures r == AuthenticationInput(mode, context, plaintext)
    ensures r.Ok? && mode.ContextBound? ==> |r.value| == 1 + 3 * 8 + |mode.domain| + |context.context| + |plaintext|
  {
    hide Field;
    var _ :- Validate(mode);
    match (mode, context)
    case (LegacyPlaintext, Legacy) =>
      r := Ok(plaintext);
    case (ContextBound(domain), Bound(bound)) =>
      var capacity := AndThenAdd(AndThenAdd(AndThenAdd(CheckedAdd(1, 24), |domain|), |bound|), |plaintext|);
      if capacity.None? {
        return Err(Error.AuthenticationContext);
      }
      var input := new ByteBuffer();
      input.Extend([TRANSCRIPT_VERSION]);
      var _ :- input.PushField(domain);
      var _ :- input.PushField(bound);
      var _ :- input.PushField(plaintext);
      assert input.data == Transcript(domain, bound, plaintext);
      assert |input.data| == capacity.value;
      r := Ok(input.data);
    case _ =>
      r := Err(Error.AuthenticationContext);
  }

  /** `aead_aad`, step by step; the reserved capacity is the final length. */
  method BuildAeadAad(mode: AuthMode, context: AuthContext, header: array<byte>) returns (r: Result<bytes, Error>)
    requires header.Length == 14
    ensures r == AeadAad(mode, context, header[..])
    ensures r.Ok? ==>
              |r.value| == 4 * 8 + |AEAD_AAD_LABEL| + header.Length + |DomainOf(mode)| + |ContextOf(context)|
  {
    hide Field;
    var _ :- Validate(mode);
    if !KindsMatch(mode, context) {
      return Err(Error.AuthenticationContext);
    }
    var domain, bound := DomainOf(mode), ContextOf(context);
    var capacity := AndThenAdd(AndThenAdd(AndThenAdd(CheckedAdd(32, |AEAD_AAD_LABEL|), header.Length), |domain|), |bound|);
    if capacity.None? {
      return Err(Error.AuthenticationContext);
    }
    var aad := new ByteBuffer();
    var labelPushed := aad.PushField(AEAD_AAD_LABEL);
    var headerPushed := aad.PushField(header[..]);
    assert labelPushed.Ok? && headerPushed.Ok?;
    var _ :- aad.PushField(domain);
    var _ :- aad.PushField(bound);
    assert aad.data == AadBytes(header[..], domain, bound);
    assert |aad.data| == capacity.value;
    r := Ok(aad.data);
  }

  //
  // The bytes, written out.
  //

  /** The 64-bit big-endian length of a field, then the field. */
  function Prefixed(value: bytes): bytes { BigEndian(|value|, 8) + value }

  /** The bytes to sign, or nothing when the context is of the wrong kind or a length does not fit. */
  function SigningLayout(mode: AuthMode, context: AuthContext, plaintext: bytes): Option<bytes> {
    match (mode, context)
    case (LegacyPlaintext, Legacy) => Some(plaintext)
    case (ContextBound(d), Bound(c)) =>
      if d != [] && 25 + |d| + |c| + |plaintext| <= USIZE_MAX
         && |d| <= U64_MAX && |c| <= U64_MAX && |plaintext| <= U64_MAX
      then Some([1] + Prefixed(d) + Prefixed(c) + Prefixed(plaintext))
      else None
    case _ => None
  }

  /** The associated data for a frame header, or nothing in the same cases. */
  function AadLayout(mode: AuthMode, context: AuthContext, header: bytes): Option<bytes> {
    var fixed := Prefixed(ByteString("gmcrypto-envelope-lite/aead-aad/v1")) + Prefixed(header);
    match (mode, context)
    case (LegacyPlaintext, Legacy) => Some(fixed + Prefixed([]) + Prefixed([]))
    case (ContextBound(d), Bound(c)) =>
      if d != [] && 80 + |d| + |c| <= USIZE_MAX && |d| <= U64_MAX && |c| <= U64_MAX
      then Some(fixed + Prefixed(d) + Prefixed(c))
      else None
    case _ => None
  }

  /** `authentication_input` produces exactly the written-out bytes, and blames the configuration exactly for an empty domain. */
  lemma InputMeans(mode: AuthMode, context: AuthContext, plaintext: bytes)
    ensures AuthenticationInput(mode, context, plaintext) ==
            if mode == ContextBound([]) then Err(Configuration("domain_separator"))
            else OkOr(SigningLayout(mode, context, plaintext), Error.AuthenticationContext)
  {
    hide BigEndian;
    if mode.ContextBound? && context.Bound? {
      assert [1 as byte] + Prefixed(mode.domain) + Prefixed(context.context) + Prefixed(plaintext)
          == Transcript(mode.domain, context.context, plaintext);
    }
  }

  /** `aead_aad` produces exactly the written-out bytes. */
  lemma AadMeans(mode: AuthMode, context: AuthContext, header: bytes)
    requires |header| == 14
    ensures AeadAad(mode, context, header) ==
            if mode == ContextBound([]) then Err(Configuration("domain_separator"))
            else OkOr(AadLayout(mode, context, header), Error.AuthenticationContext)
  {
    hide BigEndian, ByteString;
    var d, c := DomainOf(mode), ContextOf(context);
    assert Prefixed(AEAD_AAD_LABEL) + Prefixed(header) + Prefixed(d) + Prefixed(c) == AadBytes(header, d, c);
  }

  //
  // Unique readability.
  //

  /** Reads a context-bound transcript: version, then domain, context and plaintext, and nothing after them. */
  function ReadTranscript(b: bytes): Option<(bytes, bytes, bytes)> {
    if |b| == 0 || b[0] != TRANSCRIPT_VERSION then None
    else
      var domain := ReadField(b[1..]);
      if domain.None? then None else
      var context := ReadField(domain.value.1);
      if context.None? then None else
      var plaintext := ReadField(context.value.1);
      if plaintext.None? || plaintext.value.1 != [] then None
      else Some((domain.value.0, context.value.0, plaintext.value.0))
  }

  /** Reading undoes writing: a transcript determines domain, context and plaintext. */
  lemma ReadTranscriptOfTranscript(domain: bytes, context: bytes, plaintext: bytes)
    requires Prefixable(domain) && Prefixable(context) && Prefixable(plaintext)
    ensures ReadTranscript(Transcript(domain, context, plaintext)) == Some((domain, context, plaintext))
  {
    hide ReadField, Field;
    ReadFieldOfField(domain, Field(context) + Field(plaintext));
    ReadFieldOfField(context, Field(plaintext));
    ReadFieldOfField(plaintext, []);
    assert Transcript(domain, context, plaintext)[1..] == Field(domain) + (Field(context) + Field(plaintext));
    assert Field(plaintext) + [] == Field(plaintext);
  }

  /** Writing undoes reading: every byte string that reads as a transcript is that transcript. */
  lemma TranscriptOfReadTranscript(b: bytes)
    requires ReadTranscript(b).Some?
    ensures var (domain, context, plaintext) := ReadTranscript(b).value; b == Transcript(domain, context, plaintext)
  {
    hide ReadField, Field;
    FieldOfReadField(b[1..]);
    var afterDomain := ReadField(b[1..]).value.1;
    FieldOfReadField(afterDomain);
    FieldOfReadField(ReadField(afterDomain).value.1);
    assert b == [b[0]] + b[1..];
  }

  /** Among endpoints of one kind, equal signing inputs come from equal modes, contexts and plaintexts. */
  lemma InputDetermines(mode: AuthMode, context: AuthContext, p: bytes,
                        mode': AuthMode, context': AuthContext, p': bytes)
    requires mode.ContextBound? <==> mode'.ContextBound?
    requires AuthenticationInput(mode, context, p).Ok?
    requires AuthenticationInput(mode, context, p) == AuthenticationInput(mode', context', p')
    ensures mode == mode' && context == context' && p == p'
  {
    hide ReadTranscript, Transcript;
    if mode.ContextBound? {
      ReadTranscriptOfTranscript(mode.domain, context.context, p);
      ReadTranscriptOfTranscript(mode'.domain, context'.context, p');
    }
  }

  /** Reads associated data: the label, then frame header, domain and context, and nothing after them. */
  function ReadAad(b: bytes): Option<(bytes, bytes, bytes)> {
    var name := ReadField(b);
    if name.None? || name.value.0 != AEAD_AAD_LABEL then None else
    var header := ReadField(name.value.1);
    if header.None? then None else
    var domain := ReadField(header.value.1);
    if domain.None? then None else
    var context := ReadField(domain.value.1);
    if context.None? || context.value.1 != [] then None
    else Some((header.value.0, domain.value.0, context.value.0))
  }

  lemma ReadAadOfAad(header: bytes, domain: bytes, context: bytes)
    requires Prefixable(header) && Prefixable(domain) && Prefixable(context)
    ensures ReadAad(AadBytes(header, domain, context)) == Some((header, domain, context))
  {
    hide ReadField, Field;
    ReadFieldOfField(AEAD_AAD_LABEL, Field(header) + (Field(domain) + Field(context)));
    ReadFieldOfField(header, Field(domain) + Field(context));
    ReadFieldOfField(domain, Field(context));
    ReadFieldOfField(context, []);
    assert Field(context) + [] == Field(context);
  }

  /** The associated data determines the mode kind, the frame header, the domain and the context. */
  lemma AadDetermines(mode: AuthMode, context: AuthContext, header: bytes,
                      mode': AuthMode, context': AuthContext, header': bytes)
    requires |header| == 14 && |header'| == 14
    requires AeadAad(mode, context, header).Ok?
    requires AeadAad(mode, context, header) == AeadAad(mode', context', header')
    ensures mode == mode' && context == context' && header == header'
  {
    hide AadBytes, ReadAad;
    ReadAadOfAad(header, DomainOf(mode), ContextOf(context));
    ReadAadOfAad(header', DomainOf(mode'), ContextOf(context'));
  }

  /** No associated data equals a context-bound transcript. */
  lemma AadIsNoTranscript(mode: AuthMode, context: AuthContext, header: bytes, d: bytes, c: bytes, p: bytes)
    requires |header| == 14 && AeadAad(mode, context, header).Ok?
    ensures AeadAad(mode, context, header).value != Transcript(d, c, p)
  {
    ShortFieldStartsWithZero(AEAD_AAD_LABEL);
    assert AeadAad(mode, context, header).value[0] == Field(AEAD_AAD_LABEL)[0];
  }
}

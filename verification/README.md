# Secure envelope: model and proofs

This project models the secure-envelope SDK `gmcrypto-envelope-lite` (with its `aead` feature) in Dafny and proves
what its pieces promise, alone and together. `dafny verify dfyconfig.toml` checks everything.

The SDK seals a plaintext into an envelope of three Base64 strings: the SM4 ciphertext, the SM2-wrapped session key
and an SM2 signature over an authentication transcript. A protocol adapter carries the envelope in headers and a body.

| file | what it holds |
|---|---|
| `Common.dfy`, `Text.dfy` | bytes, machine words, errors; UTF-8, trimming, ASCII case |
| `Calendar.dfy`, `Timestamp.dfy` | the Gregorian date of a day count; the request timestamp, its inverse and its order |
| `Base64.dfy`, `Sizes.dfy` | strict Base64; the encoded and decoded size bounds with their saturating branches |
| `Framing.dfy`, `Auth.dfy` | length-prefixed fields; the signed transcript and the AEAD associated data |
| `Crypto.dfy`, `Config.dfy` | the primitives as a parameter with laws; the client configuration and its builder |
| `EnvelopeSupport.dfy`, `Cbc.dfy`, `Aead.dfy` | shared helpers and the payload modes |
| `Envelope.dfy`, `EnvelopeLaws.dfy` | what sealing and opening guarantee together; what each means in terms of the primitives and the bytes |
| `Header.dfy`, `Message.dfy` | header names and the header collection; the message values |
| `Adapter.dfy`, `AdapterWire.dfy`, `AdapterLaws.dfy`, `HeaderContext.dfy` | the header schema, request building, response parsing, context bytes |
| `Client.dfy`, `Protocol.dfy` | the client facade; runs of clients over an arbitrary network |

Modelling choices:

- **Primitives.** SM2 and SM4 are a value `Suite` of functions. `Crypto.Lawful` states what is expected of them:
  decryption inverts encryption, verification accepts signing, ciphertext lengths, and short wrapped keys and
  signatures. `Crypto.LawsAreConsistent` gives a suite that satisfies the laws. Random draws are arguments and may
  fail, so every theorem holds for every draw.
- **Machine words.** `usize::MAX` is an unspecified constant of at least 2^32 - 1, so every checked or saturating
  branch is real. Where the source would have to hold a Base64 string longer than that, its encoder panics; the
  round-trip theorems therefore assume that the encoded ciphertext has at most `usize::MAX` characters.
- **Text.** Strings are sequences of Unicode scalar values. `str::len` counts UTF-8 bytes, which are modelled
  concretely, and whitespace is the Unicode White_Space property.
- **In-place code.** The header collection, growing byte vectors, the hash set of the collision check, the fixed
  header, tag and key buffers and the verification tally are objects or arrays changed by methods. Each method is
  proved equal to a specification function. The laws named `...Means` say what those functions compute, in both
  directions, from byte layouts, primitives and letters written out, without the functions' own helpers.
- **Header names.** The cached canonical form of a name is a function of its original spelling.
- **Ideal signatures.** In `Protocol.dfy` a delivered signature verifies, under the key and signer id an endpoint
  trusts, only for transcripts that a holder of them signed earlier in the run. `HonestExchangeIsARun` and
  `HonestResponseIsARun` show that runs under this assumption exist and deliver.

Findings that follow from the code as it is:

- The builder accepts expected remote certificate ids that no header can carry: with whitespace at an end, which the
  header parser trims away, or with a control character, which it refuses (`Client.BuilderAcceptsUncarriableIds`). A
  header client configured that way refuses every response. `Client.AnswerableExactlyWhenIdIsCarriable` gives the exact
  condition: the id is a header value, not empty, with no whitespace at its ends.
- When a legacy endpoint and a context-bound one are trusted under one key and signer id, agreement fails: the legacy
  transcript is the plaintext itself, so it can be a context-bound transcript (`Protocol.MixedKindsBreakAgreement`).
  `Protocol.Agreement` shows that this is the only exception.
- The Base64 text check alone admits up to two bytes more than the decoded bound (`Sizes.Base64LenAdmitsExactly`);
  the decoded checks remove them (`Envelope.OpenedFitsLimit`).
- `SECURITY_MODEL.md` says that a CBC client rejects AEAD frames and the reverse. That depends on the bytes the
  primitives produce, so it is not claimed here; GCM and CCM are proved not to mix.

## Model

| member | source | states |
|---|---|---|
| Calendar.CivilDateFollowsTheCalendar | src/message.rs:481-498 | for every day count, before the epoch too, the result is a valid proleptic Gregorian date and the next day count gives the calendar successor under the 4/100/400 rule |
| Calendar.EpochIsDayZero | src/message.rs:481-498 | day 0 is 1970-01-01, which with the successor law determines the function everywhere |
| Calendar.YearOfEraIsTheContainingYear | src/message.rs:489-490 | the closed form with divisors 1460, 36524 and 146096 finds the year of the era that contains the day |
| Calendar.DaysFromCivilInvertsCivilDate | src/message.rs:481-498 | counting whole years, months and days recovers the day count from the date, for every day count |
| Calendar.CivilDateInvertsDaysFromCivil | src/message.rs:481-498 | every valid date is the date of its own day number |
| Calendar.CivilDateIsMonotone | src/message.rs:481-498 | dates are ordered exactly as their day counts |
| Calendar.NoIntermediateOverflow | src/message.rs:481-498 | if adding 719468 stays in i64, so do the era, its products, the day and year of the era, the day of the year, the month index, the day and the year |
| Timestamp.FormattingNeverFails | src/message.rs:466-468 | the i64 conversion error is unreachable for every duration |
| Timestamp.TimestampRoundTrip | src/message.rs:466-479 | a parser recovers seconds and microseconds from the text of every duration |
| Timestamp.TimestampWidth | src/message.rs:475-478 | the text has 26 characters exactly for instants before the year 10000 |
| Timestamp.TimestampOrder | src/message.rs:466-479 | until then, text order is chronological order to the microsecond |
| Text.SameIgnoringCaseMeans | src/header.rs:45-49 | two texts are equal ignoring ASCII case exactly when they have one length and each pair of characters is equal or the two cases of one letter, 32 apart |
| Text.WhitespaceByCodePoint | src/message.rs:459-464 | the characters trimmed are exactly the twenty-five code points of the Unicode White_Space property |
| Base64.DecodeEncode | src/envelope_crypto/mod.rs:78-80 | decoding undoes encoding for every byte string |
| Base64.DecodeIsCanonical | src/envelope_crypto/mod.rs:78-80 | whatever decodes is the canonical encoding of its value: padding and trailing bits are strict |
| Base64.GroupsKeepTheirValue | src/envelope_crypto/mod.rs:78-80 | three bytes and their four symbols are the same 24-bit number, most significant first |
| Base64.AlphabetInOrder | src/envelope_crypto/mod.rs:78-80 | the alphabet is the capital letters, the small letters and the digits in order, then plus and slash |
| Sizes.BoundsAreCutOffLengths | src/envelope_crypto/mod.rs:82-88 | each size bound is the true encoded or padded length, cut off at usize::MAX, for every argument |
| Sizes.Base64LenAdmits | src/envelope_crypto/mod.rs:82-88 | no representable encoding of at most n bytes exceeds the bound, saturating or not |
| Sizes.Base64LenAdmitsExactly | src/envelope_crypto/mod.rs:82-88 | unsaturated, the bound admits exactly the lengths up to the next multiple of three, at most two bytes more |
| Sizes.PaddedCipherLenAdmits | src/envelope_crypto/cbc.rs:170-176 | every representable CBC ciphertext of an admitted plaintext is within the bound |
| Sizes.PaddedCipherLenAdmitsExactly | src/envelope_crypto/cbc.rs:170-176 | unsaturated, the bound admits exactly the plaintext lengths of the limit's last block |
| Framing.FirstByteIsMostSignificant | src/auth.rs:209-214 | the length prefix is big-endian: its first byte carries the highest power of 256 |
| Framing.ReadFieldOfField | src/auth.rs:209-214 | a reader recovers a length-prefixed field and what follows it |
| Framing.FieldOfReadField | src/auth.rs:209-214 | every byte string that reads as a field and a rest is exactly that field and rest |
| Auth.ByteBuffer.PushField | src/auth.rs:209-214 | appends the 64-bit length and the value, or refuses a longer value and appends nothing |
| Auth.BuildAuthenticationInput | src/auth.rs:106-131 | the buffer code returns the plaintext or the versioned transcript, every error case included, and the reserved capacity is the final length |
| Auth.BuildAeadAad | src/auth.rs:147-174 | the buffer code returns the four-field associated data, every error case included, and the reserved capacity is the final length |
| Auth.InputMeans | src/auth.rs:106-131 | the signing input is exactly the plaintext, or the byte 1 and three fields with 8-byte lengths; a configuration error is exactly an empty domain |
| Auth.AadMeans | src/auth.rs:147-174 | the associated data is exactly the label text, the header, the domain and the context with 8-byte lengths, the last two empty in legacy mode |
| Auth.ReadTranscriptOfTranscript | src/auth.rs:115-128 | a reader recovers domain, context and plaintext from every context-bound transcript |
| Auth.TranscriptOfReadTranscript | src/auth.rs:115-128 | every byte string that reads as a transcript is that transcript |
| Auth.InputDetermines | src/auth.rs:106-131 | among endpoints of one kind, equal signing inputs come from the same domain, context and plaintext |
| Auth.AadDetermines | src/auth.rs:147-174 | associated data determines mode kind, frame header, domain and context; legacy and bound never coincide |
| Auth.AadIsNoTranscript | src/auth.rs:133-174 | no associated data equals a context-bound transcript |
| Config.BuildProducesExactlyBuilt | src/client_config.rs:314-417 | a configuration can leave the builder if and only if its ids, signer ids, mode, IV and limit satisfy the stated invariant |
| Config.BuildSatisfiesBuilt | src/client_config.rs:314-397 | every built configuration satisfies the invariant, and an omitted limit is 16 MiB, or 64 KiB for CCM |
| Config.BuiltIsReachable | src/client_config.rs:314-397 | the builder given the fields of such a configuration returns exactly it |
| Config.BuildReportsFirstBadField | src/client_config.rs:314-417 | the builder fails exactly when some field is missing or bad, and blames the first in order: the ids, the signer ids, the envelope mode, an IV missing under CBC or given under AEAD, the authentication mode, its domain, the limit |
| Config.BuildKeepsGivenValues | src/client_config.rs:314-397 | a built configuration holds every given value in its own field, with the stated IV and limit where none is given |
| Config.BuiltLengthsFit | src/client_config.rs:5-22 | signer id bit lengths fit 16 bits, and every plaintext a CCM client admits fits the three-byte length field |
| EnvelopeSupport.UnwrapSessionKey | src/envelope_crypto/mod.rs:61-76 | returns the unwrapped key copied into a 16-byte buffer, and fails for any other length |
| Cbc.VerifyTranscript | src/envelope_crypto/cbc.rs:24-40 | verifies under the configured key and signer id and records exactly one verification |
| Cbc.Open | src/envelope_crypto/cbc.rs:91-168 | the flag-and-fallback code returns what an early-return open returns on every input; it verifies exactly once after the key unwraps, over the stated transcript, and never before; a failed decryption is refused whatever the verification said |
| Aead.FramesRoundTrip | src/envelope_crypto/aead.rs:95-111 | assembling and splitting frames are mutually inverse for every ciphertext length, and splitting fails exactly below 30 bytes |
| Aead.SplitCiphertextAndTag | src/envelope_crypto/aead.rs:31-38 | cuts the 16-byte tag off its argument, so that joining restores it |
| Aead.Encrypt | src/envelope_crypto/aead.rs:40-57 | the buffer code computes the ciphertext and tag of both algorithms, errors included; EnvelopeLaws.SealMeans says which primitive and bytes |
| Aead.Decrypt | src/envelope_crypto/aead.rs:59-78 | the buffer code computes the plaintext of both algorithms, errors included; EnvelopeLaws.OpenMeans says which primitive and bytes |
| Aead.AeadRoundTrip | src/envelope_crypto/aead.rs:40-78 | decryption undoes encryption through tag splitting and joining, and lengths are kept |
| Aead.Seal | src/envelope_crypto/aead.rs:80-129 | the array and vector code computes the sealed frame of the specification, errors included; EnvelopeLaws.SealMeans says what that is |
| Aead.Open | src/envelope_crypto/aead.rs:131-202 | the indexing code is in range on every decoded frame and computes the specified result; EnvelopeLaws.OpenMeans says what that is |
| Envelope.OpenInvertsSeal | src/envelope_crypto/mod.rs:20-53 | a matched receiver opens every sealed envelope to the plaintext, for CBC, GCM and CCM and every draw |
| EnvelopeLaws.OpenMeans | src/envelope_crypto/mod.rs:41-53 | an envelope opens to a plaintext if and only if its texts fit and decode, the wrapped bytes unwrap to a 16-byte key, that key turns exactly the payload bytes (for AEAD: nonce 2..14, ciphertext 14 to 16 before the end, tag the last 16, the written-out associated data) into the plaintext, and the trusted key and signer id verify its signing input |
| EnvelopeLaws.SealMeans | src/envelope_crypto/mod.rs:20-39 | sealing returns an envelope if and only if its texts decode to the payload the primitive makes under the drawn key and nonce, that same key wrapped for the peer, and the signature over the written-out signing input |
| EnvelopeLaws.SealFailureMeans | src/envelope_crypto/mod.rs:20-39 | when sealing fails the error is determined: size first, then an empty domain, then an authentication context that does not fit, and otherwise encryption |
| EnvelopeLaws.CbcVerifiesExactlyAfterUnwrapping | src/envelope_crypto/cbc.rs:97-119 | a CBC open reaches its one verification exactly when the texts fit and decode and the key unwraps |
| EnvelopeLaws.CbcVerifiedTranscript | src/envelope_crypto/cbc.rs:150-161 | that verification is over the signing input of the plaintext, of the raw ciphertext when decryption failed, or over nothing when there is no signing input |
| Envelope.OpenFailures | src/envelope_crypto/mod.rs:41-53 | open returns only a plaintext, InvalidEnvelope, or MessageTooLarge with the limit, the last exactly when the encoded cipher exceeds its bound |
| Envelope.SealFailures | src/envelope_crypto/mod.rs:20-39 | with a built configuration seal never blames the configuration, and reports size exactly for plaintexts over the limit |
| Envelope.SealedFitsReceiver | src/envelope_crypto/cbc.rs:97-115 | no envelope of an admitted plaintext is refused for size, in the saturating cases too |
| Envelope.OpenedFitsLimit | src/envelope_crypto/aead.rs:138-166 | no opened plaintext exceeds the limit, and none comes from more bytes than the decoded bound |
| Envelope.AlgorithmsDoNotMix | src/envelope_crypto/aead.rs:159-161 | a frame sealed under one AEAD algorithm is never opened by an endpoint pinned to the other, whatever the keys |
| Envelope.OpenedFrameIsPinned | src/envelope_crypto/aead.rs:156-161 | every frame that opens has at least 30 bytes, version 1, and algorithm byte 1 for GCM or 2 for CCM |
| Envelope.AeadIgnoresIv | src/client_config.rs:176-182 | under an AEAD mode neither sealing nor opening depends on the stored IV |
| Envelope.AdmittedPlaintextsSeal | src/client_config.rs:356-373 | under a built configuration an admitted plaintext seals unless a draw, wrapping, signing or GCM itself fails, in all three modes |
| Envelope.OpenedWasVerified | src/envelope_crypto/aead.rs:188-201 | whatever opens was verified: the transcript of that plaintext and context, under the configured key and signer id |
| Header.CollectAcceptsWellFormed | src/header.rs:112-145 | inserting one by one succeeds exactly on token names, one-line values and case-insensitively distinct names, and returns them unchanged |
| Header.CollectReportsFirstFailure | src/header.rs:112-145 | the error reported is that of the first entry that cannot join the ones before it: malformed before repeated |
| Header.WellFormedMeans | src/header.rs:112-200 | well-formed means token names, one-line values, and no two names that differ only in the case of ASCII letters |
| Header.TokenCharsAreVisibleNonDelimiters | src/header.rs:203-222 | the token characters are exactly the visible ASCII characters other than the delimiters of section 5.6.2 of RFC 9110 |
| Header.HeaderValueMeans | src/header.rs:224-226 | a header value has only tabs and characters from the space on except delete; a context value has a character that is not whitespace and no line break |
| Header.LookupFindsTheUniqueEntry | src/header.rs:171-176 | a lookup by a text that differs from a name only in the case of ASCII letters finds the one entry with that name |
| Header.LookupMisses | src/header.rs:171-176 | a lookup misses exactly when no name differs from the text only in case |
| Header.HeaderCollection.Insert | src/header.rs:137-145 | appends a valid new entry or changes nothing, with the exact error; keeps the collection well-formed |
| Header.HeaderCollection.InsertTyped | src/header.rs:194-200 | refuses a name present under any casing and otherwise appends |
| Header.HeaderCollection.FromPairs | src/header.rs:112-123 | succeeds exactly on well-formed input, in order |
| Header.HeaderCollection.FromTypedPairs | src/header.rs:125-135 | succeeds exactly on well-formed input; typed input fails only with a conflict |
| Header.HeaderCollection.Revalidate | src/header.rs:163-169 | accepts exactly the well-formed collections |
| Header.HeaderCollection.AppendChecked | src/header.rs:147-161 | appends everything in order or changes nothing, succeeding exactly when the result is well-formed; the error is that of the first malformed side, and otherwise a conflict |
| Header.HeaderCollection.Get | src/header.rs:171-176 | the loop is the lookup |
| Message.RequestContextFromParts | src/message.rs:154-166 | accepts exactly well-formed caller headers with a valid operation; repeated names are a conflict |
| Message.NewRequestParts | src/message.rs:270-285 | the collect, append and validate sequence returns exactly the collected headers or the first failure |
| Message.ValidateContextValue | src/message.rs:459-464 | accepts exactly text that is not blank and has no line break |
| Message.NewParsedResponse | src/message.rs:411-428 | accepts exactly a certificate id that is not blank and has no line break |
| HeaderContext.BuildRequestContext | src/adapter.rs:696-708 | the buffer code returns the request context bytes, or InvalidField for untrimmed, empty or overlong fields |
| HeaderContext.BuildResponseContext | src/adapter.rs:710-717 | the buffer code returns the response context bytes, or InvalidField |
| HeaderContext.ContextMeans | src/adapter.rs:672-717 | a context is exactly the bytes 1 and 1 with operation and request id, or 1 and 2 with the request id, each as UTF-8 under an 8-byte length, and exists exactly for texts that are not empty and have no whitespace at their ends |
| HeaderContext.ReadContextOfContext | src/adapter.rs:672-717 | a reader recovers direction and fields from every context |
| HeaderContext.ContextDetermines | src/adapter.rs:672-717 | a context determines direction, operation and request id; no request context is a response context |
| HeaderContext.SignedExchangeDetermines | src/adapter.rs:683-717 | equal signed transcripts come from the same domain, direction, operation, request id and plaintext |
| Adapter.MappingSet.InsertAll | src/adapter.rs:640-645 | inserting names in turn succeeds exactly when all are distinct up to case |
| Adapter.ValidateCollisions | src/adapter.rs:412-450 | succeeds exactly when the request names are distinct and the response names are, the request id counted only when bound |
| Adapter.DistinctMeans | src/adapter.rs:640-645 | names are distinct exactly when no two of them differ only in case |
| Adapter.BuildSchemaMeans | src/adapter.rs:343-408 | the schema builder fails exactly at the first check that does not hold, with its kind, and otherwise returns the described schema, every given name in its own place |
| Adapter.BuildSchemaProducesExactlyBuilt | src/adapter.rs:343-408 | a schema can leave the builder if and only if its static headers are valid, present and not blank and its names are collision-free |
| Adapter.BuiltSchemaIsReachable | src/adapter.rs:343-408 | the builder given the fields of such a schema returns exactly it |
| AdapterWire.BuildRequest | src/adapter.rs:501-560 | the list-building code computes the specified request |
| AdapterWire.BuildRequestFailsOnlyOverValues | src/adapter.rs:501-560 | on a built schema a request fails exactly for a blank envelope field or an invalid value, never over names, and otherwise emits every pair in order |
| AdapterWire.ScanHeaders | src/adapter.rs:570-601 | the cascade and its five slots are five independent case-insensitive lookups, with DuplicateField exactly when a mapped name occurs twice |
| AdapterWire.ParseResponse | src/adapter.rs:562-632 | the whole parser agrees with independent lookups on every header list |
| AdapterWire.DuplicatesAreReported | src/adapter.rs:596-600 | DuplicateField is returned exactly when some mapped name occurs twice |
| AdapterWire.ParsedContextNamesTheEchoedId | src/adapter.rs:612-621 | in bound mode the parsed context is the response context of the echoed request id |
| AdapterLaws.OccurrencesMean | src/adapter.rs:570-601 | the values found under a name are exactly those of headers whose name differs from it only in case |
| AdapterLaws.ParseMeans | src/adapter.rs:562-632 | the parser fails exactly at the first check that does not hold: a repeated name, then each mapped header missing or bad in the order of the code, the cipher, the echoed request id; otherwise it returns the one value under each name, trimmed |
| AdapterLaws.ParseDependsOnMappedValues | src/adapter.rs:562-632 | two header lists with the same values under each mapped name parse alike, error kind included |
| AdapterLaws.ParseIgnoresOrder | src/adapter.rs:562-632 | every permutation of the headers parses alike |
| AdapterLaws.ParseIgnoresUnmapped | src/adapter.rs:562-632 | adding or removing unmapped headers anywhere changes nothing |
| AdapterLaws.ParseReadsWhatIsCarried | src/adapter.rs:603-632 | a response that carries each value once parses to those values, or fails only because the request id cannot be bound |
| AdapterLaws.BuiltRequestAnswersEveryName | src/adapter.rs:511-557 | a built request answers every mapped name, under any casing, with the value mapped to it |
| AdapterLaws.ParseReadsBuiltRequest | src/adapter.rs:501-632 | loopback: parsing a built request returns the envelope, the trimmed certificate id and the context of the same request id |
| Client.PinnedContextsMatch | src/client.rs:29-44 | a header client is accepted exactly when the kinds agree, and then meets only contexts of its kind |
| Client.NewClientMeans | src/client.rs:29-44 | a client is accepted exactly when its adapter pins nothing, or legacy and the mode is legacy, or bound and the mode is bound; otherwise the error is an authentication context error |
| Client.BuildClientRequest | src/client.rs:77-95 | for any adapter, the code computes the specified request: success is the adapter's headers followed by the caller's, all names distinct, with the adapter's body; any repetition is a header conflict |
| Client.RequestRoundTrip | src/client.rs:77-95 | for a header client, the envelope read by name from the finished request, caller headers included, opens at every matched receiver to the plaintext, under the context of the request operation and id |
| Client.RequestFailures | src/client.rs:83-92 | for any adapter, a failed context or a failed build is an adapter failure and a failed seal keeps its own error |
| Client.HeaderRequestContext | src/adapter.rs:481-492 | a header client authenticates a request under the context of its operation and request id, or under none in legacy mode |
| Client.OnlyTheExpectedCertificateOpens | src/client.rs:108-122 | for any adapter, a response opens only if it parses and names exactly the expected certificate; any other id is an adapter failure, and an equal id opens the parsed envelope under the parsed context |
| Client.OtherCertificatesAreRefused | src/client.rs:113-120 | a header client refuses every response that does not carry the expected certificate id, trimmed, exactly once |
| Client.ResponseRoundTrip | src/client.rs:108-122 | a sealed response carried in any order among any other headers opens to the plaintext |
| AdapterLaws.ConveyableCertificateIds | src/adapter.rs:605-606 | for every built schema, some response conveys a certificate id if and only if the id is a nonempty header value with no whitespace at its ends |
| AdapterLaws.CarryingResponseCarries | src/adapter.rs:562-632 | a response that lists each value once under its mapped name carries exactly those values |
| Client.AnswerableExactlyWhenIdIsCarriable | src/client.rs:108-122 | with a matched responder, some response opens to the plaintext if and only if the expected certificate id is one a header can carry |
| Client.UncarriableIdRejectsEverything | src/client.rs:113-120 | with any other expected certificate id every response is refused |
| Client.BuilderAcceptsUncarriableIds | src/client_config.rs:404-409 | the builder accepts an id with trailing whitespace and an id with a control character, neither of which can be carried |
| Protocol.EveryRunOpensOnlySigned | src/envelope_crypto/cbc.rs:155-167 | in every run over an arbitrary network, whatever is opened was signed earlier as that transcript, key and signer id |
| Protocol.EventsAndActionsCorrespond | src/client.rs:59-122 | the events of a run are exactly the seals that succeeded and the deliveries that opened, each with its own client, context and plaintext |
| Protocol.Agreement | src/auth.rs:106-131 | in every run, each opened plaintext was sealed earlier by a holder of the trusted key and signer id with exactly that mode, domain, context and plaintext; the one exception, excluded when all such signers share the verifier's kind, is a legacy plaintext that is byte for byte a context-bound transcript |
| Protocol.AcceptedResponseAnswersItsRequest | src/adapter.rs:612-621 | in every run, when a bound header client accepts a response, a trusted peer sealed that plaintext earlier as the response to the echoed request id, never as a request or for another id |
| Protocol.MixedKindsBreakAgreement | src/auth.rs:114-128 | when a legacy and a context-bound endpoint share a trusted key and id, a run opens a plaintext nobody sealed, in all three envelope modes, so the condition of agreement is needed |
| Protocol.AgreementNeedsSharedKinds | src/auth.rs:114-128 | a concrete system and run with an opened plaintext that no earlier event agrees with |
| Protocol.HonestExchangeIsARun | src/envelope_crypto/mod.rs:20-53 | under the reference suite an honest exchange is an allowed run and delivers the plaintext |
| Protocol.HonestResponseIsARun | src/client.rs:108-122 | under the reference suite a header client accepts the response that carries a sealed answer, and every premise of the correlation theorem holds |

## Left out

- SM2, SM3, SM4, GCM, CCM and PKCS#7 internals: they belong to another crate; only their stated laws are used.
- Key loading, PEM and DER decoding, file reads, and the role-overlap check of `KeyMaterial::new`: the four roles are values.
- Timing, zeroization, `Debug` redaction and error texts; the number of verifications is the only cost modelled.
- Randomness quality, nonce and key freshness, secrecy and replay: draws are arbitrary arguments and events may repeat.
- Random request identifiers (`RequestMetadata::generate`), JSON helpers and the fluent request builder: thin wrappers.
- The builds without the `aead` feature; the setters of the consuming builders, since any builder value is considered.
- Rejection of CBC envelopes by AEAD endpoints and the reverse: it depends on primitive output, not on this code.
- The `u32` saturation of the test-only tally: the log keeps every verification.

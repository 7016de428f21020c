# cA2A delegation profile: a verified model

cA2A lets one agent delegate narrowed authority to another. A chain of signed credentials shrinks scope hop by
hop; a callee checks the chain, the caller's possession of the leaf key and the caller's runtime before it
opens a payload; every hop leaves a hash-linked record; a reply is authenticated once. This project models
that core in Dafny and proves what the profile promises, for every input and every run. `dafny verify
dfyconfig.toml` checks it all.

How the parts build on each other:

1. **Unambiguous bytes.** `Canonical` is the RFC 8785 printer. `JsonText` is the JSON reader together with all
   the texts (`Layout`: white space, escapes, entry order) that spell a value. `JsonRoundTrip` proves that the
   reader undoes every spelling of every value of any nesting, and `JsonSpelling` the converse: a text reads
   as a float-free value exactly when it is one of its spellings. `CanonicalFacts` proves that the canonical
   text is one of them. So canonical bytes are equal exactly when the values are equal, and this is the fact
   every signature, MAC and hash argument below rests on. `BoundedJson` adds the size and depth limits of
   `response.py`.
2. **Chains and revocation.** `Delegation`, `Chain` and `ChainFacts`: the imperative verifier, the function it
   computes, and a declarative reading of acceptance with its prefix, extension, cascade, monotonicity and
   authority laws. `ChainErrors` says, over the credentials' own fields, which error is raised exactly when.
   `Issuance` is the other side: what honest delegators sign is accepted, and what they revoke is refused.
3. **Provenance.** `Provenance` and `ProvenanceFacts` for the unsigned records, `Trace` and `TraceFacts` for
   signed TRACE records (with `TraceErrors` for which error is raised when): the leaf hash fixes the whole
   history, and what is emitted always verifies.
4. **The live call.** `Challenge`, `Attestation`, `Peer`, `PeerFacts`, `PeerErrors`, `Response`,
   `ResponseFacts`, `ReplySize` and `Node`, ending in `Node.HonestCall`, which spans all parts: for a request
   assembled by the caller's steps, attached to a message, canonically encoded, decoded, parsed and decided,
   it says exactly when there is an answer, and that the caller then verifies it and reads 200 exactly when
   authority, attestation rung, policy and payload say so. `Node.HonestCallInARun` puts that call inside a run
   of the process that issued the challenge.
5. **Byte formats.** `Base64Url`, `CredentialWire`, `Adapter`, `AdapterFacts`, `Binding`, `TdxQuote`,
   `TpmQuote`: round trips stated as if-and-only-if, and parsers that stay in bounds on every input.

Cryptography is a record of functions (`CryptoModel.Crypto`). No law about it is global: a theorem names the
laws it uses, and collision freedom is only ever assumed of the byte strings being compared
(`CryptoModel.LawsAreConsistent` shows that the laws can hold together). Clock readings, random values, `str`
on a JSON value and the TRACE library are parameters. Exceptions are results that keep the error class, so
that "which error comes first" can be stated; `None` is used where a function has a single error class.

## Where code and documentation differ

- `verify_challenge` says it accepts only a challenge this peer issued (`challenge.py:64`). It reads the
  expiry with `int`, which accepts several spellings of one number, so what it recognises is the (expiry,
  rand) pair. `Challenge.SecondTextVerifies` gives a text that was never issued and is accepted (a zero before
  the expiry); `Challenge.IssuedTextIff` says exactly which accepted texts are the issued one: those that
  spell the expiry as `str` prints it.
- The docstring of `attach_ca2a_metadata` (`transport/a2a_adapter.py:223-224`) promises a round trip for every
  accepted shape. Beside a nested message, attach leaves `params.metadata` alone while parse reads it.
  `AdapterFacts.LeftoverBreaksRoundTrip` gives the message; `AdapterFacts.AttachParseIff` the exact condition.
- The docstring of `parse_peer_request` (`transport/a2a_adapter.py:94-95`) names InvalidCredential for a
  malformed hop; the code raises TransportError: `AdapterFacts.MalformedHopIsTransportError`, and
  `AdapterFacts.ParseErrorMeaning` for which error is raised when.
- `b64url_decode` refuses the empty text, so an empty payload or evidence field does not survive the wire, and
  it ignores stray bits after the last byte, so several texts carry the same bytes: `Base64Url.DecodeEncode`
  and `Base64Url.CanonicalTextIff` say exactly when.
- The digest pattern of `ca2a_verify/dag.py:62` ends in `$`, which also admits one final newline;
  `TraceFacts.NewlineLinkPassesThePattern` shows it and `TraceFacts.NewlineLinkRefused` that the comparison
  with the record hash refuses the link all the same.

## Model

| member | source | states |
|---|---|---|
| Unicode.Utf8RoundTrip | src/ca2a_runtime/response.py:87 | strict UTF-8 decoding undoes the encoding of every string of Unicode scalar values |
| Unicode.Utf8DecodeIff | src/ca2a_runtime/response.py:87 | bytes decode to a string if and only if they are its UTF-8 encoding, so overlong forms and surrogates never slip through |
| Unicode.BigEndianKeepsOrder | src/ca2a_runtime/canonical.py:85 | comparing UTF-16-BE bytes orders keys exactly as comparing their UTF-16 code units does |
| Unicode.KeyOrderMeans | src/ca2a_runtime/canonical.py:85 | the order of object keys, character by character: a proper prefix first, else the lesser at the first difference, where characters beyond U+FFFF come after those below U+D800 and before those from U+E000 on |
| Unicode.TextOrder | src/ca2a_runtime/delegation/credential.py:132 | the order of `sorted` on strings, character by character: a proper prefix first, else the lesser code point at the first difference |
| Unicode.AscendingUnique | src/ca2a_runtime/canonical.py:85 | a set of strings has only one strictly increasing listing, so a sort result does not depend on the input order |
| Canonical.EscapeString | src/ca2a_runtime/canonical.py:40-51 | the appending loop produces the quoted JCS form: short escapes, lower-case `\u00xx` below 0x20, every other character verbatim |
| Canonical.SerializeSucceeds | src/ca2a_runtime/canonical.py:54-87 | the printer succeeds exactly on the values without floats and without integers beyond 2^53 - 1 at any depth |
| Canonical.SerializeErrorMeans | src/ca2a_runtime/canonical.py:63-74 | a TypeError is raised only for a float in the value, a ValueError only for an integer beyond 2^53 - 1 |
| Canonical.SortingForgetsInsertionOrder | src/ca2a_runtime/canonical.py:85-86 | whatever order a dict was filled in, sorting its entries visits the same keys in the same order, each with its own value |
| Canonical.KeyOrder | src/ca2a_runtime/canonical.py:85-86 | object keys come out strictly increasing in UTF-16 code units, said over code units and over characters |
| JsonText.BuildObject | src/ca2a_runtime/response.py:48-54 | the object hook returns the dict of the pairs if all keys differ and refuses otherwise |
| JsonRoundTrip.ReadLayout | src/ca2a_runtime/response.py:87 | reading any spelling of any value, followed by anything that may follow a value, yields that value and exactly what followed |
| JsonRoundTrip.LoadsLayout | src/ca2a_runtime/response.py:87 | `json.loads` of any spelling, with any white space around it, is the value spelled |
| JsonSpelling.LoadsIff | src/ca2a_runtime/response.py:87 | a text reads as a float-free value if and only if it is a spelling of that value: the layouts are all there is |
| CanonicalFacts.CanonLayoutFacts | src/ca2a_runtime/canonical.py:54-87 | the printer's text is a well-formed spelling of the very value it was given |
| CanonicalFacts.LoadsSerialized | src/ca2a_runtime/canonical.py:54-87 | the JSON reader undoes the printer on every printable value of any nesting |
| CanonicalFacts.CanonicalInjective | src/ca2a_runtime/canonical.py:90-92 | two printable values have the same canonical bytes if and only if they are equal, objects read as maps |
| CanonicalFacts.CanonicalizeSucceeds | src/ca2a_runtime/canonical.py:90-92 | `canonicalize` raises exactly on values holding a float or an unsafe integer |
| CanonicalFacts.BytesApart | src/ca2a_runtime/canonical.py:90-92 | different values never share canonical bytes |
| BoundedJson.DecodeSpelling | src/ca2a_runtime/response.py:82-93 | whatever spelling carries an encodable object, `decode` returns the object if the text is within the byte bound |
| BoundedJson.DecodeEncode | src/ca2a_runtime/response.py:57-93 | `decode` undoes `encode` on every object, and refuses the encoding of anything else |
| BoundedJson.EncodeInjective | src/ca2a_runtime/response.py:57-79 | equal encodings come from equal values |
| BoundedJson.EncodeIff | src/ca2a_runtime/response.py:57-79 | `encode` succeeds exactly within the depth, number and byte bounds, with the canonical bytes |
| BoundedJson.DecodeIff | src/ca2a_runtime/response.py:82-93 | bytes decode to an object if and only if it is encodable and they are the UTF-8 of some spelling of it within the byte bound |
| BoundedJson.ShallowIff | src/ca2a_runtime/response.py:60-70 | the depth check passes exactly when no path of array positions and object names into the value is longer than 64 |
| Errors.HttpStatus | src/ca2a_runtime/errors.py:17-239 | every modelled error class of the program carries a status in 400-599, which a pending response admits as a denial |
| Delegation.CredentialBodyInjective | src/ca2a_runtime/delegation/credential.py:120-140 | the signed body determines every field but the signature, although absent bounds are omitted |
| Delegation.ScopeOrder | src/ca2a_runtime/delegation/credential.py:132 | a scope is signed as the list of its texts, each once, any two in code-point order |
| Delegation.DigestNamesOneGrant | src/ca2a_runtime/delegation/revocation.py:74-81 | a credential digest names exactly one grant unless the two bodies collide under SHA-256 |
| Delegation.RevocationIsNotACredential | src/ca2a_runtime/delegation/revocation.py:107-114 | no revocation is signed over the canonical bytes of a credential, so neither signature can pass for the other |
| Delegation.StatementSays | src/ca2a_runtime/delegation/revocation.py:107-114 | a revocation signs its own type, the digest, the revoker and the time, and nothing else |
| Delegation.StatementBytesCommit | src/ca2a_runtime/delegation/revocation.py:107-114 | the signed bytes fix the whole statement but its signature |
| Delegation.BuildSnapshot | src/ca2a_runtime/delegation/revocation.py:207-224 | a snapshot is built if and only if `as_of` is non-negative and every statement has a 128-digit lower-case hex signature that verifies under its revoker over its canonical body; the index then holds, per digest, its statements in list order |
| Delegation.BucketSuffices | src/ca2a_runtime/delegation/revocation.py:226-248 | the first match in a digest's bucket is the first match in the whole list, for every digest, authority set and optional time |
| Delegation.FirstEffective | src/ca2a_runtime/delegation/revocation.py:233-248 | the plain first-match scan: a result names the digest, has its revoker among the authorities and was issued by the audit time, if any; no result means every such statement was issued later |
| Delegation.EffectiveRevocation | src/ca2a_runtime/delegation/revocation.py:226-248 | the indexed lookup with early return gives the statement of the plain scan; there is one exactly when some statement names the digest, comes from an authority and was issued by the audit time, if any |
| Chain.CheckRevocation | src/ca2a_runtime/delegation/credential.py:366-414 | the scan with its growing authority set reports the first hop revoked by its issuer or one above, and only then staleness |
| Chain.VerifyChain | src/ca2a_runtime/delegation/credential.py:243-363 | the single pass with `seen_ids` and `prev` answers the chain verdict, error class and hop included |
| Chain.FirstHopFailureIsFirst | src/ca2a_runtime/delegation/credential.py:309-355 | the reported hop fails with the reported class and every hop before it passes all its checks |
| Chain.FirstRevokedHopIsFirst | src/ca2a_runtime/delegation/credential.py:390-405 | the reported hop is revoked and no earlier one is |
| ChainFacts.AcceptsIff | src/ca2a_runtime/delegation/credential.py:281-363 | acceptance is equivalent to a declarative predicate: trusted root, every hop signed, in its window, at depth equal to its index, with a fresh id, linked and not wider than its parent, none revoked, snapshot fresh |
| ChainFacts.RefusalMeaning | src/ca2a_runtime/delegation/credential.py:309-414 | a refusal names the first failing check of the first failing hop; revocation is reported only for a well-linked chain and names its first revoked hop; staleness only when nothing is revoked |
| ChainErrors.HopRefusalIff | src/ca2a_runtime/delegation/credential.py:309-353 | each error class of the hop checks, over the credentials' own fields: raised for hop i exactly when arguments and root are usable, all hops before pass everything, and hop i passes the checks before that one and fails it |
| ChainErrors.EarlyRefusalIff | src/ca2a_runtime/delegation/credential.py:281-302 | bad arguments, the empty chain and an untrusted root, each exactly when, in that order |
| ChainErrors.LastStageIff | src/ca2a_runtime/delegation/credential.py:366-414 | once every hop passes: revoked exactly when an authority named a hop, else unknown exactly without a needed snapshot or with one older than the bound, else accepted with the truthful status |
| ChainErrors.RevokedHopIff | src/ca2a_runtime/delegation/credential.py:390-405 | the hop reported as revoked is the first whose signed bytes are named by a statement of its issuer or an issuer above, issued by the audit time |
| ChainErrors.AuditIgnoresLater | src/ca2a_runtime/delegation/revocation.py:235-246 | at an audit time t, dropping every statement issued after t leaves the whole verdict unchanged |
| ChainFacts.HopErrorsAreStructural | src/ca2a_runtime/delegation/credential.py:309-355 | no hop check raises a revocation error, so structural errors always come before revocation |
| ChainFacts.ArgumentErrorIff | src/ca2a_runtime/delegation/credential.py:278-290 | Python's own ValueError is raised exactly on unusable arguments, whatever the chain |
| ChainFacts.ScopeNarrows | src/ca2a_runtime/delegation/credential.py:349-353 | in a well-linked chain every later scope is inside every earlier one |
| ChainFacts.AcceptedChain | src/ca2a_runtime/delegation/credential.py:309-355 | acceptance gives depth equal to position, length at most max_depth + 1, distinct ids, and scope inclusion for all pairs of hops |
| ChainFacts.AcceptedStatus | src/ca2a_runtime/delegation/credential.py:379-414 | an acceptance says truthfully whether a snapshot was consulted and how old it was |
| ChainFacts.PrefixClosed | src/ca2a_runtime/delegation/credential.py:306-414 | every non-empty prefix of an accepted chain gets the same verdict with the same inputs |
| ChainFacts.ExtendIff | src/ca2a_runtime/delegation/credential.py:306-414 | an accepted chain plus one hop is accepted if and only if that hop passes its own checks, has a fresh id and is not revoked by its issuer or one above |
| ChainFacts.RevocationMonotone | src/ca2a_runtime/delegation/revocation.py:226-248 | a revoked hop stays revoked with more statements, at any later audit time, and live |
| ChainFacts.MoreStatementsRefuseMore | src/ca2a_runtime/delegation/credential.py:387-414 | adding statements never turns a refusal into an acceptance |
| ChainFacts.RevocationCascades | src/ca2a_runtime/delegation/credential.py:387-405 | no extension of a refused chain is accepted, so a revoked hop cuts off everything below it |
| ChainFacts.AuthorityBound | src/ca2a_runtime/delegation/credential.py:390-397 | dropping the statements whose revoker issued no hop at or above the one they name leaves the verdict unchanged, error and hop included |
| Issuance.BodyEncodableIff | src/ca2a_runtime/delegation/credential.py:120-140 | a credential body has canonical bytes exactly when its depth and validity bounds are safe integers |
| Issuance.SignedVerifies | src/ca2a_runtime/delegation/credential.py:142-166 | signing succeeds exactly with the issuer's key on safe integers, changes only the signature, and the result verifies |
| Issuance.SignedChainAcceptedIff | src/ca2a_runtime/delegation/credential.py:142-363 | a chain each delegator signed with its own key is accepted exactly when the root is trusted, the depth bound holds and every grant narrows, has a fresh id and is in force |
| Issuance.GrantsCanBeSigned | src/ca2a_runtime/delegation/credential.py:142-154 | such a chain exists for every list of grants with safe bounds |
| Issuance.RevocationVerifies | src/ca2a_runtime/delegation/revocation.py:170-186 | a statement made by `revoke` names exactly the credential and the signing key and is one a snapshot admits |
| Issuance.RevokeTakesEffect | src/ca2a_runtime/delegation/credential.py:387-405 | once the issuer of a hop, or of any hop above it, revokes that hop, the otherwise accepted chain is refused as revoked at that hop or earlier |
| Provenance.RecordBodyInjective | src/ca2a_runtime/provenance.py:79-97 | the hashed body determines every field of a record although defaults are omitted |
| Provenance.RecordBytesInjective | src/ca2a_runtime/provenance.py:104-106 | different records are hashed as different byte strings |
| Provenance.VerifyDag | src/ca2a_runtime/provenance.py:167-211 | the loop accepts exactly the non-empty lists with a parentless root, distinct ids, matching parent hashes and nothing after a denial |
| Provenance.CrossCheckChain | src/ca2a_runtime/provenance.py:214-250 | the two loops accept exactly when the non-denial records match the chain position by position and each denial matches a credential of the chain |
| ProvenanceFacts.LeafHashFixesHistory | src/ca2a_runtime/provenance.py:167-211 | two accepted histories with the same leaf hash are identical in length and in every field |
| ProvenanceFacts.TamperingIsDetected | src/ca2a_runtime/provenance.py:202-208 | changing any field of any record but the last makes `verify_dag` refuse |
| ProvenanceFacts.DenialIsLast | src/ca2a_runtime/provenance.py:196-201 | only the last record of an accepted history can be a denial |
| ProvenanceFacts.RecordsMirrorTheChain | src/ca2a_runtime/provenance.py:214-250 | when both checks accept, records match credentials one to one by id and subject, with at most one further record, a denial naming a credential of the chain |
| ProvenanceFacts.EmitVerifies | src/ca2a_runtime/provenance.py:109-129 | folding `record_for` over any non-empty chain with distinct record ids always passes both checks |
| Challenge.MacTextInjective | src/ca2a_runtime/challenge.py:48-49 | the MAC input determines the (expiry, rand) pair whatever the random part contains |
| Challenge.AnySpellingVerifies | src/ca2a_runtime/challenge.py:63-105 | every text `int` reads as the expiry verifies with the same MAC until the expiry |
| Challenge.IssuedTextIff | src/ca2a_runtime/challenge.py:63-105 | an accepted text is the issued text if and only if it spells the expiry the way `str` prints it |
| Challenge.SecondTextVerifies | src/ca2a_runtime/challenge.py:86-89 | with a zero before the expiry, a text that differs from the issued one is accepted just as long |
| Challenge.IssuedVerifies | src/ca2a_runtime/challenge.py:52-105 | an issued challenge verifies at every time before its expiry and is reported expired from then on |
| Challenge.VerdictIff | src/ca2a_runtime/challenge.py:63-105 | a text is accepted, or called expired, exactly when it is a tag of the secret over its own pair, before or from its expiry on; a forged text is never called expired |
| Challenge.AcceptedWasIssued | src/ca2a_runtime/challenge.py:63-105 | in every run of issue, clock, restart and verify steps, an accepted challenge carries a pair issued earlier under the secret in force, with the expiry ahead |
| Challenge.IssuedStaysValid | src/ca2a_runtime/challenge.py:52-60 | in every run, whatever was issued under the secret in force verifies at every state before its expiry |
| Challenge.IssueThenVerifyIsARun | src/ca2a_runtime/challenge.py:52-105 | issuing and presenting the issued text is a run, and accepted, under every MAC with hex tags: the conditions on runs keep the honest ones |
| Attestation.AppraisedCaller | src/ca2a_runtime/attestation.py:184-216 | an appraised caller answered a live challenge of this peer in a caller-role report binding its key; hardware assurance only with a verifier that agreed |
| Attestation.OfferAcceptedIff | src/ca2a_runtime/attestation.py:118-181 | exactly which offers pass and as what: expected role, bound key, expected nonce, and software-only where allowed or vouched for by a verifier |
| Attestation.ProofBytesCommit | src/ca2a_runtime/delegation/holder.py:97-137 | the signed bytes of a holder proof fix audience, challenge, credential, subject, capability, record, payload, caller key and parent |
| Attestation.ProofIsNotACredential | src/ca2a_runtime/delegation/holder.py:84-86 | a holder proof is signed over the canonical bytes of no credential and of no revocation |
| Attestation.PossessionMessageCommits | src/ca2a_runtime/attestation.py:250-285 | the MACed bytes fix both channel keys, all request fields and the holder proof's signature |
| Attestation.PossessionAgrees | src/ca2a_runtime/attestation.py:288-378 | the proof the caller computes from its private key verifies at the callee from the callee's |
| Peer.Denial | src/ca2a_runtime/peer.py:301-314 | the record of a refusal is a denial naming the request, its leaf credential and scope, its parent link, the effective scope, the reason and the appraisal outcome |
| PeerFacts.AcceptedIff | src/ca2a_runtime/peer.py:454-557 | a request is accepted exactly when chain, required holder proof, appraisal and capability pass and any payload opens |
| PeerFacts.AcceptedResult | src/ca2a_runtime/peer.py:535-557 | an accepted call, field by field: the live chain's revocation status, the effective scope, the opened payload, and an allow record that states the appraisal outcome |
| PeerFacts.SealedPayloadArrives | src/ca2a_runtime/peer.py:544-548 | what a caller seals to the callee's key is what an accepting callee reads |
| PeerFacts.OpenedOnlyAfterChecks | src/ca2a_runtime/peer.py:503-548 | the payload is opened if and only if all checks passed and there are a payload and a key |
| PeerFacts.GrantIsDelegatedEverywhere | src/ca2a_runtime/peer.py:524-542 | a granted capability is in the local policy's answer and in the scope of every hop up to the root |
| PeerFacts.GrantIsLocallyAllowed | src/ca2a_runtime/policy.py:43-45 | under the allow-set policy the effective scope is exactly what is both delegated and allowed, and a grant is in it |
| PeerFacts.DenialNeedsAuthentication | src/ca2a_runtime/peer.py:508-542 | an error carries a denial record only after the chain and any required holder proof verified, and the record names the request, the leaf and the effective scope |
| PeerFacts.RefusalRecord | src/ca2a_runtime/peer.py:274-402 | every record the appraisal emits comes with AttestationFailed and denies this very request |
| PeerFacts.RecordedOutcomeIsEarned | src/ca2a_runtime/peer.py:274-402 | an accepted record says not_offered exactly without an offer, and hardware exactly when a verifier vouched for a caller-role report that answers a live challenge and whose key the requester proved to hold over this request |
| PeerFacts.EscapingErrorIff | src/ca2a_runtime/peer.py:508-514 | the pipeline raises an error that is not the program's own exactly on a negative staleness bound |
| PeerErrors.HoldsLeafMeans | src/ca2a_runtime/peer.py:405-451 | the holder check passes exactly with a signature under the leaf's subject over the request's own fields, answering a live challenge of this callee |
| PeerErrors.PossessedMeans | src/ca2a_runtime/peer.py:366-385 | the possession check passes exactly with a proof of this version whose tag is the MAC of the request's own transcript under the key agreed with the attested key |
| PeerErrors.AppraisalIff | src/ca2a_runtime/peer.py:274-402 | exactly which outcome is passed on: none without an offer where nothing is demanded, else what was established, if the rung is met |
| PeerErrors.AppraisalRefusalIff | src/ca2a_runtime/peer.py:295-401 | what a refusal records: not offered, the established software level below a hardware floor, or failed; an unknown rung is a ConfigError |
| PeerErrors.RefusalIs | src/ca2a_runtime/peer.py:508-548 | every refusal of the pipeline in order, with its class, and which two of them carry a denial record |
| PeerFacts.WeakerRungAccepts | src/ca2a_runtime/peer.py:274-402 | what is accepted at an attestation rung is accepted at every weaker rung with the same result and record |
| PeerFacts.BuiltRequestAuthenticates | src/ca2a_runtime/transport/client.py:207-267 | every request built by the caller's steps passes the callee's holder check, and its possession check if it carries an offer, while the challenge is valid and the offer appraises |
| PeerFacts.BuiltRequestAccepted | src/ca2a_runtime/transport/client.py:207-267 | for such a request the callee's answer is decided by the chain, the rung, the policy and the payload alone, in both directions, and what it reads is the opened payload |
| PeerFacts.HolderProofIsForOneRequest | src/ca2a_runtime/delegation/holder.py:206-264 | one holder signature never verifies for two requests that differ in audience, challenge, leaf, capability, record, payload, parent or caller channel key |
| PeerFacts.PossessionIsForOneRequest | src/ca2a_runtime/attestation.py:339-378 | one possession MAC never verifies for two requests that differ in a committed field or in the holder proof beside it |
| PeerFacts.PossessionIsForOneCall | src/ca2a_runtime/peer.py:366-385 | two requests checked with one possession proof agree in leaf, capability, record, payload, parent, challenge, both channel keys and holder proof |
| Response.PendingResponse.Open | src/ca2a_runtime/response.py:181-210 | construction succeeds exactly for a timeout in (0, 300], a finite clock, an encodable request and a usable peer key, and yields an unused state bound to that request |
| Response.PendingResponse.Verify | src/ca2a_runtime/response.py:233-269 | the call returns the specified answer, only with both readings finite and from the start to before the deadline, and leaves the state used and without its key, whatever happened |
| ResponseFacts.OneUse | src/ca2a_runtime/response.py:225-269 | over every sequence of calls with arbitrary clock readings only the first can return, the key is gone after it, and what it returned was authenticated for this request with both readings in time |
| ResponseFacts.AnswerIff | src/ca2a_runtime/response.py:225-268 | a call returns exactly when the state is unused, both readings are finite, at or after the start and before the deadline, and the bytes authenticate the body |
| ResponseFacts.OutsideTheWindow | src/ca2a_runtime/response.py:225-231 | a reading before the start, from the deadline on, not finite or raising refuses every reply |
| ResponseFacts.OpenedWindow | src/ca2a_runtime/response.py:205-208 | a request opened at a clock reading with a timeout is answered only from that reading on and before reading plus timeout |
| ResponseFacts.ReplyIsAuthentic | src/ca2a_runtime/response.py:242-265 | a returned body sits in a decoded statement for this request and status whose MAC matches under the pending key |
| ResponseFacts.ReplyAcceptedIff | src/ca2a_runtime/response.py:240-268 | bytes authenticate a body if and only if they decode to the reply the producer finishes for it, with an admitted status and the demanded shape |
| ResponseFacts.ProducerAgrees | src/ca2a_runtime/response.py:108-158 | for every key pair and message the producer reading the request derives the caller's request hash and MAC key |
| ResponseFacts.MakeProducerIff | src/ca2a_runtime/response.py:148-158 | exactly which envelopes establish a producer and which one: five fields, this profile and key, an object to execute, hex session and usable recipient; the hash is over the envelope itself and salts the key |
| ResponseFacts.FinishedReplyVerifies | src/ca2a_runtime/response.py:160-170 | every well-shaped 200 or 400-599 reply the producer finishes is accepted before the deadline under any white space, escapes and entry order that fit the byte bound |
| ResponseFacts.CanonicalReplyVerifies | src/ca2a_runtime/response.py:160-170 | in particular the canonical bytes of a finished reply are accepted |
| ReplySize.MacCosts | src/ca2a_runtime/response.py:161-169 | the MAC field adds exactly 73 canonical bytes to a statement, whatever the MAC is |
| ReplySize.FinishIff | src/ca2a_runtime/response.py:160-170 | a reply can be finished exactly when its body is printable and not too deep and the statement leaves 73 bytes for the MAC |
| Node.Reply | src/ca2a_runtime/node.py:141-145 | a reply always has an admitted status and the body shape `verify` demands, and says 200 exactly when the handler accepted |
| Node.DecisionFits | src/ca2a_runtime/transport/wire.py:38-65 | every body the node replies with is printable and shallow, and there is one exactly unless the staleness bound is negative |
| Node.ResultSays | src/ca2a_runtime/transport/wire.py:32-53 | the body of an acceptance carries the effective scope, the capability, the outcome in words and the record with its hash |
| Node.ResultDetermines | src/ca2a_runtime/transport/wire.py:38-53 | the body determines scope, capability, outcome and the whole record |
| Node.ReplySays | src/ca2a_runtime/transport/wire.py:56-65 | a reply is 200 with the result, or the error's own status, code, message and detail |
| Node.HandleMeans | src/ca2a_runtime/node.py:109-129 | a message without cA2A metadata is a TransportError, a parse error keeps its class, and only a parsed request is handled |
| Node.RequestArrives | src/ca2a_runtime/node.py:109-129 | a request the wire admits reaches the callee's handler unchanged |
| Node.CallIsAuthenticated | src/ca2a_runtime/node.py:131-146 | there is an answer exactly when the request could be sent, the staleness bound is usable and the decision fits with its MAC; the caller verifies exactly that status and body if both readings fall in the window, and nothing otherwise |
| Node.BuiltRequestIsWireOk | src/ca2a_runtime/transport/client.py:258-268 | the request the caller builds is one the wire admits, if the credentials, texts and evidence it is built from are |
| Node.HonestCall | src/ca2a_runtime/transport/client.py:207-282 | one call end to end: exactly when it is answerable there is an answer, and its verified status is 200 exactly when the chain verifies at the callee, the rung is met, the capability is in the effective scope and the payload opens |
| Node.HonestCallInARun | src/ca2a_runtime/node.py:105-146 | the same inside any run of the process: the challenge is one it issued, under a secret still in force, and both checks come before its expiry |
| Binding.DeriveBinding | src/ca2a_runtime/tee/binding.py:72-85 | the appending loop hashes the prefix followed by each field behind its 4-byte length, and fails exactly on a field of 2^32 bytes or more |
| Binding.PrefixesArePrefixFree | src/ca2a_runtime/tee/binding.py:39-54 | bytes that start with one of the six prefixes start with no other |
| Binding.FieldsInjective | src/ca2a_runtime/tee/binding.py:81-85 | the length-prefixed fields determine the public key and the nonce, whatever they contain |
| Binding.PreimageInjective | src/ca2a_runtime/tee/binding.py:57-85 | equal preimages mean the same platform, role, public key and nonce |
| Binding.PaddingInjective | src/ca2a_runtime/tee/binding.py:88-98 | zero padding to a fixed width keeps digests of one length distinct |
| TpmQuote.ParseQuote | src/ca2a_runtime/tee/tpm.py:101-150 | the parser reads in bounds on every byte string and its PCR loop runs at most a third of the length, however large the declared count |
| TpmQuote.ParseBack | src/ca2a_runtime/tee/tpm.py:124-150 | parsing a serialized well-formed quote followed by any bytes returns that quote |
| TpmQuote.ParsedIsLayout | src/ca2a_runtime/tee/tpm.py:124-150 | every blob that parses is a serialized well-formed quote followed by some bytes, and the fields are that quote's |
| TdxQuote.ParseQuote | src/ca2a_runtime/tee/tdx.py:103-192 | the nested parser reads in bounds on every byte string and ends in a quote or the one error |
| TdxQuote.ParseCert | src/ca2a_runtime/tee/tdx.py:149-172 | the certification-data half stays inside its declared length |
| TdxQuote.ParseBack | src/ca2a_runtime/tee/tdx.py:103-192 | parsing a serialized quote, with ignored bytes at each of the three nesting levels, returns exactly that quote |
| TdxQuote.ParsedIsLayout | src/ca2a_runtime/tee/tdx.py:103-192 | every blob that parses has that nested layout and the fields are read from it |
| Base64Url.DecodeEncode | src/ca2a_runtime/transport/_b64url.py:25-44 | decoding undoes encoding exactly for the non-empty byte strings |
| Base64Url.SymbolIsTable | src/ca2a_runtime/transport/_b64url.py:25-26 | each symbol is the one table 2 of RFC 4648 lists for its value |
| Base64Url.GroupsKeepTheNumber | src/ca2a_runtime/transport/_b64url.py:25-26 | sextets read as one number are the bytes read as one number, most significant bits first |
| Base64Url.CanonicalTextIff | src/ca2a_runtime/transport/_b64url.py:29-44 | an accepted text is the encoding of what it decodes to exactly when it has no stray bits |
| CredentialWire.CredentialRoundTrip | src/ca2a_runtime/delegation/credential.py:168-240 | parsing a serialized credential gives it back exactly when the wire format admits it, and otherwise refuses |
| CredentialWire.CredentialFromDictIff | src/ca2a_runtime/delegation/credential.py:168-240 | exactly which JSON values parse as which credential: objects with exactly its fields, in the documented domain, the scope array listing its texts once each in any order |
| CredentialWire.OfferRoundTrip | src/ca2a_runtime/transport/wire.py:68-135 | parsing a serialized offer gives it back exactly when its role is known and its evidence non-empty, and otherwise refuses |
| CredentialWire.ParsedOfferSays | src/ca2a_runtime/transport/wire.py:110-135 | for every object that parses, the offer has its key, claims, role and evidence each from its own place |
| Adapter.ParseHops | src/ca2a_runtime/transport/a2a_adapter.py:112-125 | the appending loop parses all hops in order or refuses at the first malformed one |
| AdapterFacts.AttachParseIff | src/ca2a_runtime/transport/a2a_adapter.py:83-253 | for every accepted message shape, attach then parse returns the request exactly when the wire admits it and no optional key it lacks is left beside a nested message |
| AdapterFacts.ParseErrorMeaning | src/ca2a_runtime/transport/a2a_adapter.py:100-188 | no request exactly without cA2A keys; HolderProofInvalid exactly when only the holder proof is malformed; TransportError in every other refusal |
| AdapterFacts.ParsedSays | src/ca2a_runtime/transport/a2a_adapter.py:104-188 | for every message that parses, each request field is what the metadata holds under its own key, hop by hop, and null or absent is none |
| AdapterFacts.MalformedHopIsTransportError | src/ca2a_runtime/transport/a2a_adapter.py:112-125 | a malformed hop anywhere in the chain is a TransportError, whatever else the message holds |
| AdapterFacts.LeftoverBreaksRoundTrip | src/ca2a_runtime/transport/a2a_adapter.py:199-209 | a concrete message for which the promised round trip fails |
| AdapterFacts.AttachKeepsOthers | src/ca2a_runtime/transport/a2a_adapter.py:215-253 | every non-cA2A metadata key the parser reads keeps its value |
| AdapterFacts.AttachKeepsMessage | src/ca2a_runtime/transport/a2a_adapter.py:191-253 | everything outside the targeted metadata map, at every nesting level, is left untouched |
| AdapterFacts.AttachRefusedIff | src/ca2a_runtime/transport/a2a_adapter.py:199-212 | attaching is refused exactly when the place it targets has metadata that is not a mapping |
| Trace.EmitDag | src/ca2a_runtime/trace_binding.py:233-255 | the loop always returns the linked signed records and never hits the half-supplied-block error |
| TraceErrors.BuildRecordIff | src/ca2a_runtime/trace_binding.py:137-187 | a record is built exactly when the block is given whole or not at all, and has exactly the given block |
| TraceErrors.ContextIsRecorded | src/ca2a_runtime/trace_binding.py:143-181 | every item of a hop's context sits in its own place of the record, and an absent one nowhere |
| Trace.VerifyTraceDag | src/ca2a_verify/dag.py:128-221 | acceptance exactly when no record fails a check, with the subjects in order; otherwise the error of the first failing record |
| Trace.CrossCheckTraceDag | src/ca2a_verify/dag.py:224-252 | the loop accepts exactly when each record was signed by its credential's subject and each later one names its credential |
| TraceFacts.CanonicalHashesApart | src/ca2a_runtime/trace_binding.py:207-214 | with canonical bytes and no SHA-256 collision, records with the same link hash are the same record |
| TraceFacts.NewlineLinkPassesThePattern | src/ca2a_verify/dag.py:62 | a digest followed by a newline matches the digest pattern |
| TraceFacts.NewlineLinkRefused | src/ca2a_verify/dag.py:198-211 | a link that ends in a newline is refused at the comparison with the record hash |
| TraceFacts.TraceRecordIsNotAHolderProof | src/ca2a_runtime/delegation/holder.py:84-86 | a record that names its signing key never has the canonical bytes of a holder proof |
| TraceFacts.LinksImplyDistinct | src/ca2a_verify/dag.py:186-214 | the parent links alone already imply that no record hash repeats |
| TraceFacts.AcceptedIffLinked | src/ca2a_verify/dag.py:159-214 | a non-empty list is accepted exactly when every record is valid and the parent links hold |
| TraceErrors.TraceAcceptedIff | src/ca2a_verify/dag.py:159-214 | acceptance over the records' own fields: schema-valid, fitting block, signed by the trusted Ed25519 key embedded, no block at the root, and the hash of the record before as link after it |
| TraceErrors.RecordErrorIff | src/ca2a_verify/dag.py:159-211 | each error class of a record, exactly when: invalid, then repeated or misplaced block, then an unsupported digest label, then a wrong link |
| TraceErrors.CrossCheckMeans | src/ca2a_verify/dag.py:239-252 | the cross check over the records' own fields: embedded key is the subject, later records name the credential |
| TraceFacts.LeafHashFixesDag | src/ca2a_verify/dag.py:186-214 | two accepted DAGs with the same leaf hash are the same DAG |
| TraceFacts.EmittedVerifies | src/ca2a_runtime/trace_binding.py:233-255 | emission over any non-empty hops with non-empty ids, signed by the chain's subject keys, always passes verification and the cross check |

## Left out

- Real cryptography (Ed25519, X25519, HKDF, HMAC, SHA-256, ChaCha20-Poly1305): function parameters with the laws each theorem states; the sealed channel is one partial function `open`, so its framing is not modelled.
- Strings with lone surrogates: strings are sequences of Unicode scalar values. The reader refuses a lone surrogate escape where Python builds the string and the later UTF-8 encoding refuses it.
- Dict keys that are not strings, and Python values outside JSON: the model's objects have string keys only.
- Issuance.RevocationVerifies: the shape checks of a statement's constructor on its digest and revoker are not repeated, because hex digests and keys meet them by construction.
- Type checks on Python arguments (a bool or float passed as a time, depth or status): typed parameters rule them out; range checks on integers are kept.
- Python's `int` on text: a parameter that undoes `str` and, in Challenge.SecondTextVerifies, reads a leading zero; its other spellings (signs, underscores, blanks, other digits) and CPython's limit on very long digit strings are not modelled.
- Challenge.AcceptedWasIssued: unforgeability is a condition on the verify steps of a run and only about the one message the verifier recomputes: if its tag is the one presented, it was tagged under the secret in force.
- TraceFacts.EmittedVerifies: the TRACE schema, signer and verifier are library functions; that the schema admits the base of each record emitted and that the library verifies what it signs are hypotheses.
- Trace.VerifyTraceDag: the trusted keys are given as raw bytes and the age limit is part of the library's verify function; the normalisation of JWK dicts to raw keys is not modelled.
- In-place writes of `attach_ca2a_metadata`: it sets and pops keys in a deep copy of the message; the model computes the resulting value, so the order of writes and aliasing inside the copy are not captured.
- `collect_metadata` with an explicit override argument: one further overlay of the same kind.
- Response.PendingResponse.Verify: the thread lock is not modelled; calls on one pending response form a sequence, which is what the lock enforces. Copy and pickle refusals are left out.
- Wording of error messages and denial reasons: each refusal carries a short fixed reason text instead; codes, messages and details of replies are a parameter.
- Parsing and printing of revocation statements and snapshots as JSON (`delegation/revocation.py:142-167`, `delegation/revocation.py:250-292`): they would only add easy members of the same kind as the credential codec.
- `effective_scope` and `enforce_peer_call` (`peer.py:101-172`): compositions of steps the inbound pipeline already covers.
- X.509 chains, hardware report verification, TPM and TSM evidence collection: the verifier and the PEM reader are parameters.
- HTTP server and client plumbing, command line, configuration, Cedar policies, agent manifests and the A2A SDK bridge: input and output or calls into other engines.

/** Holder proofs (delegation/holder.py) and caller attestation (attestation.py). */
module Attestation {
  import opened Basics
  import opened Unicode
  import opened Canonical
  import opened CanonicalFacts
  import opened CryptoModel
  import opened Delegation
  import opened Challenge

  const ROLE_CALLEE: string := "callee"
  const ROLE_CALLER: string := "caller"
  const SOFTWARE_ONLY: string := "software-only"

  datatype Report = Report(
    platform: string,
    measurement: string,
    publicKey: string,
    nonce: string,
    rawEvidence: Option<Bytes>,
    quoteSignature: Option<Bytes>,
    attestationKeyPem: Option<Bytes>,
    attestationKeyChainPem: Option<Bytes>,
    role: string)

  datatype ChannelOffer = ChannelOffer(channelPublicKey: string, report: Report)

  datatype VerifiedPeer = VerifiedPeer(publicKey: string, assurance: string, measurement: string)

  /** A hardware verifier: the verified measurement, or None for AttestationFailed. */
  type Verifier = (Report, string) -> Option<string>

  /** `verify_offer`; every refusal is an AttestationFailed. */
  function VerifyOffer(offer: ChannelOffer, expectedNonce: string, verifier: Option<Verifier>,
                       requireHardware: bool, role: string): (r: Option<VerifiedPeer>)
  {
    var report := offer.report;
    if report.role != role then None
    else if report.publicKey != offer.channelPublicKey then None
    else if report.nonce != expectedNonce then None
    else if report.platform == SOFTWARE_ONLY then
      if requireHardware then None
      else Some(VerifiedPeer(offer.channelPublicKey, "none", report.measurement))
    else
      match verifier
      case None => None
      case Some(v) =>
        match v(report, expectedNonce)
        case None => None
        case Some(m) => Some(VerifiedPeer(offer.channelPublicKey, "hardware", m))
  }

  /** Exactly which offers pass, and as what: minted for the expected role, binding the offered key and the
      expected nonce, and either software-only where that is allowed, or vouched for by a verifier. */
  lemma OfferAcceptedIff(offer: ChannelOffer, expectedNonce: string, verifier: Option<Verifier>, requireHardware: bool,
                         role: string, peer: VerifiedPeer)
    ensures VerifyOffer(offer, expectedNonce, verifier, requireHardware, role) == Some(peer) <==>
            && offer.report.role == role && offer.report.publicKey == offer.channelPublicKey
            && offer.report.nonce == expectedNonce && peer.publicKey == offer.channelPublicKey
            && if offer.report.platform == "software-only"
               then !requireHardware && peer.assurance == "none" && peer.measurement == offer.report.measurement
               else peer.assurance == "hardware" && verifier.Some?
                    && verifier.value(offer.report, expectedNonce) == Some(peer.measurement)
  {
  }

  /** `appraise_caller`: the challenge first, then the offer against that challenge. */
  function AppraiseCaller(k: Crypto, offer: ChannelOffer, secret: Bytes, now: int, verifier: Option<Verifier>)
    : (r: Option<VerifiedPeer>)
  {
    if VerifyChallenge(k, secret, offer.report.nonce, now) != Valid then None
    else VerifyOffer(offer, offer.report.nonce, verifier, false, ROLE_CALLER)
  }

  /** What appraisal establishes: a fresh challenge of this peer, bound with the offered key in a
      caller-role report, and hardware assurance only with a verifier that agreed. */
  lemma AppraisedCaller(k: Crypto, offer: ChannelOffer, secret: Bytes, now: int, verifier: Option<Verifier>)
    requires AppraiseCaller(k, offer, secret, now, verifier).Some?
    ensures VerifyChallenge(k, secret, offer.report.nonce, now) == Valid
    ensures offer.report.role == ROLE_CALLER && offer.report.publicKey == offer.channelPublicKey
    ensures var peer := AppraiseCaller(k, offer, secret, now, verifier).value;
            && peer.publicKey == offer.report.publicKey
            && (peer.assurance == "hardware" <==> offer.report.platform != SOFTWARE_ONLY)
            && (peer.assurance == "hardware" ==>
                  verifier.Some? && verifier.value(offer.report, offer.report.nonce) == Some(peer.measurement))
  {
    assert "hardware" != "none" by {
      assert |"hardware"| != |"none"|;
    }
  }

  // ---------------------------------------------------------------- committed request fields

  /** The request fields both proofs commit to. */
  datatype Claim = Claim(
    challenge: string,
    credentialId: string,
    subject: string,
    capability: string,
    recordId: string,
    payload: Option<Bytes>,
    parentRecordHash: Option<string>)

  function PayloadDigest(k: Crypto, payload: Option<Bytes>): (d: Option<string>)
  {
    match payload
    case None => None
    case Some(b) => Some(k.sha256(b))
  }

  lemma PayloadDigestBinds(k: Crypto, a: Option<Bytes>, b: Option<Bytes>)
    requires a.Some? && b.Some? ==> NoCollision(k, a.value, b.value)
    requires OptStr(PayloadDigest(k, a)) == OptStr(PayloadDigest(k, b))
    ensures a == b
  {
  }

  const PROOF_DOMAIN: string := "ca2a-holder-proof-v1"

  /** `proof_body`. */
  function ProofBody(k: Crypto, audience: string, c: Claim, callerKey: Option<string>): (j: Json)
    ensures j.JObj?
  {
    JObj(map[
      "domain" := JStr(PROOF_DOMAIN),
      "audience" := JStr(audience),
      "challenge" := JStr(c.challenge),
      "credential_id" := JStr(c.credentialId),
      "subject" := JStr(c.subject),
      "requested_capability" := JStr(c.capability),
      "record_id" := JStr(c.recordId),
      "payload_sha256" := OptStr(PayloadDigest(k, c.payload)),
      "caller_channel_key" := OptStr(callerKey),
      "parent_record_hash" := OptStr(c.parentRecordHash)])
  }

  lemma ProofBodyEncodable(k: Crypto, audience: string, c: Claim, callerKey: Option<string>)
    ensures Canonicalize(ProofBody(k, audience, c, callerKey)).Ok?
  {
    hide Canonicalize;
    TextObjectEncodes(ProofBody(k, audience, c, callerKey).fields);
  }

  function ProofBytes(k: Crypto, audience: string, c: Claim, callerKey: Option<string>): (b: Bytes)
  {
    ProofBodyEncodable(k, audience, c, callerKey);
    Canonicalize(ProofBody(k, audience, c, callerKey)).value
  }

  predicate SamePayloadIfSameDigest(k: Crypto, a: Claim, b: Claim) {
    a.payload.Some? && b.payload.Some? ==> NoCollision(k, a.payload.value, b.payload.value)
  }

  /** The signed bytes of a holder proof fix the audience, the claim and the caller's channel key. */
  lemma ProofBytesCommit(k: Crypto, a1: string, c1: Claim, x1: Option<string>, a2: string, c2: Claim,
                         x2: Option<string>)
    requires SamePayloadIfSameDigest(k, c1, c2)
    requires ProofBytes(k, a1, c1, x1) == ProofBytes(k, a2, c2, x2)
    ensures a1 == a2 && c1 == c2 && x1 == x2
  {
    hide Canonicalize;
    var j1, j2 := ProofBody(k, a1, c1, x1), ProofBody(k, a2, c2, x2);
    CanonicalizeSucceeds(j1);
    CanonicalizeSucceeds(j2);
    ProofBodyEncodable(k, a1, c1, x1);
    ProofBodyEncodable(k, a2, c2, x2);
    CanonicalInjective(j1, j2);
    ProofBodyInjective(k, a1, c1, x1, a2, c2, x2);
  }

  /** A holder proof is signed over the bytes of no credential and of no revocation, so none of the three
      signatures can pass for another. */
  lemma ProofIsNotACredential(k: Crypto, audience: string, c: Claim, callerKey: Option<string>, cred: Credential,
                              s: Statement)
    ensures var proof := ProofBody(k, audience, c, callerKey);
            && proof != CredentialBody(cred) && Canonicalize(proof) != Canonicalize(CredentialBody(cred))
            && proof != StatementBody(s) && Canonicalize(proof) != Canonicalize(StatementBody(s))
  {
    hide Canonicalize, ScopeArray;
    var proof := ProofBody(k, audience, c, callerKey);
    assert "domain" in proof.fields && "domain" !in CredentialBody(cred).fields && "domain" !in StatementBody(s).fields;
    ProofBodyEncodable(k, audience, c, callerKey);
    BytesApart(proof, CredentialBody(cred));
    BytesApart(proof, StatementBody(s));
  }

  lemma ProofFields(k: Crypto, audience: string, c: Claim, x: Option<string>)
    ensures var m := ProofBody(k, audience, c, x).fields;
            && m["audience"] == JStr(audience) && m["challenge"] == JStr(c.challenge)
            && m["credential_id"] == JStr(c.credentialId) && m["subject"] == JStr(c.subject)
            && m["requested_capability"] == JStr(c.capability) && m["record_id"] == JStr(c.recordId)
            && m["payload_sha256"] == OptStr(PayloadDigest(k, c.payload))
            && m["caller_channel_key"] == OptStr(x) && m["parent_record_hash"] == OptStr(c.parentRecordHash)
  {
    hide PayloadDigest, OptStr;
  }

  lemma ProofBodyInjective(k: Crypto, a1: string, c1: Claim, x1: Option<string>, a2: string, c2: Claim,
                           x2: Option<string>)
    requires SamePayloadIfSameDigest(k, c1, c2)
    requires ProofBody(k, a1, c1, x1) == ProofBody(k, a2, c2, x2)
    ensures a1 == a2 && c1 == c2 && x1 == x2
  {
    hide PayloadDigest, ProofBody;
    ProofFields(k, a1, c1, x1);
    ProofFields(k, a2, c2, x2);
    PayloadDigestBinds(k, c1.payload, c2.payload);
  }

  datatype HolderProof = HolderProof(challenge: string, signature: string)

  /** `verify_holder_proof` does not raise HolderProofInvalid. `c.challenge` is the proof's own. */
  predicate HolderProofOk(k: Crypto, proof: HolderProof, audience: string, secret: Bytes, now: int, c: Claim,
                          callerKey: Option<string>)
  {
    && VerifyChallenge(k, secret, proof.challenge, now) == Valid
    && k.verify(c.subject, ProofBytes(k, audience, c.(challenge := proof.challenge), callerKey), proof.signature)
  }

  // ---------------------------------------------------------------- proof of possession

  const CALLER_OFFER_VERSION: string := "ca2a-caller-offer-v2"

  datatype CallerPossession = CallerPossession(version: string, mac: string)

  /** `caller_possession_transcript`. */
  function Transcript(k: Crypto, calleeKey: string, callerKey: string, c: Claim, holderSignature: Option<string>)
    : (j: Json)
    ensures j.JObj?
  {
    JObj(map[
      "version" := JStr(CALLER_OFFER_VERSION),
      "challenge" := JStr(c.challenge),
      "callee_channel_key" := JStr(calleeKey),
      "caller_channel_key" := JStr(callerKey),
      "credential_id" := JStr(c.credentialId),
      "subject" := JStr(c.subject),
      "requested_capability" := JStr(c.capability),
      "record_id" := JStr(c.recordId),
      "payload_sha256" := OptStr(PayloadDigest(k, c.payload)),
      "parent_record_hash" := OptStr(c.parentRecordHash),
      "holder_proof_signature" := OptStr(holderSignature)])
  }

  lemma TranscriptEncodable(k: Crypto, calleeKey: string, callerKey: string, c: Claim, sig: Option<string>)
    ensures Canonicalize(Transcript(k, calleeKey, callerKey, c, sig)).Ok?
  {
    hide Canonicalize;
    TextObjectEncodes(Transcript(k, calleeKey, callerKey, c, sig).fields);
  }

  /** The statement label, a zero byte, and the canonical transcript. */
  function PossessionMessage(k: Crypto, calleeKey: string, callerKey: string, c: Claim, sig: Option<string>): (b: Bytes)
  {
    TranscriptEncodable(k, calleeKey, callerKey, c, sig);
    Utf8("ca2a/caller-possession/v2/statement") + [0] + Canonicalize(Transcript(k, calleeKey, callerKey, c, sig)).value
  }

  lemma TranscriptFields(k: Crypto, p: string, q: string, c: Claim, s: Option<string>)
    ensures var m := Transcript(k, p, q, c, s).fields;
            && m["challenge"] == JStr(c.challenge) && m["callee_channel_key"] == JStr(p)
            && m["caller_channel_key"] == JStr(q)
            && m["credential_id"] == JStr(c.credentialId) && m["subject"] == JStr(c.subject)
            && m["requested_capability"] == JStr(c.capability) && m["record_id"] == JStr(c.recordId)
            && m["payload_sha256"] == OptStr(PayloadDigest(k, c.payload))
            && m["parent_record_hash"] == OptStr(c.parentRecordHash) && m["holder_proof_signature"] == OptStr(s)
  {
    hide PayloadDigest, OptStr;
  }

  lemma TranscriptInjective(k: Crypto, p1: string, q1: string, c1: Claim, s1: Option<string>, p2: string, q2: string,
                            c2: Claim, s2: Option<string>)
    requires SamePayloadIfSameDigest(k, c1, c2)
    requires Transcript(k, p1, q1, c1, s1) == Transcript(k, p2, q2, c2, s2)
    ensures p1 == p2 && q1 == q2 && c1 == c2 && s1 == s2
  {
    hide PayloadDigest, Transcript;
    TranscriptFields(k, p1, q1, c1, s1);
    TranscriptFields(k, p2, q2, c2, s2);
    PayloadDigestBinds(k, c1.payload, c2.payload);
  }

  /** The MACed bytes fix both channel keys, the claim and the holder proof's signature. */
  lemma PossessionMessageCommits(k: Crypto, p1: string, q1: string, c1: Claim, s1: Option<string>, p2: string,
                                 q2: string, c2: Claim, s2: Option<string>)
    requires SamePayloadIfSameDigest(k, c1, c2)
    requires PossessionMessage(k, p1, q1, c1, s1) == PossessionMessage(k, p2, q2, c2, s2)
    ensures p1 == p2 && q1 == q2 && c1 == c2 && s1 == s2
  {
    hide Canonicalize, Utf8, Transcript;
    var t1, t2 := Transcript(k, p1, q1, c1, s1), Transcript(k, p2, q2, c2, s2);
    TranscriptEncodable(k, p1, q1, c1, s1);
    TranscriptEncodable(k, p2, q2, c2, s2);
    var tag := Utf8("ca2a/caller-possession/v2/statement") + [0];
    assert PossessionMessage(k, p1, q1, c1, s1)[|tag|..] == Canonicalize(t1).value;
    assert PossessionMessage(k, p2, q2, c2, s2)[|tag|..] == Canonicalize(t2).value;
    CanonicalizeSucceeds(t1);
    CanonicalizeSucceeds(t2);
    CanonicalInjective(t1, t2);
    TranscriptInjective(k, p1, q1, c1, s1, p2, q2, c2, s2);
  }

  /** The MAC key either side derives from its private key and the other's public key. */
  function PossessionKey(k: Crypto, own: Key, peer: string, callerKey: string, calleeKey: string): (r: Option<Bytes>)
  {
    match k.exchange(own, peer)
    case None => None
    case Some(shared) =>
      Some(k.hkdf([], Utf8("ca2a/caller-possession/v2/key"), k.unhex(callerKey) + k.unhex(calleeKey) + shared))
  }

  /** `prove_caller_possession`, for a transcript naming the two keys used. */
  function ProvePossession(k: Crypto, callerPrivate: Key, calleeKey: string, c: Claim, sig: Option<string>)
    : (r: Option<CallerPossession>)
  {
    var callerKey := k.xPublic(callerPrivate);
    match PossessionKey(k, callerPrivate, calleeKey, callerKey, calleeKey)
    case None => None
    case Some(key) =>
      Some(CallerPossession(CALLER_OFFER_VERSION, k.hmac(key, PossessionMessage(k, calleeKey, callerKey, c, sig))))
  }

  /** `verify_caller_possession` does not raise AttestationFailed. */
  predicate PossessionOk(k: Crypto, possession: Option<CallerPossession>, calleePrivate: Key, callerKey: string,
                         c: Claim, sig: Option<string>)
  {
    && possession.Some? && possession.value.version == CALLER_OFFER_VERSION
    && var calleeKey := k.xPublic(calleePrivate);
       var key := PossessionKey(k, calleePrivate, callerKey, callerKey, calleeKey);
       key.Some? && possession.value.mac == k.hmac(key.value, PossessionMessage(k, calleeKey, callerKey, c, sig))
  }

  /** The caller's proof verifies at the callee it was made for. */
  lemma PossessionAgrees(k: Crypto, callerPrivate: Key, calleePrivate: Key, c: Claim, sig: Option<string>)
    requires ExchangeAgrees(k)
    ensures var proof := ProvePossession(k, callerPrivate, k.xPublic(calleePrivate), c, sig);
            proof.Some? && PossessionOk(k, proof, calleePrivate, k.xPublic(callerPrivate), c, sig)
  {
    hide PossessionMessage, Utf8;
    assert k.exchange(callerPrivate, k.xPublic(calleePrivate)) == k.exchange(calleePrivate, k.xPublic(callerPrivate));
  }
}

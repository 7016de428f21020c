/** Which answer the inbound pipeline gives to every request, and what each check demands, said over the
    request's own fields. */
module PeerErrors {
  import opened Basics
  import opened Unicode
  import opened CryptoModel
  import opened Errors
  import opened Chain
  import opened Challenge
  import opened Provenance
  import opened Attestation
  import opened Peer
  import opened PeerFacts

  // ---------------------------------------------------------------- the two proofs

  /** The caller's proof answers a live challenge of this callee with a signature, under the leaf's subject, over
      everything the request asks for. */
  ghost predicate ProvesLeaf(k: Crypto, cfg: Config, now: int, req: PeerRequest)
    requires req.chain != []
  {
    var leaf := req.chain[|req.chain| - 1];
    && req.holderProof.Some? && cfg.audience.Some? && cfg.challengeSecret.Some?
    && var proof := req.holderProof.value;
       && k.verify(leaf.subject,
                   ProofBytes(k, cfg.audience.value,
                              Claim(proof.challenge, leaf.credentialId, leaf.subject, req.requestedCapability,
                                    req.recordId, req.sealedPayload, req.parentRecordHash),
                              if req.callerOffer.None? then None else Some(req.callerOffer.value.channelPublicKey)),
                   proof.signature)
       && VerifyChallenge(k, cfg.challengeSecret.value, proof.challenge, now) == Valid
  }

  lemma HoldsLeafMeans(k: Crypto, cfg: Config, now: int, req: PeerRequest)
    requires req.chain != []
    ensures HoldsLeaf(k, cfg, now, req) <==> ProvesLeaf(k, cfg, now, req)
  {
    hide VerifyChallenge, ProofBytes;
  }

  /** The proof is of this version, and its tag is the MAC of this request's transcript under the key the
      callee's private key and the attested key agree on. */
  ghost predicate ProvesPossession(k: Crypto, own: Key, req: PeerRequest, offer: ChannelOffer)
    requires req.chain != []
  {
    var leaf, attested := req.chain[|req.chain| - 1], offer.report.publicKey;
    && req.callerPossession.Some? && req.callerPossession.value.version == "ca2a-caller-offer-v2"
    && k.exchange(own, attested).Some?
    && req.callerPossession.value.mac ==
       k.hmac(k.hkdf([], Utf8("ca2a/caller-possession/v2/key"),
                     k.unhex(attested) + k.unhex(k.xPublic(own)) + k.exchange(own, attested).value),
              PossessionMessage(k, k.xPublic(own), attested,
                                Claim(offer.report.nonce, leaf.credentialId, leaf.subject, req.requestedCapability,
                                      req.recordId, req.sealedPayload, req.parentRecordHash),
                                if req.holderProof.None? then None else Some(req.holderProof.value.signature)))
  }

  lemma PossessedMeans(k: Crypto, own: Key, req: PeerRequest, offer: ChannelOffer)
    requires req.chain != []
    ensures Possessed(k, own, req, offer) <==> ProvesPossession(k, own, req, offer)
  {
    hide PossessionMessage, Utf8;
  }

  // ---------------------------------------------------------------- appraisal

  /** The caller's offer appraises and its key is held by the party making this request; `level` is what that
      establishes. */
  ghost predicate Established(k: Crypto, cfg: Config, now: int, req: PeerRequest, level: CallerAttestation)
    requires req.chain != []
  {
    && req.callerOffer.Some? && cfg.challengeSecret.Some? && cfg.enclaveKey.Some?
    && var report := req.callerOffer.value.report;
       && report.role == "caller" && report.publicKey == req.callerOffer.value.channelPublicKey
       && (if report.platform == "software-only" then level == SoftwareOnly
           else level == Hardware && cfg.callerVerifier.Some? && cfg.callerVerifier.value(report, report.nonce).Some?)
       && Possessed(k, cfg.enclaveKey.value, req, req.callerOffer.value)
       && VerifyChallenge(k, cfg.challengeSecret.value, report.nonce, now) == Valid
  }

  predicate KnownRung(rung: string) {
    rung == "none" || rung == "any" || rung == "hardware"
  }

  /** Exactly which outcomes are passed on: none without an offer and only where nothing is demanded, and
      otherwise what has been established, if the rung is met. */
  lemma AppraisalIff(k: Crypto, cfg: Config, now: int, req: PeerRequest, effective: set<string>,
                     outcome: CallerAttestation)
    requires req.chain != []
    ensures AppraiseRuntime(k, cfg, now, req, effective) == Ok(outcome) <==>
            && KnownRung(cfg.requirement)
            && if req.callerOffer.None?
               then outcome == NotOffered && req.callerPossession.None? && cfg.requirement == "none"
               else Established(k, cfg, now, req, outcome) && (cfg.requirement == "hardware" ==> outcome == Hardware)
  {
    hide AppraiseCaller, VerifyChallenge, PossessionOk, Denial;
    if req.callerOffer.Some? && cfg.challengeSecret.Some? {
      AppraisedOfferMeans(k, cfg, now, req.callerOffer.value);
    }
  }

  lemma AppraisedOfferMeans(k: Crypto, cfg: Config, now: int, offer: ChannelOffer)
    requires cfg.challengeSecret.Some?
    ensures var r := AppraiseCaller(k, offer, cfg.challengeSecret.value, now, cfg.callerVerifier);
            && (r.Some? <==>
                && VerifyChallenge(k, cfg.challengeSecret.value, offer.report.nonce, now) == Valid
                && offer.report.role == "caller" && offer.report.publicKey == offer.channelPublicKey
                && (offer.report.platform == "software-only" ||
                    (cfg.callerVerifier.Some? && cfg.callerVerifier.value(offer.report, offer.report.nonce).Some?)))
            && (r.Some? ==> (r.value.assurance == "hardware" <==> offer.report.platform != "software-only"))
  {
    hide VerifyChallenge;
    assert "hardware" != "none" by {
      assert |"hardware"| != |"none"|;
    }
  }

  /** What a refusal of the appraisal records: nothing offered where something was demanded; the established
      software level below a hardware floor; a failure in every other case. An unknown rung is a ConfigError. */
  lemma AppraisalRefusalIff(k: Crypto, cfg: Config, now: int, req: PeerRequest, effective: set<string>)
    requires req.chain != [] && AppraiseRuntime(k, cfg, now, req, effective).Err?
    ensures var e := AppraiseRuntime(k, cfg, now, req, effective).error;
            && (e == Refusal(ConfigError, None) <==> !KnownRung(cfg.requirement))
            && (KnownRung(cfg.requirement) ==>
                e.cls == AttestationFailed && e.record.Some? && DenialOf(e.record.value, req, effective))
            && (KnownRung(cfg.requirement) ==>
                  e.record.value.callerAttestation ==
                  if req.callerOffer.None? && req.callerPossession.None? then NotOffered
                  else if Established(k, cfg, now, req, SoftwareOnly) then SoftwareOnly
                  else Failed)
  {
    hide AppraiseCaller, VerifyChallenge, PossessionOk;
    if req.callerOffer.Some? && cfg.challengeSecret.Some? {
      AppraisedOfferMeans(k, cfg, now, req.callerOffer.value);
    }
  }

  // ---------------------------------------------------------------- the whole answer

  /** Every refusal, in order: the chain's own error; a missing or wrong holder proof where one is required; the
      appraisal's refusal; a capability outside the effective scope, with a denial stating the outcome; a payload
      without a key or that does not open. Only the third and fourth carry a record. */
  lemma RefusalIs(k: Crypto, cfg: Config, clocks: Clocks, req: PeerRequest)
    ensures var r := HandlePeerRequest(k, cfg, clocks, req).result;
            var live := Policy(cfg.maxDepth, cfg.trustedRoots, None, cfg.revocations, cfg.maxStaleness);
            match ChainVerdict(k, live, clocks.chain, req.chain)
            case Err(f) => r == Err(Refusal(f.cls, None))
            case Ok(_) =>
              && req.chain != []
              && if cfg.requireHolderProof && !ProvesLeaf(k, cfg, clocks.holder, req)
                 then r == Err(Refusal(HolderProofInvalid, None))
                 else
                   var scope := cfg.intersect(req.chain[|req.chain| - 1].scope);
                   match AppraiseRuntime(k, cfg, clocks.offer, req, scope)
                   case Err(e) => r == Err(e)
                   case Ok(outcome) =>
                     if req.requestedCapability !in scope
                     then && r.Err? && r.error.cls == ScopeNotPermitted && r.error.record.Some?
                          && DenialOf(r.error.record.value, req, scope)
                          && r.error.record.value.callerAttestation == outcome
                     else if req.sealedPayload.Some? &&
                             (cfg.enclaveKey.None? || k.open(req.sealedPayload.value, cfg.enclaveKey.value).None?)
                     then r == Err(Refusal(SealedChannelError, None))
                     else r.Ok?
  {
    hide ChainVerdict, HoldsLeaf, AppraiseRuntime, ProvesLeaf, DenialOf;
    if req.chain != [] {
      HoldsLeafMeans(k, cfg, clocks.holder, req);
    }
  }
}

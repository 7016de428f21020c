/** What the inbound pipeline guarantees for every request, and for requests a conforming caller builds. */
module PeerFacts {
  import opened Basics
  import opened CryptoModel
  import opened Errors
  import opened Delegation
  import opened Chain
  import opened ChainFacts
  import opened Challenge
  import opened Provenance
  import opened Attestation
  import opened Peer

  /** All the checks that come before the payload, with the chain judged live under the callee's own limits. */
  predicate ChecksPass(k: Crypto, cfg: Config, clocks: Clocks, req: PeerRequest) {
    var live := Policy(cfg.maxDepth, cfg.trustedRoots, None, cfg.revocations, cfg.maxStaleness);
    && ChainVerdict(k, live, clocks.chain, req.chain).Ok? && req.chain != []
    && (cfg.requireHolderProof ==> HoldsLeaf(k, cfg, clocks.holder, req))
    && var scope := cfg.intersect(req.chain[|req.chain| - 1].scope);
       AppraiseRuntime(k, cfg, clocks.offer, req, scope).Ok? && req.requestedCapability in scope
  }

  function Effective(cfg: Config, req: PeerRequest): (s: set<string>)
    requires req.chain != []
  {
    cfg.intersect(req.chain[|req.chain| - 1].scope)
  }

  /** The payload is opened exactly when every check has passed and there is a payload and a key. */
  lemma OpenedOnlyAfterChecks(k: Crypto, cfg: Config, clocks: Clocks, req: PeerRequest)
    ensures HandlePeerRequest(k, cfg, clocks, req).payloadOpened <==>
            ChecksPass(k, cfg, clocks, req) && req.sealedPayload.Some? && cfg.enclaveKey.Some?
  {
    hide ChainVerdict, HoldsLeaf, AppraiseRuntime;
  }

  /** A request is accepted exactly when the checks pass and any payload opens. */
  lemma AcceptedIff(k: Crypto, cfg: Config, clocks: Clocks, req: PeerRequest)
    ensures HandlePeerRequest(k, cfg, clocks, req).result.Ok? <==>
            && ChecksPass(k, cfg, clocks, req)
            && (req.sealedPayload.Some? ==>
                cfg.enclaveKey.Some? && k.open(req.sealedPayload.value, cfg.enclaveKey.value).Some?)
  {
    hide ChainVerdict, HoldsLeaf, AppraiseRuntime;
  }

  /** What an accepted call returns, field by field: the request's capability, the effective scope, the opened
      payload, and an allow record for the leaf that states the appraisal outcome and links to the parent the
      request named. */
  lemma AcceptedResult(k: Crypto, cfg: Config, clocks: Clocks, req: PeerRequest)
    requires HandlePeerRequest(k, cfg, clocks, req).result.Ok?
    ensures var r := HandlePeerRequest(k, cfg, clocks, req).result.value;
            var live := Policy(cfg.maxDepth, cfg.trustedRoots, None, cfg.revocations, cfg.maxStaleness);
            && req.chain != [] && ChainVerdict(k, live, clocks.chain, req.chain) == Ok(r.revocation)
            && r.grantedCapability == req.requestedCapability && r.grantedCapability in r.effectiveScope
            && var leaf := req.chain[|req.chain| - 1];
               && r.effectiveScope == cfg.intersect(leaf.scope)
               && AppraiseRuntime(k, cfg, clocks.offer, req, r.effectiveScope) == Ok(r.callerAttestation)
               && r.record == Record(req.recordId, leaf.credentialId, leaf.subject, leaf.scope, req.parentRecordHash,
                                     "allow", None, None, None, r.callerAttestation)
    ensures var r := HandlePeerRequest(k, cfg, clocks, req).result.value;
            match req.sealedPayload
            case None => r.payload == None
            case Some(sealed) =>
              cfg.enclaveKey.Some? && r.payload.Some? && r.payload == k.open(sealed, cfg.enclaveKey.value)
  {
    hide ChainVerdict, HoldsLeaf, AppraiseRuntime;
  }

  /** What a caller seals to the callee's key is what an accepting callee reads. */
  lemma SealedPayloadArrives(k: Crypto, cfg: Config, clocks: Clocks, req: PeerRequest, random: Bytes, plain: Bytes)
    requires SealOpens(k) && cfg.enclaveKey.Some?
    requires req.sealedPayload == Some(k.seal(k.xPublic(cfg.enclaveKey.value), random, plain))
    ensures HandlePeerRequest(k, cfg, clocks, req).result.Ok? <==> ChecksPass(k, cfg, clocks, req)
    ensures HandlePeerRequest(k, cfg, clocks, req).result.Ok? ==>
              HandlePeerRequest(k, cfg, clocks, req).result.value.payload == Some(plain)
  {
    hide HandlePeerRequest, ChecksPass, ChainVerdict, AppraiseRuntime;
    AcceptedIff(k, cfg, clocks, req);
    if HandlePeerRequest(k, cfg, clocks, req).result.Ok? {
      AcceptedResult(k, cfg, clocks, req);
    }
  }

  /** A granted capability is allowed by the local policy and delegated by every hop up to the root. */
  lemma GrantIsDelegatedEverywhere(k: Crypto, cfg: Config, clocks: Clocks, req: PeerRequest)
    requires forall s :: cfg.intersect(s) <= s
    requires HandlePeerRequest(k, cfg, clocks, req).result.Ok?
    ensures var r := HandlePeerRequest(k, cfg, clocks, req).result.value;
            && req.chain != [] && r.grantedCapability in cfg.intersect(req.chain[|req.chain| - 1].scope)
            && forall i | 0 <= i < |req.chain| :: r.grantedCapability in req.chain[i].scope
  {
    hide ChainVerdict, HandlePeerRequest, AppraiseRuntime;
    AcceptedResult(k, cfg, clocks, req);
    AcceptedChain(k, ChainPolicy(cfg), clocks.chain, req.chain);
    var leaf := |req.chain| - 1;
    assert forall i | 0 <= i <= leaf :: req.chain[leaf].scope <= req.chain[i].scope;
  }

  /** With the allow-set policy, the grant is in the allow set too, and the effective scope is exactly what is
      both delegated and allowed. */
  lemma GrantIsLocallyAllowed(k: Crypto, cfg: Config, clocks: Clocks, req: PeerRequest, allow: set<string>)
    requires cfg.intersect == LocalPolicy(allow)
    requires HandlePeerRequest(k, cfg, clocks, req).result.Ok?
    ensures var r := HandlePeerRequest(k, cfg, clocks, req).result.value;
            && r.grantedCapability in allow && req.chain != []
            && forall c :: c in r.effectiveScope <==> c in req.chain[|req.chain| - 1].scope && c in allow
  {
    hide ChainVerdict, HandlePeerRequest, AppraiseRuntime;
    AcceptedResult(k, cfg, clocks, req);
  }

  /** An error carries a denial record only after the chain, and the holder proof when it is required,
      have verified; the record is a linked denial naming the request, the leaf and the effective scope. */
  lemma DenialNeedsAuthentication(k: Crypto, cfg: Config, clocks: Clocks, req: PeerRequest)
    requires var r := HandlePeerRequest(k, cfg, clocks, req).result; r.Err? && r.error.record.Some?
    ensures ChainVerdict(k, ChainPolicy(cfg), clocks.chain, req.chain).Ok? && req.chain != []
    ensures cfg.requireHolderProof ==> HoldsLeaf(k, cfg, clocks.holder, req)
    ensures var r := HandlePeerRequest(k, cfg, clocks, req).result.error;
            r.cls in {AttestationFailed, ScopeNotPermitted} && DenialOf(r.record.value, req, Effective(cfg, req))
  {
    hide ChainVerdict, HoldsLeaf, AppraiseRuntime, DenialOf, Denial;
    if ChainVerdict(k, ChainPolicy(cfg), clocks.chain, req.chain).Ok? {
      RefusalRecord(k, cfg, clocks.offer, req, Effective(cfg, req));
    }
  }

  /** Whatever the appraisal refuses is an AttestationFailed with a denial, or a configuration error without. */
  lemma RefusalRecord(k: Crypto, cfg: Config, now: int, req: PeerRequest, effective: set<string>)
    requires req.chain != []
    ensures var r := AppraiseRuntime(k, cfg, now, req, effective);
            r.Err? && r.error.record.Some? ==>
              r.error.cls == AttestationFailed && DenialOf(r.error.record.value, req, effective)
  {
    hide AppraiseCaller, PossessionOk, Denial, DenialOf;
  }

  /** What an outcome means. No offer: recorded so, and only where nothing is demanded. An offer: a live
      challenge of this callee in a caller-role report, the attested key held by the party making this very
      request, and hardware exactly when a verifier vouched for the report. */
  predicate Earned(k: Crypto, cfg: Config, now: int, req: PeerRequest, outcome: CallerAttestation)
    requires req.chain != []
  {
    && (outcome == NotOffered <==> req.callerOffer.None?)
    && (cfg.requirement == REQUIRE_HARDWARE ==> outcome == Hardware)
    && match req.callerOffer
       case None => req.callerPossession.None? && cfg.requirement == REQUIRE_NONE
       case Some(offer) =>
         && cfg.challengeSecret.Some? && cfg.enclaveKey.Some?
         && offer.report.role == ROLE_CALLER && offer.report.publicKey == offer.channelPublicKey
         && outcome == (if offer.report.platform != SOFTWARE_ONLY then Hardware else SoftwareOnly)
         && (outcome == Hardware ==>
             cfg.callerVerifier.Some? && cfg.callerVerifier.value(offer.report, offer.report.nonce).Some?)
         && Possessed(k, cfg.enclaveKey.value, req, offer)
         && VerifyChallenge(k, cfg.challengeSecret.value, offer.report.nonce, now) == Valid
  }

  /** The key the report attests was used to authenticate this very request. */
  predicate Possessed(k: Crypto, calleeKey: Key, req: PeerRequest, offer: ChannelOffer)
    requires req.chain != []
  {
    PossessionOk(k, req.callerPossession, calleeKey, offer.report.publicKey, ClaimOf(req, offer.report.nonce),
                 HolderSignature(req))
  }

  lemma AppraisedIsEarned(k: Crypto, cfg: Config, now: int, req: PeerRequest, effective: set<string>,
                          outcome: CallerAttestation)
    requires req.chain != [] && AppraiseRuntime(k, cfg, now, req, effective) == Ok(outcome)
    ensures Earned(k, cfg, now, req, outcome)
  {
    hide AppraiseCaller, PossessionOk, VerifyChallenge;
    if req.callerOffer.Some? {
      AppraisedCaller(k, req.callerOffer.value, cfg.challengeSecret.value, now, cfg.callerVerifier);
    }
  }

  /** The outcome on the record of an accepted call has been earned by this request. */
  lemma RecordedOutcomeIsEarned(k: Crypto, cfg: Config, clocks: Clocks, req: PeerRequest)
    requires HandlePeerRequest(k, cfg, clocks, req).result.Ok?
    ensures req.chain != []
            && Earned(k, cfg, clocks.offer, req,
                      HandlePeerRequest(k, cfg, clocks, req).result.value.record.callerAttestation)
  {
    hide ChainVerdict, HandlePeerRequest, AppraiseRuntime, Earned;
    AcceptedResult(k, cfg, clocks, req);
    AppraisedIsEarned(k, cfg, clocks.offer, req, Effective(cfg, req),
                      HandlePeerRequest(k, cfg, clocks, req).result.value.callerAttestation);
  }

  /** The one error that is not the program's own escapes exactly on a negative staleness bound. */
  lemma EscapingErrorIff(k: Crypto, cfg: Config, clocks: Clocks, req: PeerRequest)
    ensures var r := HandlePeerRequest(k, cfg, clocks, req).result;
            r.Err? && r.error.cls == PyValueError <==> BadArguments(ChainPolicy(cfg))
  {
    hide ChainVerdict, HoldsLeaf, AppraiseRuntime, BadArguments;
    ArgumentErrorIff(k, ChainPolicy(cfg), clocks.chain, req.chain);
    if ChainVerdict(k, ChainPolicy(cfg), clocks.chain, req.chain).Ok? {
      AppraisalErrors(k, cfg, clocks.offer, req, Effective(cfg, req));
    }
  }

  lemma AppraisalErrors(k: Crypto, cfg: Config, now: int, req: PeerRequest, effective: set<string>)
    requires req.chain != []
    ensures var r := AppraiseRuntime(k, cfg, now, req, effective);
            r.Err? ==> r.error.cls == AttestationFailed || r.error.cls == ConfigError
  {
    hide AppraiseCaller, PossessionOk, Denial;
  }

  predicate WeakerOrEqual(a: string, b: string) {
    || (a == REQUIRE_NONE && b in {REQUIRE_NONE, REQUIRE_ANY, REQUIRE_HARDWARE})
    || (a == REQUIRE_ANY && b in {REQUIRE_ANY, REQUIRE_HARDWARE})
    || (a == REQUIRE_HARDWARE && b == REQUIRE_HARDWARE)
  }

  /** What is accepted at a rung is accepted at every weaker rung, with the same result and record. */
  lemma WeakerRungAccepts(k: Crypto, cfg: Config, clocks: Clocks, req: PeerRequest, weaker: string)
    requires WeakerOrEqual(weaker, cfg.requirement)
    requires HandlePeerRequest(k, cfg, clocks, req).result.Ok?
    ensures HandlePeerRequest(k, cfg.(requirement := weaker), clocks, req) == HandlePeerRequest(k, cfg, clocks, req)
  {
    hide ChainVerdict, AppraiseCaller, PossessionOk, HolderProofOk;
    assert ChainPolicy(cfg.(requirement := weaker)) == ChainPolicy(cfg);
  }

  // ---------------------------------------------------------------- the caller's side

  /** The caller's own offer: the private key it keeps and the offer a provider minted for it. */
  datatype OwnOffer = OwnOffer(callerPrivate: Key, offer: ChannelOffer)

  /** The request `send_task` assembles from the handshake: the callee's key, its challenge, the sealed
      payload and the caller's offer. The holder proof comes after both, the possession proof last. */
  function BuildRequest(k: Crypto, holderKey: Key, chain: seq<Credential>, capability: string, recordId: string,
                        parent: Option<string>, calleeKey: string, challenge: Option<string>,
                        sealed: Option<Bytes>, own: Option<OwnOffer>): (r: Result<PeerRequest, ErrorClass>)
    requires chain != []
  {
    if challenge.None? then Err(AttestationFailed)
    else
      var leaf := chain[|chain| - 1];
      if k.edPublic(holderKey) != leaf.subject then Err(HolderProofInvalid)
      else
        var bare := PeerRequest(chain, capability, recordId, sealed, parent,
                                if own.None? then None else Some(own.value.offer), None, None);
        var claim := ClaimOf(bare, challenge.value);
        var proof := HolderProof(challenge.value, k.sign(holderKey, ProofBytes(k, calleeKey, claim, CallerKey(bare))));
        if own.None? then Ok(bare.(holderProof := Some(proof)))
        else if k.xPublic(own.value.callerPrivate) != own.value.offer.channelPublicKey then Err(AttestationFailed)
        else
          match ProvePossession(k, own.value.callerPrivate, calleeKey, claim, Some(proof.signature))
          case None => Err(AttestationFailed)
          case Some(p) => Ok(bare.(holderProof := Some(proof), callerPossession := Some(p)))
  }

  /** The callee a caller shook hands with: it offers its enclave key and issued the challenge. */
  predicate Callee(k: Crypto, cfg: Config) {
    cfg.enclaveKey.Some? && cfg.audience == Some(k.xPublic(cfg.enclaveKey.value)) && cfg.challengeSecret.Some?
  }

  /** What the caller's offer must satisfy to appraise at the callee. */
  predicate OfferAppraises(k: Crypto, cfg: Config, now: int, challenge: string, own: OwnOffer) {
    && cfg.challengeSecret.Some?
    && own.offer.channelPublicKey == k.xPublic(own.callerPrivate) && own.offer.report.nonce == challenge
    && AppraiseCaller(k, own.offer, cfg.challengeSecret.value, now, cfg.callerVerifier).Some?
  }

  /** Every request built by the caller's steps passes the callee's holder check, and its possession
      check when it carries an offer, while the challenge is valid and the offer appraises. */
  lemma BuiltRequestAuthenticates(k: Crypto, cfg: Config, clocks: Clocks, holderKey: Key, chain: seq<Credential>,
                                  capability: string, recordId: string, parent: Option<string>,
                                  challenge: string, sealed: Option<Bytes>, own: Option<OwnOffer>)
    requires SignaturesVerify(k) && ExchangeAgrees(k) && Callee(k, cfg)
    requires chain != [] && k.edPublic(holderKey) == chain[|chain| - 1].subject
    requires VerifyChallenge(k, cfg.challengeSecret.value, challenge, clocks.holder) == Valid
    requires own.Some? ==> OfferAppraises(k, cfg, clocks.offer, challenge, own.value)
    ensures var r :=
            BuildRequest(k, holderKey, chain, capability, recordId, parent, k.xPublic(cfg.enclaveKey.value),
                         Some(challenge), sealed, own);
            && r.Ok? && r.value.chain == chain && r.value.requestedCapability == capability
            && r.value.sealedPayload == sealed
            && r.value.recordId == recordId && r.value.parentRecordHash == parent
            && r.value.callerOffer.Some? == own.Some?
            && HoldsLeaf(k, cfg, clocks.holder, r.value)
            && (own.Some? ==> r.value.callerOffer == Some(own.value.offer)
                              && PossessionOk(k, r.value.callerPossession, cfg.enclaveKey.value,
                                              own.value.offer.report.publicKey,
                                              ClaimOf(r.value, challenge), HolderSignature(r.value)))
            && (own.None? ==> r.value.callerPossession.None?)
  {
    hide VerifyChallenge, ProofBytes, ProvePossession, PossessionOk;
    var calleeKey := k.xPublic(cfg.enclaveKey.value);
    var bare := PeerRequest(chain, capability, recordId, sealed, parent,
                            if own.None? then None else Some(own.value.offer), None, None);
    var claim := ClaimOf(bare, challenge);
    var sig := k.sign(holderKey, ProofBytes(k, calleeKey, claim, CallerKey(bare)));
    assert k.verify(k.edPublic(holderKey), ProofBytes(k, calleeKey, claim, CallerKey(bare)), sig);
    if own.Some? {
      PossessionAgrees(k, own.value.callerPrivate, cfg.enclaveKey.value, claim, Some(sig));
      AppraisedCaller(k, own.value.offer, cfg.challengeSecret.value, clocks.offer, cfg.callerVerifier);
    }
  }

  /** The assurance the callee demands is met by what the caller offers. */
  predicate RungMet(k: Crypto, cfg: Config, now: int, own: Option<OwnOffer>) {
    || cfg.requirement == REQUIRE_NONE
    || (cfg.requirement == REQUIRE_ANY && own.Some?)
    || (cfg.requirement == REQUIRE_HARDWARE && own.Some? && cfg.challengeSecret.Some?
        && var peer := AppraiseCaller(k, own.value.offer, cfg.challengeSecret.value, now, cfg.callerVerifier);
           peer.Some? && peer.value.assurance == "hardware")
  }

  /** For a conforming caller the callee's answer is decided by authority alone: the chain verifies, the
      capability is in the effective scope, the demanded rung is met and the payload opens. */
  lemma BuiltRequestAccepted(k: Crypto, cfg: Config, clocks: Clocks, holderKey: Key, chain: seq<Credential>,
                             capability: string, recordId: string, parent: Option<string>,
                             challenge: string, sealed: Option<Bytes>, own: Option<OwnOffer>)
    requires SignaturesVerify(k) && ExchangeAgrees(k) && Callee(k, cfg)
    requires chain != [] && k.edPublic(holderKey) == chain[|chain| - 1].subject
    requires VerifyChallenge(k, cfg.challengeSecret.value, challenge, clocks.holder) == Valid
    requires own.Some? ==> OfferAppraises(k, cfg, clocks.offer, challenge, own.value)
    ensures var r :=
            BuildRequest(k, holderKey, chain, capability, recordId, parent, k.xPublic(cfg.enclaveKey.value),
                         Some(challenge), sealed, own);
            && r.Ok?
            && (HandlePeerRequest(k, cfg, clocks, r.value).result.Ok? <==>
                && ChainVerdict(k, ChainPolicy(cfg), clocks.chain, chain).Ok?
                && RungMet(k, cfg, clocks.offer, own)
                && capability in cfg.intersect(chain[|chain| - 1].scope)
                && (sealed.Some? ==> k.open(sealed.value, cfg.enclaveKey.value).Some?))
            && (HandlePeerRequest(k, cfg, clocks, r.value).result.Ok? ==>
                  HandlePeerRequest(k, cfg, clocks, r.value).result.value.payload ==
                  if sealed.None? then None else k.open(sealed.value, cfg.enclaveKey.value))
  {
    hide VerifyChallenge, ChainVerdict, HoldsLeaf, PossessionOk, BuildRequest, AppraiseCaller, HandlePeerRequest;
    BuiltRequestAuthenticates(k, cfg, clocks, holderKey, chain, capability, recordId, parent, challenge, sealed, own);
    var req := BuildRequest(k, holderKey, chain, capability, recordId, parent, k.xPublic(cfg.enclaveKey.value),
                            Some(challenge), sealed, own).value;
    AcceptedIff(k, cfg, clocks, req);
    if HandlePeerRequest(k, cfg, clocks, req).result.Ok? {
      AcceptedResult(k, cfg, clocks, req);
    }
  }

  // ---------------------------------------------------------------- one proof, one request

  function Leaf(req: PeerRequest): (c: Credential)
    requires req.chain != []
  {
    req.chain[|req.chain| - 1]
  }

  /** `sig` is not a valid signature on two different messages. */
  predicate SignsOneMessage(k: Crypto, sig: string, p: string, m: Bytes, q: string, n: Bytes) {
    k.verify(p, m, sig) && k.verify(q, n, sig) ==> m == n
  }

  /** The two MAC computations do not collide. */
  predicate MacsOneMessage(k: Crypto, p: Bytes, m: Bytes, q: Bytes, n: Bytes) {
    k.hmac(p, m) == k.hmac(q, n) ==> m == n
  }

  /** One holder signature never verifies for two requests that differ in a committed field, unless it
      verifies for two different messages or two payloads collide. */
  lemma HolderProofIsForOneRequest(k: Crypto, c1: Config, r1: PeerRequest, t1: int, c2: Config, r2: PeerRequest,
                                   t2: int)
    requires r1.chain != [] && r2.chain != [] && HoldsLeaf(k, c1, t1, r1) && HoldsLeaf(k, c2, t2, r2)
    requires r1.holderProof.value.signature == r2.holderProof.value.signature
    requires SignsOneMessage(k, r1.holderProof.value.signature, Leaf(r1).subject, SignedBy(k, c1, r1),
                             Leaf(r2).subject, SignedBy(k, c2, r2))
    requires r1.sealedPayload.Some? && r2.sealedPayload.Some? ==>
             NoCollision(k, r1.sealedPayload.value, r2.sealedPayload.value)
    ensures c1.audience == c2.audience && r1.holderProof.value.challenge == r2.holderProof.value.challenge
    ensures Leaf(r1).credentialId == Leaf(r2).credentialId && Leaf(r1).subject == Leaf(r2).subject
    ensures r1.requestedCapability == r2.requestedCapability && r1.recordId == r2.recordId
    ensures r1.sealedPayload == r2.sealedPayload && r1.parentRecordHash == r2.parentRecordHash
    ensures r1.callerOffer.Some? <==> r2.callerOffer.Some?
    ensures r1.callerOffer.Some? ==> r1.callerOffer.value.channelPublicKey == r2.callerOffer.value.channelPublicKey
  {
    hide ProofBytes, VerifyChallenge;
    ProofBytesCommit(k, c1.audience.value, ClaimOf(r1, r1.holderProof.value.challenge), CallerKey(r1),
                     c2.audience.value, ClaimOf(r2, r2.holderProof.value.challenge), CallerKey(r2));
  }

  /** The bytes a holder proof must be a signature over. */
  function SignedBy(k: Crypto, cfg: Config, req: PeerRequest): (b: Bytes)
    requires req.chain != [] && req.holderProof.Some? && cfg.audience.Some?
  {
    ProofBytes(k, cfg.audience.value, ClaimOf(req, req.holderProof.value.challenge), CallerKey(req))
  }

  /** One possession MAC never verifies for two requests that differ in a committed field, including the
      holder proof they carry, unless the two MAC computations or the two payloads collide. */
  lemma PossessionIsForOneRequest(k: Crypto, proof: CallerPossession, d1: Key, x1: string, c1: Claim,
                                  s1: Option<string>,
                                  d2: Key, x2: string, c2: Claim, s2: Option<string>)
    requires PossessionOk(k, Some(proof), d1, x1, c1, s1) && PossessionOk(k, Some(proof), d2, x2, c2, s2)
    requires MacsOneMessage(k, PossessionKey(k, d1, x1, x1, k.xPublic(d1)).value,
                            PossessionMessage(k, k.xPublic(d1), x1, c1, s1),
                            PossessionKey(k, d2, x2, x2, k.xPublic(d2)).value,
                              PossessionMessage(k, k.xPublic(d2), x2, c2, s2))
    requires SamePayloadIfSameDigest(k, c1, c2)
    ensures k.xPublic(d1) == k.xPublic(d2) && x1 == x2 && c1 == c2 && s1 == s2
  {
    hide PossessionMessage, PossessionKey;
    PossessionMessageCommits(k, k.xPublic(d1), x1, c1, s1, k.xPublic(d2), x2, c2, s2);
  }

  /** The same between two requests a callee checks: with one possession proof they agree in the leaf, the
      capability, the record, the payload, the parent, the challenge, both channel keys and the holder proof. */
  lemma PossessionIsForOneCall(k: Crypto, d1: Key, r1: PeerRequest, o1: ChannelOffer, d2: Key, r2: PeerRequest,
                               o2: ChannelOffer)
    requires r1.chain != [] && r2.chain != [] && r1.callerPossession == r2.callerPossession
    requires Possessed(k, d1, r1, o1) && Possessed(k, d2, r2, o2)
    requires var x1, x2 := o1.report.publicKey, o2.report.publicKey;
             MacsOneMessage(k, PossessionKey(k, d1, x1, x1, k.xPublic(d1)).value,
                            PossessionMessage(k, k.xPublic(d1), x1, ClaimOf(r1, o1.report.nonce), HolderSignature(r1)),
                            PossessionKey(k, d2, x2, x2, k.xPublic(d2)).value,
                            PossessionMessage(k, k.xPublic(d2), x2, ClaimOf(r2, o2.report.nonce), HolderSignature(r2)))
    requires r1.sealedPayload.Some? && r2.sealedPayload.Some? ==>
             NoCollision(k, r1.sealedPayload.value, r2.sealedPayload.value)
    ensures Leaf(r1).credentialId == Leaf(r2).credentialId && Leaf(r1).subject == Leaf(r2).subject
    ensures r1.requestedCapability == r2.requestedCapability && r1.recordId == r2.recordId
    ensures r1.sealedPayload == r2.sealedPayload && r1.parentRecordHash == r2.parentRecordHash
    ensures o1.report.nonce == o2.report.nonce && o1.report.publicKey == o2.report.publicKey
    ensures k.xPublic(d1) == k.xPublic(d2) && (r1.holderProof.Some? <==> r2.holderProof.Some?)
    ensures r1.holderProof.Some? ==> r1.holderProof.value.signature == r2.holderProof.value.signature
  {
    hide PossessionMessage, PossessionKey;
    PossessionIsForOneRequest(k, r1.callerPossession.value, d1, o1.report.publicKey, ClaimOf(r1, o1.report.nonce),
                              HolderSignature(r1), d2, o2.report.publicKey, ClaimOf(r2, o2.report.nonce),
                                HolderSignature(r2));
  }
}

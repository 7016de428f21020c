/** The inbound pipeline of peer.py: what a callee checks, in order, before it opens a payload. */
module Peer {
  import opened Basics
  import opened CryptoModel
  import opened Errors
  import opened Delegation
  import opened Chain
  import opened Provenance
  import opened Attestation

  datatype PeerRequest = PeerRequest(
    chain: seq<Credential>,
    requestedCapability: string,
    recordId: string,
    sealedPayload: Option<Bytes>,
    parentRecordHash: Option<string>,
    callerOffer: Option<ChannelOffer>,
    holderProof: Option<HolderProof>,
    callerPossession: Option<CallerPossession>)

  /** The keyword arguments of `handle_peer_request`. `intersect` is the local policy. */
  datatype Config = Config(
    intersect: set<string> -> set<string>,
    enclaveKey: Option<Key>,
    maxDepth: int,
    challengeSecret: Option<Bytes>,
    requirement: string,
    callerVerifier: Option<Verifier>,
    audience: Option<string>,
    requireHolderProof: bool,
    trustedRoots: set<string>,
    revocations: Option<Snapshot>,
    maxStaleness: Option<int>)

  const REQUIRE_NONE: string := "none"
  const REQUIRE_ANY: string := "any"
  const REQUIRE_HARDWARE: string := "hardware"

  /** `LocalPolicy.intersect`. */
  function LocalPolicy(allow: set<string>): (f: set<string> -> set<string>)
  {
    (delegated: set<string>) => delegated * allow
  }

  /** The clock as read by the chain check, the holder check and the appraisal. */
  datatype Clocks = Clocks(chain: int, holder: int, offer: int)

  datatype PeerResult = PeerResult(
    effectiveScope: set<string>,
    grantedCapability: string,
    record: Record,
    payload: Option<Bytes>,
    callerAttestation: CallerAttestation,
    revocation: RevocationStatus)

  /** A raised error and the denial record it carries, if any. */
  datatype Refusal = Refusal(cls: ErrorClass, record: Option<Record>)

  /** What one call did: its result, and whether `open_sealed` was reached. */
  datatype Handled = Handled(result: Result<PeerResult, Refusal>, payloadOpened: bool)

  function ChainPolicy(cfg: Config): (p: Policy)
  {
    Policy(cfg.maxDepth, cfg.trustedRoots, None, cfg.revocations, cfg.maxStaleness)
  }

  function ClaimOf(req: PeerRequest, challenge: string): (c: Claim)
    requires req.chain != []
  {
    var leaf := req.chain[|req.chain| - 1];
    Claim(challenge, leaf.credentialId, leaf.subject, req.requestedCapability, req.recordId, req.sealedPayload,
          req.parentRecordHash)
  }

  function CallerKey(req: PeerRequest): (x: Option<string>)
  {
    if req.callerOffer.None? then None else Some(req.callerOffer.value.channelPublicKey)
  }

  /** `verify_caller_holds_leaf` does not raise HolderProofInvalid. */
  predicate HoldsLeaf(k: Crypto, cfg: Config, now: int, req: PeerRequest)
    requires req.chain != []
  {
    && req.holderProof.Some? && cfg.audience.Some? && cfg.challengeSecret.Some?
    && HolderProofOk(k, req.holderProof.value, cfg.audience.value, cfg.challengeSecret.value, now,
                     ClaimOf(req, req.holderProof.value.challenge), CallerKey(req))
  }

  function HolderSignature(req: PeerRequest): (s: Option<string>)
  {
    if req.holderProof.None? then None else Some(req.holderProof.value.signature)
  }

  /** A denial record naming the request, the leaf it acted under and the effective scope. */
  predicate DenialOf(r: Record, req: PeerRequest, effective: set<string>)
    requires req.chain != []
  {
    && Denied(r) && r.recordId == req.recordId && Matches(r, req.chain[|req.chain| - 1])
    && r.scope == req.chain[|req.chain| - 1].scope
    && r.parentRecordHash == req.parentRecordHash && r.requestedCapability == Some(req.requestedCapability)
    && r.effectiveScope == Some(effective)
  }

  function Denial(req: PeerRequest, effective: set<string>, reason: string, outcome: CallerAttestation): (r: Record)
    requires req.chain != []
    ensures DenialOf(r, req, effective) && r.denialReason == Some(reason) && r.callerAttestation == outcome
  {
    DenialRecordFor(req.chain[|req.chain| - 1], req.recordId, req.parentRecordHash, req.requestedCapability,
                    effective, reason, outcome)
  }

  /** `appraise_caller_runtime`. An offer that is present and does not appraise is refused at every rung. */
  function AppraiseRuntime(k: Crypto, cfg: Config, now: int, req: PeerRequest, effective: set<string>)
    : (r: Result<CallerAttestation, Refusal>)
    requires req.chain != []
  {
    if cfg.requirement !in {REQUIRE_NONE, REQUIRE_ANY, REQUIRE_HARDWARE} then Err(Refusal(ConfigError, None))
    else if req.callerOffer.None? then
      if req.callerPossession.Some? then Refuse(req, effective, "possession without offer", Failed)
      else if cfg.requirement == REQUIRE_NONE then Ok(NotOffered)
      else Refuse(req, effective, "caller attestation required", NotOffered)
    else if cfg.challengeSecret.None? then Refuse(req, effective, "no challenges issued", Failed)
    else
      var offer := req.callerOffer.value;
      match AppraiseCaller(k, offer, cfg.challengeSecret.value, now, cfg.callerVerifier)
      case None => Refuse(req, effective, "attestation did not appraise", Failed)
      case Some(peer) =>
        if cfg.enclaveKey.None? then Refuse(req, effective, "no channel key", Failed)
        else if !PossessionOk(k, req.callerPossession, cfg.enclaveKey.value, offer.report.publicKey,
                              ClaimOf(req, offer.report.nonce), HolderSignature(req)) then
          Refuse(req, effective, "possession did not verify", Failed)
        else
          var outcome := if peer.assurance == "hardware" then Hardware else SoftwareOnly;
          if cfg.requirement == REQUIRE_HARDWARE && outcome != Hardware
          then Refuse(req, effective, "hardware-attested caller required", outcome)
          else Ok(outcome)
  }

  function Refuse(req: PeerRequest, effective: set<string>, reason: string, outcome: CallerAttestation)
    : (r: Result<CallerAttestation, Refusal>)
    requires req.chain != []
  {
    Err(Refusal(AttestationFailed, Some(Denial(req, effective, reason, outcome))))
  }

  /** `decide_capability`. */
  function DecideCapability(req: PeerRequest, effective: set<string>, outcome: CallerAttestation)
    : (r: Result<Record, Refusal>)
    requires req.chain != []
  {
    if req.requestedCapability !in effective
    then Err(Refusal(ScopeNotPermitted, Some(Denial(req, effective, "capability not in the effective scope", outcome))))
    else Ok(RecordFor(req.chain[|req.chain| - 1], req.recordId, req.parentRecordHash, outcome))
  }

  /** `handle_peer_request`: chain, holder, policy, appraisal, capability, and only then the payload. */
  function HandlePeerRequest(k: Crypto, cfg: Config, clocks: Clocks, req: PeerRequest): (h: Handled)
  {
    match ChainVerdict(k, ChainPolicy(cfg), clocks.chain, req.chain)
    case Err(f) => Handled(Err(Refusal(f.cls, None)), false)
    case Ok(revocation) =>
      if cfg.requireHolderProof && !HoldsLeaf(k, cfg, clocks.holder, req) then
        Handled(Err(Refusal(HolderProofInvalid, None)), false)
      else
        var effective := cfg.intersect(req.chain[|req.chain| - 1].scope);
        match AppraiseRuntime(k, cfg, clocks.offer, req, effective)
        case Err(r) => Handled(Err(r), false)
        case Ok(outcome) =>
          match DecideCapability(req, effective, outcome)
          case Err(r) => Handled(Err(r), false)
          case Ok(record) =>
            if req.sealedPayload.None? then
              Handled(Ok(PeerResult(effective, req.requestedCapability, record, None, outcome, revocation)), false)
            else if cfg.enclaveKey.None? then Handled(Err(Refusal(SealedChannelError, None)), false)
            else
              match k.open(req.sealedPayload.value, cfg.enclaveKey.value)
              case None => Handled(Err(Refusal(SealedChannelError, None)), true)
              case Some(b) =>
                Handled(Ok(PeerResult(effective, req.requestedCapability, record, Some(b), outcome, revocation)), true)
  }
}

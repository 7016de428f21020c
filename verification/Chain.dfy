/** `verify_chain` and `_check_revocation`: the loops and the specification they refine. */
module Chain {
  import opened Basics
  import opened Canonical
  import opened CryptoModel
  import opened Errors
  import opened Delegation

  /** The keyword arguments of `verify_chain`. */
  datatype Policy = Policy(
    maxDepth: int,
    trustedRoots: set<string>,
    atTime: Option<int>,
    revocations: Option<Snapshot>,
    maxStaleness: Option<int>)

  datatype RevocationStatus = RevocationStatus(checked: bool, asOf: Option<int>)

  /** The raised class, and the hop it names when it names one. */
  datatype Failure = Failure(cls: ErrorClass, hop: Option<nat>)

  predicate BadArguments(p: Policy) {
    || (p.atTime.Some? && p.atTime.value < 0)
    || (p.maxStaleness.Some? && p.maxStaleness.value < 0)
  }

  function Now(p: Policy, clock: int): (t: int)
  {
    if p.atTime.Some? then p.atTime.value else clock
  }

  // ---------------------------------------------------------------- structural checks

  /** The checks on one hop that do not look at the rest of the chain, in order. */
  function OwnError(k: Crypto, maxDepth: int, now: int, c: Credential, seen: bool): (e: Option<ErrorClass>)
  {
    if !SignatureOk(k, c) then Some(InvalidCredential)
    else if c.notBefore.Some? && now < c.notBefore.value then Some(CredentialNotYetValid)
    else if c.notAfter.Some? && now > c.notAfter.value then Some(CredentialExpired)
    else if seen then Some(CredentialReplay)
    else if c.depth > maxDepth then Some(DelegationDepthExceeded)
    else None
  }

  /** The checks of a hop against its predecessor, in order. */
  function LinkError(prev: Option<Credential>, c: Credential): (e: Option<ErrorClass>)
  {
    match prev
    case None =>
      if c.parentId.Some? then Some(BrokenDelegationLink)
      else if c.depth != 0 then Some(BrokenDelegationLink)
      else None
    case Some(p) =>
      if c.parentId != Some(p.credentialId) then Some(BrokenDelegationLink)
      else if c.issuer != p.subject then Some(BrokenDelegationLink)
      else if c.depth != p.depth + 1 then Some(BrokenDelegationLink)
      else if !(c.scope <= p.scope) then Some(ScopeEscalation)
      else None
  }

  predicate IdSeen(chain: seq<Credential>, i: nat)
    requires i < |chain|
  {
    exists j :: 0 <= j < i && chain[j].credentialId == chain[i].credentialId
  }

  /** The first check hop `i` fails, or None. */
  function HopError(k: Crypto, p: Policy, clock: int, chain: seq<Credential>, i: nat): (e: Option<ErrorClass>)
    requires i < |chain|
  {
    var own := OwnError(k, p.maxDepth, Now(p, clock), chain[i], IdSeen(chain, i));
    if own.Some? then own
    else LinkError(if i == 0 then None else Some(chain[i - 1]), chain[i])
  }

  // ---------------------------------------------------------------- revocation scan

  /** The issuers of hops 0..i, who may revoke hop `i`. */
  function Authorities(chain: seq<Credential>, i: nat): (s: set<string>)
    requires i <= |chain|
  {
    set j | 0 <= j < i :: chain[j].issuer
  }

  predicate Digestible(chain: seq<Credential>) {
    forall i | 0 <= i < |chain| :: Canonicalize(CredentialBody(chain[i])).Ok?
  }

  predicate Revoked(k: Crypto, ss: seq<Statement>, atTime: Option<int>, chain: seq<Credential>, i: nat)
    requires Digestible(chain) && i < |chain|
  {
    FirstEffective(ss, CredentialDigest(k, chain[i]), Authorities(chain, i + 1), atTime).Some?
  }

  predicate Stale(s: Snapshot, now: int, maxStaleness: Option<int>) {
    maxStaleness.Some? && now - s.asOf > maxStaleness.value
  }

  /** The first revoked hop from `i` on. */
  function FirstRevokedHop(k: Crypto, ss: seq<Statement>, atTime: Option<int>, chain: seq<Credential>, i: nat)
    : (h: Option<nat>)
    requires Digestible(chain) && i <= |chain|
    decreases |chain| - i
  {
    if i == |chain| then None
    else if Revoked(k, ss, atTime, chain, i) then Some(i)
    else FirstRevokedHop(k, ss, atTime, chain, i + 1)
  }

  lemma {:induction false} FirstRevokedHopIsFirst(k: Crypto, ss: seq<Statement>, atTime: Option<int>,
                                                  chain: seq<Credential>, i: nat)
    requires Digestible(chain) && i <= |chain|
    ensures var h := FirstRevokedHop(k, ss, atTime, chain, i);
            && (h.Some? ==> i <= h.value < |chain| && Revoked(k, ss, atTime, chain, h.value))
            && (forall j | i <= j < (if h.Some? then h.value else |chain|) :: !Revoked(k, ss, atTime, chain, j))
    decreases |chain| - i
  {
    hide Revoked;
    if i < |chain| && !Revoked(k, ss, atTime, chain, i) {
      FirstRevokedHopIsFirst(k, ss, atTime, chain, i + 1);
    }
  }

  function RevocationVerdict(k: Crypto, p: Policy, clock: int, chain: seq<Credential>)
    : (r: Result<RevocationStatus, Failure>)
    requires Digestible(chain)
  {
    match p.revocations
    case None =>
      if p.maxStaleness.Some? then Err(Failure(RevocationStatusUnknown, None)) else Ok(RevocationStatus(false, None))
    case Some(s) =>
      var h := FirstRevokedHop(k, s.statements, p.atTime, chain, 0);
      if h.Some? then Err(Failure(CredentialRevoked, h))
      else if Stale(s, Now(p, clock), p.maxStaleness) then Err(Failure(RevocationStatusUnknown, None))
      else Ok(RevocationStatus(true, Some(s.asOf)))
  }

  /** `_check_revocation`: grow the authority set hop by hop, then judge staleness. */
  method CheckRevocation(k: Crypto, p: Policy, clock: int, chain: seq<Credential>)
    returns (r: Result<RevocationStatus, Failure>)
    requires Digestible(chain)
    requires p.revocations.Some? ==> Indexed(p.revocations.value)
    ensures r == RevocationVerdict(k, p, clock, chain)
  {
    hide Canonicalize, CredentialBody, FirstEffective;
    if p.revocations.None? {
      if p.maxStaleness.Some? {
        return Err(Failure(RevocationStatusUnknown, None));
      }
      return Ok(RevocationStatus(false, None));
    }
    var snap := p.revocations.value;
    var authorities: set<string> := {};
    for i := 0 to |chain|
      invariant authorities == Authorities(chain, i)
      invariant FirstRevokedHop(k, snap.statements, p.atTime, chain, 0)
                == FirstRevokedHop(k, snap.statements, p.atTime, chain, i)
    {
      authorities := authorities + {chain[i].issuer};
      assert authorities == Authorities(chain, i + 1);
      var stmt := EffectiveRevocation(snap, CredentialDigest(k, chain[i]), authorities, p.atTime);
      if stmt.Some? {
        return Err(Failure(CredentialRevoked, Some(i)));
      }
    }
    if p.maxStaleness.Some? && Now(p, clock) - snap.asOf > p.maxStaleness.value {
      return Err(Failure(RevocationStatusUnknown, None));
    }
    return Ok(RevocationStatus(true, Some(snap.asOf)));
  }

  // ---------------------------------------------------------------- the whole verdict

  /** The failure of the first hop from `i` on that fails a structural check. */
  function FirstHopFailure(k: Crypto, p: Policy, clock: int, chain: seq<Credential>, i: nat): (f: Option<Failure>)
    requires i <= |chain|
    ensures f.Some? ==> f.value.hop.Some?
    decreases |chain| - i
  {
    if i == |chain| then None
    else
      var e := HopError(k, p, clock, chain, i);
      if e.Some? then Some(Failure(e.value, Some(i))) else FirstHopFailure(k, p, clock, chain, i + 1)
  }

  lemma {:induction false} FirstHopFailureIsFirst(k: Crypto, p: Policy, clock: int, chain: seq<Credential>, i: nat)
    requires i <= |chain|
    ensures var f := FirstHopFailure(k, p, clock, chain, i);
            && (f.Some? ==> i <= f.value.hop.value < |chain|
                            && HopError(k, p, clock, chain, f.value.hop.value) == Some(f.value.cls))
            && (forall j | i <= j < (if f.Some? then f.value.hop.value else |chain|) ::
                HopError(k, p, clock, chain, j).None?)
    decreases |chain| - i
  {
    hide HopError;
    if i < |chain| && HopError(k, p, clock, chain, i).None? {
      FirstHopFailureIsFirst(k, p, clock, chain, i + 1);
    }
  }

  /** What `verify_chain` answers: bad arguments, then the empty chain, then the root of trust, then
      the first failing check of the first failing hop, then revocation, then staleness. */
  function ChainVerdict(k: Crypto, p: Policy, clock: int, chain: seq<Credential>)
    : (r: Result<RevocationStatus, Failure>)
    ensures r.Ok? ==> chain != []
  {
    if BadArguments(p) then Err(Failure(PyValueError, None))
    else if chain == [] then Err(Failure(BrokenDelegationLink, None))
    else if chain[0].issuer !in p.trustedRoots then Err(Failure(UntrustedDelegationRoot, None))
    else
      var f := FirstHopFailure(k, p, clock, chain, 0);
      if f.Some? then Err(f.value)
      else
        AcceptedHopsAreDigestible(k, p, clock, chain);
        RevocationVerdict(k, p, clock, chain)
  }

  lemma AcceptedHopsAreDigestible(k: Crypto, p: Policy, clock: int, chain: seq<Credential>)
    requires FirstHopFailure(k, p, clock, chain, 0).None?
    ensures Digestible(chain)
  {
    hide Canonicalize, CredentialBody;
    FirstHopFailureIsFirst(k, p, clock, chain, 0);
    forall j | 0 <= j < |chain|
      ensures Canonicalize(CredentialBody(chain[j])).Ok?
    {
      assert HopError(k, p, clock, chain, j).None?;
    }
  }

  /** `verify_chain`: one pass over the hops with the ids seen so far and the previous hop. */
  method VerifyChain(k: Crypto, p: Policy, clock: int, chain: seq<Credential>)
    returns (r: Result<RevocationStatus, Failure>)
    requires p.revocations.Some? ==> Indexed(p.revocations.value)
    ensures r == ChainVerdict(k, p, clock, chain)
  {
    hide SignatureOk, RevocationVerdict;
    if p.atTime.Some? && p.atTime.value < 0 {
      return Err(Failure(PyValueError, None));
    }
    if p.maxStaleness.Some? && p.maxStaleness.value < 0 {
      return Err(Failure(PyValueError, None));
    }
    if chain == [] {
      return Err(Failure(BrokenDelegationLink, None));
    }
    if chain[0].issuer !in p.trustedRoots {
      return Err(Failure(UntrustedDelegationRoot, None));
    }
    var now := if p.atTime.None? then clock else p.atTime.value;
    var seenIds: set<string> := {};
    var prev: Option<Credential> := None;
    for i := 0 to |chain|
      invariant seenIds == set j | 0 <= j < i :: chain[j].credentialId
      invariant prev == if i == 0 then None else Some(chain[i - 1])
      invariant FirstHopFailure(k, p, clock, chain, 0) == FirstHopFailure(k, p, clock, chain, i)
    {
      var cred := chain[i];
      assert IdSeen(chain, i) == (cred.credentialId in seenIds);
      var own := OwnError(k, p.maxDepth, now, cred, cred.credentialId in seenIds);
      if own.Some? {
        return Err(Failure(own.value, Some(i)));
      }
      seenIds := seenIds + {cred.credentialId};
      var link := LinkError(prev, cred);
      if link.Some? {
        return Err(Failure(link.value, Some(i)));
      }
      prev := Some(cred);
    }
    AcceptedHopsAreDigestible(k, p, clock, chain);
    r := CheckRevocation(k, p, clock, chain);
  }
}

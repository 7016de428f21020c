/** Which answer `verify_chain` gives, said over the credentials' own fields: every error class, the order of
    the checks inside a hop, and when each stage is reached. */
module ChainErrors {
  import opened Basics
  import opened Canonical
  import opened CryptoModel
  import opened Errors
  import opened Delegation
  import opened Chain
  import opened ChainFacts

  // ---------------------------------------------------------------- one hop, check by check

  ghost predicate Signed(k: Crypto, c: Credential) {
    && c.signature != "" && Canonicalize(CredentialBody(c)).Ok?
    && k.verify(c.issuer, Canonicalize(CredentialBody(c)).value, c.signature)
  }

  predicate Started(c: Credential, now: int) {
    c.notBefore.None? || c.notBefore.value <= now
  }

  predicate Unexpired(c: Credential, now: int) {
    c.notAfter.None? || now <= c.notAfter.value
  }

  predicate FreshId(chain: seq<Credential>, i: nat)
    requires i < |chain|
  {
    forall j | 0 <= j < i :: chain[j].credentialId != chain[i].credentialId
  }

  /** The root stands alone at depth 0; a later hop names the one before it, is issued by its subject and
      sits one deeper. */
  predicate Placed(chain: seq<Credential>, i: nat)
    requires i < |chain|
  {
    var c := chain[i];
    if i == 0 then c.parentId.None? && c.depth == 0
    else
      var prev := chain[i - 1];
      c.parentId == Some(prev.credentialId) && c.issuer == prev.subject && c.depth == prev.depth + 1
  }

  predicate NoWider(chain: seq<Credential>, i: nat)
    requires i < |chain|
  {
    i > 0 ==> forall s | s in chain[i].scope :: s in chain[i - 1].scope
  }

  ghost predicate Passes(k: Crypto, maxDepth: int, now: int, chain: seq<Credential>, i: nat)
    requires i < |chain|
  {
    var c := chain[i];
    && Signed(k, c) && Started(c, now) && Unexpired(c, now) && FreshId(chain, i) && c.depth <= maxDepth
    && Placed(chain, i) && NoWider(chain, i)
  }

  /** Hop `i` passes the checks before the one that raises `cls`, and fails that one. */
  ghost predicate FailsFirst(k: Crypto, maxDepth: int, now: int, chain: seq<Credential>, i: nat, cls: ErrorClass)
    requires i < |chain|
  {
    var c := chain[i];
    match cls
    case InvalidCredential => !Signed(k, c)
    case CredentialNotYetValid => Signed(k, c) && c.notBefore.Some? && now < c.notBefore.value
    case CredentialExpired => Signed(k, c) && Started(c, now) && c.notAfter.Some? && c.notAfter.value < now
    case CredentialReplay =>
      && Signed(k, c) && Started(c, now) && Unexpired(c, now)
      && exists j :: 0 <= j < i && chain[j].credentialId == c.credentialId
    case DelegationDepthExceeded =>
      Signed(k, c) && Started(c, now) && Unexpired(c, now) && FreshId(chain, i) && maxDepth < c.depth
    case BrokenDelegationLink =>
      && Signed(k, c) && Started(c, now) && Unexpired(c, now) && FreshId(chain, i) && c.depth <= maxDepth
      && !Placed(chain, i)
    case ScopeEscalation =>
      && Signed(k, c) && Started(c, now) && Unexpired(c, now) && FreshId(chain, i) && c.depth <= maxDepth
      && Placed(chain, i) && !NoWider(chain, i)
    case _ => false
  }

  lemma HopErrorMeans(k: Crypto, p: Policy, clock: int, chain: seq<Credential>, i: nat)
    requires i < |chain|
    ensures var now := if p.atTime.Some? then p.atTime.value else clock;
            && (HopError(k, p, clock, chain, i).None? <==> Passes(k, p.maxDepth, now, chain, i))
            && forall cls :: HopError(k, p, clock, chain, i) == Some(cls) <==>
              FailsFirst(k, p.maxDepth, now, chain, i, cls)
  {
    hide Canonicalize, CredentialBody;
    var c := chain[i];
    assert SignatureOk(k, c) <==> Signed(k, c);
    assert !IdSeen(chain, i) <==> FreshId(chain, i);
    if i > 0 {
      assert c.scope <= chain[i - 1].scope <==> NoWider(chain, i);
    }
    hide SignatureOk, Signed, IdSeen, FreshId;
  }

  // ---------------------------------------------------------------- the whole answer

  /** The arguments are usable and the chain starts at a trusted root. */
  predicate Usable(p: Policy, chain: seq<Credential>) {
    && (p.atTime.Some? ==> 0 <= p.atTime.value) && (p.maxStaleness.Some? ==> 0 <= p.maxStaleness.value)
    && chain != [] && chain[0].issuer in p.trustedRoots
  }

  ghost predicate AllPass(k: Crypto, maxDepth: int, now: int, chain: seq<Credential>, n: nat)
    requires n <= |chain|
  {
    forall j | 0 <= j < n :: Passes(k, maxDepth, now, chain, j)
  }

  /** A statement of the snapshot names the signed bytes of hop `i`, comes from the issuer of that hop or of a
      hop above it, and was issued by the audit time, if there is one. */
  ghost predicate NamedByAuthority(k: Crypto, ss: seq<Statement>, atTime: Option<int>, chain: seq<Credential>, i: nat)
    requires i < |chain|
  {
    && Canonicalize(CredentialBody(chain[i])).Ok?
    && exists s, j ::
         && s in ss && 0 <= j <= i && s.revoker == chain[j].issuer
         && s.revokedDigest == "sha256:" + k.sha256(Canonicalize(CredentialBody(chain[i])).value)
         && (atTime.None? || s.issuedAt <= atTime.value)
  }

  lemma RevokedMeans(k: Crypto, ss: seq<Statement>, t: Option<int>, chain: seq<Credential>, i: nat)
    requires Digestible(chain) && i < |chain|
    ensures Revoked(k, ss, t, chain, i) <==> NamedByAuthority(k, ss, t, chain, i)
  {
    hide Canonicalize, CredentialBody;
    var d, au := CredentialDigest(k, chain[i]), Authorities(chain, i + 1);
    var r := FirstEffective(ss, d, au, t);
    if r.Some? {
      var j :| 0 <= j <= i && chain[j].issuer == r.value.revoker;
      assert r.value in ss;
    }
    if NamedByAuthority(k, ss, t, chain, i) {
      var s, j :| && s in ss && 0 <= j <= i && s.revoker == chain[j].issuer
                  && s.revokedDigest == "sha256:" + k.sha256(Canonicalize(CredentialBody(chain[i])).value)
                  && (t.None? || s.issuedAt <= t.value);
      assert s.revoker in au;
    }
  }

  /** The error of a hop check: raised for hop `i` with class `cls` exactly when the arguments and the root are
      usable, every hop before passes everything, and hop `i` fails first the check that raises `cls`. */
  lemma HopRefusalIff(k: Crypto, p: Policy, clock: int, chain: seq<Credential>, i: nat, cls: ErrorClass)
    requires cls != CredentialRevoked
    ensures var now := if p.atTime.Some? then p.atTime.value else clock;
            ChainVerdict(k, p, clock, chain) == Err(Failure(cls, Some(i))) <==>
            && Usable(p, chain) && i < |chain| && AllPass(k, p.maxDepth, now, chain, i)
            && FailsFirst(k, p.maxDepth, now, chain, i, cls)
  {
    hide HopError, Digestible, FirstRevokedHop, FirstHopFailure, Passes, FailsFirst;
    var now := if p.atTime.Some? then p.atTime.value else clock;
    FirstHopFailureIsFirst(k, p, clock, chain, 0);
    var f := FirstHopFailure(k, p, clock, chain, 0);
    forall j | 0 <= j < |chain|
      ensures HopError(k, p, clock, chain, j).None? <==> Passes(k, p.maxDepth, now, chain, j)
      ensures HopError(k, p, clock, chain, j) == Some(cls) <==> FailsFirst(k, p.maxDepth, now, chain, j, cls)
    {
      HopErrorMeans(k, p, clock, chain, j);
    }
    if f.Some? {
      var h := f.value.hop.value;
      assert HopError(k, p, clock, chain, h).Some? && !Passes(k, p.maxDepth, now, chain, h);
      if i < h {
        assert HopError(k, p, clock, chain, i).None?;
      }
    } else if i < |chain| {
      assert HopError(k, p, clock, chain, i).None?;
    }
  }

  /** The three answers given before any hop is looked at. */
  lemma EarlyRefusalIff(k: Crypto, p: Policy, clock: int, chain: seq<Credential>)
    ensures var r := ChainVerdict(k, p, clock, chain);
            var bad := (p.atTime.Some? && p.atTime.value < 0) || (p.maxStaleness.Some? && p.maxStaleness.value < 0);
            && (r == Err(Failure(PyValueError, None)) <==> bad)
            && (r == Err(Failure(BrokenDelegationLink, None)) <==> !bad && chain == [])
            && (r == Err(Failure(UntrustedDelegationRoot, None)) <==>
                  !bad && chain != [] && chain[0].issuer !in p.trustedRoots)
  {
    hide FirstHopFailure, FirstRevokedHop, Digestible;
  }

  lemma AllPassIff(k: Crypto, p: Policy, clock: int, chain: seq<Credential>)
    ensures var now := if p.atTime.Some? then p.atTime.value else clock;
            FirstHopFailure(k, p, clock, chain, 0).None? <==> AllPass(k, p.maxDepth, now, chain, |chain|)
    ensures FirstHopFailure(k, p, clock, chain, 0).None? ==> Digestible(chain)
  {
    hide HopError, Digestible, Passes;
    var now := if p.atTime.Some? then p.atTime.value else clock;
    FirstHopFailureIsFirst(k, p, clock, chain, 0);
    forall j | 0 <= j < |chain|
      ensures HopError(k, p, clock, chain, j).None? <==> Passes(k, p.maxDepth, now, chain, j)
    {
      HopErrorMeans(k, p, clock, chain, j);
    }
    var f := FirstHopFailure(k, p, clock, chain, 0);
    if f.Some? {
      assert !Passes(k, p.maxDepth, now, chain, f.value.hop.value);
    } else {
      AcceptedHopsAreDigestible(k, p, clock, chain);
    }
  }

  /** The answers of the last stage, reached exactly when every hop passes: revoked at the first hop an
      authority has named; unknown without a needed snapshot or with one too old; otherwise accepted. */
  lemma LastStageIff(k: Crypto, p: Policy, clock: int, chain: seq<Credential>)
    ensures var r, now := ChainVerdict(k, p, clock, chain), if p.atTime.Some? then p.atTime.value else clock;
            var ready := Usable(p, chain) && AllPass(k, p.maxDepth, now, chain, |chain|);
            var clear := p.revocations.Some? ==>
                           forall i | 0 <= i < |chain| ::
                             !NamedByAuthority(k, p.revocations.value.statements, p.atTime, chain, i);
            var stale := p.maxStaleness.Some? &&
                       (p.revocations.None? || p.revocations.value.asOf + p.maxStaleness.value < now);
            && (r.Err? && r.error.cls == CredentialRevoked <==> ready && !clear)
            && (r == Err(Failure(RevocationStatusUnknown, None)) <==> ready && clear && stale)
            && (r == Ok(RevocationStatus(true,
                                         if p.revocations.Some? then Some(p.revocations.value.asOf) else None)) <==>
                  ready && clear && !stale && p.revocations.Some?)
            && (r == Ok(RevocationStatus(false, None)) <==> ready && !stale && p.revocations.None?)
            && (r.Ok? <==> ready && clear && !stale)
  {
    hide HopError, FirstHopFailure, FirstRevokedHop, Digestible, Revoked, AllPass, NamedByAuthority;
    AllPassIff(k, p, clock, chain);
    var f := FirstHopFailure(k, p, clock, chain, 0);
    if f.Some? {
      FirstHopFailureIsFirst(k, p, clock, chain, 0);
      HopErrorsAreStructural(k, p, clock, chain, f.value.hop.value);
    } else if p.revocations.Some? {
      var ss := p.revocations.value.statements;
      FirstRevokedHopIsFirst(k, ss, p.atTime, chain, 0);
      forall i | 0 <= i < |chain|
        ensures Revoked(k, ss, p.atTime, chain, i) <==> NamedByAuthority(k, ss, p.atTime, chain, i)
      {
        RevokedMeans(k, ss, p.atTime, chain, i);
      }
    }
  }

  /** And the hop a revocation names is the first one an authority has named. */
  lemma RevokedHopIff(k: Crypto, p: Policy, clock: int, chain: seq<Credential>, i: nat)
    ensures var now := if p.atTime.Some? then p.atTime.value else clock;
            ChainVerdict(k, p, clock, chain) == Err(Failure(CredentialRevoked, Some(i))) <==>
            && Usable(p, chain) && AllPass(k, p.maxDepth, now, chain, |chain|) && p.revocations.Some? && i < |chain|
            && NamedByAuthority(k, p.revocations.value.statements, p.atTime, chain, i)
            && forall j | 0 <= j < i :: !NamedByAuthority(k, p.revocations.value.statements, p.atTime, chain, j)
  {
    hide HopError, FirstHopFailure, FirstRevokedHop, Digestible, Revoked, AllPass, NamedByAuthority;
    AllPassIff(k, p, clock, chain);
    var f := FirstHopFailure(k, p, clock, chain, 0);
    if f.Some? {
      FirstHopFailureIsFirst(k, p, clock, chain, 0);
      HopErrorsAreStructural(k, p, clock, chain, f.value.hop.value);
    } else if p.revocations.Some? {
      var ss := p.revocations.value.statements;
      FirstRevokedHopIsFirst(k, ss, p.atTime, chain, 0);
      forall j | 0 <= j < |chain|
        ensures Revoked(k, ss, p.atTime, chain, j) <==> NamedByAuthority(k, ss, p.atTime, chain, j)
      {
        RevokedMeans(k, ss, p.atTime, chain, j);
      }
    }
  }

  // ---------------------------------------------------------------- audits

  /** The statements issued at or before `t`, in order. */
  function IssuedBy(ss: seq<Statement>, t: int): (r: seq<Statement>)
    ensures forall s :: s in r <==> s in ss && s.issuedAt <= t
  {
    if ss == [] then []
    else
      assert ss == [ss[0]] + ss[1..];
      (if ss[0].issuedAt <= t then [ss[0]] else []) + IssuedBy(ss[1..], t)
  }

  /** An audit of time `t` does not see what was issued later: dropping every later statement leaves the whole
      verdict unchanged, error and hop included. */
  lemma AuditIgnoresLater(k: Crypto, p: Policy, clock: int, s: Snapshot, t: int, chain: seq<Credential>)
    requires p.atTime == Some(t)
    ensures ChainVerdict(k, p.(revocations := Some(s)), clock, chain)
         == ChainVerdict(k, p.(revocations := Some(s.(statements := IssuedBy(s.statements, t)))), clock, chain)
  {
    hide HopError, FirstHopFailure, FirstRevokedHop, Digestible, Revoked, IssuedBy;
    var u := IssuedBy(s.statements, t);
    var ps, pu := p.(revocations := Some(s)), p.(revocations := Some(s.(statements := u)));
    SameHopFailures(k, ps, pu, clock, chain, 0);
    if FirstHopFailure(k, ps, clock, chain, 0).None? {
      AcceptedHopsAreDigestible(k, ps, clock, chain);
      forall i | 0 <= i < |chain|
        ensures Revoked(k, s.statements, p.atTime, chain, i) == Revoked(k, u, p.atTime, chain, i)
      {
        RevokedMeans(k, s.statements, p.atTime, chain, i);
        RevokedMeans(k, u, p.atTime, chain, i);
        SameNames(k, s.statements, u, t, chain, i);
      }
      SameFirstRevoked(k, s.statements, u, p.atTime, chain, 0);
    }
  }

  lemma SameNames(k: Crypto, ss: seq<Statement>, us: seq<Statement>, t: int, chain: seq<Credential>, i: nat)
    requires i < |chain| && forall s :: s in us <==> s in ss && s.issuedAt <= t
    ensures NamedByAuthority(k, ss, Some(t), chain, i) == NamedByAuthority(k, us, Some(t), chain, i)
  {
    hide Canonicalize, CredentialBody;
  }
}

/** What acceptance of a delegation chain means, over every chain and every revocation snapshot. */
module ChainFacts {
  import opened Basics
  import opened Canonical
  import opened CryptoModel
  import opened Errors
  import opened Delegation
  import opened Chain

  // ---------------------------------------------------------------- the declarative reading

  predicate InWindow(c: Credential, now: int) {
    (c.notBefore.Some? ==> c.notBefore.value <= now) && (c.notAfter.Some? ==> now <= c.notAfter.value)
  }

  predicate Linked(prev: Credential, c: Credential) {
    c.parentId == Some(prev.credentialId) && c.issuer == prev.subject && c.scope <= prev.scope
  }

  /** Hop `i` is signed, in force and at its own depth, repeats no earlier id, and links to the hop
      before it without asking for more; the root names no parent. */
  predicate HopGood(k: Crypto, maxDepth: int, now: int, chain: seq<Credential>, i: nat)
    requires i < |chain|
  {
    && SignatureOk(k, chain[i]) && InWindow(chain[i], now)
    && chain[i].depth == i <= maxDepth
    && !IdSeen(chain, i)
    && (if i == 0 then chain[i].parentId.None? else Linked(chain[i - 1], chain[i]))
  }

  predicate WellLinked(k: Crypto, maxDepth: int, now: int, chain: seq<Credential>) {
    forall i | 0 <= i < |chain| :: HopGood(k, maxDepth, now, chain, i)
  }

  ghost predicate HopsPass(k: Crypto, p: Policy, clock: int, chain: seq<Credential>) {
    forall i | 0 <= i < |chain| :: HopError(k, p, clock, chain, i).None?
  }

  lemma {:induction false} DepthIsIndex(k: Crypto, p: Policy, clock: int, chain: seq<Credential>, i: nat)
    requires HopsPass(k, p, clock, chain) && i < |chain|
    ensures chain[i].depth == i
  {
    hide SignatureOk;
    assert HopError(k, p, clock, chain, i).None?;
    if i > 0 {
      DepthIsIndex(k, p, clock, chain, i - 1);
    }
  }

  lemma HopsPassAreWellLinked(k: Crypto, p: Policy, clock: int, chain: seq<Credential>)
    requires HopsPass(k, p, clock, chain)
    ensures WellLinked(k, p.maxDepth, Now(p, clock), chain)
  {
    hide SignatureOk;
    forall i | 0 <= i < |chain|
      ensures HopGood(k, p.maxDepth, Now(p, clock), chain, i)
    {
      assert HopError(k, p, clock, chain, i).None?;
      DepthIsIndex(k, p, clock, chain, i);
    }
  }

  lemma WellLinkedHopsPass(k: Crypto, p: Policy, clock: int, chain: seq<Credential>)
    requires WellLinked(k, p.maxDepth, Now(p, clock), chain)
    ensures HopsPass(k, p, clock, chain)
  {
    hide SignatureOk;
    forall i | 0 <= i < |chain|
      ensures HopError(k, p, clock, chain, i).None?
    {
      assert HopGood(k, p.maxDepth, Now(p, clock), chain, i);
      if i > 0 {
        assert HopGood(k, p.maxDepth, Now(p, clock), chain, i - 1);
      }
    }
  }

  /** The revocation stage lets the chain through. */
  ghost predicate RevocationPasses(k: Crypto, p: Policy, clock: int, chain: seq<Credential>)
    requires Digestible(chain)
  {
    match p.revocations
    case None => p.maxStaleness.None?
    case Some(s) =>
      && (forall i | 0 <= i < |chain| :: !Revoked(k, s.statements, p.atTime, chain, i))
      && (p.maxStaleness.Some? ==> (if p.atTime.Some? then p.atTime.value else clock) - s.asOf <= p.maxStaleness.value)
  }

  lemma HopsPassIff(k: Crypto, p: Policy, clock: int, chain: seq<Credential>)
    ensures FirstHopFailure(k, p, clock, chain, 0).None? <==> HopsPass(k, p, clock, chain)
  {
    hide HopError;
    FirstHopFailureIsFirst(k, p, clock, chain, 0);
  }

  lemma RevocationVerdictIff(k: Crypto, p: Policy, clock: int, chain: seq<Credential>)
    requires Digestible(chain)
    ensures RevocationVerdict(k, p, clock, chain).Ok? <==> RevocationPasses(k, p, clock, chain)
  {
    hide Revoked, Digestible;
    if p.revocations.Some? {
      FirstRevokedHopIsFirst(k, p.revocations.value.statements, p.atTime, chain, 0);
    }
  }

  /** The arguments are usable and the chain starts at a trusted root. */
  predicate Admissible(p: Policy, chain: seq<Credential>) {
    && (p.atTime.Some? ==> p.atTime.value >= 0) && (p.maxStaleness.Some? ==> p.maxStaleness.value >= 0)
    && chain != [] && chain[0].issuer in p.trustedRoots
  }

  lemma WellLinkedIsDigestible(k: Crypto, maxDepth: int, now: int, chain: seq<Credential>)
    requires WellLinked(k, maxDepth, now, chain)
    ensures Digestible(chain)
  {
    hide Canonicalize, CredentialBody;
    forall i | 0 <= i < |chain|
      ensures Canonicalize(CredentialBody(chain[i])).Ok?
    {
      assert HopGood(k, maxDepth, now, chain, i);
    }
  }

  /** `verify_chain` accepts exactly the admissible, well-linked, unrevoked and fresh chains. */
  lemma AcceptsIff(k: Crypto, p: Policy, clock: int, chain: seq<Credential>)
    ensures ChainVerdict(k, p, clock, chain).Ok? <==>
            && Admissible(p, chain)
            && WellLinked(k, p.maxDepth, if p.atTime.Some? then p.atTime.value else clock, chain)
            && Digestible(chain)
            && RevocationPasses(k, p, clock, chain)
  {
    hide HopError, FirstHopFailure, RevocationVerdict, Digestible;
    HopsPassIff(k, p, clock, chain);
    if HopsPass(k, p, clock, chain) {
      HopsPassAreWellLinked(k, p, clock, chain);
      AcceptedHopsAreDigestible(k, p, clock, chain);
      RevocationVerdictIff(k, p, clock, chain);
    }
    if WellLinked(k, p.maxDepth, Now(p, clock), chain) {
      WellLinkedHopsPass(k, p, clock, chain);
    }
  }

  /** A hop check never reports revocation, so revocation errors mean the structure verified. */
  lemma HopErrorsAreStructural(k: Crypto, p: Policy, clock: int, chain: seq<Credential>, i: nat)
    requires i < |chain|
    ensures HopError(k, p, clock, chain, i) !in {Some(CredentialRevoked), Some(RevocationStatusUnknown),
                                                 Some(PyValueError)}
  {
    hide SignatureOk;
  }

  /** Which error is raised: that of the first failing check of the first failing hop; revocation is
      reported only for a well-linked chain, and names its first revoked hop; staleness comes last. */
  lemma RefusalMeaning(k: Crypto, p: Policy, clock: int, chain: seq<Credential>, f: Failure)
    requires Admissible(p, chain) && ChainVerdict(k, p, clock, chain) == Err(f)
    ensures f.cls !in {CredentialRevoked, RevocationStatusUnknown} ==>
              && f.hop.Some? && f.hop.value < |chain|
              && HopError(k, p, clock, chain, f.hop.value) == Some(f.cls)
              && forall j | 0 <= j < f.hop.value :: HopError(k, p, clock, chain, j).None?
    ensures f.cls in {CredentialRevoked, RevocationStatusUnknown} ==>
            WellLinked(k, p.maxDepth, Now(p, clock), chain) && Digestible(chain)
    ensures f.cls == CredentialRevoked ==>
              && p.revocations.Some? && Digestible(chain) && f.hop.Some? && f.hop.value < |chain|
              && Revoked(k, p.revocations.value.statements, p.atTime, chain, f.hop.value)
              && forall j | 0 <= j < f.hop.value :: !Revoked(k, p.revocations.value.statements, p.atTime, chain, j)
    ensures f.cls == RevocationStatusUnknown && p.revocations.Some? ==>
              && Digestible(chain)
              && forall j | 0 <= j < |chain| :: !Revoked(k, p.revocations.value.statements, p.atTime, chain, j)
  {
    hide HopError, FirstHopFailure, Digestible, Revoked, FirstRevokedHop;
    FirstHopFailureIsFirst(k, p, clock, chain, 0);
    var g := FirstHopFailure(k, p, clock, chain, 0);
    if g.Some? {
      HopErrorsAreStructural(k, p, clock, chain, g.value.hop.value);
    } else {
      HopsPassIff(k, p, clock, chain);
      HopsPassAreWellLinked(k, p, clock, chain);
      AcceptedHopsAreDigestible(k, p, clock, chain);
      if p.revocations.Some? {
        FirstRevokedHopIsFirst(k, p.revocations.value.statements, p.atTime, chain, 0);
      }
    }
  }

  /** Python's own ValueError is raised exactly on unusable arguments. */
  lemma ArgumentErrorIff(k: Crypto, p: Policy, clock: int, chain: seq<Credential>)
    ensures var r := ChainVerdict(k, p, clock, chain);
            r.Err? && r.error.cls == PyValueError <==> BadArguments(p)
  {
    hide HopError, FirstHopFailure, Digestible, FirstRevokedHop, BadArguments;
    FirstHopFailureIsFirst(k, p, clock, chain, 0);
    var f := FirstHopFailure(k, p, clock, chain, 0);
    if f.Some? {
      HopErrorsAreStructural(k, p, clock, chain, f.value.hop.value);
    }
  }

  // ---------------------------------------------------------------- what acceptance guarantees

  lemma {:induction false} ScopeNarrows(k: Crypto, maxDepth: int, now: int, chain: seq<Credential>, i: nat, j: nat)
    requires WellLinked(k, maxDepth, now, chain) && i <= j < |chain|
    ensures chain[j].scope <= chain[i].scope
    decreases j
  {
    hide SignatureOk;
    if i < j {
      ScopeNarrows(k, maxDepth, now, chain, i, j - 1);
      assert HopGood(k, maxDepth, now, chain, j);
    }
  }

  /** Authority only narrows from root to leaf, ids are distinct, depth counts hops and is bounded. */
  lemma AcceptedChain(k: Crypto, p: Policy, clock: int, chain: seq<Credential>)
    requires ChainVerdict(k, p, clock, chain).Ok?
    ensures chain != [] && |chain| <= p.maxDepth + 1 && chain[0].issuer in p.trustedRoots
    ensures forall i | 0 <= i < |chain| :: chain[i].depth == i && SignatureOk(k, chain[i])
    ensures forall i, j | 0 <= i < j < |chain| :: chain[i].credentialId != chain[j].credentialId
    ensures forall i, j | 0 <= i <= j < |chain| :: chain[j].scope <= chain[i].scope
  {
    hide ChainVerdict, SignatureOk, RevocationPasses;
    AcceptsIff(k, p, clock, chain);
    var d, now := p.maxDepth, Now(p, clock);
    assert HopGood(k, d, now, chain, |chain| - 1);
    forall i | 0 <= i < |chain|
      ensures chain[i].depth == i && SignatureOk(k, chain[i])
    {
      assert HopGood(k, d, now, chain, i);
    }
    forall i, j | 0 <= i < j < |chain|
      ensures chain[i].credentialId != chain[j].credentialId
    {
      assert HopGood(k, d, now, chain, j);
    }
    forall i, j | 0 <= i <= j < |chain|
      ensures chain[j].scope <= chain[i].scope
    {
      ScopeNarrows(k, d, now, chain, i, j);
    }
  }

  // ---------------------------------------------------------------- prefixes and extensions

  /** A hop's revocation depends only on the hops up to it. */
  lemma RevokedInPrefix(k: Crypto, ss: seq<Statement>, t: Option<int>, a: seq<Credential>, b: seq<Credential>, i: nat)
    requires a <= b && Digestible(b) && i < |a|
    ensures Digestible(a) && Revoked(k, ss, t, a, i) == Revoked(k, ss, t, b, i)
  {
    hide Canonicalize, CredentialBody, FirstEffective;
    assert a[i] == b[i];
    assert Authorities(a, i + 1) == Authorities(b, i + 1);
  }

  /** An acceptance says whether a snapshot was consulted and how old it was. */
  lemma AcceptedStatus(k: Crypto, p: Policy, clock: int, chain: seq<Credential>)
    ensures ChainVerdict(k, p, clock, chain).Ok? ==>
              ChainVerdict(k, p, clock, chain).value ==
              if p.revocations.Some? then RevocationStatus(true, Some(p.revocations.value.asOf))
                  else RevocationStatus(false, None)
  {
    hide FirstHopFailure, FirstRevokedHop, Digestible;
  }

  lemma GoodInPrefix(k: Crypto, maxDepth: int, now: int, a: seq<Credential>, b: seq<Credential>, i: nat)
    requires a <= b && i < |a|
    ensures HopGood(k, maxDepth, now, a, i) == HopGood(k, maxDepth, now, b, i)
  {
    hide SignatureOk, InWindow, Linked;
    assert forall j | 0 <= j < |a| :: a[j] == b[j];
  }

  /** Every non-empty prefix of an accepted chain is accepted with the same inputs and status. */
  lemma PrefixClosed(k: Crypto, p: Policy, clock: int, chain: seq<Credential>, n: nat)
    requires 0 < n <= |chain| && ChainVerdict(k, p, clock, chain).Ok?
    ensures ChainVerdict(k, p, clock, chain[..n]) == ChainVerdict(k, p, clock, chain)
  {
    hide ChainVerdict, SignatureOk, Digestible, Revoked;
    var a := chain[..n];
    AcceptsIff(k, p, clock, chain);
    AcceptsIff(k, p, clock, a);
    forall i | 0 <= i < |a|
      ensures HopGood(k, p.maxDepth, Now(p, clock), a, i)
    {
      GoodInPrefix(k, p.maxDepth, Now(p, clock), a, chain, i);
    }
    WellLinkedIsDigestible(k, p.maxDepth, Now(p, clock), a);
    AcceptedStatus(k, p, clock, chain);
    AcceptedStatus(k, p, clock, a);
    if p.revocations.Some? {
      forall i | 0 <= i < |a|
        ensures !Revoked(k, p.revocations.value.statements, p.atTime, a, i)
      {
        RevokedInPrefix(k, p.revocations.value.statements, p.atTime, a, chain, i);
      }
    }
  }

  /** The checks one more hop must pass on its own and against the leaf it extends. */
  predicate HopFits(k: Crypto, p: Policy, clock: int, chain: seq<Credential>, c: Credential)
    requires chain != []
  {
    && SignatureOk(k, c) && InWindow(c, Now(p, clock))
    && c.depth == |chain| <= p.maxDepth
    && (forall i | 0 <= i < |chain| :: chain[i].credentialId != c.credentialId)
    && Linked(chain[|chain| - 1], c)
  }

  /** The new hop is named by no statement in force from its issuer or an issuer above it. */
  ghost predicate NewHopUnrevoked(k: Crypto, p: Policy, chain: seq<Credential>, c: Credential)
    requires Canonicalize(CredentialBody(c)).Ok?
  {
    p.revocations.Some? ==>
      forall s | s in p.revocations.value.statements && s.revokedDigest == CredentialDigest(k, c) ::
        s.revoker == c.issuer || (exists j :: 0 <= j < |chain| && chain[j].issuer == s.revoker) ==>
          p.atTime.Some? && p.atTime.value < s.issuedAt
  }

  lemma LastHopRevoked(k: Crypto, ss: seq<Statement>, t: Option<int>, chain: seq<Credential>, c: Credential)
    requires Digestible(chain + [c]) && Canonicalize(CredentialBody(c)).Ok?
    ensures Revoked(k, ss, t, chain + [c], |chain|) ==
            FirstEffective(ss, CredentialDigest(k, c), Authorities(chain, |chain|) + {c.issuer}, t).Some?
  {
    hide Canonicalize, CredentialBody, FirstEffective, CredentialDigest;
    var all := chain + [c];
    assert all[|chain|] == c && forall j | 0 <= j < |chain| :: all[j] == chain[j];
    assert Authorities(all, |chain| + 1) == Authorities(chain, |chain|) + {c.issuer};
  }

  /** An accepted chain plus one hop is accepted exactly when that hop fits and is not revoked. */
  lemma ExtendIff(k: Crypto, p: Policy, clock: int, chain: seq<Credential>, c: Credential)
    requires ChainVerdict(k, p, clock, chain).Ok?
    ensures ChainVerdict(k, p, clock, chain + [c]).Ok? <==>
            chain != [] && HopFits(k, p, clock, chain, c) && NewHopUnrevoked(k, p, chain, c)
  {
    hide ChainVerdict, SignatureOk, Digestible, Revoked, Canonicalize, CredentialBody, HopGood, FirstEffective,
         NewHopUnrevoked;
    var all := chain + [c];
    AcceptsIff(k, p, clock, chain);
    AcceptsIff(k, p, clock, all);
    ExtendLinks(k, p, clock, chain, c);
    if WellLinked(k, p.maxDepth, Now(p, clock), all) {
      WellLinkedIsDigestible(k, p.maxDepth, Now(p, clock), all);
      SignedIsDigestible(k, c);
      NothingToRevoke(k, p, chain, c);
      if p.revocations.Some? {
        var ss := p.revocations.value.statements;
        LastHopRevoked(k, ss, p.atTime, chain, c);
        UnrevokedMeans(k, p, chain, c);
        forall i | 0 <= i < |chain|
          ensures !Revoked(k, ss, p.atTime, all, i)
        {
          RevokedInPrefix(k, ss, p.atTime, chain, all, i);
        }
      }
    }
  }

  lemma NothingToRevoke(k: Crypto, p: Policy, chain: seq<Credential>, c: Credential)
    requires Canonicalize(CredentialBody(c)).Ok?
    ensures p.revocations.None? ==> NewHopUnrevoked(k, p, chain, c)
  {
    hide Canonicalize, CredentialBody;
  }

  lemma UnrevokedMeans(k: Crypto, p: Policy, chain: seq<Credential>, c: Credential)
    requires Canonicalize(CredentialBody(c)).Ok? && p.revocations.Some?
    ensures NewHopUnrevoked(k, p, chain, c) <==>
            FirstEffective(p.revocations.value.statements, CredentialDigest(k, c),
                           Authorities(chain, |chain|) + {c.issuer}, p.atTime).None?
  {
    hide Canonicalize, CredentialBody, CredentialDigest;
    var ss, d, au := p.revocations.value.statements, CredentialDigest(k, c), Authorities(chain, |chain|) + {c.issuer};
    forall x: string
      ensures x in au <==> x == c.issuer || exists j :: 0 <= j < |chain| && chain[j].issuer == x
    {
    }
    var r := FirstEffective(ss, d, au, p.atTime);
    hide FirstEffective, Authorities;
  }

  lemma SignedIsDigestible(k: Crypto, c: Credential)
    ensures SignatureOk(k, c) ==> Canonicalize(CredentialBody(c)).Ok?
  {
    hide Canonicalize, CredentialBody;
  }

  lemma ExtendLinks(k: Crypto, p: Policy, clock: int, chain: seq<Credential>, c: Credential)
    requires chain != [] && WellLinked(k, p.maxDepth, Now(p, clock), chain)
    ensures WellLinked(k, p.maxDepth, Now(p, clock), chain + [c]) <==> HopFits(k, p, clock, chain, c)
  {
    hide SignatureOk, InWindow, Linked;
    var d, now, all := p.maxDepth, Now(p, clock), chain + [c];
    assert all[|chain|] == c && forall i | 0 <= i < |chain| :: all[i] == chain[i];
    assert HopGood(k, d, now, all, |chain|) == HopFits(k, p, clock, chain, c);
    forall i | 0 <= i < |chain|
      ensures HopGood(k, d, now, all, i)
    {
      GoodInPrefix(k, d, now, chain, all, i);
    }
  }

  // ---------------------------------------------------------------- revocation laws

  /** A revoked hop stays revoked when statements are added, at a later audit time, and live. */
  lemma RevocationMonotone(k: Crypto, ss: seq<Statement>, ts: seq<Statement>, t: Option<int>, u: Option<int>,
                           chain: seq<Credential>, i: nat)
    requires Digestible(chain) && i < |chain|
    requires forall s | s in ss :: s in ts
    requires u.None? || (t.Some? && t.value <= u.value)
    requires Revoked(k, ss, t, chain, i)
    ensures Revoked(k, ts, u, chain, i)
  {
    hide Canonicalize, CredentialBody;
    var d, au := CredentialDigest(k, chain[i]), Authorities(chain, i + 1);
    var s := FirstEffective(ss, d, au, t).value;
    assert s in ts && s.revokedDigest == d && InForce(s, au, u);
  }

  /** Adding statements to a snapshot never turns a refusal into an acceptance. */
  lemma MoreStatementsRefuseMore(k: Crypto, p: Policy, clock: int, s: Snapshot, t: Snapshot, chain: seq<Credential>)
    requires s.asOf == t.asOf && forall x | x in s.statements :: x in t.statements
    requires ChainVerdict(k, p.(revocations := Some(t)), clock, chain).Ok?
    ensures ChainVerdict(k, p.(revocations := Some(s)), clock, chain).Ok?
  {
    hide ChainVerdict, SignatureOk, Digestible, Revoked;
    var ps, pt := p.(revocations := Some(s)), p.(revocations := Some(t));
    AcceptsIff(k, pt, clock, chain);
    AcceptsIff(k, ps, clock, chain);
    assert Now(ps, clock) == Now(pt, clock);
    forall i | 0 <= i < |chain|
      ensures !Revoked(k, s.statements, p.atTime, chain, i)
    {
      if Revoked(k, s.statements, p.atTime, chain, i) {
        RevocationMonotone(k, s.statements, t.statements, p.atTime, p.atTime, chain, i);
      }
    }
  }

  /** Cascade: no extension of a refused chain is accepted, so revoking a hop cuts off every hop below it. */
  lemma RevocationCascades(k: Crypto, p: Policy, clock: int, chain: seq<Credential>, more: seq<Credential>)
    requires chain != [] && ChainVerdict(k, p, clock, chain).Err?
    ensures ChainVerdict(k, p, clock, chain + more).Err?
  {
    hide ChainVerdict;
    assert (chain + more)[..|chain|] == chain;
    if ChainVerdict(k, p, clock, chain + more).Ok? {
      PrefixClosed(k, p, clock, chain + more, |chain|);
    }
  }

  /** The statement's revoker issued the hop it names or one above it. */
  predicate HasAuthority(k: Crypto, chain: seq<Credential>, s: Statement)
    requires Digestible(chain)
  {
    exists i | 0 <= i < |chain| ::
      CredentialDigest(k, chain[i]) == s.revokedDigest && s.revoker in Authorities(chain, i + 1)
  }

  function OnlyAuthorized(k: Crypto, chain: seq<Credential>, ss: seq<Statement>): (r: seq<Statement>)
    requires Digestible(chain)
  {
    if ss == [] then []
    else (if HasAuthority(k, chain, ss[0]) then [ss[0]] else []) + OnlyAuthorized(k, chain, ss[1..])
  }

  lemma {:induction false} UnauthorizedNeverMatch(k: Crypto, chain: seq<Credential>, ss: seq<Statement>,
                                                  t: Option<int>, i: nat)
    requires Digestible(chain) && i < |chain|
    ensures var d, au := CredentialDigest(k, chain[i]), Authorities(chain, i + 1);
            FirstEffective(OnlyAuthorized(k, chain, ss), d, au, t) == FirstEffective(ss, d, au, t)
  {
    hide Canonicalize, CredentialBody, Authorities, CredentialDigest;
    if ss != [] {
      UnauthorizedNeverMatch(k, chain, ss[1..], t, i);
      var rest := OnlyAuthorized(k, chain, ss[1..]);
      assert OnlyAuthorized(k, chain, ss) == if HasAuthority(k, chain, ss[0]) then [ss[0]] + rest else rest;
      assert ([ss[0]] + rest)[1..] == rest;
    }
  }

  lemma {:induction false} SameFirstRevoked(k: Crypto, ss: seq<Statement>, ts: seq<Statement>, t: Option<int>,
                                            chain: seq<Credential>, i: nat)
    requires Digestible(chain) && i <= |chain|
    requires forall j | 0 <= j < |chain| :: Revoked(k, ss, t, chain, j) == Revoked(k, ts, t, chain, j)
    ensures FirstRevokedHop(k, ss, t, chain, i) == FirstRevokedHop(k, ts, t, chain, i)
    decreases |chain| - i
  {
    hide Revoked;
    if i < |chain| {
      SameFirstRevoked(k, ss, ts, t, chain, i + 1);
    }
  }

  /** Statements from keys that issued no hop at or above the named one change nothing: the verdict,
      error and all, is the same without them. */
  lemma AuthorityBound(k: Crypto, p: Policy, clock: int, s: Snapshot, chain: seq<Credential>)
    requires Digestible(chain)
    ensures ChainVerdict(k, p.(revocations := Some(s)), clock, chain)
         == ChainVerdict(k, p.(revocations := Some(s.(statements := OnlyAuthorized(k, chain, s.statements)))), clock,
                         chain)
  {
    hide HopError, Digestible, Revoked, OnlyAuthorized;
    var t := s.(statements := OnlyAuthorized(k, chain, s.statements));
    var ps, pt := p.(revocations := Some(s)), p.(revocations := Some(t));
    SameHopFailures(k, ps, pt, clock, chain, 0);
    forall i | 0 <= i < |chain|
      ensures Revoked(k, s.statements, p.atTime, chain, i) == Revoked(k, t.statements, p.atTime, chain, i)
    {
      SameRevoked(k, chain, s.statements, p.atTime, i);
    }
    SameFirstRevoked(k, s.statements, t.statements, p.atTime, chain, 0);
  }

  lemma SameRevoked(k: Crypto, chain: seq<Credential>, ss: seq<Statement>, t: Option<int>, i: nat)
    requires Digestible(chain) && i < |chain|
    ensures Revoked(k, ss, t, chain, i) == Revoked(k, OnlyAuthorized(k, chain, ss), t, chain, i)
  {
    hide Canonicalize, CredentialBody, OnlyAuthorized, FirstEffective;
    UnauthorizedNeverMatch(k, chain, ss, t, i);
  }

  lemma {:induction false} SameHopFailures(k: Crypto, p: Policy, q: Policy, clock: int, chain: seq<Credential>, i: nat)
    requires i <= |chain| && p.maxDepth == q.maxDepth && p.atTime == q.atTime
    ensures FirstHopFailure(k, p, clock, chain, i) == FirstHopFailure(k, q, clock, chain, i)
    decreases |chain| - i
  {
    hide SignatureOk;
    if i < |chain| {
      assert HopError(k, p, clock, chain, i) == HopError(k, q, clock, chain, i);
      SameHopFailures(k, p, q, clock, chain, i + 1);
    }
  }
}

/** The issuing side: signing credentials, building a chain from grants, and revoking a hop. */
module Issuance {
  import opened Basics
  import opened Canonical
  import opened CanonicalFacts
  import opened CryptoModel
  import opened Errors
  import opened Delegation
  import opened Chain
  import opened ChainFacts

  // ---------------------------------------------------------------- signing

  predicate SafeBound(b: Option<int>) {
    b.Some? ==> IsSafe(b.value)
  }

  /** A credential can be signed exactly when its three integers are safe. */
  lemma BodyEncodableIff(c: Credential)
    ensures Encodable(CredentialBody(c)) <==> IsSafe(c.depth) && SafeBound(c.notBefore) && SafeBound(c.notAfter)
  {
    hide ScopeArray;
    ScopeEncodable(c.scope);
    BodyFields(c);
    var m := CredentialBody(c).fields;
    assert Encodable(m["depth"]) <==> IsSafe(c.depth);
    assert c.notBefore.Some? ==> (Encodable(m["not_before"]) <==> SafeBound(c.notBefore));
    assert c.notAfter.Some? ==> (Encodable(m["not_after"]) <==> SafeBound(c.notAfter));
  }

  /** `DelegationCredential.sign`; None when the key is not the issuer's or the body has no canonical bytes. */
  function Sign(k: Crypto, c: Credential, key: Key): (r: Option<Credential>)
  {
    if k.edPublic(key) != c.issuer || Canonicalize(CredentialBody(c)).Err? then None
    else Some(c.(signature := k.sign(key, Canonicalize(CredentialBody(c)).value)))
  }

  /** Signing with the issuer's key succeeds exactly on safe integers, changes nothing but the signature,
      and the result verifies. */
  lemma SignedVerifies(k: Crypto, c: Credential, key: Key)
    requires SignaturesVerify(k)
    ensures Sign(k, c, key).Some? <==>
            k.edPublic(key) == c.issuer && IsSafe(c.depth) && SafeBound(c.notBefore) && SafeBound(c.notAfter)
    ensures Sign(k, c, key).Some? ==>
              var s := Sign(k, c, key).value;
              s == c.(signature := s.signature) && SignatureOk(k, s)
  {
    hide Canonicalize, Encodable;
    BodyEncodableIff(c);
    CanonicalizeSucceeds(CredentialBody(c));
    if Sign(k, c, key).Some? {
      var s := Sign(k, c, key).value;
      assert CredentialBody(s) == CredentialBody(c);
    }
  }

  // ---------------------------------------------------------------- building a chain

  /** What a delegator decides: everything else in a hop follows from its position and the keys. */
  datatype Grant = Grant(id: string, scope: set<string>, notBefore: Option<int>, notAfter: Option<int>)

  /** Hop `i` before signing: key `i` grants to key `i + 1`. */
  function Hop(k: Crypto, keys: seq<Key>, grants: seq<Grant>, i: nat): (c: Credential)
    requires |keys| == |grants| + 1 && i < |grants|
  {
    var g := grants[i];
    Credential(g.id, k.edPublic(keys[i]), k.edPublic(keys[i + 1]), g.scope, i,
               if i == 0 then None else Some(grants[i - 1].id), "", g.notBefore, g.notAfter)
  }

  /** Every delegator signs its own hop: what issuing along these grants produces. */
  ghost predicate SignedAlong(k: Crypto, keys: seq<Key>, grants: seq<Grant>, chain: seq<Credential>)
    requires |keys| == |grants| + 1
  {
    |chain| == |grants| && forall i | 0 <= i < |chain| :: Sign(k, Hop(k, keys, grants, i), keys[i]) == Some(chain[i])
  }

  lemma SignedHop(k: Crypto, keys: seq<Key>, grants: seq<Grant>, chain: seq<Credential>, i: nat)
    requires SignaturesVerify(k) && |keys| == |grants| + 1 && SignedAlong(k, keys, grants, chain) && i < |chain|
    ensures chain[i] == Hop(k, keys, grants, i).(signature := chain[i].signature) && SignatureOk(k, chain[i])
  {
    hide Sign, SignatureOk, Hop;
    assert Sign(k, Hop(k, keys, grants, i), keys[i]) == Some(chain[i]);
    SignedVerifies(k, Hop(k, keys, grants, i), keys[i]);
  }

  lemma SignedFields(k: Crypto, keys: seq<Key>, grants: seq<Grant>, chain: seq<Credential>, i: nat)
    requires SignaturesVerify(k) && |keys| == |grants| + 1 && SignedAlong(k, keys, grants, chain)
             && i < |chain| == |grants|
    ensures var c, g := chain[i], grants[i];
            && SignatureOk(k, c) && c.credentialId == g.id && c.scope == g.scope && c.depth == i
            && c.issuer == k.edPublic(keys[i]) && c.subject == k.edPublic(keys[i + 1])
            && c.parentId == (if i == 0 then None else Some(grants[i - 1].id))
            && c.notBefore == g.notBefore && c.notAfter == g.notAfter
  {
    hide SignedAlong, SignatureOk, SignaturesVerify;
    SignedHop(k, keys, grants, chain, i);
  }

  /** Grant `i` does not widen the one before, reuses no id and is in force now. */
  predicate PrudentGrant(grants: seq<Grant>, now: int, i: nat)
    requires i < |grants|
  {
    && (i > 0 ==> grants[i].scope <= grants[i - 1].scope)
    && (forall j | 0 <= j < i :: grants[j].id != grants[i].id)
    && (grants[i].notBefore.Some? ==> grants[i].notBefore.value <= now)
    && (grants[i].notAfter.Some? ==> now <= grants[i].notAfter.value)
  }

  lemma SameIdSeen(grants: seq<Grant>, chain: seq<Credential>, i: nat)
    requires i < |chain| == |grants| && forall j | 0 <= j <= i :: chain[j].credentialId == grants[j].id
    ensures !IdSeen(chain, i) <==> forall j | 0 <= j < i :: grants[j].id != grants[i].id
  {
  }

  lemma SignedIds(k: Crypto, keys: seq<Key>, grants: seq<Grant>, chain: seq<Credential>)
    requires SignaturesVerify(k) && |keys| == |grants| + 1 && SignedAlong(k, keys, grants, chain)
    ensures |chain| == |grants| && forall i | 0 <= i < |chain| :: chain[i].credentialId == grants[i].id
  {
    assert |chain| == |grants|;
    hide *;
    forall i | 0 <= i < |chain|
      ensures chain[i].credentialId == grants[i].id
    {
      SignedFields(k, keys, grants, chain, i);
    }
  }

  lemma SignedHopGood(k: Crypto, keys: seq<Key>, grants: seq<Grant>, chain: seq<Credential>, maxDepth: int, now: int,
                      i: nat)
    requires SignaturesVerify(k) && |keys| == |grants| + 1 && SignedAlong(k, keys, grants, chain) && i < |chain|
    ensures HopGood(k, maxDepth, now, chain, i) <==> i <= maxDepth && i < |grants| && PrudentGrant(grants, now, i)
  {
    hide SignatureOk, Sign, SignedAlong, SignaturesVerify, Hop, IdSeen;
    SignedIds(k, keys, grants, chain);
    SameIdSeen(grants, chain, i);
    SignedFields(k, keys, grants, chain, i);
    if i > 0 {
      SignedFields(k, keys, grants, chain, i - 1);
    }
  }

  /** A chain signed hop by hop with the right keys is accepted exactly when its grants are prudent, fit the
      depth bound and start at a trusted root: the verifier refuses no honest chain. */
  lemma SignedChainAcceptedIff(k: Crypto, keys: seq<Key>, grants: seq<Grant>, chain: seq<Credential>, p: Policy,
                               clock: int)
    requires SignaturesVerify(k) && |keys| == |grants| + 1 && SignedAlong(k, keys, grants, chain)
    requires !BadArguments(p) && p.revocations.None? && p.maxStaleness.None?
    ensures ChainVerdict(k, p, clock, chain).Ok? <==>
            && grants != [] && k.edPublic(keys[0]) in p.trustedRoots && |grants| <= p.maxDepth + 1
            && forall i | 0 <= i < |grants| :: PrudentGrant(grants, Now(p, clock), i)
  {
    hide ChainVerdict, HopGood, Digestible, Sign, SignatureOk, PrudentGrant;
    var d, now := p.maxDepth, Now(p, clock);
    AcceptsIff(k, p, clock, chain);
    forall i | 0 <= i < |grants|
      ensures HopGood(k, d, now, chain, i) <==> i <= d && PrudentGrant(grants, now, i)
    {
      SignedHopGood(k, keys, grants, chain, d, now, i);
    }
    if grants != [] {
      SignedHop(k, keys, grants, chain, 0);
      assert HopGood(k, d, now, chain, |grants| - 1) ==> |grants| - 1 <= d;
    }
    if WellLinked(k, d, now, chain) {
      WellLinkedIsDigestible(k, d, now, chain);
    }
  }

  /** Such a chain exists for all grants whose bounds are safe integers. */
  lemma GrantsCanBeSigned(k: Crypto, keys: seq<Key>, grants: seq<Grant>) returns (chain: seq<Credential>)
    requires SignaturesVerify(k) && |keys| == |grants| + 1 && |grants| <= MAX_SAFE_INTEGER
    requires forall i | 0 <= i < |grants| :: SafeBound(grants[i].notBefore) && SafeBound(grants[i].notAfter)
    ensures SignedAlong(k, keys, grants, chain)
  {
    hide Sign, SafeBound, SignaturesVerify;
    forall i | 0 <= i < |grants|
      ensures Sign(k, Hop(k, keys, grants, i), keys[i]).Some?
    {
      SignedVerifies(k, Hop(k, keys, grants, i), keys[i]);
    }
    hide Hop;
    chain := seq(|grants|, i requires 0 <= i < |grants| => Sign(k, Hop(k, keys, grants, i), keys[i]).value);
  }

  // ---------------------------------------------------------------- revoking

  /** `revoke`, signed with `key`; None when the time is negative or an integer has no canonical bytes. */
  function Revoke(k: Crypto, c: Credential, key: Key, issuedAt: int): (r: Option<Statement>)
  {
    if Canonicalize(CredentialBody(c)).Err? || issuedAt < 0 || !IsSafe(issuedAt) then None
    else
      var draft := Statement(CredentialDigest(k, c), k.edPublic(key), issuedAt, "");
      StatementEncodes(draft);
      Some(draft.(signature := k.sign(key, Canonicalize(StatementBody(draft)).value)))
  }

  lemma StatementEncodes(s: Statement)
    requires IsSafe(s.issuedAt)
    ensures Canonicalize(StatementBody(s)).Ok?
  {
    hide Canonicalize;
    CanonicalizeSucceeds(StatementBody(s));
  }

  /** A statement made by `revoke` names the credential and the key, and is one a snapshot admits. */
  lemma RevocationVerifies(k: Crypto, c: Credential, key: Key, issuedAt: int)
    requires SignaturesVerify(k) && HexSignatures(k)
    ensures Revoke(k, c, key, issuedAt).Some? <==>
            Canonicalize(CredentialBody(c)).Ok? && 0 <= issuedAt <= MAX_SAFE_INTEGER
    ensures Revoke(k, c, key, issuedAt).Some? ==>
              var s := Revoke(k, c, key, issuedAt).value;
              StatementOk(k, s) && s.revokedDigest == CredentialDigest(k, c) && s.revoker == k.edPublic(key)
  {
    hide Canonicalize, CredentialDigest;
    if Revoke(k, c, key, issuedAt).Some? {
      var s := Revoke(k, c, key, issuedAt).value;
      var draft := s.(signature := "");
      StatementEncodes(draft);
      assert StatementBody(s) == StatementBody(draft);
    }
  }

  /** Revoking a hop with the key of its issuer, or of any issuer above it, takes effect: the chain is then
      refused as revoked, at that hop or earlier, in live use and in audits from that time on. */
  lemma RevokeTakesEffect(k: Crypto, p: Policy, clock: int, chain: seq<Credential>, i: nat, j: nat, key: Key,
                          issuedAt: int)
    requires ChainVerdict(k, p.(revocations := None, maxStaleness := None), clock, chain).Ok? && !BadArguments(p)
    requires j <= i < |chain| && k.edPublic(key) == chain[j].issuer
    requires p.atTime.Some? ==> issuedAt <= p.atTime.value
    requires Revoke(k, chain[i], key, issuedAt).Some? && p.revocations.Some?
    requires Revoke(k, chain[i], key, issuedAt).value in p.revocations.value.statements
    ensures var r := ChainVerdict(k, p, clock, chain);
            r.Err? && r.error.cls == CredentialRevoked && r.error.hop.Some? && r.error.hop.value <= i
  {
    hide Canonicalize, CredentialBody, HopError, Digestible, FirstEffective, SignatureOk;
    var q := p.(revocations := None, maxStaleness := None);
    SameHopFailures(k, p, q, clock, chain, 0);
    AcceptedHopsAreDigestible(k, p, clock, chain);
    var ss, s := p.revocations.value.statements, Revoke(k, chain[i], key, issuedAt).value;
    assert s.revoker in Authorities(chain, i + 1) by {
      assert chain[j].issuer in Authorities(chain, i + 1);
    }
    assert Revoked(k, ss, p.atTime, chain, i) by {
      NamedIsRevoked(k, ss, p.atTime, chain, i, s);
    }
    FirstRevokedHopIsFirst(k, ss, p.atTime, chain, 0);
  }

  lemma NamedIsRevoked(k: Crypto, ss: seq<Statement>, t: Option<int>, chain: seq<Credential>, i: nat, s: Statement)
    requires Digestible(chain) && i < |chain| && s in ss && s.revokedDigest == CredentialDigest(k, chain[i])
    requires InForce(s, Authorities(chain, i + 1), t)
    ensures Revoked(k, ss, t, chain, i)
  {
    hide Canonicalize, CredentialBody, Authorities, CredentialDigest;
  }
}

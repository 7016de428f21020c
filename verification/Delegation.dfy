/** Delegation credentials (delegation/credential.py) and revocation snapshots (delegation/revocation.py). */
module Delegation {
  import opened Basics
  import opened Unicode
  import opened Canonical
  import opened CanonicalFacts
  import opened CryptoModel

  datatype Credential = Credential(
    credentialId: string,
    issuer: string,
    subject: string,
    scope: set<string>,
    depth: int,
    parentId: Option<string>,
    signature: string,
    notBefore: Option<int>,
    notAfter: Option<int>)

  function OptStr(s: Option<string>): (j: Json)
  {
    match s
    case None => JNull
    case Some(t) => JStr(t)
  }

  function StrArray(ss: seq<string>): (j: Json)
    ensures j.JArr? && |j.items| == |ss|
    ensures forall i | 0 <= i < |ss| :: j.items[i] == JStr(ss[i])
  {
    JArr(seq(|ss|, i requires 0 <= i < |ss| => JStr(ss[i])))
  }

  /** `sorted(scope)` as a JSON array. */
  function ScopeArray(scope: set<string>): (j: Json)
  {
    StrArray(Sorted(Text, scope))
  }

  /** How a scope is signed: each of its texts once, and any two in the order of their code points. */
  lemma ScopeOrder(scope: set<string>)
    ensures var items := ScopeArray(scope).items;
            && |items| == |scope| && (forall i | 0 <= i < |items| :: items[i].JStr? && items[i].s in scope)
            && (forall s | s in scope :: JStr(s) in items)
            && forall i, j | 0 <= i < j < |items| :: Precedes(items[i].s, items[j].s, ByCodePoint())
  {
    hide Sorted, Before, Precedes, ByCodePoint;
    var l, items := Sorted(Text, scope), ScopeArray(scope).items;
    forall i | 0 <= i < |items|
      ensures items[i].JStr? && items[i].s in scope
    {
      assert l[i] in l;
    }
    forall s | s in scope
      ensures JStr(s) in items
    {
      var i :| 0 <= i < |l| && l[i] == s;
      assert items[i] == JStr(s);
    }
    forall i, j | 0 <= i < j < |items|
      ensures Precedes(items[i].s, items[j].s, ByCodePoint())
    {
      assert Before(Text, l[i], l[j]);
      TextOrder(l[i], l[j]);
    }
  }

  lemma ScopeEncodable(scope: set<string>)
    ensures Encodable(ScopeArray(scope))
  {
    hide Sorted;
  }

  lemma ScopeArrayInjective(a: set<string>, b: set<string>)
    requires ScopeArray(a) == ScopeArray(b)
    ensures a == b
  {
    hide Sorted;
    var x, y := Sorted(Text, a), Sorted(Text, b);
    assert |ScopeArray(a).items| == |x| && |ScopeArray(b).items| == |y|;
    forall i | 0 <= i < |x|
      ensures x[i] == y[i]
    {
      assert ScopeArray(a).items[i] == JStr(x[i]) && ScopeArray(b).items[i] == JStr(y[i]);
    }
    assert x == y;
    assert forall s :: s in a <==> s in x;
  }

  /** `DelegationCredential.body`: an absent validity bound is left out, not encoded as null. */
  function CredentialBody(c: Credential): (j: Json)
    ensures j.JObj?
  {
    var payload := map[
      "credential_id" := JStr(c.credentialId),
      "issuer" := JStr(c.issuer),
      "subject" := JStr(c.subject),
      "scope" := ScopeArray(c.scope),
      "depth" := JInt(c.depth),
      "parent_id" := OptStr(c.parentId)];
    var payload1 := if c.notBefore.Some? then payload["not_before" := JInt(c.notBefore.value)] else payload;
    var payload2 := if c.notAfter.Some? then payload1["not_after" := JInt(c.notAfter.value)] else payload1;
    JObj(payload2)
  }

  lemma BodyFields(c: Credential)
    ensures var m := CredentialBody(c).fields;
            && {"credential_id", "issuer", "subject", "scope", "depth", "parent_id"} <= m.Keys
            && m["credential_id"] == JStr(c.credentialId) && m["issuer"] == JStr(c.issuer)
            && m["subject"] == JStr(c.subject)
            && m["scope"] == ScopeArray(c.scope) && m["depth"] == JInt(c.depth) && m["parent_id"] == OptStr(c.parentId)
            && ("not_before" in m <==> c.notBefore.Some?) && ("not_after" in m <==> c.notAfter.Some?)
            && (c.notBefore.Some? ==> m["not_before"] == JInt(c.notBefore.value))
            && (c.notAfter.Some? ==> m["not_after"] == JInt(c.notAfter.value))
  {
    hide ScopeArray, OptStr;
  }

  /** The body determines every field but the signature, although it omits absent bounds. */
  lemma CredentialBodyInjective(a: Credential, b: Credential)
    requires CredentialBody(a) == CredentialBody(b)
    ensures a == b.(signature := a.signature)
  {
    hide ScopeArray, CredentialBody;
    BodyFields(a);
    BodyFields(b);
    ScopeArrayInjective(a.scope, b.scope);
  }

  /** `verify_signature` does not raise. A body outside the canonical domain is a failed signature. */
  predicate SignatureOk(k: Crypto, c: Credential) {
    && c.signature != ""
    && Canonicalize(CredentialBody(c)).Ok?
    && k.verify(c.issuer, Canonicalize(CredentialBody(c)).value, c.signature)
  }

  /** `credential_digest`. */
  function CredentialDigest(k: Crypto, c: Credential): (d: string)
    requires Canonicalize(CredentialBody(c)).Ok?
  {
    "sha256:" + k.sha256(Canonicalize(CredentialBody(c)).value)
  }

  /** A digest names exactly one grant, unless the two bodies collide under SHA-256. */
  lemma DigestNamesOneGrant(k: Crypto, a: Credential, b: Credential)
    requires Canonicalize(CredentialBody(a)).Ok? && Canonicalize(CredentialBody(b)).Ok?
    requires NoCollision(k, Canonicalize(CredentialBody(a)).value, Canonicalize(CredentialBody(b)).value)
    requires CredentialDigest(k, a) == CredentialDigest(k, b)
    ensures a == b.(signature := a.signature)
  {
    hide Canonicalize, CredentialBody;
    var p, q := CredentialDigest(k, a), CredentialDigest(k, b);
    assert p[7..] == k.sha256(Canonicalize(CredentialBody(a)).value);
    assert q[7..] == k.sha256(Canonicalize(CredentialBody(b)).value);
    CanonicalizeSucceeds(CredentialBody(a));
    CanonicalizeSucceeds(CredentialBody(b));
    CanonicalInjective(CredentialBody(a), CredentialBody(b));
    CredentialBodyInjective(a, b);
  }

  // ---------------------------------------------------------------- revocation

  datatype Statement = Statement(revokedDigest: string, revoker: string, issuedAt: int, signature: string)

  const REVOCATION_TYPE: string := "ca2a.delegation-revocation.v1"

  function StatementBody(s: Statement): (j: Json)
    ensures j.JObj?
  {
    JObj(map[
      "type" := JStr(REVOCATION_TYPE),
      "revoked_digest" := JStr(s.revokedDigest),
      "revoker" := JStr(s.revoker),
      "issued_at" := JInt(s.issuedAt)])
  }

  /** What a revocation signs: its own type, the digest, the revoker and the time, and nothing else. */
  lemma StatementSays(s: Statement)
    ensures var m := StatementBody(s).fields;
            && m.Keys == {"type", "revoked_digest", "revoker", "issued_at"}
            && m["type"] == JStr("ca2a.delegation-revocation.v1") && m["revoked_digest"] == JStr(s.revokedDigest)
            && m["revoker"] == JStr(s.revoker) && m["issued_at"] == JInt(s.issuedAt)
  {
  }

  /** The signed bytes fix the whole statement but its signature. */
  lemma StatementBytesCommit(a: Statement, b: Statement)
    requires Canonicalize(StatementBody(a)).Ok? && Canonicalize(StatementBody(a)) == Canonicalize(StatementBody(b))
    ensures a == b.(signature := a.signature)
  {
    hide Canonicalize, StatementBody;
    if StatementBody(a) != StatementBody(b) {
      BytesApart(StatementBody(a), StatementBody(b));
    }
    StatementSays(a);
    StatementSays(b);
  }

  /** `RevocationStatement.verify_signature` does not raise. */
  predicate StatementOk(k: Crypto, s: Statement) {
    && IsLowerHex(s.signature, 128)
    && Canonicalize(StatementBody(s)).Ok?
    && k.verify(s.revoker, Canonicalize(StatementBody(s)).value, s.signature)
  }

  /** A 64-byte signature in lower-case hex, under the revoker's key, over the canonical body. */
  ghost predicate SignedByRevoker(k: Crypto, s: Statement) {
    && |s.signature| == 128 && (forall i | 0 <= i < 128 :: s.signature[i] in "0123456789abcdef")
    && Canonicalize(StatementBody(s)).Ok? && k.verify(s.revoker, Canonicalize(StatementBody(s)).value, s.signature)
  }

  lemma StatementOkMeans(k: Crypto, s: Statement)
    ensures StatementOk(k, s) <==> SignedByRevoker(k, s)
  {
    hide Canonicalize, StatementBody;
    forall c: char
      ensures IsLowerHexDigit(c) <==> c in "0123456789abcdef"
    {
      HexDigitsAre(c);
    }
  }

  /** No revocation is signed over the bytes of a credential. */
  lemma RevocationIsNotACredential(s: Statement, c: Credential)
    ensures StatementBody(s) != CredentialBody(c)
    ensures Canonicalize(StatementBody(s)).Ok? ==> Canonicalize(StatementBody(s)) != Canonicalize(CredentialBody(c))
  {
    hide Canonicalize, ScopeArray;
    BytesApart(StatementBody(s), CredentialBody(c)) by {
      assert "revoker" in StatementBody(s).fields && "revoker" !in CredentialBody(c).fields;
    }
    assert "revoker" in StatementBody(s).fields && "revoker" !in CredentialBody(c).fields;
  }

  datatype Snapshot = Snapshot(asOf: int, statements: seq<Statement>, byDigest: map<string, seq<Statement>>)

  function Bucket(ss: seq<Statement>, d: string): (r: seq<Statement>)
  {
    if ss == [] then []
    else
      var rest := Bucket(ss[..|ss| - 1], d);
      var last := ss[|ss| - 1];
      if last.revokedDigest == d then rest + [last] else rest
  }

  /** The index holds, under each digest that occurs, its statements in list order. */
  ghost predicate Indexed(s: Snapshot) {
    && (forall d :: d in s.byDigest <==> Bucket(s.statements, d) != [])
    && (forall d | d in s.byDigest :: s.byDigest[d] == Bucket(s.statements, d))
  }

  /** `index.setdefault(digest, []).append(stmt)`. */
  function AddToIndex(index: map<string, seq<Statement>>, s: Statement): (r: map<string, seq<Statement>>)
  {
    index[s.revokedDigest := (if s.revokedDigest in index then index[s.revokedDigest] else []) + [s]]
  }

  lemma AddKeepsIndexed(asOf: int, ss: seq<Statement>, index: map<string, seq<Statement>>, s: Statement)
    requires Indexed(Snapshot(asOf, ss, index))
    ensures Indexed(Snapshot(asOf, ss + [s], AddToIndex(index, s)))
  {
    assert (ss + [s])[..|ss|] == ss;
    forall d
      ensures Bucket(ss + [s], d) == if s.revokedDigest == d then Bucket(ss, d) + [s] else Bucket(ss, d)
    {
    }
  }

  /** `RevocationSnapshot.__post_init__`: verify every statement and fill the index; refuse as a whole. */
  method BuildSnapshot(k: Crypto, asOf: int, statements: seq<Statement>) returns (r: Option<Snapshot>)
    ensures r.Some? <==> asOf >= 0 && forall i | 0 <= i < |statements| :: SignedByRevoker(k, statements[i])
    ensures r.Some? ==> r.value.asOf == asOf && r.value.statements == statements && Indexed(r.value)
  {
    hide StatementOk, AddToIndex, SignedByRevoker;
    if asOf < 0 {
      return None;
    }
    var index: map<string, seq<Statement>> := map[];
    for i := 0 to |statements|
      invariant forall j | 0 <= j < i :: SignedByRevoker(k, statements[j])
      invariant Indexed(Snapshot(asOf, statements[..i], index))
    {
      var s := statements[i];
      StatementOkMeans(k, s);
      if !StatementOk(k, s) {
        return None;
      }
      assert statements[..i + 1] == statements[..i] + [s];
      AddKeepsIndexed(asOf, statements[..i], index, s);
      index := AddToIndex(index, s);
    }
    assert statements[..|statements|] == statements;
    return Some(Snapshot(asOf, statements, index));
  }

  predicate InForce(s: Statement, authorities: set<string>, atTime: Option<int>) {
    s.revoker in authorities && (atTime.None? || s.issuedAt <= atTime.value)
  }

  /** The plain reading of `effective_revocation`: the first statement of the whole list that names
      the digest, comes from an authority and was issued by the audit time. */
  function FirstEffective(ss: seq<Statement>, d: string, authorities: set<string>, atTime: Option<int>)
    : (r: Option<Statement>)
    ensures r.Some? ==>
              && r.value in ss && r.value.revokedDigest == d && r.value.revoker in authorities
              && (atTime.None? || r.value.issuedAt <= atTime.value)
    ensures r.None? ==>
              forall s | s in ss && s.revokedDigest == d && s.revoker in authorities ::
                atTime.Some? && atTime.value < s.issuedAt
  {
    if ss == [] then None
    else
      assert ss == [ss[0]] + ss[1..];
      if ss[0].revokedDigest == d && InForce(ss[0], authorities, atTime) then Some(ss[0])
      else FirstEffective(ss[1..], d, authorities, atTime)
  }

  lemma {:induction false} FirstEffectiveConcat(a: seq<Statement>, b: seq<Statement>, d: string, au: set<string>,
                                                t: Option<int>)
    ensures FirstEffective(a + b, d, au, t) ==
            if FirstEffective(a, d, au, t).Some? then FirstEffective(a, d, au, t) else FirstEffective(b, d, au, t)
  {
    if a == [] {
      assert a + b == b;
    } else {
      assert (a + b)[1..] == a[1..] + b;
      FirstEffectiveConcat(a[1..], b, d, au, t);
    }
  }

  /** Looking only into the digest's bucket finds the same statement as scanning everything. */
  lemma {:induction false} BucketSuffices(ss: seq<Statement>, d: string, au: set<string>, t: Option<int>)
    ensures FirstEffective(Bucket(ss, d), d, au, t) == FirstEffective(ss, d, au, t)
    ensures forall s | s in Bucket(ss, d) :: s.revokedDigest == d
  {
    if ss != [] {
      var init, last := ss[..|ss| - 1], ss[|ss| - 1];
      BucketSuffices(init, d, au, t);
      assert ss == init + [last];
      FirstEffectiveConcat(init, [last], d, au, t);
      FirstEffectiveConcat(Bucket(init, d), [last], d, au, t);
    }
  }

  lemma ScanStep(bucket: seq<Statement>, i: nat, d: string, au: set<string>, t: Option<int>)
    requires i < |bucket| && bucket[i].revokedDigest == d
    ensures FirstEffective(bucket[i..], d, au, t) ==
            if InForce(bucket[i], au, t) then Some(bucket[i]) else FirstEffective(bucket[i + 1..], d, au, t)
  {
    assert bucket[i..][0] == bucket[i] && bucket[i..][1..] == bucket[i + 1..];
  }

  lemma ScanEnds(bucket: seq<Statement>, d: string, au: set<string>, t: Option<int>)
    ensures FirstEffective(bucket[0..], d, au, t) == FirstEffective(bucket, d, au, t)
    ensures FirstEffective(bucket[|bucket|..], d, au, t) == None
  {
    assert bucket[0..] == bucket;
  }

  /** `effective_revocation`: the bucket loop with early return. */
  method EffectiveRevocation(snap: Snapshot, d: string, authorities: set<string>, atTime: Option<int>)
    returns (r: Option<Statement>)
    requires Indexed(snap)
    ensures r == FirstEffective(snap.statements, d, authorities, atTime)
    ensures r.Some? <==>
            exists s :: && s in snap.statements && s.revokedDigest == d && s.revoker in authorities
                        && (atTime.None? || s.issuedAt <= atTime.value)
  {
    hide FirstEffective, Bucket;
    var bucket := if d in snap.byDigest then snap.byDigest[d] else [];
    assert bucket == Bucket(snap.statements, d);
    BucketSuffices(snap.statements, d, authorities, atTime);
    ScanEnds(bucket, d, authorities, atTime);
    for i := 0 to |bucket|
      invariant FirstEffective(bucket, d, authorities, atTime) == FirstEffective(bucket[i..], d, authorities, atTime)
    {
      var s := bucket[i];
      assert s in bucket;
      ScanStep(bucket, i, d, authorities, atTime);
      if s.revoker !in authorities {
        continue;
      }
      if atTime.Some? && s.issuedAt > atTime.value {
        continue;
      }
      return Some(s);
    }
    return None;
  }
}

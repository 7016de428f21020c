/** Emitted TRACE records always verify; parent links alone rule out repeats and fix the history. */
module TraceFacts {
  import opened Basics
  import opened Canonical
  import opened CanonicalFacts
  import opened CryptoModel
  import opened Delegation
  import opened Attestation
  import opened Trace
  import B64 = Base64Url

  /** Equal link hashes mean equal records: no SHA-256 collision, and canonical bytes determine a record. */
  ghost predicate HashesApart(k: Crypto, lib: Library, a: seq<Fields>, b: seq<Fields>) {
    forall i, j | 0 <= i < |a| && 0 <= j < |b| :: TraceHash(k, lib, a[i]) == TraceHash(k, lib, b[j]) ==> a[i] == b[j]
  }

  /** The canonical encoder of this repository provides the second half of that assumption. */
  lemma CanonicalHashesApart(k: Crypto, lib: Library, a: Fields, b: Fields)
    requires Encodable(JObj(a)) && Encodable(JObj(b))
    requires Canonicalize(JObj(a)) == Ok(lib.dumps(JObj(a))) && Canonicalize(JObj(b)) == Ok(lib.dumps(JObj(b)))
    requires NoCollision(k, lib.dumps(JObj(a)), lib.dumps(JObj(b)))
    requires TraceHash(k, lib, a) == TraceHash(k, lib, b)
    ensures a == b
  {
    hide Canonicalize, Encodable;
    assert TraceHash(k, lib, a)[7..] == k.sha256(lib.dumps(JObj(a)));
    assert TraceHash(k, lib, b)[7..] == k.sha256(lib.dumps(JObj(b)));
    CanonicalInjective(JObj(a), JObj(b));
  }

  /** Record `i` carries the hash of record `i - 1`; the root carries no block. */
  ghost predicate ParentLinked(k: Crypto, lib: Library, rs: seq<Fields>, i: nat)
    requires i < |rs|
  {
    var d := Get(rs[i], "delegation");
    if i == 0 then d.JNull?
    else d.JObj? && Get(d.fields, "parent_record_hash") == JStr(TraceHash(k, lib, rs[i - 1]))
  }

  ghost predicate AllLinked(k: Crypto, lib: Library, rs: seq<Fields>) {
    forall i | 0 <= i < |rs| :: ParentLinked(k, lib, rs, i)
  }

  /** A link with a final newline passes the digest pattern and is refused all the same: no record hash ends
      in one. */
  lemma NewlineLinkRefused(k: Crypto, lib: Library, record: Fields, prev: Fields)
    requires HexDigests(k) && BlockOk(Get(record, "delegation")) && Get(record, "delegation").JObj?
    requires var link := Get(record, "delegation").fields["parent_record_hash"].s; link[|link| - 1] == '\n'
    ensures LinkError(record, Some(TraceHash(k, lib, prev))).Some?
  {
    var h := TraceHash(k, lib, prev);
    assert IsLowerHexDigit(k.sha256(lib.dumps(JObj(prev)))[63]);
    assert h[|h| - 1] != '\n';
  }

  /** Such a link exists, and only the comparison with the hash refuses it. */
  lemma NewlineLinkPassesThePattern(digest: string)
    requires IsLowerHex(digest, 64)
    ensures IsDigest("sha256:" + digest + "\n") && !DigestBody("sha256:" + digest + "\n")
  {
    var s := "sha256:" + digest + "\n";
    assert s[..|s| - 1] == "sha256:" + digest && ("sha256:" + digest)[7..] == digest;
    assert !IsLowerHexDigit(s[|s| - 1]) && |s| == 72;
  }

  /** A record that names its signing key is never the body of a holder proof. */
  lemma TraceRecordIsNotAHolderProof(k: Crypto, record: Fields, audience: string, c: Claim, callerKey: Option<string>)
    requires "cnf" in record
    ensures JObj(record) != ProofBody(k, audience, c, callerKey)
    ensures Canonicalize(JObj(record)) != Canonicalize(ProofBody(k, audience, c, callerKey))
  {
    hide Canonicalize, Encodable;
    var proof := ProofBody(k, audience, c, callerKey);
    assert "cnf" !in proof.fields;
    BytesApart(proof, JObj(record));
    ProofBodyEncodable(k, audience, c, callerKey);
  }

  /** The parent links alone already imply that no record hash repeats. */
  lemma {:induction false} LinksImplyDistinct(k: Crypto, lib: Library, rs: seq<Fields>, i: nat, j: nat)
    requires AllLinked(k, lib, rs) && HashesApart(k, lib, rs, rs) && i < j < |rs|
    ensures TraceHash(k, lib, rs[i]) != TraceHash(k, lib, rs[j])
    decreases i
  {
    hide TraceHash;
    if TraceHash(k, lib, rs[i]) == TraceHash(k, lib, rs[j]) {
      assert rs[i] == rs[j];
      assert ParentLinked(k, lib, rs, i) && ParentLinked(k, lib, rs, j);
      assert i > 0;
      LinksImplyDistinct(k, lib, rs, i - 1, j - 1);
    }
  }

  lemma AcceptedAreLinked(k: Crypto, lib: Library, trusted: set<Bytes>, rs: seq<Fields>)
    requires TraceDagOk(k, lib, trusted, rs)
    ensures AllLinked(k, lib, rs)
  {
    hide TraceHash;
    forall i | 0 <= i < |rs|
      ensures ParentLinked(k, lib, rs, i)
    {
      assert RecordError(k, lib, trusted, rs, i).None?;
    }
  }

  lemma LinkErrorIff(k: Crypto, lib: Library, rs: seq<Fields>, i: nat)
    requires i < |rs| && BlockOk(Get(rs[i], "delegation"))
    ensures LinkError(rs[i], if i == 0 then None else Some(TraceHash(k, lib, rs[i - 1]))).None? <==>
            ParentLinked(k, lib, rs, i)
  {
    hide IsDigest;
    if i > 0 {
      assert "sha256:" <= TraceHash(k, lib, rs[i - 1]);
    }
  }

  /** A non-empty list is accepted exactly when every record is valid and the parent links hold: the
      repeat check decides nothing on its own. */
  lemma AcceptedIffLinked(k: Crypto, lib: Library, trusted: set<Bytes>, rs: seq<Fields>)
    requires HashesApart(k, lib, rs, rs)
    ensures TraceDagOk(k, lib, trusted, rs) <==>
            rs != [] && (forall i | 0 <= i < |rs| :: RecordOk(lib, trusted, rs[i])) && AllLinked(k, lib, rs)
  {
    hide TraceHash, LinkError, RecordOk, BlockOk, ParentLinked;
    if TraceDagOk(k, lib, trusted, rs) {
      AcceptedAreLinked(k, lib, trusted, rs);
      forall i | 0 <= i < |rs|
        ensures RecordOk(lib, trusted, rs[i])
      {
        assert RecordError(k, lib, trusted, rs, i).None?;
      }
    } else if rs != [] && (forall i | 0 <= i < |rs| :: RecordOk(lib, trusted, rs[i])) && AllLinked(k, lib, rs) {
      var i :| 0 <= i < |rs| && RecordError(k, lib, trusted, rs, i).Some?;
      forall j | 0 <= j < i
        ensures TraceHash(k, lib, rs[j]) != TraceHash(k, lib, rs[i])
      {
        LinksImplyDistinct(k, lib, rs, j, i);
      }
      RecordOkBlock(lib, trusted, rs[i]);
      LinkErrorIff(k, lib, rs, i);
    }
  }

  lemma {:induction false} LastHashFixesAll(k: Crypto, lib: Library, a: seq<Fields>, b: seq<Fields>)
    requires AllLinked(k, lib, a) && AllLinked(k, lib, b) && HashesApart(k, lib, a, b) && a != [] && b != []
    requires TraceHash(k, lib, a[|a| - 1]) == TraceHash(k, lib, b[|b| - 1])
    ensures a == b
    decreases |a|
  {
    hide TraceHash;
    var m, n := |a| - 1, |b| - 1;
    assert a[m] == b[n] && ParentLinked(k, lib, a, m) && ParentLinked(k, lib, b, n);
    assert a == a[..m] + [a[m]] && b == b[..n] + [b[n]];
    if m > 0 {
      assert forall i | 0 <= i < m :: ParentLinked(k, lib, a, i) ==> ParentLinked(k, lib, a[..m], i);
      assert forall i | 0 <= i < n :: ParentLinked(k, lib, b, i) ==> ParentLinked(k, lib, b[..n], i);
      LastHashFixesAll(k, lib, a[..m], b[..n]);
    }
  }

  /** Two accepted DAGs whose leaves have the same hash are the same DAG. */
  lemma LeafHashFixesDag(k: Crypto, lib: Library, t: set<Bytes>, u: set<Bytes>, a: seq<Fields>, b: seq<Fields>)
    requires TraceDagOk(k, lib, t, a) && TraceDagOk(k, lib, u, b) && HashesApart(k, lib, a, b)
    requires TraceHash(k, lib, a[|a| - 1]) == TraceHash(k, lib, b[|b| - 1])
    ensures a == b
  {
    hide TraceHash, RecordError;
    AcceptedAreLinked(k, lib, t, a);
    AcceptedAreLinked(k, lib, u, b);
    LastHashFixesAll(k, lib, a, b);
  }

  // ---------------------------------------------------------------- emission

  /** The library verifies what it signs, and reads back the key it embeds. */
  ghost predicate LibraryAgrees(k: Crypto, lib: Library) {
    && (forall m, key {:trigger SignRecord(lib, m, key)} :: lib.verify(SignRecord(lib, m, key), Jwk(lib, key)))
    && (forall key {:trigger lib.publicRaw(key)} ::
          lib.decodeKey(B64.Encode(lib.publicRaw(key))) == Some(lib.publicRaw(key))
            && lib.hex(lib.publicRaw(key)) == k.edPublic(key))
  }

  /** What `emit_dag` was given fits: ids where they are recorded, trusted keys, and a schema that admits the
      base of each record emitted. */
  ghost predicate HopsFit(k: Crypto, lib: Library, trusted: set<Bytes>, hops: seq<HopSpec>) {
    && hops != []
    && (forall i | 0 < i < |hops| :: hops[i].credentialId != "")
    && (forall i | 0 <= i < |hops| :: lib.publicRaw(hops[i].signingKey) in trusted)
    && (forall i | 0 <= i < |hops| :: lib.validate(Emitted(k, lib, hops)[i] - {"delegation"}))
  }

  function HopFields(hop: HopSpec, root: bool, parent: string): (m: Fields)
  {
    var base := BaseRecord(hop.subject, hop.iat, hop.context);
    if root then base else base["delegation" := Block(parent, hop.credentialId)]
  }

  /** What the schema sees of a signed hop: the record without its delegation block. */
  function SignedBase(lib: Library, hop: HopSpec, root: bool, parent: string): (m: Fields)
  {
    SignRecord(lib, HopFields(hop, root, parent), hop.signingKey) - {"delegation"}
  }

  lemma {:induction false} EmittedShape(k: Crypto, lib: Library, hops: seq<HopSpec>, i: nat)
    requires i < |hops|
    ensures var rs := Emitted(k, lib, hops);
            rs[i] == SignRecord(lib, HopFields(hops[i], i == 0, if i == 0 then "" else TraceHash(k, lib, rs[i - 1])),
                                hops[i].signingKey)
  {
    hide TraceHash, SignRecord, BaseRecord, Block;
    var n := |hops| - 1;
    if i < n {
      EmittedShape(k, lib, hops[..n], i);
    }
  }

  lemma SignedFields(lib: Library, hop: HopSpec, root: bool, parent: string)
    ensures var r := SignRecord(lib, HopFields(hop, root, parent), hop.signingKey);
            && JwkOf(r) == Jwk(lib, hop.signingKey)
            && Get(r, "delegation") == if root then JNull else Block(parent, hop.credentialId)
  {
    hide Jwk, PutText;
    var r := SignRecord(lib, HopFields(hop, root, parent), hop.signingKey);
    var base := BaseRecord(hop.subject, hop.iat, hop.context);
    assert "delegation" !in base;
    assert r["cnf"] == JObj(map["jwk" := JObj(Jwk(lib, hop.signingKey))]);
  }

  lemma SignedRecordOk(k: Crypto, lib: Library, trusted: set<Bytes>, hop: HopSpec, root: bool, parent: string)
    requires LibraryAgrees(k, lib) && lib.publicRaw(hop.signingKey) in trusted
    requires lib.validate(SignedBase(lib, hop, root, parent))
    requires root || (hop.credentialId != "" && DigestBody(parent))
    ensures var r := SignRecord(lib, HopFields(hop, root, parent), hop.signingKey);
            RecordOk(lib, trusted, r) && JwkRaw(lib, JwkOf(r)) == Some(lib.publicRaw(hop.signingKey))
  {
    hide SignRecord, HopFields, DigestBody, BaseRecord, B64.Encode;
    SignedFields(lib, hop, root, parent);
    var r := SignRecord(lib, HopFields(hop, root, parent), hop.signingKey);
    assert lib.verify(r, Jwk(lib, hop.signingKey));
  }

  lemma HashIsDigest(k: Crypto, lib: Library, m: Fields)
    requires HexDigests(k)
    ensures DigestBody(TraceHash(k, lib, m)) && "sha256:" <= TraceHash(k, lib, m)
  {
    var h := k.sha256(lib.dumps(JObj(m)));
    assert TraceHash(k, lib, m)[7..] == h;
  }

  /** The chain the hops acted under: subjects sign, and later hops name their credential. */
  ghost predicate ActsUnder(k: Crypto, hops: seq<HopSpec>, chain: seq<Credential>) {
    && |hops| == |chain|
    && (forall i | 0 <= i < |hops| :: k.edPublic(hops[i].signingKey) == chain[i].subject)
    && (forall i | 0 < i < |hops| :: hops[i].credentialId == chain[i].credentialId)
  }

  lemma EmittedRecord(k: Crypto, lib: Library, trusted: set<Bytes>, hops: seq<HopSpec>, i: nat)
    requires LibraryAgrees(k, lib) && HexDigests(k) && HopsFit(k, lib, trusted, hops) && i < |hops|
    ensures var rs := Emitted(k, lib, hops);
            && RecordOk(lib, trusted, rs[i]) && ParentLinked(k, lib, rs, i)
            && JwkRaw(lib, JwkOf(rs[i])) == Some(lib.publicRaw(hops[i].signingKey))
            && BlockOk(Get(rs[i], "delegation"))
            && LinkError(rs[i], if i == 0 then None else Some(TraceHash(k, lib, rs[i - 1]))).None?
            && (i > 0 ==>
                Get(rs[i], "delegation").JObj?
                  && Get(Get(rs[i], "delegation").fields, "credential_id") == JStr(hops[i].credentialId))
  {
    hide TraceHash, SignRecord, HopFields, DigestBody, JwkOf, Emitted, BaseRecord;
    var rs := Emitted(k, lib, hops);
    var parent := if i == 0 then "" else TraceHash(k, lib, rs[i - 1]);
    EmittedShape(k, lib, hops, i);
    SignedFields(lib, hops[i], i == 0, parent);
    if i > 0 {
      HashIsDigest(k, lib, rs[i - 1]);
    }
    SignedRecordOk(k, lib, trusted, hops[i], i == 0, parent);
    RecordOkBlock(lib, trusted, rs[i]);
  }

  /** `emit_dag` over any fitting hops, signed by the chain's subject keys, always passes both checks. */
  lemma EmittedVerifies(k: Crypto, lib: Library, trusted: set<Bytes>, hops: seq<HopSpec>, chain: seq<Credential>)
    requires LibraryAgrees(k, lib) && HexDigests(k) && HopsFit(k, lib, trusted, hops) && ActsUnder(k, hops, chain)
    requires HashesApart(k, lib, Emitted(k, lib, hops), Emitted(k, lib, hops))
    ensures TraceDagOk(k, lib, trusted, Emitted(k, lib, hops)) && CrossChecks(lib, Emitted(k, lib, hops), chain)
  {
    hide TraceHash, SignRecord, JwkOf, Emitted, RecordOk, LinkError, JwkRaw, BlockOk;
    var rs := Emitted(k, lib, hops);
    forall i | 0 <= i < |rs|
      ensures ParentLinked(k, lib, rs, i)
    {
      EmittedRecord(k, lib, trusted, hops, i);
    }
    forall i | 0 <= i < |rs|
      ensures RecordError(k, lib, trusted, rs, i).None?
    {
      EmittedRecord(k, lib, trusted, hops, i);
      forall j | 0 <= j < i
        ensures TraceHash(k, lib, rs[j]) != TraceHash(k, lib, rs[i])
      {
        LinksImplyDistinct(k, lib, rs, j, i);
      }
    }
    forall i | 0 <= i < |rs|
      ensures Mirrors(lib, rs[i], i == 0, chain[i])
    {
      EmittedRecord(k, lib, trusted, hops, i);
      assert lib.hex(lib.publicRaw(hops[i].signingKey)) == k.edPublic(hops[i].signingKey);
    }
  }
}

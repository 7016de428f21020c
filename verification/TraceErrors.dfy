/** Which answer `verify_trace_dag` gives, said over the records' own fields. */
module TraceErrors {
  import opened Basics
  import opened Canonical
  import opened CryptoModel
  import opened Errors
  import opened Delegation
  import opened Trace
  import opened TraceFacts

  // ---------------------------------------------------------------- one record

  ghost predicate Hex(s: string, n: nat) {
    |s| == n && forall i | 0 <= i < n :: s[i] in "0123456789abcdef"
  }

  /** A labelled SHA-256 or SHA-384 digest in lower-case hex. */
  ghost predicate Labelled(s: string) {
    (exists h :: s == "sha256:" + h && Hex(h, 64)) || (exists h :: s == "sha384:" + h && Hex(h, 96))
  }

  /** Such a digest, with at most a final newline after it. */
  ghost predicate DigestText(s: string) {
    Labelled(s) || exists t :: s == t + "\n" && Labelled(t)
  }

  /** No block, or exactly a digest and a non-empty credential id. */
  ghost predicate BlockFits(record: Fields) {
    || "delegation" !in record || record["delegation"].JNull?
    || (&& record["delegation"].JObj?
        && var b := record["delegation"].fields;
           && b.Keys == {"parent_record_hash", "credential_id"}
           && b["parent_record_hash"].JStr? && DigestText(b["parent_record_hash"].s)
           && b["credential_id"].JStr? && b["credential_id"].s != "")
  }

  /** The record embeds an Ed25519 key, and `raw` is its bytes. */
  ghost predicate EmbedsKey(lib: Library, record: Fields, raw: Bytes) {
    && "cnf" in record && record["cnf"].JObj?
    && "jwk" in record["cnf"].fields && record["cnf"].fields["jwk"].JObj?
    && var jwk := record["cnf"].fields["jwk"].fields;
       && {"kty", "crv", "x"} <= jwk.Keys && jwk["kty"] == JStr("OKP") && jwk["crv"] == JStr("Ed25519")
       && jwk["x"].JStr? && lib.decodeKey(jwk["x"].s) == Some(raw)
  }

  ghost predicate SignedByTrusted(lib: Library, trusted: set<Bytes>, record: Fields) {
    exists raw :: && EmbedsKey(lib, record, raw) && raw in trusted
                  && lib.verify(record, record["cnf"].fields["jwk"].fields)
  }

  /** Schema-valid without its block, with a fitting block, and signed by the trusted key it embeds. */
  ghost predicate Sound(lib: Library, trusted: set<Bytes>, record: Fields) {
    lib.validate(record - {"delegation"}) && BlockFits(record) && SignedByTrusted(lib, trusted, record)
  }

  lemma HexMeans(s: string, n: nat)
    ensures IsLowerHex(s, n) <==> Hex(s, n)
  {
    forall c: char
      ensures IsLowerHexDigit(c) <==> c in "0123456789abcdef"
    {
      HexDigitsAre(c);
    }
  }

  lemma LabelledMeans(s: string, name: string, n: nat)
    requires |name| == 7
    ensures (name <= s && IsLowerHex(s[7..], n)) <==> exists h :: s == name + h && Hex(h, n)
  {
    hide Hex, IsLowerHex;
    if name <= s {
      assert s == name + s[7..];
      HexMeans(s[7..], n);
    }
    if h :| s == name + h && Hex(h, n) {
      assert s[7..] == h;
      HexMeans(h, n);
    }
  }

  lemma DigestBodyMeans(s: string)
    ensures DigestBody(s) <==> Labelled(s)
  {
    hide Hex, IsLowerHex;
    LabelledMeans(s, "sha256:", 64);
    LabelledMeans(s, "sha384:", 96);
  }

  lemma DigestMeans(s: string)
    ensures IsDigest(s) <==> DigestText(s)
  {
    hide DigestBody, Labelled;
    DigestBodyMeans(s);
    if s != "" && s[|s| - 1] == '\n' {
      assert s == s[..|s| - 1] + "\n";
      DigestBodyMeans(s[..|s| - 1]);
    }
    if t :| s == t + "\n" && Labelled(t) {
      assert s[..|s| - 1] == t;
    }
  }

  lemma BlockMeans(record: Fields)
    ensures BlockOk(Get(record, "delegation")) <==> BlockFits(record)
  {
    hide IsDigest, DigestText;
    var d := Get(record, "delegation");
    if d.JObj? && d.fields.Keys == {"parent_record_hash", "credential_id"} && d.fields["parent_record_hash"].JStr? {
      DigestMeans(d.fields["parent_record_hash"].s);
    }
  }

  lemma KeyMeans(lib: Library, record: Fields, raw: Bytes)
    ensures JwkRaw(lib, JwkOf(record)) == Some(raw) <==> EmbedsKey(lib, record, raw)
    ensures EmbedsKey(lib, record, raw) ==> JwkOf(record) == record["cnf"].fields["jwk"].fields
  {
  }

  lemma SoundMeans(lib: Library, trusted: set<Bytes>, record: Fields)
    ensures RecordOk(lib, trusted, record) <==> Sound(lib, trusted, record)
  {
    hide BlockOk, BlockFits, JwkRaw, JwkOf, EmbedsKey;
    BlockMeans(record);
    forall raw
      ensures JwkRaw(lib, JwkOf(record)) == Some(raw) <==> EmbedsKey(lib, record, raw)
      ensures EmbedsKey(lib, record, raw) ==> SameKey(record, JwkOf(record))
    {
      KeyMeans(lib, record, raw);
      if EmbedsKey(lib, record, raw) {
        KeyPlace(lib, record, raw);
      }
    }
  }

  /** The key map sits under `cnf.jwk`. */
  ghost predicate SameKey(record: Fields, jwk: Fields) {
    && "cnf" in record && record["cnf"].JObj?
    && "jwk" in record["cnf"].fields && record["cnf"].fields["jwk"] == JObj(jwk)
  }

  lemma KeyPlace(lib: Library, record: Fields, raw: Bytes)
    requires EmbedsKey(lib, record, raw)
    ensures SameKey(record, JwkOf(record))
  {
  }

  // ---------------------------------------------------------------- the answer for a record

  ghost predicate Repeats(k: Crypto, lib: Library, rs: seq<Fields>, i: nat)
    requires i < |rs|
  {
    exists j :: && 0 <= j < i
                && "sha256:" + k.sha256(lib.dumps(JObj(rs[j]))) == "sha256:" + k.sha256(lib.dumps(JObj(rs[i])))
  }

  predicate HasBlock(record: Fields) {
    "delegation" in record && !record["delegation"].JNull?
  }

  /** The link text of a record that has a fitting block. */
  function Link(record: Fields): (s: string)
  {
    if "delegation" in record && record["delegation"].JObj? && "parent_record_hash" in record["delegation"].fields
       && record["delegation"].fields["parent_record_hash"].JStr?
    then record["delegation"].fields["parent_record_hash"].s else ""
  }

  /** Which error record `i` raises: invalid if it is not sound; else broken if it repeats a record, if the root has
      a block or a later record none; else unsupported if the link is not a SHA-256 one; else broken if the link is
      not the hash of the record before. */
  lemma RecordErrorIff(k: Crypto, lib: Library, trusted: set<Bytes>, rs: seq<Fields>, i: nat)
    requires i < |rs|
    ensures var e := RecordError(k, lib, trusted, rs, i);
            var misplaced := if i == 0 then HasBlock(rs[i]) else !HasBlock(rs[i]);
            var labelled := "sha256:" <= Link(rs[i]);
            && (e == Some(TraceRecordInvalid) <==> !Sound(lib, trusted, rs[i]))
            && (e == Some(TraceDigestUnsupported) <==>
                  Sound(lib, trusted, rs[i]) && !Repeats(k, lib, rs, i) && i > 0 && HasBlock(rs[i]) && !labelled)
            && (e == Some(ProvenanceLinkBroken) <==>
                  && Sound(lib, trusted, rs[i])
                  && (|| Repeats(k, lib, rs, i) || misplaced
                      || (i > 0 && labelled && Link(rs[i]) != "sha256:" + k.sha256(lib.dumps(JObj(rs[i - 1]))))))
            && (e.Some? ==> e.value in {TraceRecordInvalid, TraceDigestUnsupported, ProvenanceLinkBroken})
  {
    hide Sound, RecordOk, IsDigest;
    SoundMeans(lib, trusted, rs[i]);
    if RecordOk(lib, trusted, rs[i]) {
      RecordOkBlock(lib, trusted, rs[i]);
    }
  }

  /** The root has no block; a later record's link is the hash of the record before. */
  ghost predicate LinksBack(k: Crypto, lib: Library, rs: seq<Fields>, i: nat)
    requires i < |rs|
  {
    if i == 0 then !HasBlock(rs[i])
    else HasBlock(rs[i]) && Link(rs[i]) == "sha256:" + k.sha256(lib.dumps(JObj(rs[i - 1])))
  }

  /** The records a verifier accepts, with nothing taken from it: a non-empty list of sound records that link back. */
  lemma TraceAcceptedIff(k: Crypto, lib: Library, trusted: set<Bytes>, rs: seq<Fields>)
    requires HashesApart(k, lib, rs, rs)
    ensures TraceDagOk(k, lib, trusted, rs) <==>
            rs != [] && forall i | 0 <= i < |rs| :: Sound(lib, trusted, rs[i]) && LinksBack(k, lib, rs, i)
  {
    hide Sound, RecordOk, TraceDagOk, LinksBack, ParentLinked, HashesApart;
    AcceptedIffLinked(k, lib, trusted, rs);
    forall i | 0 <= i < |rs|
      ensures RecordOk(lib, trusted, rs[i]) <==> Sound(lib, trusted, rs[i])
      ensures RecordOk(lib, trusted, rs[i]) ==> (ParentLinked(k, lib, rs, i) <==> LinksBack(k, lib, rs, i))
    {
      SoundMeans(lib, trusted, rs[i]);
      if RecordOk(lib, trusted, rs[i]) {
        LinkedMeans(k, lib, trusted, rs, i);
      }
    }
  }

  lemma LinkedMeans(k: Crypto, lib: Library, trusted: set<Bytes>, rs: seq<Fields>, i: nat)
    requires i < |rs| && RecordOk(lib, trusted, rs[i])
    ensures ParentLinked(k, lib, rs, i) <==> LinksBack(k, lib, rs, i)
  {
    hide IsDigest;
    RecordOkBlock(lib, trusted, rs[i]);
  }

  /** The record embeds the key of the credential's subject and, unless it is the root, names the credential. */
  ghost predicate ActedUnder(lib: Library, record: Fields, root: bool, c: Credential) {
    && (exists raw :: EmbedsKey(lib, record, raw) && lib.hex(raw) == c.subject)
    && (!root ==>
          && "delegation" in record && record["delegation"].JObj? && "credential_id" in record["delegation"].fields
          && record["delegation"].fields["credential_id"] == JStr(c.credentialId))
  }

  lemma MirrorsMeans(lib: Library, record: Fields, root: bool, c: Credential)
    ensures Mirrors(lib, record, root, c) <==> ActedUnder(lib, record, root, c)
  {
    hide JwkRaw, JwkOf, EmbedsKey;
    forall raw
      ensures JwkRaw(lib, JwkOf(record)) == Some(raw) <==> EmbedsKey(lib, record, raw)
    {
      KeyMeans(lib, record, raw);
    }
  }

  /** The cross check, likewise: one record per credential, each acted under the credential at its position. */
  lemma CrossCheckMeans(lib: Library, rs: seq<Fields>, chain: seq<Credential>)
    ensures CrossChecks(lib, rs, chain) <==>
            |rs| == |chain| && forall i | 0 <= i < |rs| :: ActedUnder(lib, rs[i], i == 0, chain[i])
  {
    hide Mirrors, ActedUnder;
    if |rs| == |chain| {
      forall i | 0 <= i < |rs|
        ensures Mirrors(lib, rs[i], i == 0, chain[i]) <==> ActedUnder(lib, rs[i], i == 0, chain[i])
      {
        MirrorsMeans(lib, rs[i], i == 0, chain[i]);
      }
    }
  }

  // ---------------------------------------------------------------- building a record

  /** A record is built exactly when the block is given whole or not at all, and then it has a block exactly when
      one was given, with the two given texts. */
  lemma BuildRecordIff(subject: string, iat: int, c: Context, credentialId: Option<string>, parent: Option<string>)
    ensures var r := BuildRecord(subject, iat, c, credentialId, parent);
            && (r.Some? <==> (parent.Some? <==> credentialId.Some?))
            && (r.Some? ==> r.value["subject"] == JStr(subject) && r.value["iat"] == JInt(iat))
            && (r.Some? && parent.None? ==> !HasBlock(r.value))
            && (r.Some? && parent.Some? ==>
                  r.value["delegation"] ==
                  JObj(map["parent_record_hash" := JStr(parent.value), "credential_id" := JStr(credentialId.value)]))
  {
    hide PutText;
  }

  /** The object under a key holds a text under a name, or nothing where there is none to hold. */
  ghost predicate Holds(record: Fields, key: string, name: string, v: Option<string>) {
    && key in record && record[key].JObj?
    && (if v.Some? then name in record[key].fields && record[key].fields[name] == JStr(v.value)
        else name !in record[key].fields)
  }

  lemma PairSays(record: Fields, key: string, a: string, x: string, b: string, y: string, name: string,
                 v: Option<string>)
    requires a != b && name != a && name != b
    requires key in record && record[key] == JObj(PutText(map[a := JStr(x), b := JStr(y)], name, v))
    ensures Holds(record, key, a, Some(x)) && Holds(record, key, b, Some(y)) && Holds(record, key, name, v)
  {
  }

  lemma BaseParts(subject: string, iat: int, c: Context)
    ensures var r := BaseRecord(subject, iat, c);
            && {"model", "runtime", "policy", "build_provenance", "appraisal", "data_class", "transparency"} <= r.Keys
            && r["runtime"] == JObj(PutText(map["platform" := JStr(c.runtimePlatform),
                                                "measurement" := JStr(c.runtimeMeasurement)], "nonce", c.runtimeNonce))
            && r["model"] == JObj(PutText(map["provider" := JStr(c.modelProvider),
                                              "model_id" := JStr(c.modelId)], "version", c.modelVersion))
            && r["policy"] == JObj(PutText(map["bundle_hash" := JStr(c.policyBundleHash),
                                               "enforcement_mode" := JStr(c.enforcementMode)], "version",
                                                 c.policyVersion))
            && r["appraisal"] == JObj(map["status" := JStr(c.appraisalStatus), "verifier" := JStr(c.appraisalVerifier)])
            && r["build_provenance"] == JObj(map["slsa_level" := JInt(c.slsaLevel), "digest" := JStr(c.buildDigest)])
            && r["data_class"] == JStr(c.dataClass) && r["transparency"] == JStr(c.transparency)
  {
    hide PutText;
  }

  /** Every item of a hop's context sits in its own place of the record, and an absent one nowhere. */
  lemma ContextIsRecorded(subject: string, iat: int, c: Context)
    ensures var r := BaseRecord(subject, iat, c);
            && {"data_class", "transparency"} <= r.Keys
            && Holds(r, "model", "provider", Some(c.modelProvider)) && Holds(r, "model", "model_id", Some(c.modelId))
            && Holds(r, "model", "version", c.modelVersion)
            && Holds(r, "runtime", "platform", Some(c.runtimePlatform))
            && Holds(r, "runtime", "measurement", Some(c.runtimeMeasurement))
            && Holds(r, "runtime", "nonce", c.runtimeNonce)
            && Holds(r, "policy", "bundle_hash", Some(c.policyBundleHash))
            && Holds(r, "policy", "enforcement_mode", Some(c.enforcementMode))
            && Holds(r, "policy", "version", c.policyVersion)
            && Holds(r, "build_provenance", "digest", Some(c.buildDigest))
            && Holds(r, "appraisal", "status", Some(c.appraisalStatus))
            && Holds(r, "appraisal", "verifier", Some(c.appraisalVerifier))
            && r["data_class"] == JStr(c.dataClass) && r["transparency"] == JStr(c.transparency)
            && "slsa_level" in r["build_provenance"].fields
            && r["build_provenance"].fields["slsa_level"] == JInt(c.slsaLevel)
  {
    hide PutText, BaseRecord;
    var r := BaseRecord(subject, iat, c);
    BaseParts(subject, iat, c);
    PairSays(r, "runtime", "platform", c.runtimePlatform, "measurement", c.runtimeMeasurement, "nonce", c.runtimeNonce);
    PairSays(r, "model", "provider", c.modelProvider, "model_id", c.modelId, "version", c.modelVersion);
    PairSays(r, "policy", "bundle_hash", c.policyBundleHash, "enforcement_mode", c.enforcementMode, "version",
             c.policyVersion);
  }
}

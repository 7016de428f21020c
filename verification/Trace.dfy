/** Signed TRACE records along a delegation (trace_binding.py) and their verifier (ca2a_verify/dag.py). */
module Trace {
  import opened Basics
  import opened Canonical
  import opened CryptoModel
  import opened Errors
  import opened Delegation
  import B64 = Base64Url

  type Fields = map<string, Json>

  /** The TRACE library and the byte codecs the program calls but does not define. */
  datatype Library = Library(
    /** `validate_json` accepts the record without its delegation block. */
    validate: Fields -> bool,
    /** The signature `sign_record` embeds. */
    signature: (Fields, Key) -> string,
    /** `verify_record` does not raise, for a record and the key it embeds. */
    verify: (Fields, Fields) -> bool,
    /** `rfc8785.dumps`. */
    dumps: Json -> Bytes,
    /** The raw bytes of an Ed25519 public key, and their hex text. */
    publicRaw: Key -> Bytes,
    hex: Bytes -> string,
    /** `base64.urlsafe_b64decode` after padding; None is a ValueError. */
    decodeKey: string -> Option<Bytes>)

  const EAT_PROFILE: string := "tag:agentrust-io.com,2026:trace-v0.2"

  datatype Context = Context(
    modelProvider: string, modelId: string, runtimeMeasurement: string, policyBundleHash: string,
    buildDigest: string, appraisalVerifier: string, transparency: string, runtimePlatform: string,
    enforcementMode: string, dataClass: string, slsaLevel: int, appraisalStatus: string,
    runtimeNonce: Option<string>, modelVersion: Option<string>, policyVersion: Option<string>)

  function PutText(m: Fields, key: string, v: Option<string>): (r: Fields)
  {
    if v.None? then m else m[key := JStr(v.value)]
  }

  function BaseRecord(subject: string, iat: int, c: Context): (m: Fields)
  {
    var runtime :=
        PutText(map["platform" := JStr(c.runtimePlatform), "measurement" := JStr(c.runtimeMeasurement)], "nonce",
                c.runtimeNonce);
    var model :=
        PutText(map["provider" := JStr(c.modelProvider), "model_id" := JStr(c.modelId)], "version", c.modelVersion);
    var policy :=
        PutText(map["bundle_hash" := JStr(c.policyBundleHash), "enforcement_mode" := JStr(c.enforcementMode)],
                "version", c.policyVersion);
    map[
      "eat_profile" := JStr(EAT_PROFILE),
      "iat" := JInt(iat),
      "subject" := JStr(subject),
      "model" := JObj(model),
      "runtime" := JObj(runtime),
      "policy" := JObj(policy),
      "data_class" := JStr(c.dataClass),
      "build_provenance" := JObj(map["slsa_level" := JInt(c.slsaLevel), "digest" := JStr(c.buildDigest)]),
      "appraisal" := JObj(map["status" := JStr(c.appraisalStatus), "verifier" := JStr(c.appraisalVerifier)]),
      "transparency" := JStr(c.transparency)]
  }

  function Block(parent: string, credentialId: string): (j: Json)
  {
    JObj(map["parent_record_hash" := JStr(parent), "credential_id" := JStr(credentialId)])
  }

  /** `build_trace_record`; None is the ValueError of a half-supplied delegation block. */
  function BuildRecord(subject: string, iat: int, c: Context, credentialId: Option<string>, parent: Option<string>)
    : (r: Option<Fields>)
  {
    if parent.None? != credentialId.None? then None
    else if parent.None? then Some(BaseRecord(subject, iat, c))
    else Some(BaseRecord(subject, iat, c)["delegation" := Block(parent.value, credentialId.value)])
  }

  function Jwk(lib: Library, key: Key): (m: Fields)
  {
    map["kty" := JStr("OKP"), "crv" := JStr("Ed25519"), "x" := JStr(B64.Encode(lib.publicRaw(key)))]
  }

  /** `sign_trace_record`: embed the public key, then the signature. */
  function SignRecord(lib: Library, record: Fields, key: Key): (r: Fields)
  {
    var bound := record["cnf" := JObj(map["jwk" := JObj(Jwk(lib, key))])];
    bound["signature" := JStr(lib.signature(bound, key))]
  }

  /** `trace_record_hash`, over the whole signed record. */
  function TraceHash(k: Crypto, lib: Library, record: Fields): (h: string)
  {
    "sha256:" + k.sha256(lib.dumps(JObj(record)))
  }

  datatype HopSpec = HopSpec(subject: string, signingKey: Key, context: Context, iat: int, credentialId: string)

  /** The signed record of hop `i`, given the hash of its parent. */
  function HopRecord(lib: Library, hop: HopSpec, root: bool, parent: Option<string>): (r: Option<Fields>)
  {
    match BuildRecord(hop.subject, hop.iat, hop.context, if root then None else Some(hop.credentialId), parent)
    case None => None
    case Some(m) => Some(SignRecord(lib, m, hop.signingKey))
  }

  /** The records of all hops, each linked to the one before. */
  function Emitted(k: Crypto, lib: Library, hops: seq<HopSpec>): (rs: seq<Fields>)
    ensures |rs| == |hops|
  {
    if hops == [] then []
    else
      var n := |hops| - 1;
      var rs := Emitted(k, lib, hops[..n]);
      var hop := hops[n];
      var base := BaseRecord(hop.subject, hop.iat, hop.context);
      var m := if n == 0 then base else base["delegation" := Block(TraceHash(k, lib, rs[n - 1]), hop.credentialId)];
      rs + [SignRecord(lib, m, hop.signingKey)]
  }

  /** `emit_dag`. It always returns: the half-supplied-block error is never reached. */
  method EmitDag(k: Crypto, lib: Library, hops: seq<HopSpec>) returns (r: Option<seq<Fields>>)
    ensures r == Some(Emitted(k, lib, hops))
  {
    hide BaseRecord, SignRecord, TraceHash, Block;
    var records: seq<Fields> := [];
    var parent: Option<string> := None;
    for i := 0 to |hops|
      invariant records == Emitted(k, lib, hops[..i])
      invariant parent == if i == 0 then None else Some(TraceHash(k, lib, records[i - 1]))
    {
      var hop := hops[i];
      assert hops[..i + 1][..i] == hops[..i];
      var signed := HopRecord(lib, hop, i == 0, parent);
      if signed.None? {
        assert false;
        return None;
      }
      records := records + [signed.value];
      parent := Some(TraceHash(k, lib, signed.value));
    }
    assert hops[..|hops|] == hops;
    return Some(records);
  }

  // ---------------------------------------------------------------- verification

  function Get(m: Fields, key: string): (j: Json)
  {
    if key in m then m[key] else JNull
  }

  /** `^sha(256:[0-9a-f]{64}|384:[0-9a-f]{96})$`; Python's `$` also matches before a final newline. */
  predicate IsDigest(s: string) {
    DigestBody(s) || (s != "" && s[|s| - 1] == '\n' && DigestBody(s[..|s| - 1]))
  }

  predicate DigestBody(s: string) {
    || ("sha256:" <= s && IsLowerHex(s[7..], 64))
    || ("sha384:" <= s && IsLowerHex(s[7..], 96))
  }

  /** `_validate_delegation_block` does not raise. */
  predicate BlockOk(j: Json) {
    || j.JNull?
    || (&& j.JObj? && j.fields.Keys == {"parent_record_hash", "credential_id"}
        && j.fields["parent_record_hash"].JStr? && IsDigest(j.fields["parent_record_hash"].s)
        && j.fields["credential_id"].JStr? && j.fields["credential_id"].s != "")
  }

  function JwkOf(record: Fields): (m: Fields)
  {
    if Get(record, "cnf").JObj? && Get(Get(record, "cnf").fields, "jwk").JObj?
        then Get(Get(record, "cnf").fields, "jwk").fields else map[]
  }

  /** `_jwk_raw`; None is TraceRecordInvalid. */
  function JwkRaw(lib: Library, jwk: Fields): (r: Option<Bytes>)
  {
    if Get(jwk, "kty") != JStr("OKP") || Get(jwk, "crv") != JStr("Ed25519") || !Get(jwk, "x").JStr? then None
    else lib.decodeKey(Get(jwk, "x").s)
  }

  /** The record is valid TRACE, well-blocked, and signed by the trusted key it embeds. */
  predicate RecordOk(lib: Library, trusted: set<Bytes>, record: Fields) {
    && lib.validate(record - {"delegation"}) && BlockOk(Get(record, "delegation"))
    && var raw := JwkRaw(lib, JwkOf(record));
       raw.Some? && raw.value in trusted && lib.verify(record, JwkOf(record))
  }

  /** The link of a record to its predecessor's hash, checked in order. */
  function LinkError(record: Fields, prev: Option<string>): (e: Option<ErrorClass>)
    requires BlockOk(Get(record, "delegation"))
  {
    var d := Get(record, "delegation");
    match prev
    case None => if d.JNull? then None else Some(ProvenanceLinkBroken)
    case Some(h) =>
      if d.JNull? then Some(ProvenanceLinkBroken)
      else if !("sha256:" <= d.fields["parent_record_hash"].s) then Some(TraceDigestUnsupported)
      else if d.fields["parent_record_hash"].s != h then Some(ProvenanceLinkBroken)
      else None
  }

  /** The first check record `i` fails. */
  function RecordError(k: Crypto, lib: Library, trusted: set<Bytes>, rs: seq<Fields>, i: nat): (e: Option<ErrorClass>)
    requires i < |rs|
  {
    if !RecordOk(lib, trusted, rs[i]) then Some(TraceRecordInvalid)
    else if exists j :: 0 <= j < i && TraceHash(k, lib, rs[j]) == TraceHash(k, lib, rs[i])
    then Some(ProvenanceLinkBroken)
    else LinkError(rs[i], if i == 0 then None else Some(TraceHash(k, lib, rs[i - 1])))
  }

  /** The list is accepted: it is not empty and no record fails a check. */
  ghost predicate TraceDagOk(k: Crypto, lib: Library, trusted: set<Bytes>, rs: seq<Fields>) {
    rs != [] && forall i | 0 <= i < |rs| :: RecordError(k, lib, trusted, rs, i).None?
  }

  /** `verify_trace_dag`: the subjects in order, or the error of the first failing record. */
  method VerifyTraceDag(k: Crypto, lib: Library, trusted: set<Bytes>, rs: seq<Fields>)
    returns (r: Result<seq<Json>, ErrorClass>)
    ensures r.Ok? <==> TraceDagOk(k, lib, trusted, rs)
    ensures r.Ok? ==> |r.value| == |rs| && forall i | 0 <= i < |rs| :: r.value[i] == Get(rs[i], "subject")
    ensures r.Err? && rs == [] ==> r.error == ProvenanceLinkBroken
    ensures r.Err? && rs != [] ==>
              exists i :: && 0 <= i < |rs| && RecordError(k, lib, trusted, rs, i) == Some(r.error)
                          && forall j | 0 <= j < i :: RecordError(k, lib, trusted, rs, j).None?
  {
    hide RecordOk, TraceHash, LinkError, BlockOk;
    if rs == [] {
      return Err(ProvenanceLinkBroken);
    }
    var prev: Option<string> := None;
    var seen: set<string> := {};
    var subjects: seq<Json> := [];
    for i := 0 to |rs|
      invariant prev == if i == 0 then None else Some(TraceHash(k, lib, rs[i - 1]))
      invariant seen == set j | 0 <= j < i :: TraceHash(k, lib, rs[j])
      invariant |subjects| == i && forall j | 0 <= j < i :: subjects[j] == Get(rs[j], "subject")
      invariant forall j | 0 <= j < i :: RecordError(k, lib, trusted, rs, j).None?
    {
      var record := rs[i];
      if !RecordOk(lib, trusted, record) {
        assert RecordError(k, lib, trusted, rs, i) == Some(TraceRecordInvalid);
        return Err(TraceRecordInvalid);
      }
      var hash := TraceHash(k, lib, record);
      if hash in seen {
        assert RecordError(k, lib, trusted, rs, i) == Some(ProvenanceLinkBroken);
        return Err(ProvenanceLinkBroken);
      }
      seen := seen + {hash};
      RecordOkBlock(lib, trusted, record);
      var link := LinkError(record, prev);
      if link.Some? {
        assert RecordError(k, lib, trusted, rs, i) == link;
        return Err(link.value);
      }
      assert RecordError(k, lib, trusted, rs, i).None?;
      subjects := subjects + [Get(record, "subject")];
      prev := Some(hash);
    }
    return Ok(subjects);
  }

  lemma RecordOkBlock(lib: Library, trusted: set<Bytes>, record: Fields)
    requires RecordOk(lib, trusted, record)
    ensures BlockOk(Get(record, "delegation"))
  {
  }

  /** The record was signed by the credential's subject and, unless it is the root, names the credential. */
  predicate Mirrors(lib: Library, record: Fields, root: bool, c: Credential) {
    && (!root ==>
        Get(record, "delegation").JObj?
          && Get(Get(record, "delegation").fields, "credential_id") == JStr(c.credentialId))
    && JwkRaw(lib, JwkOf(record)).Some? && lib.hex(JwkRaw(lib, JwkOf(record)).value) == c.subject
  }

  /** `cross_check_trace_dag` does not raise. */
  predicate CrossChecks(lib: Library, rs: seq<Fields>, chain: seq<Credential>) {
    |rs| == |chain| && forall i | 0 <= i < |rs| :: Mirrors(lib, rs[i], i == 0, chain[i])
  }

  /** `cross_check_trace_dag`: one pass comparing each record with the credential at its position. */
  method CrossCheckTraceDag(lib: Library, rs: seq<Fields>, chain: seq<Credential>) returns (ok: bool)
    ensures ok == CrossChecks(lib, rs, chain)
  {
    hide JwkOf, JwkRaw;
    if |rs| != |chain| {
      return false;
    }
    for i := 0 to |rs|
      invariant forall j | 0 <= j < i :: Mirrors(lib, rs[j], j == 0, chain[j])
    {
      if i > 0 {
        var delegation := Get(rs[i], "delegation");
        if !delegation.JObj? || Get(delegation.fields, "credential_id") != JStr(chain[i].credentialId) {
          assert !Mirrors(lib, rs[i], false, chain[i]);
          return false;
        }
      }
      var raw := JwkRaw(lib, JwkOf(rs[i]));
      if raw.None? || lib.hex(raw.value) != chain[i].subject {
        assert !Mirrors(lib, rs[i], i == 0, chain[i]);
        return false;
      }
    }
    return true;
  }
}

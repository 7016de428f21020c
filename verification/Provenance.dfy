/** Unsigned, hash-linked provenance records (provenance.py). */
module Provenance {
  import opened Basics
  import opened Canonical
  import opened CanonicalFacts
  import opened CryptoModel
  import opened Delegation

  /** `caller_attestation`: the four admitted values. */
  datatype CallerAttestation = NotOffered | Failed | SoftwareOnly | Hardware

  function AttestationText(a: CallerAttestation): (s: string)
  {
    match a
    case NotOffered => "not_offered"
    case Failed => "failed"
    case SoftwareOnly => "software-only"
    case Hardware => "hardware"
  }

  datatype Record = Record(
    recordId: string,
    credentialId: string,
    subject: string,
    scope: set<string>,
    parentRecordHash: Option<string>,
    decision: string,
    requestedCapability: Option<string>,
    effectiveScope: Option<set<string>>,
    denialReason: Option<string>,
    callerAttestation: CallerAttestation)

  predicate Denied(r: Record) {
    r.decision == "deny"
  }

  /** The six fields every record body has. */
  function RequiredBody(r: Record): (m: map<string, Json>)
  {
    map[
      "record_id" := JStr(r.recordId),
      "credential_id" := JStr(r.credentialId),
      "subject" := JStr(r.subject),
      "scope" := ScopeArray(r.scope),
      "parent_record_hash" := OptStr(r.parentRecordHash),
      "caller_attestation" := JStr(AttestationText(r.callerAttestation))]
  }

  /** `body[key] = value` when there is a value. */
  function Put(m: map<string, Json>, key: string, v: Option<Json>): (r: map<string, Json>)
  {
    if v.None? then m else m[key := v.value]
  }

  function TextField(s: Option<string>): (j: Option<Json>)
  {
    if s.None? then None else Some(JStr(s.value))
  }

  function ScopeField(s: Option<set<string>>): (j: Option<Json>)
  {
    if s.None? then None else Some(ScopeArray(s.value))
  }

  function DecisionField(r: Record): (d: Option<string>)
  {
    if r.decision == "allow" then None else Some(r.decision)
  }

  /** `DelegationRecord.body`: default and absent fields are left out. */
  function RecordBody(r: Record): (j: Json)
    ensures j.JObj?
  {
    var b1 := Put(RequiredBody(r), "decision", TextField(DecisionField(r)));
    var b2 := Put(b1, "requested_capability", TextField(r.requestedCapability));
    var b3 := Put(b2, "effective_scope", ScopeField(r.effectiveScope));
    JObj(Put(b3, "denial_reason", TextField(r.denialReason)))
  }

  function Field(m: map<string, Json>, key: string): (v: Option<Json>)
  {
    if key in m then Some(m[key]) else None
  }

  lemma PutElsewhere(m: map<string, Json>, key: string, v: Option<Json>, other: string)
    requires other != key
    ensures Field(Put(m, key, v), other) == Field(m, other)
  {
  }

  lemma AttestationTextInjective(a: CallerAttestation, b: CallerAttestation)
    requires AttestationText(a) == AttestationText(b)
    ensures a == b
  {
    assert "not_offered"[0] == 'n' && "failed"[0] == 'f' && "software-only"[0] == 's' && "hardware"[0] == 'h';
  }

  /** Every field can be read back from the body, although defaults are omitted. */
  lemma RecordBodyInjective(a: Record, b: Record)
    requires RecordBody(a) == RecordBody(b)
    ensures a == b
  {
    hide ScopeArray, AttestationText, RecordBody, Field;
    RequiredFields(a);
    RequiredFields(b);
    OptionalFields(a);
    OptionalFields(b);
    ScopeArrayInjective(a.scope, b.scope);
    AttestationTextInjective(a.callerAttestation, b.callerAttestation);
    if a.effectiveScope.Some? {
      ScopeArrayInjective(a.effectiveScope.value, b.effectiveScope.value);
    }
  }

  /** The optional steps leave every other field alone. */
  lemma RequiredKept(r: Record, key: string)
    requires key !in {"decision", "requested_capability", "effective_scope", "denial_reason"}
    ensures Field(RecordBody(r).fields, key) == Field(RequiredBody(r), key)
  {
    hide Put, RequiredBody, TextField, ScopeField, DecisionField, Field;
    var b0 := RequiredBody(r);
    var b1 := Put(b0, "decision", TextField(DecisionField(r)));
    var b2 := Put(b1, "requested_capability", TextField(r.requestedCapability));
    var b3 := Put(b2, "effective_scope", ScopeField(r.effectiveScope));
    PutElsewhere(b0, "decision", TextField(DecisionField(r)), key);
    PutElsewhere(b1, "requested_capability", TextField(r.requestedCapability), key);
    PutElsewhere(b2, "effective_scope", ScopeField(r.effectiveScope), key);
    PutElsewhere(b3, "denial_reason", TextField(r.denialReason), key);
  }

  lemma RequiredHeld(r: Record)
    ensures var m := RequiredBody(r);
            && Field(m, "record_id") == Some(JStr(r.recordId))
            && Field(m, "credential_id") == Some(JStr(r.credentialId))
            && Field(m, "subject") == Some(JStr(r.subject)) && Field(m, "scope") == Some(ScopeArray(r.scope))
            && Field(m, "parent_record_hash") == Some(OptStr(r.parentRecordHash))
            && Field(m, "caller_attestation") == Some(JStr(AttestationText(r.callerAttestation)))
            && m.Keys !! {"decision", "requested_capability", "effective_scope", "denial_reason"}
  {
    hide ScopeArray, AttestationText, OptStr;
  }

  lemma RequiredFields(r: Record)
    ensures var m := RecordBody(r).fields;
            && Field(m, "record_id") == Some(JStr(r.recordId))
            && Field(m, "credential_id") == Some(JStr(r.credentialId))
            && Field(m, "subject") == Some(JStr(r.subject)) && Field(m, "scope") == Some(ScopeArray(r.scope))
            && Field(m, "parent_record_hash") == Some(OptStr(r.parentRecordHash))
            && Field(m, "caller_attestation") == Some(JStr(AttestationText(r.callerAttestation)))
  {
    hide RecordBody, RequiredBody, Field, ScopeArray, AttestationText, OptStr;
    RequiredHeld(r);
    RequiredKept(r, "record_id");
    RequiredKept(r, "credential_id");
    RequiredKept(r, "subject");
    RequiredKept(r, "scope");
    RequiredKept(r, "parent_record_hash");
    RequiredKept(r, "caller_attestation");
  }

  /** Each optional field is there exactly when the record has a value for it. */
  lemma OptionalFields(r: Record)
    ensures var m := RecordBody(r).fields;
            && Field(m, "decision") == TextField(DecisionField(r))
            && Field(m, "requested_capability") == TextField(r.requestedCapability)
            && Field(m, "effective_scope") == ScopeField(r.effectiveScope)
            && Field(m, "denial_reason") == TextField(r.denialReason)
  {
    hide Put, RequiredBody, TextField, ScopeField, DecisionField;
    RequiredHeld(r);
    var b0 := RequiredBody(r);
    var b1 := Put(b0, "decision", TextField(DecisionField(r)));
    var b2 := Put(b1, "requested_capability", TextField(r.requestedCapability));
    var b3 := Put(b2, "effective_scope", ScopeField(r.effectiveScope));
    Step(b0, "decision", TextField(DecisionField(r)), "requested_capability", "effective_scope", "denial_reason");
    Step(b1, "requested_capability", TextField(r.requestedCapability), "decision", "effective_scope", "denial_reason");
    Step(b2, "effective_scope", ScopeField(r.effectiveScope), "decision", "requested_capability", "denial_reason");
    Step(b3, "denial_reason", TextField(r.denialReason), "decision", "requested_capability", "effective_scope");
  }

  lemma Step(m: map<string, Json>, key: string, v: Option<Json>, a: string, b: string, c: string)
    requires key !in m && key != a && key != b && key != c
    ensures var r := Put(m, key, v);
            Field(r, key) == v && Field(r, a) == Field(m, a) && Field(r, b) == Field(m, b) && Field(r, c) == Field(m, c)
  {
  }

  lemma PutEncodable(m: map<string, Json>, key: string, v: Option<Json>)
    requires Encodable(JObj(m)) && (v.Some? ==> Encodable(v.value))
    ensures Encodable(JObj(Put(m, key, v)))
  {
  }

  lemma RequiredEncodable(r: Record)
    ensures Encodable(JObj(RequiredBody(r)))
  {
    hide ScopeArray, AttestationText;
    ScopeEncodable(r.scope);
  }

  lemma RecordBodyEncodable(r: Record)
    ensures Encodable(RecordBody(r))
  {
    hide Put, RequiredBody, DecisionField, Encodable, ScopeArray;
    RequiredEncodable(r);
    if r.effectiveScope.Some? {
      ScopeEncodable(r.effectiveScope.value);
    }
    var b0 := RequiredBody(r);
    var b1 := Put(b0, "decision", TextField(DecisionField(r)));
    var b2 := Put(b1, "requested_capability", TextField(r.requestedCapability));
    var b3 := Put(b2, "effective_scope", ScopeField(r.effectiveScope));
    TextEncodable(DecisionField(r));
    TextEncodable(r.requestedCapability);
    TextEncodable(r.denialReason);
    PutEncodable(b0, "decision", TextField(DecisionField(r)));
    PutEncodable(b1, "requested_capability", TextField(r.requestedCapability));
    PutEncodable(b2, "effective_scope", ScopeField(r.effectiveScope));
    PutEncodable(b3, "denial_reason", TextField(r.denialReason));
  }

  lemma TextEncodable(s: Option<string>)
    ensures TextField(s).Some? ==> Encodable(TextField(s).value)
  {
  }

  /** The hashed bytes of a record; a record body holds only text, so encoding cannot fail. */
  function RecordBytes(r: Record): (b: Bytes)
  {
    RecordBodyEncodable(r);
    CanonicalizeSucceeds(RecordBody(r));
    Canonicalize(RecordBody(r)).value
  }

  /** `record_hash`. */
  function RecordHash(k: Crypto, r: Record): (h: string)
  {
    k.sha256(RecordBytes(r))
  }

  lemma RecordBytesInjective(a: Record, b: Record)
    requires RecordBytes(a) == RecordBytes(b)
    ensures a == b
  {
    hide Canonicalize, RecordBody, Encodable;
    RecordBodyEncodable(a);
    RecordBodyEncodable(b);
    CanonicalInjective(RecordBody(a), RecordBody(b));
    RecordBodyInjective(a, b);
  }

  function RecordFor(c: Credential, recordId: string, parent: Option<string>, att: CallerAttestation): (r: Record)
  {
    Record(recordId, c.credentialId, c.subject, c.scope, parent, "allow", None, None, None, att)
  }

  function DenialRecordFor(c: Credential, recordId: string, parent: Option<string>, capability: string,
                           effective: set<string>, reason: string, att: CallerAttestation): (r: Record)
  {
    Record(recordId, c.credentialId, c.subject, c.scope, parent, "deny", Some(capability), Some(effective),
           Some(reason), att)
  }

  // ---------------------------------------------------------------- verify_dag

  /** Record `i` repeats no earlier id, is not chained onto a denial, and names its predecessor's hash. */
  predicate RecordLinks(k: Crypto, rs: seq<Record>, i: nat)
    requires i < |rs|
  {
    && (forall j | 0 <= j < i :: rs[j].recordId != rs[i].recordId)
    && (if i == 0 then rs[i].parentRecordHash.None?
        else !Denied(rs[i - 1]) && rs[i].parentRecordHash == Some(RecordHash(k, rs[i - 1])))
  }

  predicate DagOk(k: Crypto, rs: seq<Record>) {
    rs != [] && forall i | 0 <= i < |rs| :: RecordLinks(k, rs, i)
  }

  /** `verify_dag`: every refusal is a ProvenanceLinkBroken, so the answer is whether it returns. */
  method VerifyDag(k: Crypto, rs: seq<Record>) returns (ok: bool)
    ensures ok == DagOk(k, rs)
  {
    hide RecordHash;
    if rs == [] {
      return false;
    }
    var seenIds: set<string> := {};
    var prev: Option<Record> := None;
    for i := 0 to |rs|
      invariant seenIds == set j | 0 <= j < i :: rs[j].recordId
      invariant prev == if i == 0 then None else Some(rs[i - 1])
      invariant forall j | 0 <= j < i :: RecordLinks(k, rs, j)
    {
      var rec := rs[i];
      if rec.recordId in seenIds {
        assert !RecordLinks(k, rs, i);
        return false;
      }
      seenIds := seenIds + {rec.recordId};
      if prev.None? {
        if rec.parentRecordHash.Some? {
          assert !RecordLinks(k, rs, i);
          return false;
        }
      } else if Denied(prev.value) {
        assert !RecordLinks(k, rs, i);
        return false;
      } else if rec.parentRecordHash != Some(RecordHash(k, prev.value)) {
        assert !RecordLinks(k, rs, i);
        return false;
      }
      assert RecordLinks(k, rs, i);
      prev := Some(rec);
    }
    return true;
  }

  // ---------------------------------------------------------------- cross_check_chain

  function Hops(rs: seq<Record>): (hs: seq<Record>)
  {
    if rs == [] then []
    else if Denied(rs[|rs| - 1]) then Hops(rs[..|rs| - 1])
    else Hops(rs[..|rs| - 1]) + [rs[|rs| - 1]]
  }

  predicate Matches(r: Record, c: Credential) {
    r.credentialId == c.credentialId && r.subject == c.subject
  }

  /** The dict built from the chain: a later credential replaces an earlier one with the same id. */
  function ById(chain: seq<Credential>): (m: map<string, Credential>)
    ensures forall i | 0 <= i < |chain| :: chain[i].credentialId in m
    ensures forall d | d in m :: m[d] in chain && m[d].credentialId == d
  {
    if chain == [] then map[]
    else
      var last := chain[|chain| - 1];
      assert chain == chain[..|chain| - 1] + [last];
      ById(chain[..|chain| - 1])[last.credentialId := last]
  }

  predicate CrossChecks(rs: seq<Record>, chain: seq<Credential>) {
    && |Hops(rs)| == |chain|
    && (forall i | 0 <= i < |chain| :: Matches(Hops(rs)[i], chain[i]))
    && (forall r | r in rs && Denied(r) ::
          r.credentialId in ById(chain) && r.subject == ById(chain)[r.credentialId].subject)
  }

  /** `cross_check_chain`: the positional loop over the hops, then the loop over the denials. */
  method CrossCheckChain(rs: seq<Record>, chain: seq<Credential>) returns (ok: bool)
    ensures ok == CrossChecks(rs, chain)
  {
    hide Hops, ById;
    var hops := Hops(rs);
    if |hops| != |chain| {
      return false;
    }
    for i := 0 to |chain|
      invariant forall j | 0 <= j < i :: Matches(hops[j], chain[j])
    {
      if hops[i].credentialId != chain[i].credentialId || hops[i].subject != chain[i].subject {
        return false;
      }
    }
    var byId := ById(chain);
    for i := 0 to |rs|
      invariant forall j | 0 <= j < i && Denied(rs[j]) ::
                  rs[j].credentialId in byId && rs[j].subject == byId[rs[j].credentialId].subject
    {
      if !Denied(rs[i]) {
        continue;
      }
      if rs[i].credentialId !in byId || rs[i].subject != byId[rs[i].credentialId].subject {
        assert rs[i] in rs;
        return false;
      }
    }
    return true;
  }
}

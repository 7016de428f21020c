/** Credentials and offers as JSON: `from_dict`, `parse_channel_offer` and what they undo. */
module CredentialWire {
  import opened Basics
  import opened Unicode
  import opened Canonical
  import opened Delegation
  import opened Attestation
  import B64 = Base64Url

  // ---------------------------------------------------------------- credentials

  /** `_credential_to_dict`. */
  function CredentialToDict(c: Credential): (j: Json)
    ensures j.JObj?
  {
    JObj(CredentialBody(c).fields["signature" := JStr(c.signature)])
  }

  predicate IsText(j: Json) {
    j.JStr? && j.s != ""
  }

  predicate IsBound(j: Json) {
    j.JInt? && j.n >= 0
  }

  /** A non-empty array of distinct non-empty strings. */
  predicate IsScope(j: Json) {
    && j.JArr? && j.items != []
    && (forall i | 0 <= i < |j.items| :: IsText(j.items[i]))
    && (forall a, b | 0 <= a < b < |j.items| :: j.items[a] != j.items[b])
  }

  function ScopeSet(j: Json): (s: set<string>)
    requires IsScope(j)
  {
    set i | 0 <= i < |j.items| :: j.items[i].s
  }

  function OptBound(m: map<string, Json>, key: string): (r: Option<int>)
  {
    if key in m && m[key].JInt? then Some(m[key].n) else None
  }

  predicate WindowOk(a: Option<int>, b: Option<int>) {
    a.Some? && b.Some? ==> a.value <= b.value
  }

  /** `DelegationCredential.from_dict`; None is InvalidCredential. */
  function CredentialFromDict(j: Json): (r: Option<Credential>)
  {
    if !j.JObj? then None
    else
      var m := j.fields;
      var required := {"credential_id", "issuer", "subject", "scope", "depth", "parent_id", "signature"};
      if !(required <= m.Keys <= required + {"not_before", "not_after"}) then None
      else if !IsText(m["credential_id"]) then None
      else if !m["issuer"].JStr? || !IsLowerHex(m["issuer"].s, 64) then None
      else if !m["subject"].JStr? || !IsLowerHex(m["subject"].s, 64) then None
      else if !IsScope(m["scope"]) then None
      else if !IsBound(m["depth"]) then None
      else if !m["parent_id"].JNull? && !IsText(m["parent_id"]) then None
      else if !m["signature"].JStr? || !IsLowerHex(m["signature"].s, 128) then None
      else if "not_before" in m && !IsBound(m["not_before"]) then None
      else if "not_after" in m && !IsBound(m["not_after"]) then None
      else if !WindowOk(OptBound(m, "not_before"), OptBound(m, "not_after")) then None
      else
        Some(Credential(m["credential_id"].s, m["issuer"].s, m["subject"].s, ScopeSet(m["scope"]), m["depth"].n,
                        if m["parent_id"].JNull? then None else Some(m["parent_id"].s), m["signature"].s,
                        OptBound(m, "not_before"), OptBound(m, "not_after")))
  }

  /** The credentials the parser admits. */
  predicate CredentialWireOk(c: Credential) {
    && c.credentialId != "" && IsLowerHex(c.issuer, 64) && IsLowerHex(c.subject, 64)
    && c.scope != {} && "" !in c.scope && c.depth >= 0 && c.parentId != Some("") && IsLowerHex(c.signature, 128)
    && (c.notBefore.Some? ==> c.notBefore.value >= 0) && (c.notAfter.Some? ==> c.notAfter.value >= 0)
    && WindowOk(c.notBefore, c.notAfter)
  }

  lemma ScopeBack(scope: set<string>)
    ensures IsScope(ScopeArray(scope)) <==> scope != {} && "" !in scope
    ensures IsScope(ScopeArray(scope)) ==> ScopeSet(ScopeArray(scope)) == scope
  {
    hide Sorted, Before;
    var l, j := Sorted(Text, scope), ScopeArray(scope);
    forall a, b | 0 <= a < b < |l|
      ensures j.items[a] != j.items[b]
    {
      assert Before(Text, l[a], l[b]);
      BeforeStrict(Text, l[a], l[b]);
    }
    if "" in scope {
      var i :| 0 <= i < |l| && l[i] == "";
      assert !IsText(j.items[i]);
    }
    forall i | 0 <= i < |l| && "" !in scope
      ensures IsText(j.items[i])
    {
      assert l[i] in scope;
    }
    if IsScope(j) {
      assert forall x :: x in ScopeSet(j) <==> x in l;
    }
  }

  lemma DictFields(c: Credential)
    ensures var m := CredentialToDict(c).fields;
            && {"credential_id", "issuer", "subject", "scope", "depth", "parent_id", "signature"} <= m.Keys
            && m.Keys <= {"credential_id", "issuer", "subject", "scope", "depth", "parent_id", "signature"}
              + {"not_before", "not_after"}
            && m["credential_id"] == JStr(c.credentialId) && m["issuer"] == JStr(c.issuer)
            && m["subject"] == JStr(c.subject)
            && m["scope"] == ScopeArray(c.scope) && m["depth"] == JInt(c.depth) && m["parent_id"] == OptStr(c.parentId)
            && m["signature"] == JStr(c.signature)
            && ("not_before" in m <==> c.notBefore.Some?) && ("not_after" in m <==> c.notAfter.Some?)
            && (c.notBefore.Some? ==> m["not_before"] == JInt(c.notBefore.value))
            && (c.notAfter.Some? ==> m["not_after"] == JInt(c.notAfter.value))
  {
    hide ScopeArray, OptStr, CredentialBody;
    BodyFields(c);
    BodyHasNoOtherFields(c);
  }

  lemma BodyHasNoOtherFields(c: Credential)
    ensures CredentialBody(c).fields.Keys <= {"credential_id", "issuer", "subject", "scope", "depth", "parent_id"}
            + {"not_before", "not_after"}
  {
    hide ScopeArray, OptStr;
  }

  /** Parsing a serialized credential gives it back exactly when it is one the wire format admits. */
  lemma CredentialRoundTrip(c: Credential)
    ensures CredentialFromDict(CredentialToDict(c)) == if CredentialWireOk(c) then Some(c) else None
  {
    hide ScopeArray, IsScope, ScopeSet, CredentialToDict;
    DictFields(c);
    ScopeBack(c.scope);
  }

  predicate HexText(s: string, n: nat) {
    |s| == n && forall i | 0 <= i < n :: s[i] in "0123456789abcdef"
  }

  lemma HexTextMeans(s: string, n: nat)
    ensures IsLowerHex(s, n) <==> HexText(s, n)
  {
    forall c: char
      ensures IsLowerHexDigit(c) <==> c in "0123456789abcdef"
    {
      HexDigitsAre(c);
    }
  }

  /** The array lists the texts of `scope`, each once and in any order; none is empty and there is at least one. */
  ghost predicate ListsScope(j: Json, scope: set<string>) {
    && j.JArr? && scope != {} && "" !in scope && |j.items| == |scope|
    && (forall i | 0 <= i < |j.items| :: j.items[i].JStr? && j.items[i].s in scope)
    && (forall s | s in scope :: JStr(s) in j.items)
  }

  /** The object has the fields of `c`, no more and no fewer, and each says what `c` says. */
  ghost predicate Describes(m: map<string, Json>, c: Credential) {
    && m.Keys == {"credential_id", "issuer", "subject", "scope", "depth", "parent_id", "signature"}
                 + (if c.notBefore.Some? then {"not_before"} else {}) + (if c.notAfter.Some? then {"not_after"} else {})
    && m["credential_id"] == JStr(c.credentialId) && m["issuer"] == JStr(c.issuer) && m["subject"] == JStr(c.subject)
    && ListsScope(m["scope"], c.scope) && m["depth"] == JInt(c.depth) && m["signature"] == JStr(c.signature)
    && m["parent_id"] == (if c.parentId.None? then JNull else JStr(c.parentId.value))
    && (c.notBefore.Some? ==> m["not_before"] == JInt(c.notBefore.value))
    && (c.notAfter.Some? ==> m["not_after"] == JInt(c.notAfter.value))
  }

  /** The fields of `c` are in the documented domain. */
  predicate InDomain(c: Credential) {
    && c.credentialId != "" && HexText(c.issuer, 64) && HexText(c.subject, 64) && HexText(c.signature, 128)
    && 0 <= c.depth && c.parentId != Some("")
    && (c.notBefore.Some? ==> 0 <= c.notBefore.value) && (c.notAfter.Some? ==> 0 <= c.notAfter.value)
    && (c.notBefore.Some? && c.notAfter.Some? ==> c.notBefore.value <= c.notAfter.value)
  }

  /** Distinct texts in an array are as many as the set of them. */
  lemma {:induction false} DistinctCount(items: seq<Json>)
    requires forall i | 0 <= i < |items| :: items[i].JStr?
    requires forall a, b | 0 <= a < b < |items| :: items[a] != items[b]
    ensures |set i | 0 <= i < |items| :: items[i].s| == |items|
  {
    var all := set i | 0 <= i < |items| :: items[i].s;
    if items == [] {
      assert all == {};
    } else {
      var n := |items| - 1;
      var init := items[..n];
      DistinctCount(init);
      var rest := set i | 0 <= i < |init| :: init[i].s;
      forall x: string
        ensures x in all <==> x in rest || x == items[n].s
      {
        if x in all {
          var i :| 0 <= i < |items| && items[i].s == x;
          assert i < n ==> init[i].s == x;
        }
        if x in rest {
          var i :| 0 <= i < |init| && init[i].s == x;
          assert items[i].s == x;
        }
        if x == items[n].s {
          assert items[n].s in all;
        }
      }
      assert items[n].s !in rest;
      assert all == rest + {items[n].s};
    }
  }

  /** Conversely, an array as long as the set of its texts repeats none. */
  lemma {:induction false} CountedDistinct(items: seq<Json>, a: nat, b: nat)
    requires forall i | 0 <= i < |items| :: items[i].JStr?
    requires |set i | 0 <= i < |items| :: items[i].s| == |items| && a < b < |items|
    ensures items[a] != items[b]
  {
    var all := set i | 0 <= i < |items| :: items[i].s;
    if items[a] == items[b] {
      var less := items[..a] + items[a + 1..];
      var some := set i | 0 <= i < |less| :: less[i].s;
      forall x | x in all
        ensures x in some
      {
        var i :| 0 <= i < |items| && items[i].s == x;
        var j := if i == a then b else i;
        assert items[j].s == x && j != a;
        var h := if j < a then j else j - 1;
        assert less[h] == items[j];
      }
      AtMost(less);
      SubsetSize(all, some);
    }
  }

  lemma {:induction false} AtMost(items: seq<Json>)
    requires forall i | 0 <= i < |items| :: items[i].JStr?
    ensures |set i | 0 <= i < |items| :: items[i].s| <= |items|
  {
    var all := set i | 0 <= i < |items| :: items[i].s;
    if items == [] {
      assert all == {};
    } else {
      var n := |items| - 1;
      var init := items[..n];
      AtMost(init);
      var rest := set i | 0 <= i < |init| :: init[i].s;
      forall x | x in all
        ensures x in rest + {items[n].s}
      {
        var i :| 0 <= i < |items| && items[i].s == x;
        assert i < n ==> init[i].s == x;
      }
      SubsetSize(all, rest + {items[n].s});
    }
  }

  lemma {:induction false} SubsetSize(a: set<string>, b: set<string>)
    requires a <= b
    ensures |a| <= |b|
  {
    if a != {} {
      var x :| x in a;
      SubsetSize(a - {x}, b - {x});
    }
  }

  lemma ScopeMeans(j: Json, scope: set<string>)
    ensures IsScope(j) && ScopeSet(j) == scope <==> ListsScope(j, scope)
  {
    if IsScope(j) && ScopeSet(j) == scope {
      DistinctCount(j.items);
      forall i | 0 <= i < |j.items|
        ensures j.items[i].s in scope
      {
        assert j.items[i].s in ScopeSet(j);
      }
      forall s | s in scope
        ensures JStr(s) in j.items
      {
        var i :| 0 <= i < |j.items| && j.items[i].s == s;
        assert j.items[i] == JStr(s);
      }
      assert j.items[0].s in scope;
    }
    if ListsScope(j, scope) {
      var all := set i | 0 <= i < |j.items| :: j.items[i].s;
      forall s | s in scope
        ensures s in all
      {
        var i :| 0 <= i < |j.items| && j.items[i] == JStr(s);
        assert j.items[i].s == s;
      }
      assert all == scope;
      assert j.items != [] by {
        var s :| s in scope;
        assert JStr(s) in j.items;
      }
      forall a, b | 0 <= a < b < |j.items|
        ensures j.items[a] != j.items[b]
      {
        CountedDistinct(j.items, a, b);
      }
    }
  }

  /** Exactly which JSON values parse as which credential: objects with exactly its fields, saying what it says,
      for a credential in the documented domain. Unknown fields, explicit null bounds and repeated scope entries
      are therefore refused, and the order of a scope array does not matter. */
  lemma CredentialFromDictIff(j: Json, c: Credential)
    ensures CredentialFromDict(j) == Some(c) <==> j.JObj? && InDomain(c) && Describes(j.fields, c)
  {
    hide IsScope, ScopeSet, IsLowerHex, HexText, ListsScope;
    HexTextMeans(c.issuer, 64);
    HexTextMeans(c.subject, 64);
    HexTextMeans(c.signature, 128);
    if j.JObj? && "scope" in j.fields {
      ScopeMeans(j.fields["scope"], c.scope);
    }
  }

  // ---------------------------------------------------------------- channel offers

  function PutEvidence(m: map<string, Json>, key: string, b: Option<Bytes>): (r: map<string, Json>)
  {
    if b.None? then m else m[key := JStr(B64.Encode(b.value))]
  }

  /** The claims, and the role of a caller offer; a callee offer carries none. */
  function ReportClaims(r: Report): (m: map<string, Json>)
  {
    var m0 := map["platform" := JStr(r.platform), "measurement" := JStr(r.measurement),
                  "public_key" := JStr(r.publicKey), "nonce" := JStr(r.nonce)];
    if r.role != ROLE_CALLEE then m0["role" := JStr(r.role)] else m0
  }

  /** The attestation object of `serialize_channel_offer`; evidence is included only if present. */
  function ReportToDict(r: Report): (m: map<string, Json>)
  {
    var m2 := PutEvidence(ReportClaims(r), "raw_evidence", r.rawEvidence);
    var m3 := PutEvidence(m2, "quote_signature", r.quoteSignature);
    var m4 := PutEvidence(m3, "attestation_key_pem", r.attestationKeyPem);
    PutEvidence(m4, "attestation_key_chain_pem", r.attestationKeyChainPem)
  }

  function OfferToDict(o: ChannelOffer): (j: Json)
    ensures j.JObj?
  {
    JObj(map["channel_public_key" := JStr(o.channelPublicKey), "attestation" := JObj(ReportToDict(o.report))])
  }

  /** One evidence field: absent, decoded, or refused. */
  function GetEvidence(m: map<string, Json>, key: string): (r: Option<Option<Bytes>>)
  {
    if key !in m then Some(None)
    else if !m[key].JStr? then None
    else
      match B64.Decode(m[key].s)
      case None => None
      case Some(b) => Some(Some(b))
  }

  /** `str` applied to a JSON value: it keeps strings. */
  ghost predicate KeepsStrings(str: Json -> string) {
    forall s :: str(JStr(s)) == s
  }

  function ReportFromDict(str: Json -> string, m: map<string, Json>): (r: Option<Report>)
  {
    match (GetEvidence(m, "raw_evidence"), GetEvidence(m, "quote_signature"),
           GetEvidence(m, "attestation_key_pem"), GetEvidence(m, "attestation_key_chain_pem"))
    case (Some(raw), Some(sig), Some(pem), Some(chain)) =>
      var role := if "role" in m then m["role"] else JStr(ROLE_CALLEE);
      if role != JStr(ROLE_CALLEE) && role != JStr(ROLE_CALLER) then None
      else if !({"platform", "measurement", "public_key", "nonce"} <= m.Keys) then None
      else Some(Report(str(m["platform"]), str(m["measurement"]), str(m["public_key"]), str(m["nonce"]), raw, sig,
                       pem, chain, role.s))
    case _ => None
  }

  /** `parse_channel_offer`; None is TransportError. */
  function OfferFromDict(str: Json -> string, j: Json): (r: Option<ChannelOffer>)
  {
    if !j.JObj? || "channel_public_key" !in j.fields || "attestation" !in j.fields || !j.fields["attestation"].JObj?
        then None
    else
      match ReportFromDict(str, j.fields["attestation"].fields)
      case None => None
      case Some(r) => Some(ChannelOffer(str(j.fields["channel_public_key"]), r))
  }

  predicate OfferWireOk(o: ChannelOffer) {
    && (o.report.role == ROLE_CALLEE || o.report.role == ROLE_CALLER)
    && o.report.rawEvidence != Some([]) && o.report.quoteSignature != Some([])
    && o.report.attestationKeyPem != Some([]) && o.report.attestationKeyChainPem != Some([])
  }

  lemma EvidenceBack(m: map<string, Json>, key: string, b: Option<Bytes>)
    requires key !in m
    ensures GetEvidence(PutEvidence(m, key, b), key) == Readable(b)
    ensures forall k | k != key ::
            (k in PutEvidence(m, key, b) <==> k in m) && (k in m ==> PutEvidence(m, key, b)[k] == m[k])
  {
    if b.Some? {
      B64.DecodeEncode(b.value);
    }
  }

  lemma OtherEvidence(m: map<string, Json>, n: map<string, Json>, key: string)
    requires (key in m <==> key in n) && (key in m ==> m[key] == n[key])
    ensures GetEvidence(m, key) == GetEvidence(n, key)
  {
  }

  function Readable(b: Option<Bytes>): (r: Option<Option<Bytes>>)
  {
    if b == Some([]) then None else Some(b)
  }

  lemma NoEvidenceYet(r: Report)
    ensures ReportClaims(r).Keys !! {"raw_evidence", "quote_signature", "attestation_key_pem",
                                     "attestation_key_chain_pem"}
  {
  }

  lemma EvidenceFields(r: Report)
    ensures var m := ReportToDict(r);
            && GetEvidence(m, "raw_evidence") == Readable(r.rawEvidence)
            && GetEvidence(m, "quote_signature") == Readable(r.quoteSignature)
            && GetEvidence(m, "attestation_key_pem") == Readable(r.attestationKeyPem)
            && GetEvidence(m, "attestation_key_chain_pem") == Readable(r.attestationKeyChainPem)
  {
    hide PutEvidence, GetEvidence, ReportClaims, Readable;
    var m1 := ReportClaims(r);
    NoEvidenceYet(r);
    var m2 := PutEvidence(m1, "raw_evidence", r.rawEvidence);
    var m3 := PutEvidence(m2, "quote_signature", r.quoteSignature);
    var m4 := PutEvidence(m3, "attestation_key_pem", r.attestationKeyPem);
    var m5 := PutEvidence(m4, "attestation_key_chain_pem", r.attestationKeyChainPem);
    EvidenceBack(m1, "raw_evidence", r.rawEvidence);
    EvidenceBack(m2, "quote_signature", r.quoteSignature);
    EvidenceBack(m3, "attestation_key_pem", r.attestationKeyPem);
    EvidenceBack(m4, "attestation_key_chain_pem", r.attestationKeyChainPem);
    OtherEvidence(m5, m2, "raw_evidence");
    OtherEvidence(m5, m3, "quote_signature");
    OtherEvidence(m5, m4, "attestation_key_pem");
  }

  lemma ClaimsHeld(r: Report)
    ensures var m := ReportClaims(r);
            && {"platform", "measurement", "public_key", "nonce"} <= m.Keys
            && m["platform"] == JStr(r.platform) && m["measurement"] == JStr(r.measurement)
            && m["public_key"] == JStr(r.publicKey) && m["nonce"] == JStr(r.nonce)
            && ("role" in m <==> r.role != ROLE_CALLEE) && ("role" in m ==> m["role"] == JStr(r.role))
  {
  }

  lemma PutElsewhere(m: map<string, Json>, key: string, b: Option<Bytes>, other: string)
    requires other != key
    ensures other in PutEvidence(m, key, b) <==> other in m
    ensures other in m ==> PutEvidence(m, key, b)[other] == m[other]
  {
  }

  lemma ClaimKept(r: Report, key: string)
    requires key !in {"raw_evidence", "quote_signature", "attestation_key_pem", "attestation_key_chain_pem"}
    ensures key in ReportToDict(r) <==> key in ReportClaims(r)
    ensures key in ReportClaims(r) ==> ReportToDict(r)[key] == ReportClaims(r)[key]
  {
    hide PutEvidence, ReportClaims;
    var m1 := ReportClaims(r);
    var m2 := PutEvidence(m1, "raw_evidence", r.rawEvidence);
    var m3 := PutEvidence(m2, "quote_signature", r.quoteSignature);
    var m4 := PutEvidence(m3, "attestation_key_pem", r.attestationKeyPem);
    PutElsewhere(m1, "raw_evidence", r.rawEvidence, key);
    PutElsewhere(m2, "quote_signature", r.quoteSignature, key);
    PutElsewhere(m3, "attestation_key_pem", r.attestationKeyPem, key);
    PutElsewhere(m4, "attestation_key_chain_pem", r.attestationKeyChainPem, key);
  }

  lemma ReportFields(r: Report)
    ensures var m := ReportToDict(r);
            && {"platform", "measurement", "public_key", "nonce"} <= m.Keys
            && m["platform"] == JStr(r.platform) && m["measurement"] == JStr(r.measurement)
            && m["public_key"] == JStr(r.publicKey) && m["nonce"] == JStr(r.nonce)
            && ("role" in m <==> r.role != ROLE_CALLEE) && ("role" in m ==> m["role"] == JStr(r.role))
  {
    hide ReportToDict, ReportClaims;
    ClaimsHeld(r);
    ClaimKept(r, "platform");
    ClaimKept(r, "measurement");
    ClaimKept(r, "public_key");
    ClaimKept(r, "nonce");
    ClaimKept(r, "role");
  }

  lemma ReportBack(str: Json -> string, r: Report)
    requires KeepsStrings(str)
    ensures ReportFromDict(str, ReportToDict(r)) == if OfferWireOk(ChannelOffer("", r)) then Some(r) else None
  {
    hide ReportToDict, GetEvidence;
    EvidenceFields(r);
    ReportFields(r);
  }

  /** Parsing a serialized offer gives it back exactly when its role is known and its evidence non-empty. */
  lemma OfferRoundTrip(str: Json -> string, o: ChannelOffer)
    requires KeepsStrings(str)
    ensures OfferFromDict(str, OfferToDict(o)) == if OfferWireOk(o) then Some(o) else None
  {
    hide ReportFromDict, ReportToDict;
    ReportBack(str, o.report);
  }

  /** The evidence under a key: none where absent, else the bytes its base64url text decodes to. */
  ghost predicate EvidenceIs(m: map<string, Json>, key: string, b: Option<Bytes>) {
    if key !in m then b == None else m[key].JStr? && b.Some? && B64.Decode(m[key].s) == b
  }

  /** What a parsed offer says, for every object that parses: its key, the four claims, the role (a callee where none
      is named) and the evidence, each from its own place. */
  lemma ParsedOfferSays(str: Json -> string, j: Json, o: ChannelOffer)
    requires OfferFromDict(str, j) == Some(o)
    ensures j.JObj? && "channel_public_key" in j.fields && "attestation" in j.fields && j.fields["attestation"].JObj?
    ensures var a := j.fields["attestation"].fields;
            && {"platform", "measurement", "public_key", "nonce"} <= a.Keys
            && o.channelPublicKey == str(j.fields["channel_public_key"]) && o.report.platform == str(a["platform"])
            && o.report.measurement == str(a["measurement"]) && o.report.publicKey == str(a["public_key"])
            && o.report.nonce == str(a["nonce"])
            && (if "role" in a then a["role"] == JStr(o.report.role) else o.report.role == "callee")
            && (o.report.role == "callee" || o.report.role == "caller")
            && EvidenceIs(a, "raw_evidence", o.report.rawEvidence)
            && EvidenceIs(a, "quote_signature", o.report.quoteSignature)
            && EvidenceIs(a, "attestation_key_pem", o.report.attestationKeyPem)
            && EvidenceIs(a, "attestation_key_chain_pem", o.report.attestationKeyChainPem)
  {
    hide B64.Decode;
  }
}

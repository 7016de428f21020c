/** Exactly when attaching a request to a message and parsing it back returns that request. */
module AdapterFacts {
  import opened Basics
  import opened Canonical
  import opened Errors
  import opened Delegation
  import opened Peer
  import opened CredentialWire
  import opened Adapter
  import B64 = Base64Url

  /** The requests the parser admits: non-empty texts, payload and evidence, and wire-valid credentials. */
  predicate RequestWireOk(r: PeerRequest) {
    && r.chain != [] && (forall i | 0 <= i < |r.chain| :: CredentialWireOk(r.chain[i]))
    && r.requestedCapability != "" && r.recordId != "" && r.sealedPayload != Some([])
    && (r.callerOffer.Some? ==> OfferWireOk(r.callerOffer.value))
    && (r.holderProof.Some? ==> r.holderProof.value.challenge != "" && r.holderProof.value.signature != "")
    && (r.callerPossession.Some? ==> r.callerPossession.value.version != "" && r.callerPossession.value.mac != "")
  }

  function OrNull(j: Option<Json>): (r: Json)
  {
    if j.None? then JNull else j.value
  }

  // ---------------------------------------------------------------- field by field

  lemma {:induction false} ChainBack(chain: seq<Credential>)
    ensures ParseChain(ChainToJson(chain)) == if forall i | 0 <= i < |chain| ::
            CredentialWireOk(chain[i]) then Some(chain) else None
  {
    hide CredentialFromDict, CredentialToDict, CredentialWireOk;
    if chain != [] {
      var js := ChainToJson(chain);
      assert js[1..] == ChainToJson(chain[1..]);
      CredentialRoundTrip(chain[0]);
      ChainBack(chain[1..]);
      assert chain == [chain[0]] + chain[1..];
      assert (forall i | 0 <= i < |chain| :: CredentialWireOk(chain[i])) <==>
             CredentialWireOk(chain[0]) && forall i | 0 <= i < |chain[1..]| :: CredentialWireOk(chain[1..][i]);
    }
  }

  /** An optional field that reads as `j` comes back as `v` exactly when `j` is what attach writes for it. */
  lemma PayloadBack(r: PeerRequest, j: Json)
    requires r.sealedPayload.Some? ==> j == OrNull(PayloadJson(r))
    ensures ParsePayload(j) == Ok(r.sealedPayload) <==>
            (r.sealedPayload.None? ==> j.JNull?) && r.sealedPayload != Some([])
  {
    hide B64.Encode;
    if r.sealedPayload.Some? {
      B64.DecodeEncode(r.sealedPayload.value);
    }
  }

  lemma OfferBack(str: Json -> string, r: PeerRequest, j: Json)
    requires KeepsStrings(str)
    requires r.callerOffer.Some? ==> j == OrNull(OfferJson(r))
    ensures ParseOffer(str, j) == Ok(r.callerOffer) <==>
            (r.callerOffer.None? ==> j.JNull?) && (r.callerOffer.Some? ==> OfferWireOk(r.callerOffer.value))
  {
    hide OfferFromDict, OfferToDict, OfferWireOk;
    if r.callerOffer.Some? {
      OfferRoundTrip(str, r.callerOffer.value);
    }
  }

  lemma HolderBack(r: PeerRequest, j: Json)
    requires r.holderProof.Some? ==> j == OrNull(HolderJson(r))
    ensures ParseHolder(j) == Ok(r.holderProof) <==>
            && (r.holderProof.None? ==> j.JNull?)
            && (r.holderProof.Some? ==> r.holderProof.value.challenge != "" && r.holderProof.value.signature != "")
  {
  }

  lemma PossessionBack(r: PeerRequest, j: Json)
    requires r.callerPossession.Some? ==> j == OrNull(PossessionJson(r))
    ensures ParsePossession(j) == Ok(r.callerPossession) <==>
            && (r.callerPossession.None? ==> j.JNull?)
            && (r.callerPossession.Some? ==>
                r.callerPossession.value.version != "" && r.callerPossession.value.mac != "")
  {
  }

  // ---------------------------------------------------------------- the metadata map

  /** `m` holds the four required fields of `r`, and each optional field that `r` has. */
  predicate Holds(m: Fields, r: PeerRequest) {
    && At(m, KEY_CHAIN) == JArr(ChainToJson(r.chain))
    && At(m, KEY_CAPABILITY) == JStr(r.requestedCapability) && At(m, KEY_RECORD_ID) == JStr(r.recordId)
    && KEY_PARENT in m && m[KEY_PARENT] == OptStr(r.parentRecordHash)
    && (r.sealedPayload.Some? ==> At(m, KEY_PAYLOAD) == OrNull(PayloadJson(r)))
    && (r.callerOffer.Some? ==> At(m, KEY_OFFER) == OrNull(OfferJson(r)))
    && (r.holderProof.Some? ==> At(m, KEY_HOLDER) == OrNull(HolderJson(r)))
    && (r.callerPossession.Some? ==> At(m, KEY_POSSESSION) == OrNull(PossessionJson(r)))
  }

  /** Where `r` has no optional field, `m` has nothing under its key. */
  predicate NothingLeft(m: Fields, r: PeerRequest) {
    && (r.sealedPayload.None? ==> At(m, KEY_PAYLOAD).JNull?) && (r.callerOffer.None? ==> At(m, KEY_OFFER).JNull?)
    && (r.holderProof.None? ==> At(m, KEY_HOLDER).JNull?) && (r.callerPossession.None? ==> At(m, KEY_POSSESSION).JNull?)
  }

  lemma OptionalsBack(str: Json -> string, m: Fields, r: PeerRequest)
    requires KeepsStrings(str) && Holds(m, r)
    ensures (&& ParsePayload(At(m, KEY_PAYLOAD)) == Ok(r.sealedPayload)
             && ParseOffer(str, At(m, KEY_OFFER)) == Ok(r.callerOffer)
             && ParsePossession(At(m, KEY_POSSESSION)) == Ok(r.callerPossession)
             && ParseHolder(At(m, KEY_HOLDER)) == Ok(r.holderProof))
            <==>
            && NothingLeft(m, r) && r.sealedPayload != Some([])
            && (r.callerOffer.Some? ==> OfferWireOk(r.callerOffer.value))
            && (r.holderProof.Some? ==> r.holderProof.value.challenge != "" && r.holderProof.value.signature != "")
            && (r.callerPossession.Some? ==>
                r.callerPossession.value.version != "" && r.callerPossession.value.mac != "")
  {
    hide ParsePayload, ParseOffer, ParsePossession, ParseHolder, PayloadJson, OfferJson, HolderJson, PossessionJson,
         OfferWireOk, ChainToJson;
    PayloadBack(r, At(m, KEY_PAYLOAD));
    OfferBack(str, r, At(m, KEY_OFFER));
    HolderBack(r, At(m, KEY_HOLDER));
    PossessionBack(r, At(m, KEY_POSSESSION));
  }

  lemma ParseHeld(str: Json -> string, m: Fields, r: PeerRequest)
    requires KeepsStrings(str) && Holds(m, r)
    ensures ParseMetadata(str, m) == Ok(Some(r)) <==> RequestWireOk(r) && NothingLeft(m, r)
  {
    hide ParsePayload, ParseOffer, ParsePossession, ParseHolder, PayloadJson, OfferJson, HolderJson, PossessionJson,
         OfferWireOk, ChainToJson, CredentialWireOk, ParseChain, NothingLeft;
    OptionalsBack(str, m, r);
    ChainBack(r.chain);
    assert KEY_PARENT in m.Keys * Keys();
  }

  // ---------------------------------------------------------------- the message shapes

  /** Writing the fields leaves every other metadata key as it was. */
  lemma OverlayKeepsOthers(m: Fields, r: PeerRequest, key: string)
    requires key !in Keys()
    ensures key in Overlay(m, r) <==> key in m
    ensures key in m ==> Overlay(m, r)[key] == m[key]
  {
    hide PayloadJson, OfferJson, HolderJson, PossessionJson, ChainToJson, OptStr;
  }

  lemma SetOrPopElsewhere(m: Fields, key: string, v: Option<Json>, other: string)
    requires other != key
    ensures other in SetOrPop(m, key, v) <==> other in m
    ensures other in m ==> SetOrPop(m, key, v)[other] == m[other]
  {
  }

  lemma SetOrPopAt(m: Fields, key: string, v: Option<Json>)
    ensures key in SetOrPop(m, key, v) <==> v.Some?
    ensures At(SetOrPop(m, key, v), key) == OrNull(v)
  {
  }

  /** The required fields as the overlay starts. */
  function Required(m: Fields, r: PeerRequest): (o: Fields)
  {
    m[KEY_CHAIN := JArr(ChainToJson(r.chain))][KEY_CAPABILITY := JStr(r.requestedCapability)]
     [KEY_RECORD_ID := JStr(r.recordId)][KEY_PARENT := OptStr(r.parentRecordHash)]
  }

  lemma RequiredHeld(m: Fields, r: PeerRequest)
    ensures var o := Required(m, r);
            && KEY_CHAIN in o && o[KEY_CHAIN] == JArr(ChainToJson(r.chain))
            && KEY_CAPABILITY in o && o[KEY_CAPABILITY] == JStr(r.requestedCapability)
            && KEY_RECORD_ID in o && o[KEY_RECORD_ID] == JStr(r.recordId)
            && KEY_PARENT in o && o[KEY_PARENT] == OptStr(r.parentRecordHash)
  {
    hide ChainToJson, OptStr;
  }

  /** The overlay's four optional steps do not touch a key outside their own. */
  lemma OptionalStepsKeep(m: Fields, r: PeerRequest, key: string)
    requires key != KEY_PAYLOAD && key != KEY_OFFER && key != KEY_HOLDER && key != KEY_POSSESSION
    ensures key in Overlay(m, r) <==> key in Required(m, r)
    ensures key in Overlay(m, r) ==> Overlay(m, r)[key] == Required(m, r)[key]
  {
    hide PayloadJson, OfferJson, HolderJson, PossessionJson, ChainToJson, OptStr, SetOrPop;
    var m1 := Required(m, r);
    var m2 := SetOrPop(m1, KEY_PAYLOAD, PayloadJson(r));
    var m3 := SetOrPop(m2, KEY_OFFER, OfferJson(r));
    var m4 := SetOrPop(m3, KEY_HOLDER, HolderJson(r));
    SetOrPopElsewhere(m1, KEY_PAYLOAD, PayloadJson(r), key);
    SetOrPopElsewhere(m2, KEY_OFFER, OfferJson(r), key);
    SetOrPopElsewhere(m3, KEY_HOLDER, HolderJson(r), key);
    SetOrPopElsewhere(m4, KEY_POSSESSION, PossessionJson(r), key);
  }

  /** Each optional key holds what the request has, and is absent when the request has nothing. */
  lemma OptionalStepsSet(m: Fields, r: PeerRequest)
    ensures var o := Overlay(m, r);
            && (KEY_PAYLOAD in o <==> r.sealedPayload.Some?) && At(o, KEY_PAYLOAD) == OrNull(PayloadJson(r))
            && (KEY_OFFER in o <==> r.callerOffer.Some?) && At(o, KEY_OFFER) == OrNull(OfferJson(r))
            && (KEY_HOLDER in o <==> r.holderProof.Some?) && At(o, KEY_HOLDER) == OrNull(HolderJson(r))
            && (KEY_POSSESSION in o <==> r.callerPossession.Some?) && At(o, KEY_POSSESSION) == OrNull(PossessionJson(r))
  {
    hide PayloadJson, OfferJson, HolderJson, PossessionJson, ChainToJson, OptStr, SetOrPop;
    var m1 := Required(m, r);
    var m2 := SetOrPop(m1, KEY_PAYLOAD, PayloadJson(r));
    var m3 := SetOrPop(m2, KEY_OFFER, OfferJson(r));
    var m4 := SetOrPop(m3, KEY_HOLDER, HolderJson(r));
    SetOrPopAt(m1, KEY_PAYLOAD, PayloadJson(r));
    SetOrPopAt(m2, KEY_OFFER, OfferJson(r));
    SetOrPopAt(m3, KEY_HOLDER, HolderJson(r));
    SetOrPopAt(m4, KEY_POSSESSION, PossessionJson(r));
    SetOrPopElsewhere(m2, KEY_OFFER, OfferJson(r), KEY_PAYLOAD);
    SetOrPopElsewhere(m3, KEY_HOLDER, HolderJson(r), KEY_PAYLOAD);
    SetOrPopElsewhere(m3, KEY_HOLDER, HolderJson(r), KEY_OFFER);
    SetOrPopElsewhere(m4, KEY_POSSESSION, PossessionJson(r), KEY_PAYLOAD);
    SetOrPopElsewhere(m4, KEY_POSSESSION, PossessionJson(r), KEY_OFFER);
    SetOrPopElsewhere(m4, KEY_POSSESSION, PossessionJson(r), KEY_HOLDER);
  }

  lemma OverlayHolds(m: Fields, r: PeerRequest)
    ensures Holds(Overlay(m, r), r) && NothingLeft(Overlay(m, r), r)
  {
    hide PayloadJson, OfferJson, HolderJson, PossessionJson, ChainToJson, OptStr, Overlay, Required;
    RequiredHeld(m, r);
    OptionalStepsSet(m, r);
    OptionalStepsKeep(m, r, KEY_CHAIN);
    OptionalStepsKeep(m, r, KEY_CAPABILITY);
    OptionalStepsKeep(m, r, KEY_RECORD_ID);
    OptionalStepsKeep(m, r, KEY_PARENT);
  }

  lemma OuterHolds(outer: Fields, m: Fields, r: PeerRequest)
    requires Holds(m, r) && NothingLeft(m, r)
    requires KEY_CHAIN in m && KEY_CAPABILITY in m && KEY_RECORD_ID in m
    requires r.sealedPayload.Some? <==> KEY_PAYLOAD in m
    requires r.callerOffer.Some? <==> KEY_OFFER in m
    requires r.holderProof.Some? <==> KEY_HOLDER in m
    requires r.callerPossession.Some? <==> KEY_POSSESSION in m
    ensures Holds(outer + m, r) && (NothingLeft(outer + m, r) <==> NothingLeft(outer, r))
  {
    hide PayloadJson, OfferJson, HolderJson, PossessionJson, ChainToJson, OptStr;
  }

  lemma OverlayKeys(m: Fields, r: PeerRequest)
    ensures var o := Overlay(m, r);
            && KEY_CHAIN in o && KEY_CAPABILITY in o && KEY_RECORD_ID in o
            && (r.sealedPayload.Some? <==> KEY_PAYLOAD in o) && (r.callerOffer.Some? <==> KEY_OFFER in o)
            && (r.holderProof.Some? <==> KEY_HOLDER in o) && (r.callerPossession.Some? <==> KEY_POSSESSION in o)
  {
    hide PayloadJson, OfferJson, HolderJson, PossessionJson, ChainToJson, OptStr, Overlay, Required;
    RequiredHeld(m, r);
    OptionalStepsSet(m, r);
    OptionalStepsKeep(m, r, KEY_CHAIN);
    OptionalStepsKeep(m, r, KEY_CAPABILITY);
    OptionalStepsKeep(m, r, KEY_RECORD_ID);
  }

  /** The `params.metadata` beside a nested message: the one place attach does not write but parse reads. */
  function BesideMessage(msg: Fields): (m: Fields)
  {
    match ObjectAt(msg, "params")
    case None => map[]
    case Some(params) => if ObjectAt(params, "message").None? then map[] else OrEmpty(ObjectAt(params, "metadata"))
  }

  /** The metadata map attach writes into. */
  function TargetMetadata(msg: Fields): (m: Fields)
  {
    match ObjectAt(msg, "params")
    case None => OrEmpty(ObjectAt(msg, "metadata"))
    case Some(params) =>
      match ObjectAt(params, "message")
      case None => OrEmpty(ObjectAt(params, "metadata"))
      case Some(inner) => OrEmpty(ObjectAt(inner, "metadata"))
  }

  lemma CollectedAfterAttach(msg: Fields, r: PeerRequest)
    requires Attach(msg, r).Some?
    ensures CollectMetadata(Attach(msg, r).value) == BesideMessage(msg) + Overlay(TargetMetadata(msg), r)
  {
    hide Overlay;
    var o := Overlay(TargetMetadata(msg), r);
    assert map[] + o == o;
    match ObjectAt(msg, "params")
    case None =>
    case Some(params) =>
      if ObjectAt(params, "message").Some? {
        assert BesideMessage(msg) == OrEmpty(ObjectAt(params, "metadata"));
      }
  }

  /** Attach then parse returns the request for every accepted message shape, exactly when the request is
      one the wire admits and no optional cA2A key the request lacks is left in the `params.metadata`
      beside a nested message. */
  lemma AttachParseIff(str: Json -> string, msg: Fields, r: PeerRequest)
    requires KeepsStrings(str) && Attach(msg, r).Some?
    ensures ParsePeerRequest(str, Attach(msg, r).value) == Ok(Some(r)) <==>
            RequestWireOk(r) && NothingLeft(BesideMessage(msg), r)
  {
    hide Overlay, Holds, NothingLeft, RequestWireOk, ParseMetadata, Attach, CollectMetadata;
    var o := Overlay(TargetMetadata(msg), r);
    CollectedAfterAttach(msg, r);
    OverlayHolds(TargetMetadata(msg), r);
    OverlayKeys(TargetMetadata(msg), r);
    OuterHolds(BesideMessage(msg), o, r);
    ParseHeld(str, BesideMessage(msg) + o, r);
  }

  /** A leftover that breaks the round trip: a nested message beside `params.metadata` holding a payload. */
  lemma LeftoverBreaksRoundTrip(str: Json -> string, r: PeerRequest)
    requires KeepsStrings(str) && r.sealedPayload.None?
    ensures var msg :=
            map["params" := JObj(map["metadata" := JObj(map[KEY_PAYLOAD := JStr("AA")]), "message" := JObj(map[])])];
            Attach(msg, r).Some? && ParsePeerRequest(str, Attach(msg, r).value) != Ok(Some(r))
  {
    hide Overlay, RequestWireOk, ParsePeerRequest;
    var inner := map["metadata" := JObj(map[KEY_PAYLOAD := JStr("AA")]), "message" := JObj(map[])];
    var msg := map["params" := JObj(inner)];
    assert ObjectAt(msg, "params") == Some(inner) && ObjectAt(inner, "message") == Some(map[]);
    assert At(BesideMessage(msg), KEY_PAYLOAD) == JStr("AA");
    AttachParseIff(str, msg, r);
  }

  /** Attaching keeps every non-cA2A metadata key the parser reads. */
  lemma AttachKeepsOthers(msg: Fields, r: PeerRequest, key: string)
    requires Attach(msg, r).Some? && key !in Keys()
    ensures var before, after := CollectMetadata(msg), CollectMetadata(Attach(msg, r).value);
            (key in after <==> key in before) && (key in before ==> after[key] == before[key])
  {
    hide Overlay, Keys;
    CollectedAfterAttach(msg, r);
    OverlayKeepsOthers(TargetMetadata(msg), r, key);
    assert CollectMetadata(msg) == BesideMessage(msg) + TargetMetadata(msg) by {
      assert map[] + TargetMetadata(msg) == TargetMetadata(msg);
    }
  }

  /** The two messages have the same shape and differ at most in the metadata map that attach targets. */
  predicate SameOutsideMetadata(a: Fields, b: Fields) {
    match (ObjectAt(a, "params"), ObjectAt(b, "params"))
    case (None, None) => a - {"metadata"} == b - {"metadata"}
    case (Some(p), Some(q)) =>
      && a - {"params"} == b - {"params"}
      && (match (ObjectAt(p, "message"), ObjectAt(q, "message"))
          case (None, None) => p - {"metadata"} == q - {"metadata"}
          case (Some(x), Some(y)) => p - {"message"} == q - {"message"} && x - {"metadata"} == y - {"metadata"}
          case _ => false)
    case _ => false
  }

  lemma UpdateOutside(m: Fields, key: string, v: Json)
    ensures m[key := v] - {key} == m - {key}
  {
  }

  lemma OverlayInOutside(container: Fields, r: PeerRequest)
    requires OverlayIn(container, r).Some?
    ensures container - {"metadata"} == OverlayIn(container, r).value - {"metadata"}
    ensures forall key | key != "metadata" :: ObjectAt(OverlayIn(container, r).value, key) == ObjectAt(container, key)
  {
    hide Overlay;
  }

  /** Routing fields, message parts and everything else outside the target metadata are left untouched. */
  lemma AttachKeepsMessage(msg: Fields, r: PeerRequest)
    requires Attach(msg, r).Some?
    ensures SameOutsideMetadata(msg, Attach(msg, r).value)
  {
    hide OverlayIn;
    match ObjectAt(msg, "params")
    case None => OverlayInOutside(msg, r);
    case Some(params) =>
      match ObjectAt(params, "message")
      case None =>
        OverlayInOutside(params, r);
        UpdateOutside(msg, "params", JObj(OverlayIn(params, r).value));
      case Some(inner) =>
        OverlayInOutside(inner, r);
        var message := JObj(OverlayIn(inner, r).value);
        UpdateOutside(params, "message", message);
        UpdateOutside(msg, "params", JObj(params["message" := message]));
  }

  // ---------------------------------------------------------------- refusals

  lemma {:induction false} ParseChainIff(js: seq<Json>)
    ensures ParseChain(js).Some? <==> forall i | 0 <= i < |js| :: CredentialFromDict(js[i]).Some?
  {
    hide CredentialFromDict;
    if js != [] {
      ParseChainIff(js[1..]);
      assert forall i | 1 <= i < |js| :: js[i] == js[1..][i - 1];
    }
  }

  /** Every field but the holder proof reads well. */
  predicate OthersParse(str: Json -> string, m: Fields) {
    && At(m, KEY_CHAIN).JArr? && At(m, KEY_CHAIN).items != []
    && (forall i | 0 <= i < |At(m, KEY_CHAIN).items| :: CredentialFromDict(At(m, KEY_CHAIN).items[i]).Some?)
    && IsText(At(m, KEY_CAPABILITY)) && IsText(At(m, KEY_RECORD_ID))
    && KEY_PARENT in m && (m[KEY_PARENT].JNull? || m[KEY_PARENT].JStr?)
    && PayloadReads(At(m, KEY_PAYLOAD)) && OfferReads(At(m, KEY_OFFER))
    && TextsRead(At(m, KEY_POSSESSION), "version", "mac")
  }

  /** Absent, null, or a base64url text. */
  predicate PayloadReads(j: Json) {
    j.JNull? || (j.JStr? && B64.Decode(j.s).Some?)
  }

  /** Absent, null, or an object with two non-empty texts under these names. */
  predicate TextsRead(j: Json, a: string, b: string) {
    || j.JNull?
    || (&& j.JObj? && a in j.fields && b in j.fields && j.fields[a].JStr? && j.fields[b].JStr?
        && j.fields[a].s != "" && j.fields[b].s != "")
  }

  /** The holder proof is absent, null, or an object with two non-empty texts. */
  predicate HolderReads(j: Json) {
    TextsRead(j, "challenge", "signature")
  }

  predicate EvidenceReads(m: Fields, key: string) {
    key in m ==> m[key].JStr? && B64.Decode(m[key].s).Some?
  }

  /** Absent, null, or an offer: a key, and a report with its four claims, a known role if any, and evidence that is
      base64url where present. */
  predicate OfferReads(j: Json) {
    || j.JNull?
    || (&& j.JObj? && "channel_public_key" in j.fields && "attestation" in j.fields && j.fields["attestation"].JObj?
        && var a := j.fields["attestation"].fields;
           && {"platform", "measurement", "public_key", "nonce"} <= a.Keys
           && ("role" in a ==> a["role"] == JStr("callee") || a["role"] == JStr("caller"))
           && EvidenceReads(a, "raw_evidence") && EvidenceReads(a, "quote_signature")
           && EvidenceReads(a, "attestation_key_pem") && EvidenceReads(a, "attestation_key_chain_pem"))
  }

  lemma FieldErrors(str: Json -> string, j: Json)
    ensures ParsePayload(j) == Err(TransportError) <==> !PayloadReads(j)
    ensures ParsePayload(j).Ok? <==> PayloadReads(j)
    ensures ParsePossession(j) == Err(TransportError) <==> !TextsRead(j, "version", "mac")
    ensures ParsePossession(j).Ok? <==> TextsRead(j, "version", "mac")
    ensures ParseHolder(j) == Err(HolderProofInvalid) <==> !HolderReads(j)
    ensures ParseHolder(j).Ok? <==> HolderReads(j)
  {
    hide B64.Decode;
  }

  lemma OfferErrors(str: Json -> string, j: Json)
    ensures ParseOffer(str, j) == Err(TransportError) <==> !OfferReads(j)
    ensures ParseOffer(str, j).Ok? <==> OfferReads(j)
  {
    hide B64.Decode;
  }

  /** Which error parsing raises: none without cA2A keys; HolderProofInvalid exactly when everything else
      reads well and the holder proof does not; TransportError in every other refusal. */
  lemma ParseErrorMeaning(str: Json -> string, msg: Fields)
    ensures var m, r := CollectMetadata(msg), ParsePeerRequest(str, msg);
            && (r == Ok(None) <==> m.Keys * Keys() == {})
            && (r == Err(HolderProofInvalid) <==>
                  m.Keys * Keys() != {} && OthersParse(str, m) && !HolderReads(At(m, KEY_HOLDER)))
            && (r == Err(TransportError) <==> m.Keys * Keys() != {} && !OthersParse(str, m))
            && (r.Err? ==> r.error == TransportError || r.error == HolderProofInvalid)
  {
    hide ParseChain, ParsePayload, ParseOffer, ParsePossession, ParseHolder, CollectMetadata, HolderReads,
         CredentialFromDict, Keys, PayloadReads, TextsRead, OfferReads;
    var m := CollectMetadata(msg);
    FieldErrors(str, At(m, KEY_PAYLOAD));
    OfferErrors(str, At(m, KEY_OFFER));
    FieldErrors(str, At(m, KEY_POSSESSION));
    FieldErrors(str, At(m, KEY_HOLDER));
    if At(m, KEY_CHAIN).JArr? {
      ParseChainIff(At(m, KEY_CHAIN).items);
    }
  }

  /** A malformed hop is a TransportError, whatever else the message holds. */
  lemma MalformedHopIsTransportError(str: Json -> string, msg: Fields, i: nat)
    requires At(CollectMetadata(msg), KEY_CHAIN).JArr? && i < |At(CollectMetadata(msg), KEY_CHAIN).items|
    requires CredentialFromDict(At(CollectMetadata(msg), KEY_CHAIN).items[i]).None?
    ensures ParsePeerRequest(str, msg) == Err(TransportError)
  {
    hide CollectMetadata, CredentialFromDict, ParsePeerRequest;
    var m := CollectMetadata(msg);
    assert KEY_CHAIN in m.Keys * Keys();
    assert !OthersParse(str, m);
    ParseErrorMeaning(str, msg);
  }

  lemma {:induction false} ParsedHops(js: seq<Json>, i: nat)
    requires ParseChain(js).Some? && i < |js|
    ensures |ParseChain(js).value| == |js| && CredentialFromDict(js[i]) == Some(ParseChain(js).value[i])
  {
    hide CredentialFromDict;
    ParsedLength(js);
    if i > 0 {
      ParsedHops(js[1..], i - 1);
      assert js[1..][i - 1] == js[i];
    }
  }

  lemma {:induction false} ParsedLength(js: seq<Json>)
    requires ParseChain(js).Some?
    ensures |ParseChain(js).value| == |js|
  {
    hide CredentialFromDict;
    if js != [] {
      ParsedLength(js[1..]);
    }
  }

  /** What a parsed request says, for every message that parses: each field is the one the metadata holds under its
      own key, hop by hop, and an absent or null optional field is none. */
  lemma ParsedSays(str: Json -> string, msg: Fields, r: PeerRequest)
    requires ParsePeerRequest(str, msg) == Ok(Some(r))
    ensures var m := CollectMetadata(msg);
            && At(m, KEY_CHAIN).JArr? && |r.chain| == |At(m, KEY_CHAIN).items|
            && (forall i | 0 <= i < |r.chain| :: CredentialFromDict(At(m, KEY_CHAIN).items[i]) == Some(r.chain[i]))
            && At(m, KEY_CAPABILITY) == JStr(r.requestedCapability) && At(m, KEY_RECORD_ID) == JStr(r.recordId)
            && KEY_PARENT in m && m[KEY_PARENT]
              == (if r.parentRecordHash.None? then JNull else JStr(r.parentRecordHash.value))
            && (r.sealedPayload.None? <==> At(m, KEY_PAYLOAD).JNull?)
            && (r.sealedPayload.Some? ==>
                At(m, KEY_PAYLOAD).JStr? && B64.Decode(At(m, KEY_PAYLOAD).s) == r.sealedPayload)
            && (r.callerOffer.None? <==> At(m, KEY_OFFER).JNull?)
            && (r.callerOffer.Some? ==> OfferFromDict(str, At(m, KEY_OFFER)) == r.callerOffer)
            && (r.holderProof.None? <==> At(m, KEY_HOLDER).JNull?)
            && (r.holderProof.Some? ==> HoldsTexts(At(m, KEY_HOLDER), "challenge", r.holderProof.value.challenge,
                                                   "signature", r.holderProof.value.signature))
            && (r.callerPossession.None? <==> At(m, KEY_POSSESSION).JNull?)
            && (r.callerPossession.Some? ==>
                HoldsTexts(At(m, KEY_POSSESSION), "version", r.callerPossession.value.version,
                                                        "mac", r.callerPossession.value.mac))
  {
    hide ParseChain, CollectMetadata, CredentialFromDict, OfferFromDict, B64.Decode, Keys;
    var m := CollectMetadata(msg);
    var js := At(m, KEY_CHAIN).items;
    ParsedLength(js);
    forall i | 0 <= i < |js|
      ensures CredentialFromDict(js[i]) == Some(r.chain[i])
    {
      ParsedHops(js, i);
    }
  }

  predicate HoldsTexts(j: Json, a: string, x: string, b: string, y: string) {
    j.JObj? && a in j.fields && j.fields[a] == JStr(x) && b in j.fields && j.fields[b] == JStr(y)
  }

  /** Where the cA2A fields go: the nested message if there is one, else the params, else the message itself. */
  function Target(msg: Fields): (m: Fields)
  {
    if "params" in msg && msg["params"].JObj? then
      var params := msg["params"].fields;
      if "message" in params && params["message"].JObj? then params["message"].fields else params
    else msg
  }

  /** Attaching is refused exactly when that place has metadata that is not a mapping. */
  lemma AttachRefusedIff(msg: Fields, r: PeerRequest)
    ensures Attach(msg, r).None? <==> "metadata" in Target(msg) && !Target(msg)["metadata"].JObj?
  {
    hide Overlay;
  }
}

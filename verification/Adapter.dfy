/** The A2A metadata adapter (transport/a2a_adapter.py): attach and parse. */
module Adapter {
  import opened Basics
  import opened Canonical
  import opened Errors
  import opened Delegation
  import opened Attestation
  import opened Peer
  import opened CredentialWire
  import B64 = Base64Url

  const KEY_CHAIN: string := "https://agentrust-io.com/extensions/ca2a/v0.1/delegation_chain"
  const KEY_CAPABILITY: string := "https://agentrust-io.com/extensions/ca2a/v0.1/requested_capability"
  const KEY_RECORD_ID: string := "https://agentrust-io.com/extensions/ca2a/v0.1/record_id"
  const KEY_PARENT: string := "https://agentrust-io.com/extensions/ca2a/v0.1/parent_record_hash"
  const KEY_PAYLOAD: string := "https://agentrust-io.com/extensions/ca2a/v0.1/sealed_payload"
  const KEY_OFFER: string := "https://agentrust-io.com/extensions/ca2a/v0.1/caller_offer"
  const KEY_HOLDER: string := "https://agentrust-io.com/extensions/ca2a/v0.1/holder_proof"
  const KEY_POSSESSION: string := "https://agentrust-io.com/extensions/ca2a/v0.1/caller_possession"

  type Fields = map<string, Json>

  function Keys(): (s: set<string>)
  {
    {KEY_CHAIN, KEY_CAPABILITY, KEY_RECORD_ID, KEY_PARENT, KEY_PAYLOAD, KEY_OFFER, KEY_HOLDER, KEY_POSSESSION}
  }

  function ObjectAt(m: Fields, key: string): (r: Option<Fields>)
    ensures r.Some? ==> key in m && m[key] == JObj(r.value)
  {
    if key in m && m[key].JObj? then Some(m[key].fields) else None
  }

  function OrEmpty(m: Option<Fields>): (r: Fields)
  {
    if m.Some? then m.value else map[]
  }

  /** `collect_metadata` without an override: the message's own metadata wins over `params.metadata`. */
  function CollectMetadata(msg: Fields): (m: Fields)
  {
    match ObjectAt(msg, "params")
    case None => OrEmpty(ObjectAt(msg, "metadata"))
    case Some(params) =>
      var outer := OrEmpty(ObjectAt(params, "metadata"));
      match ObjectAt(params, "message")
      case None => outer
      case Some(inner) => outer + OrEmpty(ObjectAt(inner, "metadata"))
  }

  // ---------------------------------------------------------------- attach

  function HolderToDict(h: HolderProof): (j: Json)
  {
    JObj(map["challenge" := JStr(h.challenge), "signature" := JStr(h.signature)])
  }

  function PossessionToDict(p: CallerPossession): (j: Json)
  {
    JObj(map["version" := JStr(p.version), "mac" := JStr(p.mac)])
  }

  function ChainToJson(chain: seq<Credential>): (js: seq<Json>)
    ensures |js| == |chain|
    ensures forall i | 0 <= i < |chain| :: js[i] == CredentialToDict(chain[i])
  {
    seq(|chain|, i requires 0 <= i < |chain| => CredentialToDict(chain[i]))
  }

  /** Set the key, or pop it when the request has nothing to put there. */
  function SetOrPop(m: Fields, key: string, v: Option<Json>): (r: Fields)
  {
    match v
    case None => m - {key}
    case Some(j) => m[key := j]
  }

  function PayloadJson(r: PeerRequest): (j: Option<Json>)
    ensures j.Some? <==> r.sealedPayload.Some?
  {
    match r.sealedPayload
    case None => None
    case Some(b) => Some(JStr(B64.Encode(b)))
  }

  function OfferJson(r: PeerRequest): (j: Option<Json>)
    ensures j.Some? <==> r.callerOffer.Some?
  {
    match r.callerOffer
    case None => None
    case Some(o) => Some(OfferToDict(o))
  }

  function HolderJson(r: PeerRequest): (j: Option<Json>)
    ensures j.Some? <==> r.holderProof.Some?
  {
    match r.holderProof
    case None => None
    case Some(h) => Some(HolderToDict(h))
  }

  function PossessionJson(r: PeerRequest): (j: Option<Json>)
    ensures j.Some? <==> r.callerPossession.Some?
  {
    match r.callerPossession
    case None => None
    case Some(p) => Some(PossessionToDict(p))
  }

  /** The metadata map after the eight cA2A fields have been written into it. */
  function Overlay(m: Fields, r: PeerRequest): (o: Fields)
  {
    var m1 := m[KEY_CHAIN := JArr(ChainToJson(r.chain))][KEY_CAPABILITY := JStr(r.requestedCapability)]
               [KEY_RECORD_ID := JStr(r.recordId)][KEY_PARENT := OptStr(r.parentRecordHash)];
    var m2 := SetOrPop(m1, KEY_PAYLOAD, PayloadJson(r));
    var m3 := SetOrPop(m2, KEY_OFFER, OfferJson(r));
    var m4 := SetOrPop(m3, KEY_HOLDER, HolderJson(r));
    SetOrPop(m4, KEY_POSSESSION, PossessionJson(r))
  }

  /** `_attach_target` and the writes: None when the container's metadata is not a mapping. */
  function OverlayIn(container: Fields, r: PeerRequest): (o: Option<Fields>)
  {
    if "metadata" !in container then Some(container["metadata" := JObj(Overlay(map[], r))])
    else if !container["metadata"].JObj? then None
    else Some(container["metadata" := JObj(Overlay(container["metadata"].fields, r))])
  }

  /** `attach_ca2a_metadata`; None is TransportError. */
  function Attach(msg: Fields, r: PeerRequest): (o: Option<Fields>)
  {
    match ObjectAt(msg, "params")
    case None => OverlayIn(msg, r)
    case Some(params) =>
      match ObjectAt(params, "message")
      case None =>
        (match OverlayIn(params, r)
         case None => None
         case Some(p) => Some(msg["params" := JObj(p)]))
      case Some(inner) =>
        match OverlayIn(inner, r)
        case None => None
        case Some(i) => Some(msg["params" := JObj(params["message" := JObj(i)])])
  }

  // ---------------------------------------------------------------- parse

  function ParseChain(js: seq<Json>): (r: Option<seq<Credential>>)
  {
    if js == [] then Some([])
    else
      match CredentialFromDict(js[0])
      case None => None
      case Some(c) =>
        match ParseChain(js[1..])
        case None => None
        case Some(cs) => Some([c] + cs)
  }

  /** An absent key and a null read the same. */
  function At(m: Fields, key: string): (j: Json)
  {
    if key in m then m[key] else JNull
  }

  function ParsePayload(j: Json): (r: Result<Option<Bytes>, ErrorClass>)
  {
    if j.JNull? then Ok(None)
    else if !j.JStr? then Err(TransportError)
    else
      match B64.Decode(j.s)
      case None => Err(TransportError)
      case Some(b) => Ok(Some(b))
  }

  function ParseOffer(str: Json -> string, j: Json): (r: Result<Option<ChannelOffer>, ErrorClass>)
  {
    if j.JNull? then Ok(None)
    else
      match OfferFromDict(str, j)
      case None => Err(TransportError)
      case Some(o) => Ok(Some(o))
  }

  /** Two non-empty strings of an object. */
  function TwoTexts(j: Json, a: string, b: string): (r: Option<(string, string)>)
  {
    if j.JObj? && IsText(At(j.fields, a)) && IsText(At(j.fields, b))
        then Some((At(j.fields, a).s, At(j.fields, b).s)) else None
  }

  function ParsePossession(j: Json): (r: Result<Option<CallerPossession>, ErrorClass>)
  {
    if j.JNull? then Ok(None)
    else
      match TwoTexts(j, "version", "mac")
      case None => Err(TransportError)
      case Some((v, m)) => Ok(Some(CallerPossession(v, m)))
  }

  function ParseHolder(j: Json): (r: Result<Option<HolderProof>, ErrorClass>)
  {
    if j.JNull? then Ok(None)
    else
      match TwoTexts(j, "challenge", "signature")
      case None => Err(HolderProofInvalid)
      case Some((c, s)) => Ok(Some(HolderProof(c, s)))
  }

  /** `parse_peer_request` on collected metadata. */
  function ParseMetadata(str: Json -> string, m: Fields): (r: Result<Option<PeerRequest>, ErrorClass>)
  {
    if m.Keys * Keys() == {} then Ok(None)
    else if !At(m, KEY_CHAIN).JArr? || At(m, KEY_CHAIN).items == [] then Err(TransportError)
    else
      match ParseChain(At(m, KEY_CHAIN).items)
      case None => Err(TransportError)
      case Some(chain) =>
        if !IsText(At(m, KEY_CAPABILITY)) || !IsText(At(m, KEY_RECORD_ID)) then Err(TransportError)
        else if KEY_PARENT !in m || (!m[KEY_PARENT].JNull? && !m[KEY_PARENT].JStr?) then Err(TransportError)
        else
          var parent := if m[KEY_PARENT].JNull? then None else Some(m[KEY_PARENT].s);
          var payload :- ParsePayload(At(m, KEY_PAYLOAD));
          var offer :- ParseOffer(str, At(m, KEY_OFFER));
          var possession :- ParsePossession(At(m, KEY_POSSESSION));
          var holder :- ParseHolder(At(m, KEY_HOLDER));
          Ok(Some(PeerRequest(chain, At(m, KEY_CAPABILITY).s, At(m, KEY_RECORD_ID).s, payload, parent, offer, holder,
                              possession)))
  }

  function ParsePeerRequest(str: Json -> string, msg: Fields): (r: Result<Option<PeerRequest>, ErrorClass>)
  {
    ParseMetadata(str, CollectMetadata(msg))
  }

  /** The hop loop of `parse_peer_request`, appending one parsed credential at a time. */
  method ParseHops(js: seq<Json>) returns (r: Option<seq<Credential>>)
    ensures r == ParseChain(js)
  {
    hide CredentialFromDict;
    var chain: seq<Credential> := [];
    assert js[0..] == js && forall cs: seq<Credential> :: [] + cs == cs;
    for i := 0 to |js|
      invariant ParseChain(js) == match ParseChain(js[i..]) case None => None case Some(cs) => Some(chain + cs)
    {
      assert js[i..][0] == js[i] && js[i..][1..] == js[i + 1..];
      var c := CredentialFromDict(js[i]);
      if c.None? {
        return None;
      }
      ghost var before := chain;
      chain := chain + [c.value];
      assert forall cs: seq<Credential> :: before + ([c.value] + cs) == chain + cs;
    }
    assert js[|js|..] == [] && chain + [] == chain;
    return Some(chain);
  }
}

/** The peer node (node.py), its reply bodies (transport/wire.py), and one authenticated call end to end. */
module Node {
  import opened Basics
  import opened Canonical
  import opened BoundedJson
  import opened CryptoModel
  import opened Errors
  import opened Delegation
  import opened Chain
  import opened Challenge
  import opened Provenance
  import opened Attestation
  import opened Peer
  import opened PeerFacts
  import opened CredentialWire
  import opened Adapter
  import opened AdapterFacts
  import opened Response
  import opened ResponseFacts
  import opened ReplySize

  /** `serialize_peer_result`; the payload is never echoed. */
  function ResultBody(k: Crypto, r: PeerResult): (j: Json)
    ensures WellShaped(200, j)
  {
    hide RecordJson, ScopeArray, AttestationText;
    JObj(map[
      "accepted" := JBool(true),
      "effective_scope" := ScopeArray(r.effectiveScope),
      "granted_capability" := JStr(r.grantedCapability),
      "caller_attestation" := JStr(AttestationText(r.callerAttestation)),
      "record" := RecordJson(k, r.record)])
  }

  /** The text of an error: its stable code, its message and its detail. */
  datatype Texts = Texts(code: string, message: string, detail: Option<string>)

  /** `serialize_error`. */
  function ErrorBody(t: Texts, cls: ErrorClass): (j: Json)
    ensures cls != PyValueError ==> WellShaped(HttpStatus(cls), j)
  {
    JObj(map["error" := JObj(map[
      "code" := JStr(t.code),
      "message" := JStr(t.message),
      "detail" := OptStr(t.detail),
      "http_status" := JInt(HttpStatus(cls))])])
  }

  /** `PeerNode.handle`. */
  function Handle(k: Crypto, str: Json -> string, cfg: Config, clocks: Clocks, msg: Fields)
    : (r: Result<PeerResult, Refusal>)
  {
    match ParsePeerRequest(str, msg)
    case Err(e) => Err(Refusal(e, None))
    case Ok(None) => Err(Refusal(TransportError, None))
    case Ok(Some(req)) => HandlePeerRequest(k, cfg, clocks, req).result
  }

  /** The status and body of a handled call; None when a Python error that is not a CA2AError escapes. */
  function Reply(k: Crypto, describe: Refusal -> Texts, r: Result<PeerResult, Refusal>): (s: Option<(int, Json)>)
    ensures s.Some? ==> AdmittedStatus(s.value.0) && WellShaped(s.value.0, s.value.1)
    ensures s.Some? ==> (s.value.0 == 200 <==> r.Ok?)
  {
    match r
    case Ok(v) => Some((200, ResultBody(k, v)))
    case Err(e) => if e.cls == PyValueError then None else Some((HttpStatus(e.cls), ErrorBody(describe(e), e.cls)))
  }

  /** `PeerNode.handle_authenticated`: the producer is established before the request is handled. */
  function HandleAuthenticated(k: Crypto, str: Json -> string, describe: Refusal -> Texts, cfg: Config, clocks: Clocks,
                               private: Key, envelope: Json): (r: Option<(int, Json)>)
  {
    match MakeProducer(k, private, envelope)
    case None => None
    case Some(p) =>
      match Reply(k, describe, Handle(k, str, cfg, clocks, p.envelope.fields["request"].fields))
      case None => None
      case Some((status, body)) =>
        match Finish(k, p, status, body)
        case None => None
        case Some(result) => Some((status, result))
  }

  /** Without cA2A metadata a message is a TransportError; what does not parse keeps its parse error; only a
      parsed request is handled. */
  lemma HandleMeans(k: Crypto, str: Json -> string, cfg: Config, clocks: Clocks, msg: Fields)
    ensures var p, r := ParsePeerRequest(str, msg), Handle(k, str, cfg, clocks, msg);
            && (p == Ok(None) ==> r == Err(Refusal(TransportError, None)))
            && (p.Err? ==> r == Err(Refusal(p.error, None)))
            && (p.Ok? && p.value.Some? ==> r == HandlePeerRequest(k, cfg, clocks, p.value.value).result)
  {
    hide ParsePeerRequest, HandlePeerRequest;
  }

  // ---------------------------------------------------------------- what a reply says

  lemma RecordHasNoHash(r: Record)
    ensures "record_hash" !in RecordBody(r).fields
  {
    hide RecordBody;
    RequiredKept(r, "record_hash");
    NoHashRequired(r);
  }

  lemma NoHashRequired(r: Record)
    ensures "record_hash" !in RequiredBody(r)
  {
    hide ScopeArray, AttestationText, OptStr;
  }

  /** The body of an acceptance, field by field: the effective scope in order, the capability, the recorded outcome
      in words, and the record with the hash a child links to. */
  lemma ResultSays(k: Crypto, r: PeerResult)
    ensures var b := ResultBody(k, r);
            && b.JObj?
            && b.fields.Keys == {"accepted", "effective_scope", "granted_capability", "caller_attestation", "record"}
            && b.fields["accepted"] == JBool(true) && b.fields["effective_scope"] == ScopeArray(r.effectiveScope)
            && b.fields["granted_capability"] == JStr(r.grantedCapability)
            && b.fields["caller_attestation"] == JStr(match r.callerAttestation
                                                      case NotOffered => "not_offered"
                                                      case Failed => "failed"
                                                      case SoftwareOnly => "software-only"
                                                      case Hardware => "hardware")
            && b.fields["record"].JObj? && "record_hash" in b.fields["record"].fields
            && b.fields["record"].fields["record_hash"] == JStr(k.sha256(RecordBytes(r.record)))
            && b.fields["record"].fields - {"record_hash"} == RecordBody(r.record).fields
  {
    hide ScopeArray, RecordBytes, RecordBody;
    RecordHasNoHash(r.record);
    var m, h := RecordBody(r.record).fields, JStr(RecordHash(k, r.record));
    assert m["record_hash" := h] - {"record_hash"} == m;
  }

  /** So the body determines all of them, the whole record included; only the payload and the revocation status
      are not told. */
  lemma ResultDetermines(k: Crypto, a: PeerResult, b: PeerResult)
    requires ResultBody(k, a) == ResultBody(k, b)
    ensures a.effectiveScope == b.effectiveScope && a.grantedCapability == b.grantedCapability
    ensures a.callerAttestation == b.callerAttestation && a.record == b.record
  {
    hide ResultBody, ScopeArray, RecordBody, RecordBytes;
    ResultSays(k, a);
    ResultSays(k, b);
    ScopeArrayInjective(a.effectiveScope, b.effectiveScope);
    assert RecordBody(a.record) == RecordBody(b.record);
    RecordBodyInjective(a.record, b.record);
    WordsApart(a.callerAttestation, b.callerAttestation);
  }

  lemma WordsApart(a: CallerAttestation, b: CallerAttestation)
    ensures AttestationText(a) == AttestationText(b) ==> a == b
    ensures AttestationText(a) == match a
                                  case NotOffered => "not_offered"
                                  case Failed => "failed"
                                  case SoftwareOnly => "software-only"
                                  case Hardware => "hardware"
  {
    if AttestationText(a) == AttestationText(b) {
      AttestationTextInjective(a, b);
    }
  }

  /** What the callee replies to a decided request: 200 and what was granted, or the error's own status and texts. */
  lemma ReplySays(k: Crypto, describe: Refusal -> Texts, r: Result<PeerResult, Refusal>)
    requires Reply(k, describe, r).Some?
    ensures var (status, body) := Reply(k, describe, r).value;
            match r
            case Ok(v) => status == 200 && body == ResultBody(k, v)
            case Err(e) =>
              && status == HttpStatus(e.cls) && body.JObj? && body.fields.Keys == {"error"}
              && body.fields["error"]
                == JObj(map["code" := JStr(describe(e).code), "message" := JStr(describe(e).message),
                                                  "detail" := OptStr(describe(e).detail), "http_status" :=
                                                    JInt(status)])
  {
    hide ResultBody;
  }

  // ---------------------------------------------------------------- one call end to end

  /** `attach_ca2a_metadata({}, request)`. */
  function Attached(r: PeerRequest): (m: Fields)
    ensures Attach(map[], r) == Some(m)
    ensures NothingLeft(BesideMessage(map[]), r)
  {
    hide Overlay;
    map["metadata" := JObj(Overlay(map[], r))]
  }

  /** A request the wire admits reaches the callee's handler unchanged. */
  lemma RequestArrives(k: Crypto, str: Json -> string, cfg: Config, clocks: Clocks, r: PeerRequest)
    requires KeepsStrings(str) && RequestWireOk(r)
    ensures Handle(k, str, cfg, clocks, Attached(r)) == HandlePeerRequest(k, cfg, clocks, r).result
  {
    hide Attach, RequestWireOk, NothingLeft, ParsePeerRequest, HandlePeerRequest, Attached;
    assert Attach(map[], r) == Some(Attached(r));
    AttachParseIff(str, map[], r);
  }

  /** The two ends of one authenticated exchange. */
  datatype Exchange = Exchange(peer: VerifiedPeer, callerPrivate: Key, session: string, started: real, timeout: real)

  /** The envelope the caller sends. */
  function Sent(k: Crypto, x: Exchange, r: PeerRequest): (e: Json)
    ensures e.JObj? && "request" in e.fields && e.fields["request"] == JObj(Attached(r))
  {
    RequestEnvelope(x.peer.publicKey, k.xPublic(x.callerPrivate), x.session, JObj(Attached(r)))
  }

  /** The caller's pending state once the request is sent. */
  function Waiting(k: Crypto, x: Exchange, r: PeerRequest): (p: Option<Pending>)
  {
    match (Encode(Sent(k, x, r)), OpenedKey(k, x.peer, JObj(Attached(r)), x.callerPrivate, x.session))
    case (Some(request), Some(key)) =>
      Some(Pending(k.sha256(request), key, x.peer.assurance, x.started, x.started + x.timeout, false))
    case _ => None
  }

  /** What the callee answers to the bytes the caller sent; None when there are none or an error escapes. */
  function CalleeAnswer(k: Crypto, str: Json -> string, describe: Refusal -> Texts, cfg: Config, clocks: Clocks,
                        calleePrivate: Key, x: Exchange, r: PeerRequest): (a: Option<(int, Json)>)
  {
    match Encode(Sent(k, x, r))
    case None => None
    case Some(raw) =>
      match Decode(raw)
      case None => None
      case Some(e) => HandleAuthenticated(k, str, describe, cfg, clocks, calleePrivate, e)
  }

  /** The status and body of the callee's decision about a request. */
  function Decision(k: Crypto, describe: Refusal -> Texts, cfg: Config, clocks: Clocks, r: PeerRequest)
    : (d: Option<(int, Json)>)
    ensures d.Some? ==> AdmittedStatus(d.value.0) && WellShaped(d.value.0, d.value.1)
  {
    Reply(k, describe, HandlePeerRequest(k, cfg, clocks, r).result)
  }

  // ---------------------------------------------------------------- when the callee answers

  lemma PutFlat(m: Fields, key: string, v: Option<Json>)
    requires (forall k | k in m :: Flat(m[k])) && (v.Some? ==> Flat(v.value))
    ensures forall k | k in Put(m, key, v) :: Flat(Put(m, key, v)[k])
  {
  }

  lemma RequiredFlat(r: Record)
    ensures forall k | k in RequiredBody(r) :: Flat(RequiredBody(r)[k])
  {
    hide AttestationText, ScopeArray, OptStr, Flat;
    TextIsFlat(r.recordId);
    TextIsFlat(r.credentialId);
    TextIsFlat(r.subject);
    TextIsFlat(AttestationText(r.callerAttestation));
    ScopeIsFlat(r.scope, r.parentRecordHash);
  }

  lemma ScopeIsFlat(scope: set<string>, s: Option<string>)
    ensures Flat(ScopeArray(scope)) && Flat(OptStr(s))
  {
  }

  lemma RecordFlat(r: Record)
    ensures forall k | k in RecordBody(r).fields :: Flat(RecordBody(r).fields[k])
  {
    hide Put, RequiredBody, DecisionField, Flat;
    RequiredFlat(r);
    var b0 := RequiredBody(r);
    var b1 := Put(b0, "decision", TextField(DecisionField(r)));
    var b2 := Put(b1, "requested_capability", TextField(r.requestedCapability));
    var b3 := Put(b2, "effective_scope", ScopeField(r.effectiveScope));
    OptionsFlat(DecisionField(r), None);
    OptionsFlat(r.requestedCapability, r.effectiveScope);
    OptionsFlat(r.denialReason, None);
    PutFlat(b0, "decision", TextField(DecisionField(r)));
    PutFlat(b1, "requested_capability", TextField(r.requestedCapability));
    PutFlat(b2, "effective_scope", ScopeField(r.effectiveScope));
    PutFlat(b3, "denial_reason", TextField(r.denialReason));
  }

  lemma OptionsFlat(s: Option<string>, scope: Option<set<string>>)
    ensures TextField(s).Some? ==> Flat(TextField(s).value)
    ensures ScopeField(scope).Some? ==> Flat(ScopeField(scope).value)
  {
  }

  /** The record of a result, with its hash. */
  function RecordJson(k: Crypto, r: Record): (j: Json)
    ensures j.JObj?
  {
    JObj(RecordBody(r).fields["record_hash" := JStr(RecordHash(k, r))])
  }

  lemma RecordJsonFits(k: Crypto, r: Record)
    ensures Encodable(RecordJson(k, r)) && Shallow(RecordJson(k, r), 2)
  {
    hide RecordBody, RecordHash, Flat, Shallow;
    RecordFlat(r);
    RecordBodyEncodable(r);
    var m, h := RecordBody(r).fields, JStr(RecordHash(k, r));
    assert Flat(h) by {
      TextIsFlat(RecordHash(k, r));
    }
    FlatFieldsAreShallow(m["record_hash" := h], 2);
  }

  lemma TextIsFlat(s: string)
    ensures Flat(JStr(s))
  {
  }

  /** Every body the node replies with can be printed and is shallow. */
  lemma ResultFits(k: Crypto, r: PeerResult)
    ensures Encodable(ResultBody(k, r)) && Shallow(ResultBody(k, r), 1)
  {
    hide RecordJson, ScopeArray, AttestationText, RecordHash;
    RecordJsonFits(k, r.record);
    ScopeEncodable(r.effectiveScope);
    ScopeIsShallow(r.effectiveScope, 2);
  }

  lemma ScopeIsShallow(scope: set<string>, depth: nat)
    requires depth < MAX_DEPTH
    ensures Shallow(ScopeArray(scope), depth)
  {
    hide Shallow;
    FlatIsShallow(ScopeArray(scope), depth);
  }

  lemma ErrorFits(t: Texts, cls: ErrorClass)
    ensures Encodable(ErrorBody(t, cls)) && Shallow(ErrorBody(t, cls), 1)
  {
    var e := ErrorBody(t, cls).fields["error"];
    assert Encodable(e) && Shallow(e, 2);
  }

  lemma DecisionFits(k: Crypto, describe: Refusal -> Texts, cfg: Config, clocks: Clocks, r: PeerRequest)
    ensures Decision(k, describe, cfg, clocks, r).None? <==> BadArguments(ChainPolicy(cfg))
    ensures var d := Decision(k, describe, cfg, clocks, r);
            d.Some? ==>
              && Encodable(d.value.1) && Shallow(d.value.1, 1) && IsSafe(d.value.0)
              && (d.value.0 == 200 <==> HandlePeerRequest(k, cfg, clocks, r).result.Ok?)
  {
    hide HandlePeerRequest, Encodable, Shallow, ResultBody, ErrorBody, BadArguments;
    EscapingErrorIff(k, cfg, clocks, r);
    match HandlePeerRequest(k, cfg, clocks, r).result
    case Ok(v) => ResultFits(k, v);
    case Err(e) => ErrorFits(describe(e), e.cls);
  }

  /** What decides whether the callee answers: the request could be sent, the callee's staleness bound is
      usable, and the decision leaves room for its MAC. */
  predicate Answerable(k: Crypto, describe: Refusal -> Texts, cfg: Config, clocks: Clocks, x: Exchange,
                       r: PeerRequest) {
    && !BadArguments(ChainPolicy(cfg))
    && match (Encode(Sent(k, x, r)), Decision(k, describe, cfg, clocks, r))
       case (Some(raw), Some((status, body))) =>
         StatementSize(k.sha256(raw), status, body) + MAC_FIELD_BYTES <= MAX_BYTES
       case _ => false
  }

  /** The caller's side of what an answer settles: it is verified in time with the callee's own status and
      body, and the status is 200 exactly when `accepted`. */
  ghost predicate Settles(k: Crypto, x: Exchange, r: PeerRequest, answer: (int, Json), body: Json, accepted: bool,
                          first: Reading, second: Reading)
  {
    && Waiting(k, x, r).Some? && Encode(answer.1).Some? && (answer.0 == 200 <==> accepted)
    && Answer(k, Waiting(k, x, r).value, answer.0, Encode(answer.1).value, first, second) ==
       if && first.Finite? && x.started <= first.t < x.started + x.timeout
          && second.Finite? && x.started <= second.t < x.started + x.timeout
       then Some(VerifiedResponse(answer.0, body, Waiting(k, x, r).value.requestSha256, x.peer.assurance))
       else None
  }

  /** One exchange: there is an answer exactly when the call is answerable, and the answer settles it. */
  ghost predicate Exchanged(k: Crypto, str: Json -> string, describe: Refusal -> Texts, cfg: Config, clocks: Clocks,
                            calleePrivate: Key, x: Exchange, r: PeerRequest, accepted: bool, first: Reading,
                              second: Reading)
  {
    var a, d := CalleeAnswer(k, str, describe, cfg, clocks, calleePrivate, x, r), Decision(k, describe, cfg, clocks, r);
    && (a.Some? <==> Answerable(k, describe, cfg, clocks, x, r))
    && (a.Some? ==> d.Some? && Settles(k, x, r, a.value, d.value.1, accepted, first, second))
  }

  /** What the callee computes once the bytes have arrived. */
  lemma AnswerIsFinished(k: Crypto, str: Json -> string, describe: Refusal -> Texts, cfg: Config, clocks: Clocks,
                         calleePrivate: Key, x: Exchange, r: PeerRequest)
    requires KeepsStrings(str) && ExchangeAgrees(k) && HexDigests(k) && RequestWireOk(r)
    requires x.peer.publicKey == k.xPublic(calleePrivate) && IsLowerHex(x.session, 64) && Encode(Sent(k, x, r)).Some?
    ensures Waiting(k, x, r).Some?
    ensures var p := Producer(Sent(k, x, r), Waiting(k, x, r).value.requestSha256, Waiting(k, x, r).value.key);
            CalleeAnswer(k, str, describe, cfg, clocks, calleePrivate, x, r) ==
            match Decision(k, describe, cfg, clocks, r)
            case None => None
            case Some((status, body)) =>
              match Finish(k, p, status, body)
              case None => None
              case Some(reply) => Some((status, reply))
  {
    hide Encode, Decode, Attach, Attached, RequestWireOk, HandlePeerRequest, MakeProducer, Finish, OpenedKey, Handle,
         Reply;
    ProducerAgrees(k, x.peer, JObj(Attached(r)), x.callerPrivate, calleePrivate, x.session);
    RequestArrives(k, str, cfg, clocks, r);
  }

  /** Whatever the callee decides about a request the wire admits: exactly when the call is answerable there
      is an answer, and in time the caller verifies it with the callee's own status and body. */
  lemma CallIsAuthenticated(k: Crypto, str: Json -> string, describe: Refusal -> Texts, cfg: Config, clocks: Clocks,
                            calleePrivate: Key, x: Exchange, r: PeerRequest, first: Reading, second: Reading)
    requires KeepsStrings(str) && ExchangeAgrees(k) && HexDigests(k) && RequestWireOk(r)
    requires x.peer.publicKey == k.xPublic(calleePrivate) && IsLowerHex(x.session, 64)
    ensures Exchanged(k, str, describe, cfg, clocks, calleePrivate, x, r,
                      HandlePeerRequest(k, cfg, clocks, r).result.Ok?, first, second)
  {
    hide Encode, RequestWireOk, HandlePeerRequest, Finish, Sent, Waiting, CalleeAnswer, StatementSize, Encodable,
         Shallow,
         BadArguments, Decision, Settles;
    if Encode(Sent(k, x, r)).None? {
      NothingSent(k, str, describe, cfg, clocks, calleePrivate, x, r);
    } else {
      AnswerIsFinished(k, str, describe, cfg, clocks, calleePrivate, x, r);
      DecisionFits(k, describe, cfg, clocks, r);
      WaitingFor(k, x, r);
      var v, d := Waiting(k, x, r).value, Decision(k, describe, cfg, clocks, r);
      var p := Producer(Sent(k, x, r), v.requestSha256, v.key);
      if d.Some? {
        FinishIff(k, p, d.value.0, d.value.1);
        if Finish(k, p, d.value.0, d.value.1).Some? {
          FinishedSettles(k, x, r, d.value.0, d.value.1, first, second);
        }
      }
    }
  }

  lemma NothingSent(k: Crypto, str: Json -> string, describe: Refusal -> Texts, cfg: Config, clocks: Clocks,
                    calleePrivate: Key, x: Exchange, r: PeerRequest)
    requires Encode(Sent(k, x, r)).None?
    ensures CalleeAnswer(k, str, describe, cfg, clocks, calleePrivate, x, r).None?
  {
    hide Encode, Sent, Decode, HandleAuthenticated;
  }

  /** A reply finished for the waiting caller settles the call with its own status and body. */
  lemma FinishedSettles(k: Crypto, x: Exchange, r: PeerRequest, status: int, body: Json, first: Reading,
                        second: Reading)
    requires HexDigests(k) && AdmittedStatus(status) && WellShaped(status, body)
    requires Encode(Sent(k, x, r)).Some? && Waiting(k, x, r).Some?
    requires var v := Waiting(k, x, r).value;
             Finish(k, Producer(Sent(k, x, r), v.requestSha256, v.key), status, body).Some?
    ensures var v := Waiting(k, x, r).value;
            Settles(k, x, r,
                    (status, Finish(k, Producer(Sent(k, x, r), v.requestSha256, v.key), status, body).value), body,
                    status == 200, first, second)
  {
    hide Encode, Finish, Answer, Sent, Waiting, WellShaped, Shaped;
    WaitingFor(k, x, r);
    ShapedMeans(status, body);
    var v := Waiting(k, x, r).value;
    FinishedAnswer(k, Producer(Sent(k, x, r), v.requestSha256, v.key), v, status, body, first, second);
  }

  lemma WaitingFor(k: Crypto, x: Exchange, r: PeerRequest)
    requires Encode(Sent(k, x, r)).Some? && Waiting(k, x, r).Some?
    ensures var v := Waiting(k, x, r).value;
            && v.requestSha256 == k.sha256(Encode(Sent(k, x, r)).value) && !v.used && v.assurance == x.peer.assurance
            && v.started == x.started && v.deadline == x.started + x.timeout
  {
    hide Encode, Sent, OpenedKey;
  }

  /** A built request is admissible on the wire when what it is built from is. */
  lemma BuiltRequestIsWireOk(k: Crypto, holderKey: Key, chain: seq<Credential>, capability: string, recordId: string,
                             parent: Option<string>,
                             calleeKey: string, challenge: string, sealed: Option<Bytes>, own: Option<OwnOffer>)
    requires SignaturesVerify(k) && HexDigests(k) && chain != []
             && (forall i | 0 <= i < |chain| :: CredentialWireOk(chain[i]))
    requires capability != "" && recordId != "" && challenge != "" && sealed != Some([])
    requires own.Some? ==> OfferWireOk(own.value.offer)
    ensures var r :=
            BuildRequest(k, holderKey, chain, capability, recordId, parent, calleeKey, Some(challenge), sealed, own);
            r.Ok? ==> RequestWireOk(r.value)
  {
    hide ProofBytes, PossessionMessage, PossessionKey, CredentialWireOk, OfferWireOk;
  }

  // ---------------------------------------------------------------- the honest call

  /** What the callee's decision about an honest caller comes down to. */
  predicate Authorized(k: Crypto, cfg: Config, clocks: Clocks, chain: seq<Credential>, capability: string,
                       sealed: Option<Bytes>, own: Option<OwnOffer>)
    requires chain != []
  {
    && ChainVerdict(k, Policy(cfg.maxDepth, cfg.trustedRoots, None, cfg.revocations, cfg.maxStaleness), clocks.chain,
                    chain).Ok?
    && RungMet(k, cfg, clocks.offer, own)
    && capability in cfg.intersect(chain[|chain| - 1].scope)
    && (sealed.Some? ==> cfg.enclaveKey.Some? && k.open(sealed.value, cfg.enclaveKey.value).Some?)
  }

  /** What the caller brings fits the wire, and it holds the leaf key. */
  predicate CallerReady(k: Crypto, holderKey: Key, chain: seq<Credential>, capability: string, recordId: string,
                        sealed: Option<Bytes>, own: Option<OwnOffer>)
  {
    && chain != [] && (forall i | 0 <= i < |chain| :: CredentialWireOk(chain[i]))
    && k.edPublic(holderKey) == chain[|chain| - 1].subject
    && capability != "" && recordId != "" && sealed != Some([])
    && (own.Some? ==> OfferWireOk(own.value.offer))
  }

  /** One honest call, from the credentials the caller holds to the response it may believe. The callee
      answers exactly when the call is answerable; then the caller, in time, verifies the callee's decision,
      and it is 200 exactly when the chain verifies at the callee, the demanded rung is met, the capability
      is in the effective scope and the payload opens. */
  lemma HonestCall(k: Crypto, str: Json -> string, describe: Refusal -> Texts, cfg: Config, clocks: Clocks, x: Exchange,
                   holderKey: Key, chain: seq<Credential>, capability: string, recordId: string, parent: Option<string>,
                   challenge: string, sealed: Option<Bytes>, own: Option<OwnOffer>, first: Reading, second: Reading)
    requires KeepsStrings(str) && SignaturesVerify(k) && ExchangeAgrees(k) && HexDigests(k)
    requires Callee(k, cfg) && x.peer.publicKey == k.xPublic(cfg.enclaveKey.value) && IsLowerHex(x.session, 64)
    requires CallerReady(k, holderKey, chain, capability, recordId, sealed, own)
    requires VerifyChallenge(k, cfg.challengeSecret.value, challenge, clocks.holder) == Valid
    requires own.Some? ==> OfferAppraises(k, cfg, clocks.offer, challenge, own.value)
    ensures var r :=
            BuildRequest(k, holderKey, chain, capability, recordId, parent, x.peer.publicKey, Some(challenge),
                         sealed, own);
            && r.Ok?
            && Exchanged(k, str, describe, cfg, clocks, cfg.enclaveKey.value, x, r.value,
                         Authorized(k, cfg, clocks, chain, capability, sealed, own), first, second)
  {
    hide RequestWireOk, HandlePeerRequest, BuildRequest, OfferWireOk, CredentialWireOk, VerifyChallenge, RungMet,
         ChainVerdict, OfferAppraises, Exchanged, Encode;
    assert challenge != "" by {
      ValidIsNotEmpty(k, cfg.challengeSecret.value, challenge, clocks.holder);
    }
    BuiltRequestAccepted(k, cfg, clocks, holderKey, chain, capability, recordId, parent, challenge, sealed, own);
    BuiltRequestIsWireOk(k, holderKey, chain, capability, recordId, parent, x.peer.publicKey, challenge, sealed, own);
    var r := BuildRequest(k, holderKey, chain, capability, recordId, parent, x.peer.publicKey, Some(challenge),
                          sealed, own).value;
    CallIsAuthenticated(k, str, describe, cfg, clocks, cfg.enclaveKey.value, x, r, first, second);
  }

  lemma ValidIsNotEmpty(k: Crypto, secret: Bytes, challenge: string, now: int)
    requires VerifyChallenge(k, secret, challenge, now) == Valid
    ensures challenge != ""
  {
  }

  /** The same call inside a run of the callee's process: the challenge is one the process issued, under a
      secret still in force when the holder proof and the offer are checked, and both checks come before its
      expiry. Nothing else about the challenge is assumed. */
  lemma HonestCallInARun(k: Crypto, str: Json -> string, describe: Refusal -> Texts, cfg: Config, clocks: Clocks,
                         x: Exchange, holderKey: Key, chain: seq<Credential>, capability: string,
                         recordId: string, parent: Option<string>,
                         sealed: Option<Bytes>, own: Option<OwnOffer>, first: Reading, second: Reading,
                         states: seq<State>, steps: seq<Step>, issued: nat, held: nat, offered: nat)
    requires KeepsStrings(str) && SignaturesVerify(k) && ExchangeAgrees(k) && HexDigests(k) && IntUndoesStr(k)
    requires Callee(k, cfg) && x.peer.publicKey == k.xPublic(cfg.enclaveKey.value) && IsLowerHex(x.session, 64)
    requires CallerReady(k, holderKey, chain, capability, recordId, sealed, own)
    requires Run(k, states, steps) && issued < |steps| && held < |states| && offered < |states| && steps[issued].Issue?
    requires cfg.challengeSecret.value == states[issued].secret == states[held].secret == states[offered].secret
    requires clocks.holder == states[held].now && clocks.offer == states[offered].now
    requires clocks.holder < Expiry(states, steps, issued) && clocks.offer < Expiry(states, steps, issued)
    requires own.Some? ==> OfferBinds(k, cfg, IssuedText(k, states, steps, issued), own.value)
    ensures var r := BuildRequest(k, holderKey, chain, capability, recordId, parent, x.peer.publicKey,
                                  Some(IssuedText(k, states, steps, issued)), sealed, own);
            && r.Ok?
            && Exchanged(k, str, describe, cfg, clocks, cfg.enclaveKey.value, x, r.value,
                         Authorized(k, cfg, clocks, chain, capability, sealed, own), first, second)
  {
    assert |states| == |steps| + 1;
    var challenge := IssuedText(k, states, steps, issued);
    hide *;
    IssuedTextIsValid(k, states, steps, issued, held);
    IssuedTextIsValid(k, states, steps, issued, offered);
    if own.Some? {
      OfferStillAppraises(k, cfg, clocks.offer, challenge, own.value);
    }
    HonestCall(k, str, describe, cfg, clocks, x, holderKey, chain, capability, recordId, parent, challenge, sealed,
               own, first, second);
  }

  lemma IssuedTextIsValid(k: Crypto, states: seq<State>, steps: seq<Step>, i: nat, j: nat)
    requires HexDigests(k) && IntUndoesStr(k) && Run(k, states, steps)
    requires i < |steps| && i < |states| && j < |states| && steps[i].Issue?
    requires states[i].secret == states[j].secret && states[j].now < Expiry(states, steps, i)
    ensures VerifyChallenge(k, states[j].secret, IssuedText(k, states, steps, i), states[j].now) == Valid
  {
    hide Run, VerifyChallenge, ChallengeText;
    IssuedStaysValid(k, states, steps, i, j);
  }

  lemma OfferStillAppraises(k: Crypto, cfg: Config, now: int, challenge: string, own: OwnOffer)
    requires cfg.challengeSecret.Some? && VerifyChallenge(k, cfg.challengeSecret.value, challenge, now) == Valid
    requires OfferBinds(k, cfg, challenge, own)
    ensures OfferAppraises(k, cfg, now, challenge, own)
  {
    hide VerifyChallenge, VerifyOffer;
  }

  function Expiry(states: seq<State>, steps: seq<Step>, i: nat): (e: int)
    requires i < |steps| && i < |states| && steps[i].Issue?
  {
    states[i].now + steps[i].ttl
  }

  /** The text issued at step `i`. */
  function IssuedText(k: Crypto, states: seq<State>, steps: seq<Step>, i: nat): (t: string)
    requires i < |steps| && i < |states| && steps[i].Issue?
  {
    ChallengeText(k, states[i].secret, Expiry(states, steps, i), steps[i].rand)
  }

  /** The caller's offer binds its own key and this challenge, and the verifier has no objection. */
  predicate OfferBinds(k: Crypto, cfg: Config, challenge: string, own: OwnOffer) {
    && own.offer.channelPublicKey == k.xPublic(own.callerPrivate) && own.offer.report.nonce == challenge
    && VerifyOffer(own.offer, challenge, cfg.callerVerifier, false, ROLE_CALLER).Some?
  }
}

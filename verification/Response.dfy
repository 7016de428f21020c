/** One-use live response authentication (response.py). */
module Response {
  import opened Basics
  import opened Unicode
  import opened Canonical
  import opened BoundedJson
  import opened CryptoModel
  import opened Errors
  import opened Attestation

  const PROFILE: string := "ca2a-response-mac-v1"

  /** `_key`: the response key from one party's private key, the other's public key and the request. */
  function ResponseKey(k: Crypto, own: Key, public: string, requestHash: string): (r: Option<Bytes>)
  {
    if !IsLowerHex(public, 64) then None
    else
      match k.exchange(own, public)
      case None => None
      case Some(shared) => Some(k.hkdf(k.unhex(requestHash), Utf8("ca2a/response-mac/v1/key"), shared))
  }

  /** `_mac`. */
  function StatementMac(k: Crypto, key: Bytes, statement: Json): (r: Option<string>)
  {
    match Encode(statement)
    case None => None
    case Some(b) => Some(k.hmac(key, Utf8("ca2a/response-mac/v1/statement") + [0] + b))
  }

  // ---------------------------------------------------------------- the request and its producer

  function RequestEnvelope(peer: string, recipient: string, session: string, message: Json): (j: Json)
    ensures j.JObj?
  {
    JObj(map[
      "profile" := JStr(PROFILE),
      "peer" := JStr(peer),
      "recipient" := JStr(recipient),
      "session" := JStr(session),
      "request" := message])
  }

  datatype Producer = Producer(envelope: Json, requestSha256: string, key: Bytes)

  predicate IsHexField(j: Json) {
    j.JStr? && IsLowerHex(j.s, 64)
  }

  /** `ResponseProducer.__init__`; None is a refusal before anything is executed. */
  function MakeProducer(k: Crypto, private: Key, envelope: Json): (r: Option<Producer>)
    ensures r.Some? ==>
            r.value.envelope.JObj? && "request" in r.value.envelope.fields && r.value.envelope.fields["request"].JObj?
  {
    match Encode(envelope)
    case None => None
    case Some(raw) =>
      match Decode(raw)
      case None => None
      case Some(e) =>
        var f := e.fields;
        if f.Keys != {"profile", "peer", "recipient", "session", "request"} then None
        else if f["profile"] != JStr(PROFILE) || f["peer"] != JStr(k.xPublic(private)) || !f["request"].JObj? then None
        else if !IsHexField(f["session"]) || !f["recipient"].JStr? then None
        else
          var sha := k.sha256(Encode(e).value);
          match ResponseKey(k, private, f["recipient"].s, sha)
          case None => None
          case Some(key) => Some(Producer(e, sha, key))
  }

  function Kind(status: int): (s: string)
  {
    if status == 200 then "provenance" else "denial"
  }

  function Statement(sha: string, status: int, body: Json): (j: Json)
    ensures j.JObj?
  {
    JObj(map[
      "profile" := JStr(PROFILE),
      "request_sha256" := JStr(sha),
      "status" := JInt(status),
      "kind" := JStr(Kind(status)),
      "body" := body])
  }

  /** `ResponseProducer.finish`. */
  function Finish(k: Crypto, p: Producer, status: int, body: Json): (r: Option<Json>)
  {
    var statement := Statement(p.requestSha256, status, body);
    match StatementMac(k, p.key, statement)
    case None => None
    case Some(mac) =>
      var result := JObj(statement.fields["mac" := JStr(mac)]);
      if Encode(result).None? then None else Some(result)
  }

  // ---------------------------------------------------------------- the caller's pending state

  /** One reading of the injected clock. */
  datatype Reading = Finite(t: real) | NotFinite | Raises

  datatype VerifiedResponse = VerifiedResponse(status: int, body: Json, requestSha256: string, peerAssurance: string)

  /** The value of a pending response: everything `verify` depends on. */
  datatype Pending = Pending(requestSha256: string, key: Bytes, assurance: string, started: real, deadline: real,
                             used: bool)

  predicate InTime(p: Pending, now: Reading) {
    now.Finite? && p.started <= now.t < p.deadline
  }

  predicate WellShaped(status: int, body: Json) {
    && body.JObj?
    && (status == 200 ==> "accepted" in body.fields && body.fields["accepted"] == JBool(true))
    && (status != 200 ==> "error" in body.fields && body.fields["error"].JObj?)
  }

  predicate AdmittedStatus(status: int) {
    status == 200 || 400 <= status <= 599
  }

  /** The checks of `verify` between its two clock readings: the authenticated body, or None. */
  function ReplyBody(k: Crypto, key: Bytes, sha: string, status: int, raw: Bytes): (r: Option<Json>)
  {
    match Decode(raw)
    case None => None
    case Some(e) =>
      var f := e.fields;
      if f.Keys != {"profile", "request_sha256", "status", "kind", "body", "mac"} then None
      else if !IsHexField(f["mac"]) then None
      else if f["profile"] != JStr(PROFILE) || f["request_sha256"] != JStr(sha) then None
      else if f["status"] != JInt(status) || !AdmittedStatus(status) then None
      else if StatementMac(k, key, JObj(f - {"mac"})) != Some(f["mac"].s) then None
      else if f["kind"] != JStr(Kind(status)) || !WellShaped(status, f["body"]) then None
      else Some(f["body"])
  }

  /** What one call of `verify` answers; every None is a ResponseAuthenticationFailed. */
  function Answer(k: Crypto, p: Pending, status: int, raw: Bytes, first: Reading, second: Reading)
    : (r: Option<VerifiedResponse>)
  {
    if p.used || !InTime(p, first) then None
    else
      match ReplyBody(k, p.key, p.requestSha256, status, raw)
      case None => None
      case Some(body) =>
        if !InTime(p, second) then None else Some(VerifiedResponse(status, body, p.requestSha256, p.assurance))
  }

  /** The state one call leaves behind: used, and without a key. */
  function Consumed(p: Pending): (q: Pending)
  {
    if p.used then p else p.(used := true, key := [])
  }

  class PendingResponse {
    var request: Bytes
    var requestSha256: string
    var key: Bytes
    var assurance: string
    var started: real
    var deadline: real
    var used: bool

    function View(): Pending
      reads this
    {
      Pending(requestSha256, key, assurance, started, deadline, used)
    }

    constructor (request: Bytes, sha: string, key: Bytes, assurance: string, started: real, timeout: real)
      ensures this.request == request && View() == Pending(sha, key, assurance, started, started + timeout, false)
    {
      this.request, this.requestSha256, this.key := request, sha, key;
      this.assurance, this.started, this.deadline, this.used := assurance, started, started + timeout, false;
    }

    /** `__init__`: a fresh key pair and session for one peer and one message. */
    static method Open(k: Crypto, peer: VerifiedPeer, message: Json, timeout: Reading, private: Key, session: string,
                       clock: Reading)
      returns (r: Result<PendingResponse, ErrorClass>)
      ensures r.Ok? <==>
              && timeout.Finite? && 0.0 < timeout.t <= 300.0 && clock.Finite?
              && OpenedKey(k, peer, message, private, session).Some?
      ensures r.Ok? ==>
              && fresh(r.value)
              && r.value.request == Encode(RequestEnvelope(peer.publicKey, k.xPublic(private), session, message)).value
              && r.value.View()
                == Pending(k.sha256(r.value.request), OpenedKey(k, peer, message, private, session).value,
                                           peer.assurance, clock.t, clock.t + timeout.t, false)
    {
      hide Encode, ResponseKey, RequestEnvelope;
      if !timeout.Finite? || !(0.0 < timeout.t <= 300.0) {
        return Err(PyValueError);
      }
      var request := Encode(RequestEnvelope(peer.publicKey, k.xPublic(private), session, message));
      if request.None? {
        return Err(ResponseAuthenticationFailed);
      }
      var sha := k.sha256(request.value);
      var key := ResponseKey(k, private, peer.publicKey, sha);
      if key.None? {
        return Err(ResponseAuthenticationFailed);
      }
      if !clock.Finite? {
        return Err(PyValueError);
      }
      var p := new PendingResponse(request.value, sha, key.value, peer.assurance, clock.t, timeout.t);
      return Ok(p);
    }

    /** `verify`: consume the occurrence first, then check the reply between two clock readings. */
    method Verify(k: Crypto, status: int, raw: Bytes, first: Reading, second: Reading)
      returns (r: Option<VerifiedResponse>)
      modifies this
      ensures r == Answer(k, old(View()), status, raw, first, second)
      ensures r.Some? ==>
                && !old(used) && first.Finite? && second.Finite?
                && old(started) <= first.t < old(deadline) && old(started) <= second.t < old(deadline)
      ensures View() == Consumed(old(View())) && request == old(request)
    {
      hide ReplyBody;
      if used {
        return None;
      }
      used := true;
      var held := key;
      key := [];
      if !(first.Finite? && started <= first.t < deadline) {
        return None;
      }
      var body := ReplyBody(k, held, requestSha256, status, raw);
      if body.None? {
        return None;
      }
      if !(second.Finite? && started <= second.t < deadline) {
        return None;
      }
      return Some(VerifiedResponse(status, body.value, requestSha256, assurance));
    }
  }

  /** The key the caller derives for one request, when the request encodes and the peer key is usable. */
  function OpenedKey(k: Crypto, peer: VerifiedPeer, message: Json, private: Key, session: string): (r: Option<Bytes>)
  {
    match Encode(RequestEnvelope(peer.publicKey, k.xPublic(private), session, message))
    case None => None
    case Some(request) => ResponseKey(k, private, peer.publicKey, k.sha256(request))
  }
}

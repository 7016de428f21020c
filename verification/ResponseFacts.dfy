/** One-use authentication over every sequence of calls, and agreement between caller and producer. */
module ResponseFacts {
  import opened Basics
  import opened Unicode
  import opened Canonical
  import opened JsonText
  import opened BoundedJson
  import opened CryptoModel
  import opened Attestation
  import opened Response

  // ---------------------------------------------------------------- sequences of calls

  datatype Call = Call(status: int, raw: Bytes, first: Reading, second: Reading)

  /** The state before call `i` of a sequence of `verify` calls. */
  function StateAt(p: Pending, i: nat): (q: Pending)
  {
    if i == 0 then p else Consumed(StateAt(p, i - 1))
  }

  function AnswerAt(k: Crypto, p: Pending, calls: seq<Call>, i: nat): (r: Option<VerifiedResponse>)
    requires i < |calls|
  {
    Answer(k, StateAt(p, i), calls[i].status, calls[i].raw, calls[i].first, calls[i].second)
  }

  lemma {:induction false} UsedAfterFirst(p: Pending, i: nat)
    requires i > 0
    ensures StateAt(p, i).used
    ensures !p.used ==> StateAt(p, i) == p.(used := true, key := [])
  {
    if i > 1 {
      UsedAfterFirst(p, i - 1);
    }
  }

  /** `raw` carries a reply authenticated for this request under this key. */
  ghost predicate Authentic(k: Crypto, key: Bytes, sha: string, status: int, raw: Bytes, body: Json) {
    exists mac ::
      && Decode(raw) == Some(JObj(Statement(sha, status, body).fields["mac" := JStr(mac)]))
      && Encode(Statement(sha, status, body)).Some?
      && mac == k.hmac(key, Utf8("ca2a/response-mac/v1/statement") + [0] + Encode(Statement(sha, status, body)).value)
  }

  /** Over every sequence of calls with arbitrary clock readings, only the first can return, the key is
      gone after it, and what it returns was authenticated in time for exactly this request. */
  lemma OneUse(k: Crypto, p: Pending, calls: seq<Call>, i: nat)
    requires !p.used && i < |calls|
    ensures i > 0 ==> AnswerAt(k, p, calls, i).None?
    ensures StateAt(p, i + 1) == p.(used := true, key := [])
    ensures AnswerAt(k, p, calls, i).Some? ==>
              var c, r := calls[i], AnswerAt(k, p, calls, i).value;
              && i == 0 && c.first.Finite? && c.second.Finite?
              && p.started <= c.first.t < p.deadline && p.started <= c.second.t < p.deadline
              && r.status == c.status && (c.status == 200 || 400 <= c.status <= 599) && Shaped(c.status, r.body)
              && r.requestSha256 == p.requestSha256 && r.peerAssurance == p.assurance
              && Authentic(k, p.key, p.requestSha256, c.status, c.raw, r.body)
  {
    hide ReplyBody, StateAt, Authentic, Shaped, WellShaped;
    UsedAfterFirst(p, i + 1);
    if i > 0 {
      UsedAfterFirst(p, i);
    } else {
      assert StateAt(p, 0) == p by {
        StateZero(p);
      }
      if AnswerAt(k, p, calls, 0).Some? {
        ReplyIsAuthentic(k, p.key, p.requestSha256, calls[0].status, calls[0].raw);
        ShapedMeans(calls[0].status, AnswerAt(k, p, calls, 0).value.body);
      }
    }
  }

  /** A success says it was accepted, a denial carries an error object. */
  predicate Shaped(status: int, body: Json) {
    && body.JObj?
    && (if status == 200 then "accepted" in body.fields && body.fields["accepted"] == JBool(true)
        else "error" in body.fields && body.fields["error"].JObj?)
  }

  lemma ShapedMeans(status: int, body: Json)
    ensures WellShaped(status, body) <==> Shaped(status, body)
  {
  }

  /** A finite reading at or after the start and before the deadline. */
  predicate Within(p: Pending, r: Reading) {
    r.Finite? && p.started <= r.t < p.deadline
  }

  /** Exactly when a call returns, and what: the state is unused, both readings are finite, at or after the
      start and before the deadline, and the bytes authenticate the body under the pending key. */
  lemma AnswerIff(k: Crypto, p: Pending, status: int, raw: Bytes, first: Reading, second: Reading, v: VerifiedResponse)
    ensures Answer(k, p, status, raw, first, second) == Some(v) <==>
            && !p.used
            && first.Finite? && p.started <= first.t && first.t < p.deadline
            && second.Finite? && p.started <= second.t && second.t < p.deadline
            && ReplyBody(k, p.key, p.requestSha256, status, raw) == Some(v.body)
            && v.status == status && v.requestSha256 == p.requestSha256 && v.peerAssurance == p.assurance
  {
    hide ReplyBody;
  }

  /** The clock failed, gave no finite value, or gave one before the start or from the deadline on. */
  predicate Outside(p: Pending, r: Reading) {
    match r
    case Finite(t) => t < p.started || p.deadline <= t
    case NotFinite => true
    case Raises => true
  }

  /** A reading outside the window, not finite or not obtained at all refuses every reply. */
  lemma OutsideTheWindow(k: Crypto, p: Pending, status: int, raw: Bytes, first: Reading, second: Reading)
    requires Outside(p, first) || Outside(p, second)
    ensures Answer(k, p, status, raw, first, second).None?
  {
    hide ReplyBody;
  }

  /** From opening to answer: the state a request opened at `clock` with `timeout` leaves behind answers only at
      readings from `clock` on and strictly before `clock + timeout`. */
  lemma OpenedWindow(k: Crypto, sha: string, key: Bytes, assurance: string, clock: real, timeout: real,
                     status: int, raw: Bytes, first: Reading, second: Reading)
    requires Answer(k, Pending(sha, key, assurance, clock, clock + timeout, false), status, raw, first, second).Some?
    ensures first.Finite? && clock <= first.t < clock + timeout && second.Finite? && clock <= second.t < clock + timeout
  {
    hide ReplyBody;
  }

  lemma StateZero(p: Pending)
    ensures StateAt(p, 0) == p
  {
  }

  /** A reply with exactly the six fields is its statement plus its MAC. */
  lemma ReplyFields(f: map<string, Json>, sha: string, status: int)
    requires f.Keys == {"profile", "request_sha256", "status", "kind", "body", "mac"}
    requires f["profile"] == JStr(PROFILE) && f["request_sha256"] == JStr(sha) && f["status"] == JInt(status)
    requires f["kind"] == JStr(Kind(status))
    ensures f - {"mac"} == Statement(sha, status, f["body"]).fields
    ensures f == Statement(sha, status, f["body"]).fields["mac" := f["mac"]]
  {
    hide Kind;
    var s := Statement(sha, status, f["body"]).fields;
    assert s.Keys == {"profile", "request_sha256", "status", "kind", "body"};
    assert (f - {"mac"}).Keys == s.Keys;
    assert forall x | x in s :: f[x] == s[x];
  }

  lemma ReplyIsAuthentic(k: Crypto, key: Bytes, sha: string, status: int, raw: Bytes)
    requires ReplyBody(k, key, sha, status, raw).Some?
    ensures var body := ReplyBody(k, key, sha, status, raw).value;
            AdmittedStatus(status) && WellShaped(status, body) && Authentic(k, key, sha, status, raw, body)
  {
    hide Encode, Utf8, Decode, StatementMac, WellShaped, Kind, Statement;
    var f := Decode(raw).value.fields;
    ReplyFields(f, sha, status);
    MacMeans(k, key, Statement(sha, status, f["body"]));
    assert f == Statement(sha, status, f["body"]).fields["mac" := JStr(f["mac"].s)];
  }

  lemma MacMeans(k: Crypto, key: Bytes, statement: Json)
    ensures StatementMac(k, key, statement).Some? <==> Encode(statement).Some?
    ensures Encode(statement).Some? ==>
              StatementMac(k, key, statement).value
              == k.hmac(key, Utf8("ca2a/response-mac/v1/statement") + [0] + Encode(statement).value)
  {
    hide Encode, Utf8;
  }

  // ---------------------------------------------------------------- agreement

  /** For every peer key pair and message: a producer that decodes the pending request finds the
      envelope sent, and derives the caller's request hash and response key. */
  lemma ProducerAgrees(k: Crypto, peer: VerifiedPeer, message: Json, callerPrivate: Key, calleePrivate: Key,
                       session: string)
    requires ExchangeAgrees(k) && HexDigests(k)
    requires peer.publicKey == k.xPublic(calleePrivate) && IsLowerHex(session, 64) && message.JObj?
    requires Encode(RequestEnvelope(peer.publicKey, k.xPublic(callerPrivate), session, message)).Some?
    ensures var e := RequestEnvelope(peer.publicKey, k.xPublic(callerPrivate), session, message);
            var request := Encode(e).value;
            var key := OpenedKey(k, peer, message, callerPrivate, session);
            && Decode(request) == Some(e) && key.Some?
            && MakeProducer(k, calleePrivate, e) == Some(Producer(e, k.sha256(request), key.value))
  {
    hide Encode, Decode, Utf8;
    var e := RequestEnvelope(peer.publicKey, k.xPublic(callerPrivate), session, message);
    DecodeEncode(e);
    assert k.exchange(callerPrivate, k.xPublic(calleePrivate)) == k.exchange(calleePrivate, k.xPublic(callerPrivate));
    assert e.fields.Keys == {"profile", "peer", "recipient", "session", "request"};
  }

  lemma FinishedFields(k: Crypto, p: Producer, status: int, body: Json)
    requires Finish(k, p, status, body).Some?
    ensures var f := Finish(k, p, status, body).value;
            && f.JObj? && Encode(f).Some?
            && f.fields.Keys == {"profile", "request_sha256", "status", "kind", "body", "mac"}
            && f.fields["profile"] == JStr(PROFILE) && f.fields["request_sha256"] == JStr(p.requestSha256)
            && f.fields["status"] == JInt(status) && f.fields["body"] == body
            && f.fields["kind"] == JStr(if status == 200 then "provenance" else "denial")
            && f.fields["mac"].JStr?
            && JObj(f.fields - {"mac"}) == Statement(p.requestSha256, status, body)
            && StatementMac(k, p.key, Statement(p.requestSha256, status, body)) == Some(f.fields["mac"].s)
  {
    hide Encode, StatementMac;
    var s := Statement(p.requestSha256, status, body);
    var f := Finish(k, p, status, body).value;
    assert "mac" !in s.fields;
    assert f.fields - {"mac"} == s.fields;
  }

  lemma MacIsHex(k: Crypto, key: Bytes, statement: Json)
    requires HexDigests(k)
    ensures StatementMac(k, key, statement).Some? ==> IsLowerHex(StatementMac(k, key, statement).value, 64)
  {
    hide Encode, Utf8;
  }

  /** A finished reply decodes, under whatever spelling carries it, to an authenticated body. */
  lemma FinishedReplyReads(k: Crypto, p: Producer, status: int, body: Json, raw: Bytes)
    requires HexDigests(k) && AdmittedStatus(status) && WellShaped(status, body)
    requires Finish(k, p, status, body).Some? && Decode(raw) == Finish(k, p, status, body)
    ensures ReplyBody(k, p.key, p.requestSha256, status, raw) == Some(body)
  {
    hide Encode, Decode, StatementMac, WellShaped, Finish, Statement;
    FinishedFields(k, p, status, body);
    MacIsHex(k, p.key, Statement(p.requestSha256, status, body));
  }

  /** `verify` accepts exactly what the producer makes: bytes authenticate a body if and only if they decode
      to the reply the producer finishes for it. */
  lemma ReplyAcceptedIff(k: Crypto, p: Producer, status: int, body: Json, raw: Bytes)
    requires HexDigests(k)
    ensures ReplyBody(k, p.key, p.requestSha256, status, raw) == Some(body) <==>
            && (status == 200 || 400 <= status <= 599) && Shaped(status, body)
            && Decode(raw).Some? && Decode(raw) == Finish(k, p, status, body)
  {
    hide Encode, Utf8, Decode, StatementMac, Kind, WellShaped, Finish, Statement, ReplyBody, Shaped;
    ShapedMeans(status, body);
    if ReplyBody(k, p.key, p.requestSha256, status, raw) == Some(body) {
      ReplyIsAuthentic(k, p.key, p.requestSha256, status, raw);
      var s := Statement(p.requestSha256, status, body);
      var mac :| && Decode(raw) == Some(JObj(s.fields["mac" := JStr(mac)])) && Encode(s).Some?
                 && mac == k.hmac(p.key, Utf8("ca2a/response-mac/v1/statement") + [0] + Encode(s).value);
      MacMeans(k, p.key, s);
      FinishGives(k, p, status, body, mac);
    }
    if AdmittedStatus(status) && WellShaped(status, body) && Decode(raw).Some?
        && Decode(raw) == Finish(k, p, status, body) {
      FinishedReplyReads(k, p, status, body, raw);
    }
  }

  lemma FinishGives(k: Crypto, p: Producer, status: int, body: Json, mac: string)
    requires StatementMac(k, p.key, Statement(p.requestSha256, status, body)) == Some(mac)
    requires Encode(JObj(Statement(p.requestSha256, status, body).fields["mac" := JStr(mac)])).Some?
    ensures Finish(k, p, status, body)
            == Some(JObj(Statement(p.requestSha256, status, body).fields["mac" := JStr(mac)]))
  {
    hide Encode, StatementMac, Statement;
  }

  /** Every well-shaped reply the producer finishes is accepted by `verify` before the deadline, whatever
      white space, escapes and entry order carry it, provided the text fits the size bound. */
  lemma FinishedReplyVerifies(k: Crypto, p: Producer, v: Pending, status: int, body: Json,
                              pre: string, l: Layout, post: string, first: Reading, second: Reading)
    requires HexDigests(k) && (status == 200 || 400 <= status <= 599) && Shaped(status, body)
    requires v.key == p.key && v.requestSha256 == p.requestSha256 && !v.used && Within(v, first) && Within(v, second)
    requires LayoutOk(l) && IsSpaces(pre) && IsSpaces(post) && |Utf8(pre + Render(l) + post)| <= MAX_BYTES
    requires Finish(k, p, status, body) == Some(Plain(l))
    ensures Answer(k, v, status, Utf8(pre + Render(l) + post), first, second)
         == Some(VerifiedResponse(status, body, v.requestSha256, v.assurance))
  {
    hide Encode, Decode, Finish, ReplyBody, Utf8, Render, Plain, LayoutOk, WellShaped, Shaped;
    ShapedMeans(status, body);
    FinishedFields(k, p, status, body);
    DecodeSpelling(pre, l, post);
    FinishedReplyReads(k, p, status, body, Utf8(pre + Render(l) + post));
  }

  /** In particular the canonical bytes a server sends are accepted. */
  lemma CanonicalReplyVerifies(k: Crypto, p: Producer, v: Pending, status: int, body: Json, first: Reading,
                               second: Reading)
    requires HexDigests(k) && (status == 200 || 400 <= status <= 599) && Shaped(status, body)
    requires v.key == p.key && v.requestSha256 == p.requestSha256 && !v.used && Within(v, first) && Within(v, second)
    requires Finish(k, p, status, body).Some?
    ensures Encode(Finish(k, p, status, body).value).Some?
    ensures Answer(k, v, status, Encode(Finish(k, p, status, body).value).value, first, second)
         == Some(VerifiedResponse(status, body, v.requestSha256, v.assurance))
  {
    hide Encode, Decode, Finish, ReplyBody, WellShaped, Shaped, Answer, Statement, StatementMac, Utf8;
    ShapedMeans(status, body);
    FinishedFields(k, p, status, body);
    var reply := Finish(k, p, status, body).value;
    DecodeEncode(reply);
    FinishedReplyReads(k, p, status, body, Encode(reply).value);
    AnswerIff(k, v, status, Encode(reply).value, first, second,
              VerifiedResponse(status, body, v.requestSha256, v.assurance));
  }

  /** So the answer to a finished reply is decided by the two readings alone. */
  lemma FinishedAnswer(k: Crypto, p: Producer, v: Pending, status: int, body: Json, first: Reading, second: Reading)
    requires HexDigests(k) && (status == 200 || 400 <= status <= 599) && Shaped(status, body)
    requires v.key == p.key && v.requestSha256 == p.requestSha256 && !v.used
    requires Finish(k, p, status, body).Some?
    ensures Encode(Finish(k, p, status, body).value).Some?
    ensures Answer(k, v, status, Encode(Finish(k, p, status, body).value).value, first, second) ==
            if Within(v, first) && Within(v, second)
            then Some(VerifiedResponse(status, body, v.requestSha256, v.assurance)) else None
  {
    hide Encode, Finish, Answer, Statement, StatementMac, Shaped;
    FinishedFields(k, p, status, body);
    if Within(v, first) && Within(v, second) {
      CanonicalReplyVerifies(k, p, v, status, body, first, second);
    } else {
      OutsideTheWindow(k, v, status, Encode(Finish(k, p, status, body).value).value, first, second);
    }
  }

  // ---------------------------------------------------------------- which requests get a producer

  predicate Hex64(j: Json) {
    j.JStr? && |j.s| == 64 && forall i | 0 <= i < 64 :: j.s[i] in "0123456789abcdef"
  }

  lemma HexFieldMeans(j: Json)
    ensures IsHexField(j) <==> Hex64(j)
  {
    forall c: char
      ensures IsLowerHexDigit(c) <==> c in "0123456789abcdef"
    {
      HexDigitsAre(c);
    }
  }

  /** Exactly which envelopes establish a producer, and which one: an encodable object with exactly the five
      fields, this profile, this callee's key, an object to execute, a hex session, and a recipient key an
      exchange succeeds with. The hash is over the envelope's own bytes. */
  lemma MakeProducerIff(k: Crypto, private: Key, envelope: Json)
    ensures MakeProducer(k, private, envelope).Some? <==>
            && Encode(envelope).Some? && envelope.JObj?
            && var f := envelope.fields;
               && f.Keys == {"profile", "peer", "recipient", "session", "request"}
               && f["profile"] == JStr("ca2a-response-mac-v1") && f["peer"] == JStr(k.xPublic(private))
               && f["request"].JObj? && Hex64(f["session"]) && Hex64(f["recipient"])
               && k.exchange(private, f["recipient"].s).Some?
    ensures MakeProducer(k, private, envelope).Some? ==>
              var p := MakeProducer(k, private, envelope).value;
              && p.envelope == envelope && p.requestSha256 == k.sha256(Encode(envelope).value)
              && p.key == k.hkdf(k.unhex(p.requestSha256), Utf8("ca2a/response-mac/v1/key"),
                                 k.exchange(private, envelope.fields["recipient"].s).value)
  {
    hide Encode, Decode, Utf8, Hex64, IsHexField;
    if Encode(envelope).Some? {
      DecodeEncode(envelope);
      if envelope.JObj? {
        var f := envelope.fields;
        if "session" in f && "recipient" in f {
          HexFieldMeans(f["session"]);
          HexFieldMeans(f["recipient"]);
          RecipientIsHex(f["recipient"]);
        }
      }
    }
  }

  lemma RecipientIsHex(j: Json)
    ensures IsHexField(j) <==> j.JStr? && IsLowerHex(j.s, 64)
  {
  }
}

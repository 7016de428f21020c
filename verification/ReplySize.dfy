/** When a reply can be finished: the MAC field costs a fixed number of bytes. */
module ReplySize {
  import opened Basics
  import opened Unicode
  import opened Canonical
  import opened CanonicalFacts
  import opened BoundedJson
  import opened CryptoModel
  import opened Response
  import opened ResponseFacts

  // ---------------------------------------------------------------- object texts

  /** The entries of two key lists, one after the other. */
  lemma {:induction false} SerializeSplit(j: Json, a: seq<string>, b: seq<string>)
    requires j.JObj? && a != [] && b != [] && forall k | k in a + b :: k in j.fields
    requires SerializeFields(j, a + b).Ok?
    ensures (forall k | k in a :: k in j.fields) && (forall k | k in b :: k in j.fields)
    ensures SerializeFields(j, a).Ok? && SerializeFields(j, b).Ok?
    ensures SerializeFields(j, a + b).value == SerializeFields(j, a).value + "," + SerializeFields(j, b).value
    decreases |a|
  {
    hide Serialize, EscapedString;
    assert forall k | k in a :: k in a + b;
    assert forall k | k in b :: k in a + b;
    assert (a + b)[0] == a[0] && (a + b)[1..] == a[1..] + b;
    if |a| == 1 {
      assert a[1..] + b == b;
    } else {
      SerializeSplit(j, a[1..], b);
    }
  }

  lemma {:induction false} SerializeAgrees(i: Json, j: Json, keys: seq<string>)
    requires i.JObj? && j.JObj? && forall k | k in keys :: k in i.fields && k in j.fields && i.fields[k] == j.fields[k]
    ensures SerializeFields(i, keys) == SerializeFields(j, keys)
    decreases |keys|
  {
    hide Serialize, EscapedString;
    if keys != [] {
      SerializeAgrees(i, j, keys[1..]);
    }
  }

  lemma {:induction false} HexEscapesNothing(s: string)
    requires forall i | 0 <= i < |s| :: IsLowerHexDigit(s[i])
    ensures EscapeChars(s) == s
  {
    if s != "" {
      HexEscapesNothing(s[1..]);
      assert EscapeChar(s[0]) == [s[0]] && s == [s[0]] + s[1..];
    }
  }

  // ---------------------------------------------------------------- the statement with and without its MAC

  const BEFORE: seq<string> := ["body", "kind"]
  const AFTER: seq<string> := ["profile", "request_sha256", "status"]
  const MAC_FIELD_BYTES: int := 73

  lemma PlainKeys()
    ensures Sorted(Keys, {"profile", "request_sha256", "status", "kind", "body"}) == BEFORE + AFTER
  {
    hide Sorted;
    var l := BEFORE + AFTER;
    assert l == ["body", "kind", "profile", "request_sha256", "status"];
    FirstLettersAscend(l);
    AscendingUnique(Keys, l, Sorted(Keys, {"profile", "request_sha256", "status", "kind", "body"}));
  }

  lemma KeysWithMac()
    ensures Sorted(Keys, {"profile", "request_sha256", "status", "kind", "body", "mac"}) == BEFORE + (["mac"] + AFTER)
  {
    hide Sorted;
    var l := BEFORE + (["mac"] + AFTER);
    assert l == ["body", "kind", "mac", "profile", "request_sha256", "status"];
    FirstLettersAscend(l);
    AscendingUnique(Keys, l, Sorted(Keys, {"profile", "request_sha256", "status", "kind", "body", "mac"}));
  }

  lemma MacEntry(j: Json, mac: string)
    requires j.JObj? && "mac" in j.fields && j.fields["mac"] == JStr(mac) && IsLowerHex(mac, 64)
    ensures SerializeFields(j, ["mac"]) == Ok("\"mac\":\"" + mac + "\"")
  {
    HexEscapesNothing(mac);
    assert EscapedString("mac") == "\"mac\"" by {
      EscapeMac();
    }
    hide EscapeChars;
    assert Serialize(JStr(mac)) == Ok("\"" + mac + "\"");
    assert "\"mac\"" + ":" + ("\"" + mac + "\"") == "\"mac\":\"" + mac + "\"";
  }

  lemma EscapeMac()
    ensures EscapedString("mac") == "\"mac\""
  {
    assert EscapeChars("mac") == EscapeChar('m') + (EscapeChar('a') + (EscapeChar('c') + ""));
  }

  /** Object texts are the braces around the entries of the sorted keys. */
  lemma ObjectText(j: Json, keys: seq<string>)
    requires j.JObj? && keys == Sorted(Keys, j.fields.Keys)
    ensures Serialize(j).Ok? <==> SerializeFields(j, keys).Ok?
    ensures Serialize(j).Ok? ==> Serialize(j).value == "{" + SerializeFields(j, keys).value + "}"
  {
    hide SerializeFields, Sorted;
  }

  predicate HasFields(f: map<string, Json>, keys: seq<string>) {
    forall k | k in keys :: k in f
  }

  lemma PlainText(f: map<string, Json>)
    requires f.Keys == {"profile", "request_sha256", "status", "kind", "body"} && Serialize(JObj(f)).Ok?
    ensures HasFields(f, BEFORE) && HasFields(f, AFTER)
    ensures SerializeFields(JObj(f), BEFORE).Ok? && SerializeFields(JObj(f), AFTER).Ok?
    ensures var x, y := SerializeFields(JObj(f), BEFORE).value, SerializeFields(JObj(f), AFTER).value;
            Serialize(JObj(f)).value == "{" + (x + "," + y) + "}"
  {
    hide Serialize, SerializeFields, Sorted;
    PlainKeys();
    ObjectText(JObj(f), BEFORE + AFTER);
    SerializeSplit(JObj(f), BEFORE, AFTER);
  }

  lemma TextWithMac(g: map<string, Json>, mac: string)
    requires g.Keys == {"profile", "request_sha256", "status", "kind", "body", "mac"} && g["mac"] == JStr(mac)
    requires IsLowerHex(mac, 64) && Serialize(JObj(g)).Ok?
    ensures HasFields(g, BEFORE) && HasFields(g, AFTER)
    ensures SerializeFields(JObj(g), BEFORE).Ok? && SerializeFields(JObj(g), AFTER).Ok?
    ensures var x, y := SerializeFields(JObj(g), BEFORE).value, SerializeFields(JObj(g), AFTER).value;
            Serialize(JObj(g)).value == "{" + (x + "," + (("\"mac\":\"" + mac + "\"") + "," + y)) + "}"
  {
    hide Serialize, SerializeFields, Sorted;
    KeysWithMac();
    ObjectText(JObj(g), BEFORE + (["mac"] + AFTER));
    SerializeSplit(JObj(g), BEFORE, ["mac"] + AFTER);
    SerializeSplit(JObj(g), ["mac"], AFTER);
    MacEntry(JObj(g), mac);
  }

  /** The texts of a statement with and without its MAC, cut at the place of the MAC. */
  lemma StatementTexts(f: map<string, Json>, mac: string) returns (a: string, b: string)
    requires f.Keys == {"profile", "request_sha256", "status", "kind", "body"} && IsLowerHex(mac, 64)
    requires Serialize(JObj(f)).Ok? && Serialize(JObj(f["mac" := JStr(mac)])).Ok?
    ensures Serialize(JObj(f)).value == a + b
    ensures Serialize(JObj(f["mac" := JStr(mac)])).value == a + ("\"mac\":\"" + mac + "\",") + b
  {
    hide Serialize, SerializeFields, Sorted;
    var g := f["mac" := JStr(mac)];
    assert g.Keys == {"profile", "request_sha256", "status", "kind", "body", "mac"};
    PlainText(f);
    TextWithMac(g, mac);
    assert "mac" !in BEFORE && "mac" !in AFTER;
    SerializeAgrees(JObj(f), JObj(g), BEFORE);
    SerializeAgrees(JObj(f), JObj(g), AFTER);
    var x, y := SerializeFields(JObj(f), BEFORE).value, SerializeFields(JObj(f), AFTER).value;
    var m := "\"mac\":\"" + mac + "\"";
    a, b := "{" + x + ",", y + "}";
    CutPlain(x, y);
    CutAtMac(x, m, y);
    assert m + "," == "\"mac\":\"" + mac + "\",";
  }

  lemma CutPlain(x: string, y: string)
    ensures "{" + (x + "," + y) + "}" == ("{" + x + ",") + (y + "}")
  {
  }

  lemma CutAtMac(x: string, m: string, y: string)
    ensures "{" + (x + "," + (m + "," + y)) + "}" == ("{" + x + ",") + (m + ",") + (y + "}")
  {
  }

  lemma EncodableWithMac(f: map<string, Json>, mac: string)
    requires Encodable(JObj(f)) && Shallow(JObj(f), 0)
    ensures Encodable(JObj(f["mac" := JStr(mac)])) && Shallow(JObj(f["mac" := JStr(mac)]), 0)
  {
  }

  /** The MAC field adds 73 bytes, whatever the MAC is. */
  lemma MacCosts(f: map<string, Json>, mac: string)
    requires f.Keys == {"profile", "request_sha256", "status", "kind", "body"} && IsLowerHex(mac, 64)
    requires Canonicalize(JObj(f)).Ok? && Shallow(JObj(f), 0)
    ensures var g := JObj(f["mac" := JStr(mac)]);
            && Canonicalize(g).Ok? && Shallow(g, 0)
            && |Canonicalize(g).value| == |Canonicalize(JObj(f)).value| + MAC_FIELD_BYTES
  {
    hide Serialize, Encodable, Shallow, Utf8;
    var g := JObj(f["mac" := JStr(mac)]);
    CanonicalizeSucceeds(JObj(f));
    EncodableWithMac(f, mac);
    CanonicalizeSucceeds(g);
    var a, b := StatementTexts(f, mac);
    var m := "\"mac\":\"" + mac + "\",";
    Utf8Concat(a, b);
    Utf8Concat(a + m, b);
    Utf8Concat(a, m);
    assert |m| == MAC_FIELD_BYTES && forall i | 0 <= i < |m| :: m[i] < 128 as char;
    AsciiIsItself(m);
  }

  // ---------------------------------------------------------------- finishing

  /** The bytes of a statement before its MAC is added. */
  function StatementSize(sha: string, status: int, body: Json): (n: nat)
  {
    match Canonicalize(Statement(sha, status, body))
    case Ok(b) => |b|
    case Err(_) => 0
  }

  /** A reply can be finished exactly when its body is printable and not too deep, its status is safe, and
      the statement leaves room for the MAC field: nothing about the MAC itself matters. */
  lemma FinishIff(k: Crypto, p: Producer, status: int, body: Json)
    requires HexDigests(k)
    ensures Finish(k, p, status, body).Some? <==>
            && Encodable(body) && IsSafe(status) && Shallow(body, 1)
            && StatementSize(p.requestSha256, status, body) + MAC_FIELD_BYTES <= MAX_BYTES
  {
    hide Canonicalize, Encode, Encodable, Shallow, Statement, StatementMac;
    var s := Statement(p.requestSha256, status, body);
    StatementParts(p.requestSha256, status, body);
    CanonicalizeSucceeds(s);
    EncodeIff(s);
    MacMeans(k, p.key, s);
    if Encode(s).Some? {
      var mac := StatementMac(k, p.key, s).value;
      MacIsHex(k, p.key, s);
      MacCosts(s.fields, mac);
      EncodeIff(JObj(s.fields["mac" := JStr(mac)]));
    }
  }

  lemma StatementParts(sha: string, status: int, body: Json)
    ensures var s := Statement(sha, status, body);
            && (Encodable(s) <==> Encodable(body) && IsSafe(status))
            && (Shallow(s, 0) <==> Shallow(body, 1))
            && s.fields.Keys == {"profile", "request_sha256", "status", "kind", "body"}
  {
    hide Kind;
    var f := Statement(sha, status, body).fields;
    assert f["body"] == body && f["status"] == JInt(status);
  }

  // ---------------------------------------------------------------- shallow bodies

  /** A text, a number, a truth value, null, or a list of texts. */
  predicate Flat(j: Json) {
    !j.JObj? && !j.JFloat? && (j.JArr? ==> forall i | 0 <= i < |j.items| :: j.items[i].JStr?)
  }

  lemma FlatIsShallow(j: Json, depth: nat)
    requires Flat(j) && depth < MAX_DEPTH
    ensures Shallow(j, depth)
  {
  }

  lemma FlatFieldsAreShallow(m: map<string, Json>, depth: nat)
    requires depth + 1 < MAX_DEPTH && forall k | k in m :: Flat(m[k])
    ensures Shallow(JObj(m), depth)
  {
    hide Flat;
    forall k | k in m
      ensures Shallow(m[k], depth + 1)
    {
      FlatIsShallow(m[k], depth + 1);
    }
  }
}

/** Stateless callee challenges (challenge.py) and every run of the process that issues them. */
module Challenge {
  import opened Basics
  import opened Unicode
  import opened Decimal
  import opened CryptoModel

  /** Why `verify_challenge` raises AttestationFailed, or that it returns. */
  datatype Verdict = Valid | Malformed | BadExpiry | NotIssued | Expired

  function Split(s: string): (parts: seq<string>)
    ensures parts != []
  {
    if s == "" then [""]
    else if s[0] == '.' then [""] + Split(s[1..])
    else
      var rest := Split(s[1..]);
      [[s[0]] + rest[0]] + rest[1..]
  }

  predicate NoDot(s: string) {
    forall i | 0 <= i < |s| :: s[i] != '.'
  }

  function MacText(expiry: int, rand: string): (t: string)
  {
    "v1." + PrintInt(expiry) + "." + rand
  }

  /** `_mac`. */
  function Mac(k: Crypto, secret: Bytes, expiry: int, rand: string): (m: string)
  {
    k.hmac(secret, Utf8(MacText(expiry, rand)))
  }

  function ChallengeText(k: Crypto, secret: Bytes, expiry: int, rand: string): (t: string)
  {
    MacText(expiry, rand) + "." + Mac(k, secret, expiry, rand)
  }

  /** `verify_challenge`: shape, integer, MAC and only then the expiry. */
  function VerifyChallenge(k: Crypto, secret: Bytes, challenge: string, now: int): (v: Verdict)
  {
    var parts := Split(challenge);
    if |parts| != 4 || parts[0] != "v1" then Malformed
    else if !IsLowerHex(parts[3], 64) then Malformed
    else
      match k.parseInt(parts[1])
      case None => BadExpiry
      case Some(expiry) =>
        if parts[3] != Mac(k, secret, expiry, parts[2]) then NotIssued
        else if now >= expiry then Expired
        else Valid
  }

  /** The pair that identifies a challenge: its text may spell the expiry in more than one way. */
  ghost predicate Carries(k: Crypto, challenge: string, expiry: int, rand: string) {
    var parts := Split(challenge);
    |parts| == 4 && k.parseInt(parts[1]) == Some(expiry) && parts[2] == rand
  }

  // ---------------------------------------------------------------- text facts

  function Join(parts: seq<string>): (s: string)
    requires parts != []
  {
    if |parts| == 1 then parts[0] else parts[0] + "." + Join(parts[1..])
  }

  /** Joining undoes splitting on every text. */
  lemma {:induction false} JoinSplit(s: string)
    ensures Join(Split(s)) == s
  {
    if s != "" {
      var rest := Split(s[1..]);
      JoinSplit(s[1..]);
      assert s == [s[0]] + s[1..];
      if s[0] == '.' {
        assert Split(s)[1..] == rest;
      } else {
        assert Split(s)[1..] == rest[1..] && Split(s)[0] == [s[0]] + rest[0];
      }
    }
  }

  lemma FourParts(s: string)
    requires |Split(s)| == 4
    ensures var p := Split(s); s == p[0] + "." + p[1] + "." + p[2] + "." + p[3]
  {
    hide Split;
    JoinSplit(s);
    var p := Split(s);
    assert p[1..][1..] == p[2..] && p[2..][1..] == p[3..];
    assert Join(p[3..]) == p[3];
    assert Join(p[2..]) == p[2] + "." + p[3];
    assert Join(p[1..]) == p[1] + "." + (p[2] + "." + p[3]);
  }

  lemma {:induction false} SplitNoDot(s: string)
    requires NoDot(s)
    ensures Split(s) == [s]
  {
    if s != "" {
      SplitNoDot(s[1..]);
      assert [s[0]] + s[1..] == s;
    }
  }

  lemma {:induction false} SplitAtDot(a: string, b: string)
    requires NoDot(a)
    ensures Split(a + "." + b) == [a] + Split(b)
  {
    var s := a + "." + b;
    if a == "" {
      assert s[0] == '.' && s[1..] == b;
    } else {
      assert s[0] == a[0] && s[1..] == a[1..] + "." + b;
      SplitAtDot(a[1..], b);
      assert [a[0]] + a[1..] == a;
    }
  }

  /** Four dot-free parts come back from the text they are joined into. */
  lemma SplitJoined(e: string, rand: string, mac: string)
    requires NoDot(e) && NoDot(rand) && NoDot(mac)
    ensures Split("v1." + e + "." + rand + "." + mac) == ["v1", e, rand, mac]
  {
    hide Split;
    assert "v1." + e + "." + rand + "." + mac == "v1" + "." + (e + "." + (rand + "." + mac));
    SplitNoDot(mac);
    SplitAtDot(rand, mac);
    SplitAtDot(e, rand + "." + mac);
    SplitAtDot("v1", e + "." + (rand + "." + mac));
  }

  /** The MAC input determines the pair, whatever the random part contains. */
  lemma MacTextInjective(e: int, r: string, e': int, r': string)
    requires Utf8(MacText(e, r)) == Utf8(MacText(e', r'))
    ensures e == e' && r == r'
  {
    hide PrintInt;
    var s, t := MacText(e, r), MacText(e', r');
    Utf8Injective(s, t);
    var p, q := PrintInt(e), PrintInt(e');
    assert s[3..] == p + "." + r && t[3..] == q + "." + r';
    FirstDot(p, r, q, r');
    PrintIntInjective(e, e');
  }

  lemma FirstDot(p: string, r: string, q: string, s: string)
    requires NoDot(p) && NoDot(q) && p + "." + r == q + "." + s
    ensures p == q && r == s
  {
    var x, y := p + "." + r, q + "." + s;
    assert x[|p|] == '.' && y[|q|] == '.';
    assert |p| == |q|;
    assert p == x[..|p|] && q == y[..|q|] && r == x[|p| + 1..] && s == y[|q| + 1..];
  }

  lemma HexHasNoDot(s: string, n: nat)
    requires IsLowerHex(s, n)
    ensures NoDot(s)
  {
  }

  /** A challenge is its (expiry, rand) pair and not its text: any spelling that `int` reads as the
      expiry verifies with the same MAC, until the expiry. */
  lemma AnySpellingVerifies(k: Crypto, secret: Bytes, spelled: string, expiry: int, rand: string, now: int)
    requires NoDot(spelled) && k.parseInt(spelled) == Some(expiry) && NoDot(rand)
    requires IsLowerHex(Mac(k, secret, expiry, rand), 64)
    ensures var text := "v1." + spelled + "." + rand + "." + Mac(k, secret, expiry, rand);
            && Carries(k, text, expiry, rand)
            && VerifyChallenge(k, secret, text, now) == if now < expiry then Valid else Expired
  {
    hide Split, Mac;
    HexHasNoDot(Mac(k, secret, expiry, rand), 64);
    SplitJoined(spelled, rand, Mac(k, secret, expiry, rand));
  }

  /** Exactly which accepted texts are the issued one: those that spell the expiry the way `str` prints it. */
  lemma IssuedTextIff(k: Crypto, secret: Bytes, challenge: string, now: int)
    requires VerifyChallenge(k, secret, challenge, now) == Valid
    ensures var parts := Split(challenge);
            var e, r := k.parseInt(parts[1]).value, parts[2];
            challenge == ChallengeText(k, secret, e, r) <==> parts[1] == PrintInt(e)
  {
    hide Split, PrintInt, Mac;
    var parts := Split(challenge);
    var e, r, mac := k.parseInt(parts[1]).value, parts[2], parts[3];
    FourParts(challenge);
    var p, q := parts[1], PrintInt(e);
    var tail := "." + r + "." + mac;
    assert challenge[3..] == p + tail;
    assert ChallengeText(k, secret, e, r)[3..] == q + tail;
    if p != q && challenge == ChallengeText(k, secret, e, r) {
      SameTail(p, q, tail);
    }
  }

  lemma SameTail(p: string, q: string, tail: string)
    requires p + tail == q + tail
    ensures p == q
  {
    assert |p| == |q|;
    assert p == (p + tail)[..|p|] && q == (q + tail)[..|q|];
  }

  /** A second text for one issued challenge: a zero in front of the expiry changes the text and nothing
      about its acceptance. */
  lemma SecondTextVerifies(k: Crypto, secret: Bytes, expiry: nat, rand: string, now: int)
    requires HexDigests(k) && IntReadsLeadingZero(k) && IsLowerHex(rand, 32)
    ensures var text := "v1.0" + Digits(expiry) + "." + rand + "." + Mac(k, secret, expiry, rand);
            && text != ChallengeText(k, secret, expiry, rand)
            && VerifyChallenge(k, secret, text, now) == if now < expiry then Valid else Expired
  {
    hide VerifyChallenge, Carries, Digits, Mac;
    var d, mac := Digits(expiry), Mac(k, secret, expiry, rand);
    HexHasNoDot(rand, 32);
    assert IsLowerHex(mac, 64) by {
      MacIsHex(k, secret, expiry, rand);
    }
    AnySpellingVerifies(k, secret, "0" + d, expiry, rand, now);
    var text, issued := "v1.0" + d + "." + rand + "." + mac, ChallengeText(k, secret, expiry, rand);
    assert text == "v1." + ("0" + d) + "." + rand + "." + mac;
    assert issued == "v1." + d + "." + rand + "." + mac;
    assert |text| == |issued| + 1;
  }

  lemma MacIsHex(k: Crypto, secret: Bytes, expiry: int, rand: string)
    requires HexDigests(k)
    ensures IsLowerHex(Mac(k, secret, expiry, rand), 64)
  {
    hide Utf8, MacText;
  }

  /** An issued challenge verifies at every time before its expiry. */
  lemma IssuedVerifies(k: Crypto, secret: Bytes, expiry: int, rand: string, now: int)
    requires HexDigests(k) && IntUndoesStr(k) && IsLowerHex(rand, 32)
    ensures VerifyChallenge(k, secret, ChallengeText(k, secret, expiry, rand), now) == if now < expiry then Valid
            else Expired
    ensures Carries(k, ChallengeText(k, secret, expiry, rand), expiry, rand)
  {
    hide VerifyChallenge, Carries;
    HexHasNoDot(rand, 32);
    assert IsLowerHex(Mac(k, secret, expiry, rand), 64);
    AnySpellingVerifies(k, secret, PrintInt(expiry), expiry, rand, now);
  }

  /** The text is a version tag, a spelling of `expiry`, `rand` and the hex tag of that pair under `secret`. */
  ghost predicate Tagged(k: Crypto, secret: Bytes, challenge: string, spelled: string, expiry: int, rand: string) {
    var mac := k.hmac(secret, Utf8("v1." + PrintInt(expiry) + "." + rand));
    && challenge == "v1." + spelled + "." + rand + "." + mac && k.parseInt(spelled) == Some(expiry)
    && NoDot(spelled) && NoDot(rand) && |mac| == 64 && forall i | 0 <= i < 64 :: mac[i] in "0123456789abcdef"
  }

  /** Exactly which texts are accepted, and which are called expired: those properly tagged under the secret,
      before and from their expiry on. A forged text is never reported as expired. */
  lemma VerdictIff(k: Crypto, secret: Bytes, challenge: string, now: int)
    ensures VerifyChallenge(k, secret, challenge, now) == Valid <==>
            exists spelled, expiry, rand :: Tagged(k, secret, challenge, spelled, expiry, rand) && now < expiry
    ensures VerifyChallenge(k, secret, challenge, now) == Expired <==>
            exists spelled, expiry, rand :: Tagged(k, secret, challenge, spelled, expiry, rand) && expiry <= now
  {
    hide Split, PrintInt, Utf8;
    var v := VerifyChallenge(k, secret, challenge, now);
    if v == Valid || v == Expired {
      var parts := Split(challenge);
      var e := k.parseInt(parts[1]).value;
      FourParts(challenge);
      SplitParts(challenge);
      HexMeans(parts[3]);
      assert Tagged(k, secret, challenge, parts[1], e, parts[2]);
    }
    if spelled, expiry, rand :| Tagged(k, secret, challenge, spelled, expiry, rand) {
      HexMeans(Mac(k, secret, expiry, rand));
      AnySpellingVerifies(k, secret, spelled, expiry, rand, now);
      forall s, e, r | Tagged(k, secret, challenge, s, e, r)
        ensures e == expiry
      {
        OnePair(k, secret, challenge, spelled, expiry, rand, s, e, r);
      }
    }
  }

  lemma HexMeans(s: string)
    ensures IsLowerHex(s, 64) <==> |s| == 64 && forall i | 0 <= i < 64 :: s[i] in "0123456789abcdef"
  {
    forall c: char
      ensures IsLowerHexDigit(c) <==> c in "0123456789abcdef"
    {
      HexDigitsAre(c);
    }
  }

  /** No part of a split text holds a dot. */
  lemma {:induction false} SplitParts(s: string)
    ensures forall i | 0 <= i < |Split(s)| :: NoDot(Split(s)[i])
  {
    if s != "" {
      SplitParts(s[1..]);
    }
  }

  lemma OnePair(k: Crypto, secret: Bytes, challenge: string, s: string, e: int, r: string, s': string, e': int,
                r': string)
    requires Tagged(k, secret, challenge, s, e, r) && Tagged(k, secret, challenge, s', e', r')
    ensures s == s' && e == e' && r == r'
  {
    hide Split, PrintInt, Utf8;
    var m, m' := Mac(k, secret, e, r), Mac(k, secret, e', r');
    HexMeans(m);
    HexMeans(m');
    HexHasNoDot(m, 64);
    HexHasNoDot(m', 64);
    SplitJoined(s, r, m);
    SplitJoined(s', r', m');
    assert ["v1", s, r, m][1] == s && ["v1", s', r', m'][1] == s';
    assert ["v1", s, r, m][2] == r && ["v1", s', r', m'][2] == r';
  }

  // ---------------------------------------------------------------- runs

  /** `log` holds every (secret, expiry, rand) a MAC was computed for. */
  datatype State = State(secret: Bytes, now: int, log: set<(Bytes, int, string)>)

  datatype Step =
    | Issue(ttl: int, rand: string)
    | SetClock(now: int)
    | Restart(secret: Bytes)
    | Verify(challenge: string)

  /** What the MAC guarantees about a presented text: if the tag matches the one message the verifier
      recomputes, that message was tagged under the secret in force. Other messages are not spoken of. */
  ghost predicate Unforged(k: Crypto, s: State, challenge: string) {
    var parts := Split(challenge);
    |parts| == 4 && k.parseInt(parts[1]).Some? ==>
      var m := Utf8(MacText(k.parseInt(parts[1]).value, parts[2]));
      k.hmac(s.secret, m) == parts[3] ==> exists x :: x in s.log && x.0 == s.secret && Utf8(MacText(x.1, x.2)) == m
  }

  ghost predicate Next(k: Crypto, s: State, step: Step, t: State) {
    match step
    case Issue(ttl, rand) =>
      ttl > 0 && IsLowerHex(rand, 32) && t == s.(log := s.log + {(s.secret, s.now + ttl, rand)})
    case SetClock(now) => t == s.(now := now)
    case Restart(secret) => t == s.(secret := secret)
    case Verify(challenge) => Unforged(k, s, challenge) && t == s
  }

  ghost predicate Run(k: Crypto, states: seq<State>, steps: seq<Step>) {
    && |states| == |steps| + 1 && states[0].log == {}
    && forall i | 0 <= i < |steps| :: Next(k, states[i], steps[i], states[i + 1])
  }

  /** Step `j` issued this pair under this secret. */
  ghost predicate IssuedAt(states: seq<State>, steps: seq<Step>, j: nat, secret: Bytes, expiry: int, rand: string)
    requires j < |steps| < |states|
  {
    steps[j].Issue? && states[j].secret == secret && states[j].now + steps[j].ttl == expiry && steps[j].rand == rand
  }

  lemma {:induction false} LoggedWasIssued(k: Crypto, states: seq<State>, steps: seq<Step>, i: nat,
                                           x: (Bytes, int, string))
    requires Run(k, states, steps) && i <= |steps| && x in states[i].log
    ensures exists j :: 0 <= j < i && IssuedAt(states, steps, j, x.0, x.1, x.2)
  {
    if i > 0 {
      assert Next(k, states[i - 1], steps[i - 1], states[i]);
      if x in states[i - 1].log {
        LoggedWasIssued(k, states, steps, i - 1, x);
      } else {
        assert IssuedAt(states, steps, i - 1, x.0, x.1, x.2);
      }
    }
  }

  /** In every run, a challenge that verifies carries a pair issued earlier under the secret in force,
      and its expiry lies ahead. A restart therefore voids everything issued before it. */
  lemma AcceptedWasIssued(k: Crypto, states: seq<State>, steps: seq<Step>, i: nat)
    requires Run(k, states, steps) && i < |steps| && steps[i].Verify?
    requires VerifyChallenge(k, states[i].secret, steps[i].challenge, states[i].now) == Valid
    ensures exists j, e, r ::
              && 0 <= j < i && IssuedAt(states, steps, j, states[i].secret, e, r)
              && Carries(k, steps[i].challenge, e, r) && states[i].now < e
  {
    hide Split, MacText;
    var s, parts := states[i], Split(steps[i].challenge);
    assert Next(k, s, steps[i], states[i + 1]);
    var e, r := k.parseInt(parts[1]).value, parts[2];
    var x :| x in s.log && x.0 == s.secret && Utf8(MacText(x.1, x.2)) == Utf8(MacText(e, r));
    MacTextInjective(x.1, x.2, e, r);
    LoggedWasIssued(k, states, steps, i, x);
    var j :| 0 <= j < i && IssuedAt(states, steps, j, x.0, x.1, x.2);
    assert Carries(k, steps[i].challenge, e, r);
  }

  /** And whatever was issued under the secret in force verifies at every state before its expiry. */
  lemma IssuedStaysValid(k: Crypto, states: seq<State>, steps: seq<Step>, j: nat, i: nat)
    requires HexDigests(k) && IntUndoesStr(k)
    requires Run(k, states, steps) && j < |steps| && i < |states| && steps[j].Issue?
    requires states[i].secret == states[j].secret && states[i].now < states[j].now + steps[j].ttl
    ensures VerifyChallenge(k, states[i].secret,
                            ChallengeText(k, states[j].secret, states[j].now + steps[j].ttl, steps[j].rand),
                              states[i].now) == Valid
  {
    hide VerifyChallenge, ChallengeText;
    assert Next(k, states[j], steps[j], states[j + 1]);
    IssuedVerifies(k, states[j].secret, states[j].now + steps[j].ttl, steps[j].rand, states[i].now);
  }

  /** Issuing and then presenting the issued text is a run, under every MAC that meets the laws, and it is
      accepted: the conditions on runs leave the honest ones in. */
  lemma IssueThenVerifyIsARun(k: Crypto, secret: Bytes, now: int, ttl: int, rand: string)
    requires HexDigests(k) && IntUndoesStr(k) && ttl > 0 && IsLowerHex(rand, 32)
    ensures var text := ChallengeText(k, secret, now + ttl, rand);
            var start := State(secret, now, {});
            var issued := State(secret, now, {(secret, now + ttl, rand)});
            && Run(k, [start, issued, issued], [Issue(ttl, rand), Verify(text)])
            && VerifyChallenge(k, secret, text, now) == Valid
  {
    hide Split, VerifyChallenge, ChallengeText, Mac, MacText;
    var e := now + ttl;
    var text := ChallengeText(k, secret, e, rand);
    var start, issued := State(secret, now, {}), State(secret, now, {(secret, e, rand)});
    IssuedVerifies(k, secret, e, rand, now);
    assert (secret, e, rand) in issued.log;
    assert Unforged(k, issued, text);
    assert start.log + {(secret, e, rand)} == issued.log;
    assert Next(k, start, Issue(ttl, rand), issued) && Next(k, issued, Verify(text), issued);
  }
}

/** The cryptographic primitives as function parameters. No law is assumed globally: each theorem
    states the laws it uses, and collision freedom only for the byte strings it actually compares. */
module CryptoModel {
  import opened Basics
  import opened Decimal

  type Key = nat

  datatype Crypto = Crypto(
    /** Ed25519 verification under a hex public key; false also covers malformed keys and signatures. */
    verify: (string, Bytes, string) -> bool,
    sign: (Key, Bytes) -> string,
    edPublic: Key -> string,
    /** SHA-256 as lower-case hex. */
    sha256: Bytes -> string,
    /** HMAC-SHA256 as lower-case hex. */
    hmac: (Bytes, Bytes) -> string,
    /** HKDF-SHA256 over (salt, info, input key material). */
    hkdf: (Bytes, Bytes, Bytes) -> Bytes,
    xPublic: Key -> string,
    /** X25519 with a hex public key; None is a malformed key or a low-order point. */
    exchange: (Key, string) -> Option<Bytes>,
    /** Python's `int(text)`; None is a ValueError. It also reads forms `str` never prints. */
    parseInt: string -> Option<int>,
    /** `bytes.fromhex`. */
    unhex: string -> Bytes,
    /** Opening a sealed payload with the enclave key; None is a SealedChannelError. */
    open: (Bytes, Key) -> Option<Bytes>,
    /** Sealing a payload to a public key, with the randomness drawn for it. */
    seal: (string, Bytes, Bytes) -> Bytes)

  ghost predicate SignaturesVerify(c: Crypto) {
    forall k, m {:trigger c.sign(k, m)} :: c.verify(c.edPublic(k), m, c.sign(k, m)) && c.sign(k, m) != ""
  }

  /** Signatures are 64 bytes in lower-case hex. */
  ghost predicate HexSignatures(c: Crypto) {
    forall k, m {:trigger c.sign(k, m)} :: IsLowerHex(c.sign(k, m), 128)
  }

  /** Both parties of an X25519 exchange compute the same secret. */
  ghost predicate ExchangeAgrees(c: Crypto) {
    forall a, b {:trigger c.exchange(a, c.xPublic(b))} ::
      c.exchange(a, c.xPublic(b)).Some? && c.exchange(a, c.xPublic(b)) == c.exchange(b, c.xPublic(a))
  }

  /** What is sealed to a key opens with its private half. */
  ghost predicate SealOpens(c: Crypto) {
    forall k, r, m {:trigger c.seal(c.xPublic(k), r, m)} :: c.open(c.seal(c.xPublic(k), r, m), k) == Some(m)
  }

  ghost predicate HexDigests(c: Crypto) {
    && (forall m {:trigger c.sha256(m)} :: IsLowerHex(c.sha256(m), 64))
    && (forall k, m {:trigger c.hmac(k, m)} :: IsLowerHex(c.hmac(k, m), 64))
    && (forall k {:trigger c.xPublic(k)} :: IsLowerHex(c.xPublic(k), 64))
  }

  /** `int` undoes `str`. */
  ghost predicate IntUndoesStr(c: Crypto) {
    forall n {:trigger PrintInt(n)} :: c.parseInt(PrintInt(n)) == Some(n)
  }

  /** `int` also reads a number written with a zero in front. */
  ghost predicate IntReadsLeadingZero(c: Crypto) {
    forall n: nat {:trigger Digits(n)} :: c.parseInt("0" + Digits(n)) == Some(n)
  }

  /** `a` and `b` are not a SHA-256 collision. */
  predicate NoCollision(c: Crypto, a: Bytes, b: Bytes) {
    c.sha256(a) == c.sha256(b) ==> a == b
  }

  function ReadInt(s: string): (r: Option<int>)
  {
    var negative := s != "" && s[0] == '-';
    var digits := if negative then s[1..] else s;
    if forall i | 0 <= i < |digits| :: IsDigit(digits[i])
    then
      var n: int := DigitsValue(digits);
      Some(if negative then -n else n)
    else None
  }

  lemma ReadPrinted(n: int)
    ensures ReadInt(PrintInt(n)) == Some(n)
  {
    hide Digits, DigitsValue;
    var s := PrintInt(n);
    if n < 0 {
      assert s[1..] == Digits(-n);
      DigitsRoundTrip(-n);
    } else {
      assert IsDigit(s[0]);
      DigitsRoundTrip(n);
    }
  }

  lemma {:induction false} ZeroInFront(d: string)
    requires forall i | 0 <= i < |d| :: IsDigit(d[i])
    ensures DigitsValue("0" + d) == DigitsValue(d)
  {
    var s := "0" + d;
    if d == "" {
      assert s[..0] == "";
    } else {
      assert s[..|s| - 1] == "0" + d[..|d| - 1];
      ZeroInFront(d[..|d| - 1]);
    }
  }

  lemma ReadWithZero(n: nat)
    ensures ReadInt("0" + Digits(n)) == Some(n)
  {
    hide Digits, DigitsValue;
    var s: string := "0" + Digits(n);
    assert s[0] == '0' && forall i | 1 <= i < |s| :: s[i] == Digits(n)[i - 1];
    assert forall i | 0 <= i < |s| :: IsDigit(s[i]);
    ZeroInFront(Digits(n));
    DigitsRoundTrip(n);
  }

  ghost predicate AllLaws(c: Crypto) {
    && SignaturesVerify(c) && HexSignatures(c) && ExchangeAgrees(c) && HexDigests(c)
    && SealOpens(c) && IntUndoesStr(c) && IntReadsLeadingZero(c)
  }

  /** The laws can hold together, so no theorem that names several of them is empty. */
  lemma LawsAreConsistent()
    ensures exists c: Crypto :: AllLaws(c)
  {
    hide ReadInt, PrintInt, Digits;
    var digest := seq(64, _ => '0');
    var signature := seq(128, _ => '0');
    var c := Crypto((p, m, s) => true, (key, m) => signature, key => digest, m => digest, (key, m) => digest,
                    (salt, info, m) => [], key => digest, (key, p) => Some([]), ReadInt, t => [], (b, key) => Some(b),
                    (p, r, m) => m);
    forall n
      ensures c.parseInt(PrintInt(n)) == Some(n)
    {
      ReadPrinted(n);
    }
    forall n: nat
      ensures c.parseInt("0" + Digits(n)) == Some(n)
    {
      ReadWithZero(n);
    }
    assert AllLaws(c);
  }
}

/** `TdxQuote.parse` (tee/tdx.py): the Intel TDX DCAP Version 4 quote with nested certification data. */
module TdxQuote {
  import opened Basics

  const SIGNED_LEN: int := 632
  const MRTD_OFFSET: int := 184
  const MRTD_LEN: int := 48
  const REPORT_DATA_OFFSET: int := 568
  const REPORT_DATA_LEN: int := 64
  const SIG_LEN: int := 64
  const KEY_LEN: int := 64
  const QE_REPORT_LEN: int := 384
  const CERT_HEADER_LEN: int := 6
  const TYPE_PCK_CHAIN: int := 5
  const TYPE_QE_REPORT: int := 6

  /** `struct.unpack_from("<H", ...)`. */
  function Le16(b: Bytes, i: nat): (n: int)
    requires i + 2 <= |b|
    ensures 0 <= n < 0x10000
  {
    var x: int, y: int := b[i], b[i + 1];
    x + 256 * y
  }

  /** `struct.unpack_from("<I", ...)`. */
  function Le32(b: Bytes, i: nat): (n: int)
    requires i + 4 <= |b|
    ensures 0 <= n < 0x1_0000_0000
  {
    var x, y := Le16(b, i), Le16(b, i + 2);
    x + 0x10000 * y
  }

  /** `Cert` is whatever the PEM reader returns for the PCK chain. */
  datatype Quote<Cert> = Quote(version: int, teeType: int, measurement: Bytes, reportData: Bytes, signedBody: Bytes,
                               quoteSignature: Bytes, attestationKey: Bytes, qeReport: Bytes, qeReportSignature: Bytes,
                               qeAuthData: Bytes, pckChain: Cert)

  /** The QE certification data: report, signature, authentication data and the bytes of the PCK chain. */
  datatype CertData = CertData(qeReport: Bytes, qeSignature: Bytes, qeAuth: Bytes, chain: Bytes)

  function ParseCertData(c: Bytes): (r: Option<CertData>)
  {
    var auth := QE_REPORT_LEN + SIG_LEN + 2;
    if |c| < auth + CERT_HEADER_LEN then None
    else
      var authLen := Le16(c, auth - 2);
      var header := auth + authLen;
      if header + CERT_HEADER_LEN > |c| then None
      else
        var certType, certLen, start := Le16(c, header), Le32(c, header + 2), header + CERT_HEADER_LEN;
        if start + certLen > |c| then None
        else if certType != TYPE_PCK_CHAIN then None
        else Some(CertData(c[..QE_REPORT_LEN], c[QE_REPORT_LEN..auth - 2], c[auth..header], c[start..start + certLen]))
  }

  /** The signature section: quote signature, attestation key and the certification data inside it. */
  function ParseSection(s: Bytes): (r: Option<(Bytes, Bytes, CertData)>)
  {
    var header := SIG_LEN + KEY_LEN;
    var start := header + CERT_HEADER_LEN;
    if |s| < start then None
    else
      var outerType, outerLen := Le16(s, header), Le32(s, header + 2);
      if outerType != TYPE_QE_REPORT then None
      else if start + outerLen > |s| then None
      else
        match ParseCertData(s[start..start + outerLen])
        case None => None
        case Some(c) => Some((s[..SIG_LEN], s[SIG_LEN..header], c))
  }

  function Parse<Cert>(pem: Bytes -> Option<Cert>, b: Bytes): (r: Option<Quote<Cert>>)
  {
    if |b| < SIGNED_LEN + 4 then None
    else
      var end := SIGNED_LEN + 4 + Le32(b, SIGNED_LEN);
      if end > |b| then None
      else
        match ParseSection(b[SIGNED_LEN + 4..end])
        case None => None
        case Some((sig, key, c)) =>
          match pem(c.chain)
          case None => None
          case Some(certs) =>
            Some(Quote(Le16(b, 0), Le32(b, 4), b[MRTD_OFFSET..MRTD_OFFSET + MRTD_LEN],
                       b[REPORT_DATA_OFFSET..REPORT_DATA_OFFSET + REPORT_DATA_LEN], b[..SIGNED_LEN],
                       sig, key, c.qeReport, c.qeSignature, c.qeAuth, certs))
  }

  /** The parser as written, advancing `pos` and `inner`; every read is in bounds on every input. */
  method ParseQuote<Cert>(pem: Bytes -> Option<Cert>, b: Bytes) returns (r: Option<Quote<Cert>>)
    ensures r == Parse(pem, b)
  {
    if |b| < SIGNED_LEN + 4 {
      return None;
    }
    var version, teeType := Le16(b, 0), Le32(b, 4);
    var measurement := b[MRTD_OFFSET..MRTD_OFFSET + MRTD_LEN];
    var reportData := b[REPORT_DATA_OFFSET..REPORT_DATA_OFFSET + REPORT_DATA_LEN];
    var sigLen := Le32(b, SIGNED_LEN);
    var pos := SIGNED_LEN + 4;
    var end := pos + sigLen;
    if end > |b| {
      return None;
    }
    var section := b[pos..end];
    if |section| < SIG_LEN + KEY_LEN + CERT_HEADER_LEN {
      return None;
    }
    var quoteSig := section[..SIG_LEN];
    var attKey := section[SIG_LEN..SIG_LEN + KEY_LEN];
    pos := SIG_LEN + KEY_LEN;
    var outerType, outerLen := Le16(section, pos), Le32(section, pos + 2);
    pos := pos + CERT_HEADER_LEN;
    if outerType != TYPE_QE_REPORT {
      return None;
    }
    if pos + outerLen > |section| {
      return None;
    }
    var certData := section[pos..pos + outerLen];
    var parsed := ParseCert(certData);
    if parsed.None? {
      return None;
    }
    var c := parsed.value;
    var certs := pem(c.chain);
    if certs.None? {
      return None;
    }
    return Some(Quote(version, teeType, measurement, reportData, b[..SIGNED_LEN], quoteSig, attKey,
                      c.qeReport, c.qeSignature, c.qeAuth, certs.value));
  }

  /** The inner half of the same routine, advancing `inner` through the certification data. */
  method ParseCert(certData: Bytes) returns (r: Option<CertData>)
    ensures r == ParseCertData(certData)
  {
    if |certData| < QE_REPORT_LEN + SIG_LEN + 2 + CERT_HEADER_LEN {
      return None;
    }
    var inner := 0;
    var qeReport := certData[inner..inner + QE_REPORT_LEN];
    inner := inner + QE_REPORT_LEN;
    var qeSig := certData[inner..inner + SIG_LEN];
    inner := inner + SIG_LEN;
    var authLen := Le16(certData, inner);
    inner := inner + 2;
    if inner + authLen + CERT_HEADER_LEN > |certData| {
      return None;
    }
    var auth := certData[inner..inner + authLen];
    inner := inner + authLen;
    var certType, certLen := Le16(certData, inner), Le32(certData, inner + 2);
    inner := inner + CERT_HEADER_LEN;
    if inner + certLen > |certData| {
      return None;
    }
    var chain := certData[inner..inner + certLen];
    if certType != TYPE_PCK_CHAIN {
      return None;
    }
    return Some(CertData(qeReport, qeSig, auth, chain));
  }

  // ---------------------------------------------------------------- the layout

  function Put16(n: int): (b: Bytes)
    requires 0 <= n < 0x10000
    ensures |b| == 2
  {
    [n % 256, n / 256]
  }

  function Put32(n: int): (b: Bytes)
    requires 0 <= n < 0x1_0000_0000
    ensures |b| == 4
  {
    Put16(n % 0x10000) + Put16(n / 0x10000)
  }

  predicate CertOk(c: CertData) {
    |c.qeReport| == QE_REPORT_LEN && |c.qeSignature| == SIG_LEN && |c.qeAuth| < 0x10000 && |c.chain| < 0x1_0000_0000
  }

  /** Certification data followed by `slack` bytes the parser ignores. */
  function CertBytes(c: CertData, slack: Bytes): (b: Bytes)
    requires CertOk(c)
  {
    c.qeReport + (c.qeSignature
                  + (Put16(|c.qeAuth|) + (c.qeAuth + (Put16(TYPE_PCK_CHAIN) + (Put32(|c.chain|) + (c.chain + slack))))))
  }

  function SectionBytes(sig: Bytes, key: Bytes, cert: Bytes, slack: Bytes): (b: Bytes)
    requires |cert| < 0x1_0000_0000
  {
    sig + (key + (Put16(TYPE_QE_REPORT) + (Put32(|cert|) + (cert + slack))))
  }

  lemma Read16Back(pre: Bytes, n: int, post: Bytes)
    requires 0 <= n < 0x10000
    ensures Le16(pre + (Put16(n) + post), |pre|) == n
  {
    var s := pre + (Put16(n) + post);
    assert s[|pre|] == Put16(n)[0] && s[|pre| + 1] == Put16(n)[1];
  }

  lemma Read32Back(pre: Bytes, n: int, post: Bytes)
    requires 0 <= n < 0x1_0000_0000
    ensures Le32(pre + (Put32(n) + post), |pre|) == n
  {
    hide Le16, Put16;
    var lo, hi := n % 0x10000, n / 0x10000;
    var s := pre + (Put32(n) + post);
    assert s == pre + (Put16(lo) + (Put16(hi) + post));
    Read16Back(pre, lo, Put16(hi) + post);
    assert s == (pre + Put16(lo)) + (Put16(hi) + post);
    Read16Back(pre + Put16(lo), hi, post);
  }

  lemma ParseCertBack(c: CertData, slack: Bytes)
    requires CertOk(c)
    ensures ParseCertData(CertBytes(c, slack)) == Some(c)
  {
    hide Le16, Le32, Put16, Put32;
    var s := CertBytes(c, slack);
    var t4 := Put32(|c.chain|) + (c.chain + slack);
    var t3 := Put16(TYPE_PCK_CHAIN) + t4;
    var t2 := Put16(|c.qeAuth|) + (c.qeAuth + t3);
    var p2 := c.qeReport + c.qeSignature;
    var p3 := p2 + Put16(|c.qeAuth|) + c.qeAuth;
    var p4 := p3 + Put16(TYPE_PCK_CHAIN);
    var p5 := p4 + Put32(|c.chain|);
    assert s == p2 + t2;
    assert s == p3 + t3;
    assert s == p4 + t4;
    assert s == p5 + (c.chain + slack);
    Read16Back(p2, |c.qeAuth|, c.qeAuth + t3);
    Read16Back(p3, TYPE_PCK_CHAIN, t4);
    Read32Back(p4, |c.chain|, c.chain + slack);
    assert s[..QE_REPORT_LEN] == c.qeReport && s[QE_REPORT_LEN..|p2|] == c.qeSignature;
    assert s[|p2| + 2..|p3|] == c.qeAuth && s[|p5|..|p5| + |c.chain|] == c.chain;
  }

  lemma ParseSectionBack(sig: Bytes, key: Bytes, c: CertData, inner: Bytes, outer: Bytes)
    requires CertOk(c) && |sig| == SIG_LEN && |key| == KEY_LEN && |CertBytes(c, inner)| < 0x1_0000_0000
    ensures ParseSection(SectionBytes(sig, key, CertBytes(c, inner), outer)) == Some((sig, key, c))
  {
    hide Le16, Le32, Put16, Put32, CertBytes, ParseCertData, CertOk;
    var cert := CertBytes(c, inner);
    var s := SectionBytes(sig, key, cert, outer);
    var p1 := sig + key;
    var p2 := p1 + Put16(TYPE_QE_REPORT);
    var p3 := p2 + Put32(|cert|);
    var t2 := Put32(|cert|) + (cert + outer);
    assert s == p1 + (Put16(TYPE_QE_REPORT) + t2);
    assert s == p2 + t2;
    assert s == p3 + (cert + outer);
    Read16Back(p1, TYPE_QE_REPORT, t2);
    Read32Back(p2, |cert|, cert + outer);
    assert s[|p3|..|p3| + |cert|] == cert && s[..SIG_LEN] == sig && s[SIG_LEN..|p1|] == key;
    ParseCertBack(c, inner);
  }

  /** The quote a signed body and a signature section stand for. */
  function QuoteOf<Cert>(body: Bytes, sig: Bytes, key: Bytes, c: CertData, certs: Cert): (q: Quote<Cert>)
    requires |body| == SIGNED_LEN
  {
    Quote(Le16(body, 0), Le32(body, 4), body[MRTD_OFFSET..MRTD_OFFSET + MRTD_LEN],
          body[REPORT_DATA_OFFSET..REPORT_DATA_OFFSET + REPORT_DATA_LEN], body,
          sig, key, c.qeReport, c.qeSignature, c.qeAuth, certs)
  }

  function QuoteBytes(body: Bytes, section: Bytes): (b: Bytes)
    requires |section| < 0x1_0000_0000
  {
    body + (Put32(|section|) + section)
  }

  lemma SameBody(b: Bytes, body: Bytes)
    requires |body| == SIGNED_LEN && body <= b
    ensures Le16(b, 0) == Le16(body, 0) && Le32(b, 4) == Le32(body, 4) && b[..SIGNED_LEN] == body
    ensures b[MRTD_OFFSET..MRTD_OFFSET + MRTD_LEN] == body[MRTD_OFFSET..MRTD_OFFSET + MRTD_LEN]
    ensures b[REPORT_DATA_OFFSET..REPORT_DATA_OFFSET + REPORT_DATA_LEN]
            == body[REPORT_DATA_OFFSET..REPORT_DATA_OFFSET + REPORT_DATA_LEN]
  {
    assert forall i | 0 <= i < SIGNED_LEN :: b[i] == body[i];
  }

  /** Parsing a serialized well-formed quote, with ignored bytes after the chain, after the certification
      data and after the signature section, returns exactly that quote. */
  lemma ParseBack<Cert>(pem: Bytes -> Option<Cert>, body: Bytes, sig: Bytes, key: Bytes, c: CertData, inner: Bytes,
                        outer: Bytes, trailing: Bytes)
    requires |body| == SIGNED_LEN && |sig| == SIG_LEN && |key| == KEY_LEN && CertOk(c)
    requires |CertBytes(c, inner)| < 0x1_0000_0000
             && |SectionBytes(sig, key, CertBytes(c, inner), outer)| < 0x1_0000_0000
    ensures Parse(pem, QuoteBytes(body, SectionBytes(sig, key, CertBytes(c, inner), outer)) + trailing)
         == match pem(c.chain) case None => None case Some(certs) => Some(QuoteOf(body, sig, key, c, certs))
  {
    hide Le16, Le32, Put16, Put32, SectionBytes, ParseSection, CertBytes, CertOk;
    var section := SectionBytes(sig, key, CertBytes(c, inner), outer);
    var b := QuoteBytes(body, section) + trailing;
    assert b == body + (Put32(|section|) + (section + trailing));
    Read32Back(body, |section|, section + trailing);
    assert b[SIGNED_LEN + 4..SIGNED_LEN + 4 + |section|] == section;
    ParseSectionBack(sig, key, c, inner, outer);
    SameBody(b, body);
  }

  // ---------------------------------------------------------------- conversely

  lemma PutBack16(b: Bytes, i: nat)
    requires i + 2 <= |b|
    ensures Put16(Le16(b, i)) == b[i..i + 2]
  {
    var x: int, y: int := b[i], b[i + 1];
    assert (x + 256 * y) / 256 == y && (x + 256 * y) % 256 == x;
  }

  lemma PutBack32(b: Bytes, i: nat)
    requires i + 4 <= |b|
    ensures Put32(Le32(b, i)) == b[i..i + 4]
  {
    hide Le16, Put16;
    PutBack16(b, i);
    PutBack16(b, i + 2);
    var x, y := Le16(b, i), Le16(b, i + 2);
    assert (x + 0x10000 * y) / 0x10000 == y && (x + 0x10000 * y) % 0x10000 == x;
    assert b[i..i + 2] + b[i + 2..i + 4] == b[i..i + 4];
  }

  /** What success says about the bytes read. */
  lemma CertFields(s: Bytes)
    requires ParseCertData(s).Some?
    ensures var c := ParseCertData(s).value;
            var auth := QE_REPORT_LEN + SIG_LEN + 2;
            var header := auth + |c.qeAuth|;
            var start := header + CERT_HEADER_LEN;
            && CertOk(c) && start + |c.chain| <= |s|
            && Le16(s, auth - 2) == |c.qeAuth| && Le16(s, header) == TYPE_PCK_CHAIN && Le32(s, header + 2) == |c.chain|
            && c.qeReport == s[..QE_REPORT_LEN] && c.qeSignature == s[QE_REPORT_LEN..auth - 2]
            && c.qeAuth == s[auth..header] && c.chain == s[start..start + |c.chain|]
  {
    hide Le16, Le32;
  }

  lemma ParsedCertIsLayout(s: Bytes) returns (slack: Bytes)
    requires ParseCertData(s).Some?
    ensures CertOk(ParseCertData(s).value) && s == CertBytes(ParseCertData(s).value, slack)
  {
    hide Le16, Le32, Put16, Put32, ParseCertData;
    CertFields(s);
    var c := ParseCertData(s).value;
    var auth := QE_REPORT_LEN + SIG_LEN + 2;
    var header := auth + |c.qeAuth|;
    var start := header + CERT_HEADER_LEN;
    var end := start + |c.chain|;
    slack := s[end..];
    PutBack16(s, auth - 2);
    PutBack16(s, header);
    PutBack32(s, header + 2);
    JoinSlices(s, QE_REPORT_LEN, auth - 2, auth, header, header + 2, start, end);
  }

  lemma Cut(s: Bytes, a: nat, b: nat)
    requires a <= b <= |s|
    ensures s[a..] == s[a..b] + s[b..]
  {
  }

  lemma JoinSlices(s: Bytes, a: nat, b: nat, c: nat, d: nat, e: nat, f: nat, g: nat)
    requires a <= b <= c <= d <= e <= f <= g <= |s|
    ensures s == s[..a] + (s[a..b] + (s[b..c] + (s[c..d] + (s[d..e] + (s[e..f] + (s[f..g] + s[g..]))))))
  {
    assert s == s[..a] + s[a..];
    Cut(s, a, b);
    Cut(s, b, c);
    Cut(s, c, d);
    Cut(s, d, e);
    Cut(s, e, f);
    Cut(s, f, g);
  }

  lemma ParsedSectionIsLayout(s: Bytes) returns (cert: Bytes, slack: Bytes)
    requires ParseSection(s).Some?
    ensures |cert| < 0x1_0000_0000 && ParseCertData(cert) == Some(ParseSection(s).value.2)
    ensures s == SectionBytes(ParseSection(s).value.0, ParseSection(s).value.1, cert, slack)
  {
    hide Le16, Le32, Put16, Put32, ParseCertData;
    var header := SIG_LEN + KEY_LEN;
    var start := header + CERT_HEADER_LEN;
    var end := start + Le32(s, header + 2);
    cert, slack := s[start..end], s[end..];
    PutBack16(s, header);
    PutBack32(s, header + 2);
    assert s == s[..SIG_LEN]
           + (s[SIG_LEN..header] + (s[header..header + 2] + (s[header + 2..start] + (s[start..end] + s[end..]))));
  }

  /** Every blob that parses has this layout, and the parsed fields are read from it. */
  lemma ParsedIsLayout<Cert>(pem: Bytes -> Option<Cert>, b: Bytes)
    returns (sig: Bytes, key: Bytes, c: CertData, inner: Bytes, outer: Bytes, trailing: Bytes)
    requires Parse(pem, b).Some?
    ensures |sig| == SIG_LEN && |key| == KEY_LEN && CertOk(c) && |CertBytes(c, inner)| < 0x1_0000_0000
    ensures |SectionBytes(sig, key, CertBytes(c, inner), outer)| < 0x1_0000_0000
    ensures b == QuoteBytes(b[..SIGNED_LEN], SectionBytes(sig, key, CertBytes(c, inner), outer)) + trailing
    ensures pem(c.chain).Some? && Parse(pem, b).value == QuoteOf(b[..SIGNED_LEN], sig, key, c, pem(c.chain).value)
  {
    hide Le16, Le32, Put16, Put32, ParseCertData, CertBytes, CertOk, SectionBytes;
    var end := SIGNED_LEN + 4 + Le32(b, SIGNED_LEN);
    var section := b[SIGNED_LEN + 4..end];
    sig, key, c := ParseSection(section).value.0, ParseSection(section).value.1, ParseSection(section).value.2;
    var cert, slack := ParsedSectionIsLayout(section);
    inner := ParsedCertIsLayout(cert);
    outer, trailing := slack, b[end..];
    PutBack32(b, SIGNED_LEN);
    assert b == b[..SIGNED_LEN] + (b[SIGNED_LEN..SIGNED_LEN + 4] + section) + b[end..];
    SameBody(b, b[..SIGNED_LEN]);
  }
}

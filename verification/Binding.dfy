/** The key-and-nonce binding an attestation report commits to (tee/binding.py). */
module Binding {
  import opened Basics
  import opened Unicode

  datatype Platform = Tpm | Snp | Tdx

  /** `role_prefix`: the six versioned prefixes; an unknown role is refused. */
  function PrefixText(p: Platform, role: string): (r: Option<string>)
  {
    if role == "callee" then
      match p
      case Tpm => Some("ca2a-tpm-v1|")
      case Snp => Some("ca2a-snp-v1|")
      case Tdx => Some("ca2a-tdx-v1|")
    else if role == "caller" then
      match p
      case Tpm => Some("ca2a-tpm-caller-v2|")
      case Snp => Some("ca2a-snp-caller-v2|")
      case Tdx => Some("ca2a-tdx-caller-v2|")
    else None
  }

  /** `n.to_bytes(4, "big")`. */
  function Be32(n: int): (b: Bytes)
    requires 0 <= n < 0x1_0000_0000
    ensures |b| == 4
  {
    [n / 0x1000000, n / 0x10000 % 256, n / 0x100 % 256, n % 256]
  }

  /** A length-prefixed field; None is the OverflowError of a field of 2^32 bytes or more. */
  function Field(s: string): (r: Option<Bytes>)
  {
    var b := Utf8(s);
    if |b| >= 0x1_0000_0000 then None else Some(Be32(|b|) + b)
  }

  function Fields(ss: seq<string>): (r: Option<Bytes>)
  {
    if ss == [] then Some([])
    else
      match (Fields(ss[..|ss| - 1]), Field(ss[|ss| - 1]))
      case (Some(x), Some(y)) => Some(x + y)
      case _ => None
  }

  /** The bytes hashed by `derive_binding`. */
  function Preimage(prefix: string, publicKey: string, nonce: string): (r: Option<Bytes>)
  {
    match Fields([publicKey, nonce])
    case None => None
    case Some(f) => Some(Utf8(prefix) + f)
  }

  /** `derive_binding`: append length and bytes of each field in turn; `sha256` is the digest function. */
  method DeriveBinding(sha256: Bytes -> Bytes, prefix: string, publicKey: string, nonce: string)
    returns (r: Option<Bytes>)
    ensures r == match Preimage(prefix, publicKey, nonce) case None => None case Some(m) => Some(sha256(m))
  {
    hide Utf8;
    var fields := [publicKey, nonce];
    var parts: Bytes := [];
    for i := 0 to |fields|
      invariant Fields(fields[..i]) == Some(parts)
    {
      assert fields[..i + 1][..i] == fields[..i];
      if |Utf8(fields[i])| >= 0x1_0000_0000 {
        assert Fields(fields[..i + 1]).None?;
        OneBadFieldSpoils(fields, i + 1);
        return None;
      }
      var bytes := Utf8(fields[i]);
      parts := parts + (Be32(|bytes|) + bytes);
    }
    assert fields[..|fields|] == fields;
    return Some(sha256(Utf8(prefix) + parts));
  }

  lemma {:induction false} OneBadFieldSpoils(ss: seq<string>, n: nat)
    requires n <= |ss| && Fields(ss[..n]).None?
    ensures Fields(ss).None?
    decreases |ss| - n
  {
    if n == |ss| {
      assert ss[..n] == ss;
    } else {
      assert ss[..n + 1][..n] == ss[..n];
      OneBadFieldSpoils(ss, n + 1);
    }
  }

  // ---------------------------------------------------------------- injectivity

  /** A length-prefixed field ends where the next begins, whatever it contains. */
  lemma LengthPrefixSeparates(w: Bytes, rest: Bytes, y: Bytes, rest': Bytes)
    requires |w| < 0x1_0000_0000 && |y| < 0x1_0000_0000
    requires Be32(|w|) + (w + rest) == Be32(|y|) + (y + rest')
    ensures w == y && rest == rest'
  {
    hide Be32;
    var s, t := Be32(|w|) + (w + rest), Be32(|y|) + (y + rest');
    assert s[..4] == Be32(|w|) && t[..4] == Be32(|y|);
    Be32Injective(|w|, |y|);
    assert s[4..] == w + rest && t[4..] == y + rest';
    assert (w + rest)[..|w|] == w && (y + rest')[..|w|] == y;
    assert (w + rest)[|w|..] == rest && (y + rest')[|w|..] == rest';
  }

  lemma FieldsInjective(a: string, b: string, c: string, d: string)
    requires Fields([a, b]).Some? && Fields([a, b]) == Fields([c, d])
    ensures a == c && b == d
  {
    hide Utf8, Be32, Fields;
    TwoFields(a, b);
    TwoFields(c, d);
    var w, x, y, z := Utf8(a), Utf8(b), Utf8(c), Utf8(d);
    LengthPrefixSeparates(w, Be32(|x|) + (x + []), y, Be32(|z|) + (z + []));
    LengthPrefixSeparates(x, [], z, []);
    Utf8Injective(a, c);
    Utf8Injective(b, d);
  }

  function Be32Value(b: Bytes): (n: int)
    requires |b| == 4
  {
    var w: int, x: int, y: int, z: int := b[0], b[1], b[2], b[3];
    ((w * 256 + x) * 256 + y) * 256 + z
  }

  lemma Be32RoundTrip(n: int)
    requires 0 <= n < 0x1_0000_0000
    ensures Be32Value(Be32(n)) == n
  {
    assert n / 0x10000 == n / 0x100 / 0x100;
    assert n / 0x1000000 == n / 0x10000 / 0x100;
    assert n == n / 0x100 * 256 + n % 256;
    assert n / 0x100 == n / 0x10000 * 256 + n / 0x100 % 256;
    assert n / 0x10000 == n / 0x1000000 * 256 + n / 0x10000 % 256;
  }

  lemma Be32Injective(m: int, n: int)
    requires 0 <= m < 0x1_0000_0000 && 0 <= n < 0x1_0000_0000 && Be32(m) == Be32(n)
    ensures m == n
  {
    hide Be32, Be32Value;
    Be32RoundTrip(m);
    Be32RoundTrip(n);
  }

  lemma TwoFields(a: string, b: string)
    requires Fields([a, b]).Some?
    ensures |Utf8(a)| < 0x1_0000_0000 && |Utf8(b)| < 0x1_0000_0000
    ensures Fields([a, b]).value == Be32(|Utf8(a)|) + (Utf8(a) + (Be32(|Utf8(b)|) + (Utf8(b) + [])))
  {
    hide Utf8, Be32;
    assert [a, b][..1] == [a] && [a][..0] == [];
    assert Fields([a]) == match Field(a) case None => None case Some(y) => Some([] + y);
  }

  /** The seventh character tells the platform, the tenth the role. */
  lemma PrefixShape(p: Platform, r: string)
    requires PrefixText(p, r).Some?
    ensures var a := PrefixText(p, r).value;
            && (forall i | 0 <= i < |a| :: a[i] < 128 as char)
            && |a| == (if r == "callee" then 12 else 19)
            && a[6] == (match p case Tpm => 'p' case Snp => 'n' case Tdx => 'd')
            && a[9] == (if r == "callee" then 'v' else 'c')
            && (r == "callee" || r == "caller")
  {
  }

  /** The six prefixes are prefix-free: text starting with one of them starts with no other. */
  lemma PrefixesArePrefixFree(p: Platform, r: string, q: Platform, s: string, x: Bytes, y: Bytes)
    requires PrefixText(p, r).Some? && PrefixText(q, s).Some?
    requires Utf8(PrefixText(p, r).value) + x == Utf8(PrefixText(q, s).value) + y
    ensures p == q && r == s && x == y
  {
    hide Utf8, PrefixText;
    var a, b := PrefixText(p, r).value, PrefixText(q, s).value;
    PrefixShape(p, r);
    PrefixShape(q, s);
    AsciiIsItself(a);
    AsciiIsItself(b);
    var u, v := Utf8(a) + x, Utf8(b) + y;
    assert u[6] == a[6] as int && v[6] == b[6] as int;
    assert u[9] == a[9] as int && v[9] == b[9] as int;
    assert u[|a|..] == x && v[|b|..] == y;
  }

  /** Equal preimages mean the same platform, role, channel key and nonce. */
  lemma PreimageInjective(p: Platform, r: string, pk: string, n: string, q: Platform, s: string, pk': string,
                          n': string)
    requires PrefixText(p, r).Some? && PrefixText(q, s).Some?
    requires Preimage(PrefixText(p, r).value, pk, n).Some?
    requires Preimage(PrefixText(p, r).value, pk, n) == Preimage(PrefixText(q, s).value, pk', n')
    ensures p == q && r == s && pk == pk' && n == n'
  {
    hide Utf8, PrefixText, Fields;
    PrefixesArePrefixFree(p, r, q, s, Fields([pk, n]).value, Fields([pk', n']).value);
    FieldsInjective(pk, n, pk', n');
  }

  /** `pad_report_data`; None is the ValueError of a digest wider than the field. */
  function PadReportData(digest: Bytes, length: nat): (r: Option<Bytes>)
    ensures r.Some? <==> |digest| <= length
    ensures r.Some? ==> |r.value| == length && r.value[..|digest|] == digest
    ensures r.Some? ==> forall i | |digest| <= i < length :: r.value[i] == 0
  {
    if |digest| > length then None else Some(digest + seq(length - |digest|, _ => 0))
  }

  /** Padding keeps digests of one width distinct. */
  lemma PaddingInjective(a: Bytes, b: Bytes, length: nat)
    requires |a| == |b| <= length && PadReportData(a, length) == PadReportData(b, length)
    ensures a == b
  {
    assert a == PadReportData(a, length).value[..|a|];
    assert b == PadReportData(b, length).value[..|a|];
  }
}

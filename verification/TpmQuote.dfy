/** `TpmQuote.parse` (tee/tpm.py): TPMS_ATTEST, section 10.12 of TPM 2.0 Library Part 2. */
module TpmQuote {
  import opened Basics

  const CLOCK_AND_FIRMWARE: int := 25

  function Be16(b: Bytes, i: nat): (n: int)
    requires i + 2 <= |b|
    ensures 0 <= n < 0x10000
  {
    var x: int, y: int := b[i], b[i + 1];
    x * 256 + y
  }

  function Be32(b: Bytes, i: nat): (n: int)
    requires i + 4 <= |b|
    ensures 0 <= n < 0x1_0000_0000
  {
    var x, y := Be16(b, i), Be16(b, i + 2);
    x * 0x10000 + y
  }

  datatype Quote = Quote(magic: int, attestType: int, qualifyingData: Bytes, pcrDigest: Bytes, raw: Bytes)

  /** `_read_u16`; None is AttestationFailed. */
  function ReadU16(b: Bytes, pos: nat): (r: Option<(int, nat)>)
    ensures r.Some? ==> r.value.1 == pos + 2 <= |b| && 0 <= r.value.0 < 0x10000
  {
    if pos + 2 > |b| then None else Some((Be16(b, pos), pos + 2))
  }

  /** `_read_2b`. */
  function Read2B(b: Bytes, pos: nat): (r: Option<(Bytes, nat)>)
    ensures r.Some? ==> pos + 2 <= r.value.1 <= |b| && |r.value.0| == r.value.1 - pos - 2
  {
    match ReadU16(b, pos)
    case None => None
    case Some((size, p)) => if p + size > |b| then None else Some((b[p..p + size], p + size))
  }

  /** The position after `count` PCR selections. */
  function SkipSelections(b: Bytes, pos: nat, count: nat): (r: Option<nat>)
    decreases count
  {
    if count == 0 then Some(pos)
    else if pos + 3 > |b| then None
    else SkipSelections(b, pos + 3 + b[pos + 2], count - 1)
  }

  function Parse(b: Bytes): (r: Option<Quote>)
  {
    if |b| < 6 then None
    else
      match Read2B(b, 6)
      case None => None
      case Some((_, p1)) =>
        match Read2B(b, p1)
        case None => None
        case Some((qualifying, p2)) =>
          var p3 := p2 + CLOCK_AND_FIRMWARE;
          if p3 + 4 > |b| then None
          else
            match SkipSelections(b, p3 + 4, Be32(b, p3))
            case None => None
            case Some(p4) =>
              match Read2B(b, p4)
              case None => None
              case Some((digest, _)) => Some(Quote(Be32(b, 0), Be16(b, 4), qualifying, digest, b))
  }

  /** The parser as written, advancing one position. Every read is in bounds on every input, and the PCR
      loop runs at most a third of the blob's length however large the declared count is. */
  method ParseQuote(b: Bytes) returns (r: Option<Quote>, steps: nat)
    ensures r == Parse(b)
    ensures 3 * steps <= |b|
  {
    steps := 0;
    if |b| < 6 {
      return None, 0;
    }
    var magic, attestType, pos := Be32(b, 0), Be16(b, 4), 6;
    var signer := Read2B(b, pos);
    if signer.None? {
      return None, 0;
    }
    pos := signer.value.1;
    var qualifying := Read2B(b, pos);
    if qualifying.None? {
      return None, 0;
    }
    pos := qualifying.value.1 + CLOCK_AND_FIRMWARE;
    if pos + 4 > |b| {
      return None, 0;
    }
    var count := Be32(b, pos);
    pos := pos + 4;
    ghost var start := pos;
    for i := 0 to count
      invariant 0 <= pos && start + 3 * i <= pos && steps == i && (i > 0 ==> 3 * i <= |b|)
      invariant SkipSelections(b, start, count) == SkipSelections(b, pos, count - i)
    {
      if pos + 3 > |b| {
        return None, steps;
      }
      pos := pos + 3 + b[pos + 2];
      steps := steps + 1;
    }
    var digest := Read2B(b, pos);
    if digest.None? {
      return None, steps;
    }
    return Some(Quote(magic, attestType, qualifying.value.0, digest.value.0, b)), steps;
  }

  // ---------------------------------------------------------------- the layout

  /** A PCR selection: a two-byte hash algorithm and its bitmap. */
  datatype Selection = Selection(algorithm: Bytes, bitmap: Bytes)

  datatype Form = Form(magic: Bytes, attestType: Bytes, signer: Bytes, qualifying: Bytes, clock: Bytes,
                       selections: seq<Selection>, digest: Bytes)

  predicate FormOk(f: Form) {
    && |f.magic| == 4 && |f.attestType| == 2 && |f.clock| == CLOCK_AND_FIRMWARE
    && |f.signer| < 0x10000 && |f.qualifying| < 0x10000 && |f.digest| < 0x10000 && |f.selections| < 0x1_0000_0000
    && forall i | 0 <= i < |f.selections| :: |f.selections[i].algorithm| == 2 && |f.selections[i].bitmap| < 256
  }

  function Put16(n: int): (b: Bytes)
    requires 0 <= n < 0x10000
    ensures |b| == 2
  {
    [n / 256, n % 256]
  }

  function Put32(n: int): (b: Bytes)
    requires 0 <= n < 0x1_0000_0000
    ensures |b| == 4
  {
    Put16(n / 0x10000) + Put16(n % 0x10000)
  }

  function Sized(b: Bytes): (r: Bytes)
    requires |b| < 0x10000
  {
    Put16(|b|) + b
  }

  function SelectionsBytes(ss: seq<Selection>): (b: Bytes)
    requires forall i | 0 <= i < |ss| :: |ss[i].bitmap| < 256
  {
    if ss == [] then [] else ss[0].algorithm + [|ss[0].bitmap|] + ss[0].bitmap + SelectionsBytes(ss[1..])
  }

  function FormBytes(f: Form): (b: Bytes)
    requires FormOk(f)
  {
    f.magic + (f.attestType + (Sized(f.signer) + (Sized(f.qualifying) + (f.clock
      + (Put32(|f.selections|) + (SelectionsBytes(f.selections) + Sized(f.digest)))))))
  }

  // Reading at the end of a prefix `pre` of the input.

  lemma Read16Back(pre: Bytes, n: int, post: Bytes)
    requires 0 <= n < 0x10000
    ensures Be16(pre + (Put16(n) + post), |pre|) == n
  {
    var s := pre + (Put16(n) + post);
    assert s[|pre|] == Put16(n)[0] && s[|pre| + 1] == Put16(n)[1];
  }

  lemma Read32Back(pre: Bytes, n: int, post: Bytes)
    requires 0 <= n < 0x1_0000_0000
    ensures Be32(pre + (Put32(n) + post), |pre|) == n
  {
    hide Be16, Put16;
    var hi, lo := n / 0x10000, n % 0x10000;
    var s := pre + (Put32(n) + post);
    assert s == pre + (Put16(hi) + (Put16(lo) + post));
    Read16Back(pre, hi, Put16(lo) + post);
    assert s == (pre + Put16(hi)) + (Put16(lo) + post);
    Read16Back(pre + Put16(hi), lo, post);
  }

  lemma Read2BBack(pre: Bytes, b: Bytes, post: Bytes)
    requires |b| < 0x10000
    ensures Read2B(pre + (Sized(b) + post), |pre|) == Some((b, |pre| + |Sized(b)|))
  {
    hide Be16, Put16;
    var s := pre + (Sized(b) + post);
    assert s == pre + (Put16(|b|) + (b + post));
    Read16Back(pre, |b|, b + post);
    assert s[|pre| + 2..|pre| + 2 + |b|] == b;
  }

  lemma {:induction false} SkipBack(pre: Bytes, ss: seq<Selection>, post: Bytes)
    requires forall i | 0 <= i < |ss| :: |ss[i].algorithm| == 2 && |ss[i].bitmap| < 256
    ensures SkipSelections(pre + (SelectionsBytes(ss) + post), |pre|, |ss|) == Some(|pre| + |SelectionsBytes(ss)|)
    decreases |ss|
  {
    var s := pre + (SelectionsBytes(ss) + post);
    if ss != [] {
      var head := ss[0].algorithm + [|ss[0].bitmap|] + ss[0].bitmap;
      assert s == (pre + head) + (SelectionsBytes(ss[1..]) + post);
      assert s[|pre| + 2] == head[2] == |ss[0].bitmap|;
      SkipBack(pre + head, ss[1..], post);
    }
  }

  /** Parsing a serialized well-formed quote, with anything after it, returns that quote. */
  lemma ParseBack(f: Form, trailing: Bytes)
    requires FormOk(f)
    ensures Parse(FormBytes(f) + trailing)
         == Some(Quote(Be32(f.magic, 0), Be16(f.attestType, 0), f.qualifying, f.digest, FormBytes(f) + trailing))
  {
    hide Be16, Be32, Put16, Put32, Read2B, SkipSelections, SelectionsBytes, Sized;
    var s := FormBytes(f) + trailing;
    var n := |f.selections|;
    var t6 := Sized(f.digest) + trailing;
    var t5 := SelectionsBytes(f.selections) + t6;
    var t4 := Put32(n) + t5;
    var t3 := f.clock + t4;
    var t2 := Sized(f.qualifying) + t3;
    var t1 := Sized(f.signer) + t2;
    var p1 := f.magic + f.attestType;
    var p2 := p1 + Sized(f.signer);
    var p3 := p2 + Sized(f.qualifying);
    var p4 := p3 + f.clock;
    var p5 := p4 + Put32(n);
    var p6 := p5 + SelectionsBytes(f.selections);
    assert s == p1 + t1;
    assert s == p2 + t2;
    assert s == p3 + t3;
    assert s == p4 + t4;
    assert s == p5 + t5;
    assert s == p6 + t6;
    Read2BBack(p1, f.signer, t2);
    Read2BBack(p2, f.qualifying, t3);
    Read32Back(p4, n, t5);
    SkipBack(p5, f.selections, t6);
    Read2BBack(p6, f.digest, trailing);
    SameHead(s, f);
  }

  lemma SameHead(s: Bytes, f: Form)
    requires |s| >= 6 && |f.magic| == 4 && |f.attestType| == 2 && f.magic + f.attestType <= s
    ensures Be32(s, 0) == Be32(f.magic, 0) && Be16(s, 4) == Be16(f.attestType, 0)
  {
    var h := f.magic + f.attestType;
    assert forall i | 0 <= i < 6 :: s[i] == h[i];
  }

  // Conversely, whatever parses has this layout.

  lemma PutBack16(b: Bytes, i: nat)
    requires i + 2 <= |b|
    ensures Put16(Be16(b, i)) == b[i..i + 2]
  {
    var x: int, y: int := b[i], b[i + 1];
    assert (x * 256 + y) / 256 == x && (x * 256 + y) % 256 == y;
  }

  lemma PutBack32(b: Bytes, i: nat)
    requires i + 4 <= |b|
    ensures Put32(Be32(b, i)) == b[i..i + 4]
  {
    hide Be16, Put16;
    PutBack16(b, i);
    PutBack16(b, i + 2);
    var x, y := Be16(b, i), Be16(b, i + 2);
    assert (x * 0x10000 + y) / 0x10000 == x && (x * 0x10000 + y) % 0x10000 == y;
    assert b[i..i + 2] + b[i + 2..i + 4] == b[i..i + 4];
  }

  lemma Sized2B(b: Bytes, pos: nat)
    requires Read2B(b, pos).Some?
    ensures |Read2B(b, pos).value.0| < 0x10000 && Sized(Read2B(b, pos).value.0) == b[pos..Read2B(b, pos).value.1]
  {
    hide Be16, Put16;
    PutBack16(b, pos);
    var x, e := Read2B(b, pos).value.0, Read2B(b, pos).value.1;
    assert b[pos..pos + 2] + b[pos + 2..e] == b[pos..e];
  }

  lemma {:induction false} SelectionsAt(b: Bytes, pos: nat, count: nat, end: nat) returns (ss: seq<Selection>)
    requires SkipSelections(b, pos, count) == Some(end) && end <= |b|
    ensures |ss| == count && forall i | 0 <= i < count :: |ss[i].algorithm| == 2 && |ss[i].bitmap| < 256
    ensures pos <= end && SelectionsBytes(ss) == b[pos..end]
    decreases count
  {
    if count == 0 {
      ss := [];
    } else {
      var next := pos + 3 + b[pos + 2];
      var rest := SelectionsAt(b, next, count - 1, end);
      var s := Selection(b[pos..pos + 2], b[pos + 3..next]);
      ss := [s] + rest;
      assert ss[1..] == rest;
      assert s.algorithm + [|s.bitmap|] + s.bitmap == b[pos..next];
      assert b[pos..next] + b[next..end] == b[pos..end];
    }
  }

  /** Every blob that parses is a well-formed quote followed by arbitrary bytes, and the parsed fields are
      the fields of that quote. */
  lemma ParsedIsLayout(b: Bytes) returns (f: Form, trailing: Bytes)
    requires Parse(b).Some?
    ensures FormOk(f) && b == FormBytes(f) + trailing
    ensures Parse(b).value == Quote(Be32(f.magic, 0), Be16(f.attestType, 0), f.qualifying, f.digest, b)
  {
    hide Be16, Be32, Put16, Put32, Read2B, SkipSelections, SelectionsBytes, Sized, FormBytes;
    var r1 := Read2B(b, 6).value;
    var r2 := Read2B(b, r1.1).value;
    var p3 := r2.1 + CLOCK_AND_FIRMWARE;
    var count := Be32(b, p3);
    var p4 := SkipSelections(b, p3 + 4, count).value;
    var r4 := Read2B(b, p4).value;
    Sized2B(b, 6);
    Sized2B(b, r1.1);
    PutBack32(b, p3);
    var ss := SelectionsAt(b, p3 + 4, count, p4);
    Sized2B(b, p4);
    f := Form(b[..4], b[4..6], r1.0, r2.0, b[r2.1..p3], ss, r4.0);
    trailing := b[r4.1..];
    SlicesAreLayout(b, f, r1.1, r2.1, p3, p4, r4.1);
    SameHead(b, f);
  }

  /** Neighbouring slices that hold the fields of a quote are its bytes. */
  lemma SlicesAreLayout(b: Bytes, f: Form, p1: nat, p2: nat, p3: nat, p4: nat, p5: nat)
    requires FormOk(f) && 6 <= p1 <= p2 <= p3 <= p3 + 4 <= p4 <= p5 <= |b|
    requires f.magic == b[..4] && f.attestType == b[4..6] && f.clock == b[p2..p3]
    requires Sized(f.signer) == b[6..p1] && Sized(f.qualifying) == b[p1..p2] && Sized(f.digest) == b[p4..p5]
    requires Put32(|f.selections|) == b[p3..p3 + 4] && SelectionsBytes(f.selections) == b[p3 + 4..p4]
    ensures b == FormBytes(f) + b[p5..]
  {
    hide Put32, SelectionsBytes, Sized, FormBytes, FormOk;
    JoinSlices(b, 4, 6, p1, p2, p3, p3 + 4, p4, p5);
    FormBytesBefore(f, b[p5..]);
  }

  lemma Cut(b: Bytes, i: nat, j: nat)
    requires i <= j <= |b|
    ensures b[i..] == b[i..j] + b[j..]
  {
  }

  lemma JoinSlices(s: Bytes, a: nat, b: nat, c: nat, d: nat, e: nat, f: nat, g: nat, h: nat)
    requires a <= b <= c <= d <= e <= f <= g <= h <= |s|
    ensures s == s[..a] + (s[a..b] + (s[b..c] + (s[c..d] + (s[d..e] + (s[e..f] + (s[f..g] + (s[g..h] + s[h..])))))))
  {
    assert s == s[..a] + s[a..];
    Cut(s, a, b);
    Cut(s, b, c);
    Cut(s, c, d);
    Cut(s, d, e);
    Cut(s, e, f);
    Cut(s, f, g);
    Cut(s, g, h);
  }

  lemma Assoc(x: Bytes, y: Bytes, z: Bytes)
    ensures x + y + z == x + (y + z)
  {
  }

  /** A quote followed by more bytes, field by field. */
  lemma FormBytesBefore(f: Form, trailing: Bytes)
    requires FormOk(f)
    ensures FormBytes(f) + trailing ==
            f.magic + (f.attestType + (Sized(f.signer) + (Sized(f.qualifying) + (f.clock
              + (Put32(|f.selections|) + (SelectionsBytes(f.selections) + (Sized(f.digest) + trailing)))))))
  {
    hide Put32, SelectionsBytes, Sized;
    var t7 := Sized(f.digest);
    var t6 := SelectionsBytes(f.selections) + t7;
    var t5 := Put32(|f.selections|) + t6;
    var t4 := f.clock + t5;
    var t3 := Sized(f.qualifying) + t4;
    var t2 := Sized(f.signer) + t3;
    Assoc(SelectionsBytes(f.selections), t7, trailing);
    Assoc(Put32(|f.selections|), t6, trailing);
    Assoc(f.clock, t5, trailing);
    Assoc(Sized(f.qualifying), t4, trailing);
    Assoc(Sized(f.signer), t3, trailing);
    Assoc(f.attestType, t2, trailing);
    Assoc(f.magic, f.attestType + t2, trailing);
  }
}

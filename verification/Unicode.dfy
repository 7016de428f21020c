/** UTF-8, UTF-16 and the two string orders the program sorts by. */
module Unicode {
  import opened Basics

  // ---------------------------------------------------------------- UTF-8

  function Utf8Char(c: char): (b: Bytes)
    ensures 1 <= |b| <= 4
  {
    var v := c as int;
    if v < 0x80 then [v]
    else if v < 0x800 then [0xC0 + v / 64, 0x80 + v % 64]
    else if v < 0x10000 then [0xE0 + v / 4096, 0x80 + v / 64 % 64, 0x80 + v % 64]
    else [0xF0 + v / 262144, 0x80 + v / 4096 % 64, 0x80 + v / 64 % 64, 0x80 + v % 64]
  }

  /** `str.encode("utf-8")` on a string of Unicode scalar values. */
  function Utf8(s: string): (b: Bytes)
  {
    if s == "" then [] else Utf8Char(s[0]) + Utf8(s[1..])
  }

  predicate IsContinuation(b: Bytes, i: nat) {
    i < |b| && 0x80 <= b[i] < 0xC0
  }

  predicate IsScalar(v: int) {
    0 <= v < 0xD800 || 0xE000 <= v < 0x110000
  }

  /** One strictly decoded character and its width; overlong forms and surrogates are refused. */
  function DecodeChar(b: Bytes): (r: Option<(char, nat)>)
    requires b != []
    ensures r.Some? ==> 1 <= r.value.1 <= |b|
  {
    if b[0] < 0x80 then Some((b[0] as char, 1))
    else if 0xC0 <= b[0] < 0xE0 && IsContinuation(b, 1) then
      var x: int, y: int := b[0] - 0xC0, b[1] - 0x80;
      var v := x * 64 + y;
      if 0x80 <= v then Some((v as char, 2)) else None
    else if 0xE0 <= b[0] < 0xF0 && IsContinuation(b, 1) && IsContinuation(b, 2) then
      var x: int, y: int, z: int := b[0] - 0xE0, b[1] - 0x80, b[2] - 0x80;
      var v := x * 4096 + y * 64 + z;
      if 0x800 <= v && IsScalar(v) then Some((v as char, 3)) else None
    else if 0xF0 <= b[0] < 0xF8 && IsContinuation(b, 1) && IsContinuation(b, 2) && IsContinuation(b, 3) then
      var w: int, x: int, y: int, z: int := b[0] - 0xF0, b[1] - 0x80, b[2] - 0x80, b[3] - 0x80;
      var v := w * 262144 + x * 4096 + y * 64 + z;
      if 0x10000 <= v && IsScalar(v) then Some((v as char, 4)) else None
    else None
  }

  /** `bytes.decode("utf-8")`; None stands for UnicodeDecodeError. */
  function Utf8Decode(b: Bytes): (r: Option<string>)
    decreases |b|
  {
    if b == [] then Some("")
    else
      match DecodeChar(b)
      case None => None
      case Some((c, n)) =>
        match Utf8Decode(b[n..])
        case None => None
        case Some(rest) => Some([c] + rest)
  }

  lemma DecodeCharOfEncoded(c: char, rest: Bytes)
    ensures DecodeChar(Utf8Char(c) + rest) == Some((c, |Utf8Char(c)|))
  {
    hide DecodeChar;
    var v, b := c as int, Utf8Char(c) + rest;
    assert forall i | 0 <= i < |Utf8Char(c)| :: b[i] == Utf8Char(c)[i];
    Base64Digits(v);
    if v < 0x80 {
      DecodeOne(b, v);
    } else if v < 0x800 {
      DecodeTwo(b, v / 64, v % 64);
    } else if v < 0x10000 {
      DecodeThree(b, v / 4096, v / 64 % 64, v % 64);
    } else {
      DecodeFour(b, v / 262144, v / 4096 % 64, v / 64 % 64, v % 64);
    }
    assert v as char == c;
  }

  lemma Base64Digits(v: int)
    requires 0 <= v < 0x110000
    ensures v == v / 64 * 64 + v % 64
    ensures v == v / 4096 * 4096 + v / 64 % 64 * 64 + v % 64
    ensures v == v / 262144 * 262144 + v / 4096 % 64 * 4096 + v / 64 % 64 * 64 + v % 64
    ensures v < 0x800 ==> v / 64 < 32
    ensures v < 0x10000 ==> v / 4096 < 16
    ensures v / 262144 < 8
  {
    assert v / 64 == v / 4096 * 64 + v / 64 % 64;
    assert v / 4096 == v / 262144 * 64 + v / 4096 % 64;
  }

  lemma DecodeOne(b: Bytes, v: int)
    requires b != [] && 0 <= v < 0x80 && b[0] == v
    ensures DecodeChar(b) == Some((v as char, 1))
  {
  }

  lemma DecodeTwo(b: Bytes, x: int, y: int)
    requires |b| >= 2 && 0 <= x < 32 && 0 <= y < 64 && b[0] == 0xC0 + x && b[1] == 0x80 + y && x * 64 + y >= 0x80
    ensures DecodeChar(b) == Some(((x * 64 + y) as char, 2))
  {
  }

  lemma DecodeThree(b: Bytes, x: int, y: int, z: int)
    requires |b| >= 3 && 0 <= x < 16 && 0 <= y < 64 && 0 <= z < 64
    requires b[0] == 0xE0 + x && b[1] == 0x80 + y && b[2] == 0x80 + z
    requires var v := x * 4096 + y * 64 + z; v >= 0x800 && IsScalar(v)
    ensures DecodeChar(b) == Some(((x * 4096 + y * 64 + z) as char, 3))
  {
  }

  lemma DecodeFour(b: Bytes, w: int, x: int, y: int, z: int)
    requires |b| >= 4 && 0 <= w < 8 && 0 <= x < 64 && 0 <= y < 64 && 0 <= z < 64
    requires b[0] == 0xF0 + w && b[1] == 0x80 + x && b[2] == 0x80 + y && b[3] == 0x80 + z
    requires var v := w * 262144 + x * 4096 + y * 64 + z; v >= 0x10000 && IsScalar(v)
    ensures DecodeChar(b) == Some(((w * 262144 + x * 4096 + y * 64 + z) as char, 4))
  {
  }

  /** Conversely, a strictly decoded character was encoded in exactly the bytes it was read from. */
  lemma EncodedOfDecodeChar(b: Bytes)
    requires b != [] && DecodeChar(b).Some?
    ensures var (c, n) := DecodeChar(b).value; Utf8Char(c) == b[..n]
  {
    if b[0] < 0x80 {
      assert b[..1] == [b[0]];
    } else if b[0] < 0xE0 {
      var x: int, y: int := b[0] - 0xC0, b[1] - 0x80;
      EncodeTwo(x, y);
      assert b[..2] == [b[0], b[1]];
    } else if b[0] < 0xF0 {
      var x: int, y: int, z: int := b[0] - 0xE0, b[1] - 0x80, b[2] - 0x80;
      EncodeThree(x, y, z);
      assert b[..3] == [b[0], b[1], b[2]];
    } else {
      var w: int, x: int, y: int, z: int := b[0] - 0xF0, b[1] - 0x80, b[2] - 0x80, b[3] - 0x80;
      EncodeFour(w, x, y, z);
      assert b[..4] == [b[0], b[1], b[2], b[3]];
    }
  }

  lemma EncodeTwo(x: int, y: int)
    requires 0 <= x < 32 && 0 <= y < 64 && x * 64 + y >= 0x80
    ensures Utf8Char((x * 64 + y) as char) == [0xC0 + x, 0x80 + y]
  {
    var v := x * 64 + y;
    assert v / 64 == x && v % 64 == y;
  }

  lemma EncodeThree(x: int, y: int, z: int)
    requires 0 <= x < 16 && 0 <= y < 64 && 0 <= z < 64
    requires var v := x * 4096 + y * 64 + z; v >= 0x800 && IsScalar(v)
    ensures Utf8Char((x * 4096 + y * 64 + z) as char) == [0xE0 + x, 0x80 + y, 0x80 + z]
  {
    var v := x * 4096 + y * 64 + z;
    assert v / 64 == x * 64 + y && v % 64 == z;
    assert v / 64 % 64 == y && v / 4096 == x;
  }

  lemma EncodeFour(w: int, x: int, y: int, z: int)
    requires 0 <= w < 8 && 0 <= x < 64 && 0 <= y < 64 && 0 <= z < 64
    requires var v := w * 262144 + x * 4096 + y * 64 + z; v >= 0x10000 && IsScalar(v)
    ensures Utf8Char((w * 262144 + x * 4096 + y * 64 + z) as char) == [0xF0 + w, 0x80 + x, 0x80 + y, 0x80 + z]
  {
    var v := w * 262144 + x * 4096 + y * 64 + z;
    assert v / 64 == w * 4096 + x * 64 + y && v % 64 == z;
    assert v / 64 % 64 == y && v / 4096 == w * 64 + x;
    assert v / 4096 % 64 == x && v / 262144 == w;
  }

  /** Encoding undoes strict decoding: a byte string decodes to `s` exactly when it is the encoding of `s`. */
  lemma {:induction false} Utf8DecodeIff(b: Bytes, s: string)
    ensures Utf8Decode(b) == Some(s) <==> b == Utf8(s)
    decreases |b|
  {
    hide DecodeChar, Utf8Char;
    Utf8RoundTrip(s);
    if Utf8Decode(b) == Some(s) && b != [] {
      EncodedOfDecodeChar(b);
      var (c, n) := DecodeChar(b).value;
      Utf8DecodeIff(b[n..], s[1..]);
      assert s[0] == c && b == b[..n] + b[n..];
    }
  }

  lemma {:induction false} AsciiIsItself(s: string)
    requires forall i | 0 <= i < |s| :: s[i] < 128 as char
    ensures |Utf8(s)| == |s| && forall i | 0 <= i < |s| :: Utf8(s)[i] == s[i] as int
  {
    if s != "" {
      AsciiIsItself(s[1..]);
    }
  }

  lemma {:induction false} Utf8Concat(a: string, b: string)
    ensures Utf8(a + b) == Utf8(a) + Utf8(b)
  {
    hide Utf8Char;
    if a == "" {
      assert a + b == b;
    } else {
      assert (a + b)[1..] == a[1..] + b;
      Utf8Concat(a[1..], b);
    }
  }

  /** Strict decoding undoes encoding for every string. */
  lemma {:induction false} Utf8RoundTrip(s: string)
    ensures Utf8Decode(Utf8(s)) == Some(s)
  {
    if s != "" {
      var head, tail := Utf8Char(s[0]), Utf8(s[1..]);
      DecodeCharOfEncoded(s[0], tail);
      assert (head + tail)[|head|..] == tail;
      Utf8RoundTrip(s[1..]);
      assert [s[0]] + s[1..] == s;
    }
  }

  lemma Utf8Injective(a: string, b: string)
    requires Utf8(a) == Utf8(b)
    ensures a == b
  {
    Utf8RoundTrip(a);
    Utf8RoundTrip(b);
  }

  // ---------------------------------------------------------------- UTF-16

  /** The UTF-16 code units of one character. */
  function Units(c: char): (u: seq<int>)
    ensures 1 <= |u| <= 2
    ensures forall i | 0 <= i < |u| :: 0 <= u[i] < 0x10000
  {
    var v := c as int;
    if v < 0x10000 then [v]
    else [0xD800 + (v - 0x10000) / 1024, 0xDC00 + (v - 0x10000) % 1024]
  }

  function CodeUnits(s: string): (u: seq<int>)
    ensures forall i | 0 <= i < |u| :: 0 <= u[i] < 0x10000
  {
    if s == "" then [] else Units(s[0]) + CodeUnits(s[1..])
  }

  /** Big-endian bytes of a sequence of 16-bit units. */
  function BigEndian16(u: seq<int>): (b: seq<int>)
    requires forall i | 0 <= i < |u| :: 0 <= u[i] < 0x10000
    ensures |b| == 2 * |u|
  {
    if u == [] then [] else [u[0] / 256, u[0] % 256] + BigEndian16(u[1..])
  }

  /** `str.encode("utf-16-be")`. */
  function Utf16Be(s: string): (b: seq<int>)
  {
    BigEndian16(CodeUnits(s))
  }

  lemma {:induction false} CodeUnitsInjective(a: string, b: string)
    requires CodeUnits(a) == CodeUnits(b)
    ensures a == b
  {
    if a == "" || b == "" {
    } else {
      var u, v := CodeUnits(a), CodeUnits(b);
      assert u[0] == Units(a[0])[0] && v[0] == Units(b[0])[0];
      assert 0xD800 <= u[0] < 0xDC00 <==> |Units(a[0])| == 2;
      assert 0xD800 <= v[0] < 0xDC00 <==> |Units(b[0])| == 2;
      assert |Units(a[0])| == 2 ==> u[1] == Units(a[0])[1] && v[1] == Units(b[0])[1];
      assert a[0] == b[0];
      assert u[|Units(a[0])|..] == CodeUnits(a[1..]);
      assert v[|Units(b[0])|..] == CodeUnits(b[1..]);
      CodeUnitsInjective(a[1..], b[1..]);
      assert a == [a[0]] + a[1..] && b == [b[0]] + b[1..];
    }
  }

  // ---------------------------------------------------------------- order

  /** The lexicographic order Python uses on strings and on bytes. */
  predicate LexLess(a: seq<int>, b: seq<int>) {
    if b == [] then false
    else if a == [] then true
    else a[0] < b[0] || (a[0] == b[0] && LexLess(a[1..], b[1..]))
  }

  lemma {:induction false} LexTotal(a: seq<int>, b: seq<int>)
    ensures a == b || LexLess(a, b) || LexLess(b, a)
  {
    if a != [] && b != [] && a[0] == b[0] {
      LexTotal(a[1..], b[1..]);
      assert a == [a[0]] + a[1..] && b == [b[0]] + b[1..];
    }
  }

  lemma {:induction false} LexIrreflexive(a: seq<int>)
    ensures !LexLess(a, a)
  {
    if a != [] {
      LexIrreflexive(a[1..]);
    }
  }

  lemma {:induction false} LexTransitive(a: seq<int>, b: seq<int>, c: seq<int>)
    requires LexLess(a, b) && LexLess(b, c)
    ensures LexLess(a, c)
  {
    if a != [] && a[0] == b[0] == c[0] {
      LexTransitive(a[1..], b[1..], c[1..]);
    }
  }

  /** Comparing UTF-16-BE bytes is comparing UTF-16 code units, as RFC 8785 section 3.2.3 asks. */
  lemma {:induction false} BigEndianKeepsOrder(u: seq<int>, v: seq<int>)
    requires forall i | 0 <= i < |u| :: 0 <= u[i] < 0x10000
    requires forall i | 0 <= i < |v| :: 0 <= v[i] < 0x10000
    ensures LexLess(BigEndian16(u), BigEndian16(v)) <==> LexLess(u, v)
  {
    if u != [] && v != [] {
      BigEndianKeepsOrder(u[1..], v[1..]);
      var x, y := BigEndian16(u), BigEndian16(v);
      assert x[1..][1..] == BigEndian16(u[1..]) && y[1..][1..] == BigEndian16(v[1..]);
      assert x[1..][0] == u[0] % 256 && y[1..][0] == v[0] % 256;
      assert u[0] == 256 * (u[0] / 256) + u[0] % 256 && v[0] == 256 * (v[0] / 256) + v[0] % 256;
    }
  }

  /** `Keys` is the order of object keys, `Text` the order of `sorted` on strings. */
  datatype Collation = Keys | Text

  function CodePoints(s: string): (u: seq<int>)
    ensures |u| == |s|
  {
    seq(|s|, i requires 0 <= i < |s| => s[i] as int)
  }

  function SortKey(o: Collation, s: string): (k: seq<int>)
  {
    match o
    case Keys => Utf16Be(s)
    case Text => CodePoints(s)
  }

  predicate Before(o: Collation, a: string, b: string) {
    LexLess(SortKey(o, a), SortKey(o, b))
  }

  lemma {:induction false} BigEndianInjective(u: seq<int>, v: seq<int>)
    requires forall i | 0 <= i < |u| :: 0 <= u[i] < 0x10000
    requires forall i | 0 <= i < |v| :: 0 <= v[i] < 0x10000
    requires BigEndian16(u) == BigEndian16(v)
    ensures u == v
  {
    if u != [] && v != [] {
      var x, y := BigEndian16(u), BigEndian16(v);
      assert x[0] == y[0] && x[1] == y[1];
      assert u[0] == 256 * (u[0] / 256) + u[0] % 256 && v[0] == 256 * (v[0] / 256) + v[0] % 256;
      assert x[2..] == BigEndian16(u[1..]) && y[2..] == BigEndian16(v[1..]);
      BigEndianInjective(u[1..], v[1..]);
      assert u == [u[0]] + u[1..] && v == [v[0]] + v[1..];
    }
  }

  lemma SortKeyInjective(o: Collation, a: string, b: string)
    requires SortKey(o, a) == SortKey(o, b)
    ensures a == b
  {
    match o
    case Keys =>
      BigEndianInjective(CodeUnits(a), CodeUnits(b));
      CodeUnitsInjective(a, b);
    case Text =>
      forall i | 0 <= i < |a|
        ensures a[i] == b[i]
      {
        assert CodePoints(a)[i] == CodePoints(b)[i];
      }
  }

  lemma BeforeTotal(o: Collation, a: string, b: string)
    ensures a == b || Before(o, a, b) || Before(o, b, a)
  {
    LexTotal(SortKey(o, a), SortKey(o, b));
    if SortKey(o, a) == SortKey(o, b) {
      SortKeyInjective(o, a, b);
    }
  }

  lemma BeforeStrict(o: Collation, a: string, b: string)
    requires Before(o, a, b)
    ensures a != b && !Before(o, b, a)
  {
    LexIrreflexive(SortKey(o, a));
    if Before(o, b, a) {
      LexTransitive(SortKey(o, a), SortKey(o, b), SortKey(o, a));
    }
  }

  predicate Ascending(o: Collation, s: seq<string>) {
    forall i, j | 0 <= i < j < |s| :: Before(o, s[i], s[j])
  }

  predicate IsLeast(o: Collation, x: string, s: set<string>) {
    x in s && forall y | y in s && y != x :: Before(o, x, y)
  }

  lemma {:induction false} LeastExists(o: Collation, s: set<string>) returns (x: string)
    requires s != {}
    ensures IsLeast(o, x, s)
  {
    var a :| a in s;
    if s == {a} {
      return a;
    }
    var b := LeastExists(o, s - {a});
    BeforeTotal(o, a, b);
    if Before(o, a, b) {
      x := a;
      forall y | y in s && y != a
        ensures Before(o, a, y)
      {
        if y != b {
          assert y in s - {a};
          LexTransitive(SortKey(o, a), SortKey(o, b), SortKey(o, y));
        }
      }
    } else {
      x := b;
    }
  }

  lemma LeastUnique(o: Collation, x: string, y: string, s: set<string>)
    requires IsLeast(o, x, s) && IsLeast(o, y, s)
    ensures x == y
  {
    if x != y {
      BeforeStrict(o, x, y);
    }
  }

  lemma LeastWellDefined(o: Collation, s: set<string>)
    requires s != {}
    ensures exists x :: IsLeast(o, x, s)
    ensures forall y, z | IsLeast(o, y, s) && IsLeast(o, z, s) :: y == z
  {
    var x := LeastExists(o, s);
    forall y, z | IsLeast(o, y, s) && IsLeast(o, z, s)
      ensures y == z
    {
      LeastUnique(o, y, z, s);
    }
  }

  function Least(o: Collation, s: set<string>): (x: string)
    requires s != {}
    ensures IsLeast(o, x, s)
  {
    LeastWellDefined(o, s);
    var x :| IsLeast(o, x, s);
    x
  }

  /** The elements of `s`, each once, in ascending order. */
  function Sorted(o: Collation, s: set<string>): (l: seq<string>)
    ensures Ascending(o, l)
    ensures forall x :: x in l <==> x in s
    ensures |l| == |s|
  {
    if s == {} then []
    else
      var x := Least(o, s);
      var rest := Sorted(o, s - {x});
      LeastFirst(o, x, s, rest);
      [x] + rest
  }

  lemma LeastFirst(o: Collation, x: string, s: set<string>, rest: seq<string>)
    requires IsLeast(o, x, s) && Ascending(o, rest) && |rest| == |s - {x}|
    requires forall y :: y in rest <==> y in s - {x}
    ensures Ascending(o, [x] + rest) && |[x] + rest| == |s|
    ensures forall y :: y in [x] + rest <==> y in s
  {
    hide Before;
    var l := [x] + rest;
    forall i, j | 0 <= i < j < |l|
      ensures Before(o, l[i], l[j])
    {
      if i == 0 {
        assert rest[j - 1] in s - {x};
      }
    }
    assert |s - {x}| == |s| - 1;
  }

  /** An ascending list is determined by its elements: sorting has one possible outcome. */
  lemma {:induction false} AscendingUnique(o: Collation, a: seq<string>, b: seq<string>)
    requires Ascending(o, a) && Ascending(o, b)
    requires forall x :: x in a <==> x in b
    ensures a == b
  {
    assert |b| > 0 ==> b[0] in a;
    if a != [] {
      assert a[0] in b;
      var i :| 0 <= i < |a| && a[i] == b[0];
      var j :| 0 <= j < |b| && b[j] == a[0];
      if a[0] != b[0] {
        assert Before(o, a[0], b[0]) && Before(o, b[0], a[0]);
        BeforeStrict(o, a[0], b[0]);
      }
      forall x
        ensures x in a[1..] <==> x in b[1..]
      {
        TailMembers(o, a, x);
        TailMembers(o, b, x);
      }
      AscendingUnique(o, a[1..], b[1..]);
      assert a == [a[0]] + a[1..] && b == [b[0]] + b[1..];
    }
  }

  lemma TailMembers(o: Collation, a: seq<string>, x: string)
    requires a != [] && Ascending(o, a)
    ensures x in a[1..] <==> x in a && x != a[0]
  {
    assert a == [a[0]] + a[1..];
    if x in a[1..] {
      var i :| 0 <= i < |a[1..]| && a[1..][i] == x;
      BeforeStrict(o, a[0], a[i + 1]);
    }
  }

  /** Keys that start with different ASCII letters are ordered by those letters. */
  lemma FirstLetterOrders(a: string, b: string)
    requires a != "" && b != "" && a[0] < b[0] < 128 as char
    ensures Before(Keys, a, b)
  {
    hide BigEndian16;
    var u, v := CodeUnits(a), CodeUnits(b);
    assert u[0] == a[0] as int && v[0] == b[0] as int;
    BigEndianKeepsOrder(u, v);
  }

  lemma FirstLettersAscend(l: seq<string>)
    requires forall i | 0 <= i < |l| :: l[i] != "" && l[i][0] < 128 as char
    requires forall i, j | 0 <= i < j < |l| :: l[i][0] < l[j][0]
    ensures Ascending(Keys, l)
  {
    hide Before;
    forall i, j | 0 <= i < j < |l|
      ensures Before(Keys, l[i], l[j])
    {
      FirstLetterOrders(l[i], l[j]);
    }
  }

  // ---------------------------------------------------------------- the two orders, character by character

  /** `a` is a proper prefix of `b`, or at the first position where they differ `a` has the lesser character. */
  ghost predicate Precedes(a: string, b: string, less: (char, char) -> bool) {
    (|a| < |b| && a == b[..|a|]) || exists k :: LessFirstAt(a, b, less, k)
  }

  /** The texts agree before position `k` and differ there, with the lesser character in `a`. */
  ghost predicate LessFirstAt(a: string, b: string, less: (char, char) -> bool, k: int) {
    0 <= k < |a| && k < |b| && a[..k] == b[..k] && a[k] != b[k] && less(a[k], b[k])
  }

  /** The order of characters by code point. */
  function ByCodePoint(): (f: (char, char) -> bool)
  {
    (x: char, y: char) => x < y
  }

  /** The order of characters by UTF-16 code unit: characters beyond U+FFFF come after those below U+D800 and
      before those from U+E000 on; otherwise the order of code points. */
  function ByCodeUnit(): (f: (char, char) -> bool)
  {
    (x: char, y: char) =>
      if x as int >= 0x10000 && (y as int) < 0x10000 then y as int >= 0xE000
      else if (x as int) < 0x10000 && y as int >= 0x10000 then (x as int) < 0xD800
      else x < y
  }

  lemma SameFirst(a: string, b: string, less: (char, char) -> bool, k: int)
    requires a != "" && b != "" && a[0] == b[0]
    ensures !LessFirstAt(a, b, less, 0)
    ensures k >= 0 ==> (LessFirstAt(a, b, less, k + 1) <==> LessFirstAt(a[1..], b[1..], less, k))
  {
    if 0 <= k < |a| - 1 && k < |b| - 1 {
      assert a[..k + 1] == [a[0]] + a[1..][..k] && b[..k + 1] == [b[0]] + b[1..][..k];
      assert a[..k + 1][1..] == a[1..][..k] && b[..k + 1][1..] == b[1..][..k];
    }
  }

  lemma SamePrefix(a: string, b: string)
    requires a != "" && |a| < |b| && a[0] == b[0]
    ensures a == b[..|a|] <==> a[1..] == b[1..][..|a| - 1]
  {
    assert a == [a[0]] + a[1..] && b[..|a|] == [b[0]] + b[1..][..|a| - 1];
    assert b[..|a|][1..] == b[1..][..|a| - 1];
  }

  lemma OtherFirst(a: string, b: string, less: (char, char) -> bool, k: int)
    requires a != "" && b != "" && a[0] != b[0]
    ensures LessFirstAt(a, b, less, k) <==> k == 0 && less(a[0], b[0])
    ensures |a| < |b| ==> a != b[..|a|]
  {
    if 0 < k < |a| && k < |b| {
      assert a[..k][0] != b[..k][0];
    }
  }

  lemma PrecedesStep(a: string, b: string, less: (char, char) -> bool)
    requires a != "" && b != ""
    ensures Precedes(a, b, less) <==> if a[0] == b[0] then Precedes(a[1..], b[1..], less) else less(a[0], b[0])
  {
    hide LessFirstAt;
    if a[0] == b[0] {
      if |a| < |b| {
        SamePrefix(a, b);
      }
      if k :| LessFirstAt(a, b, less, k) {
        SameFirst(a, b, less, k - 1);
        NotNegative(a, b, less, k);
        assert LessFirstAt(a[1..], b[1..], less, k - 1);
      }
      if k :| LessFirstAt(a[1..], b[1..], less, k) {
        NotNegative(a[1..], b[1..], less, k);
        SameFirst(a, b, less, k);
        assert LessFirstAt(a, b, less, k + 1);
      }
    } else {
      OtherFirst(a, b, less, 0);
      if k :| LessFirstAt(a, b, less, k) {
        OtherFirst(a, b, less, k);
      }
    }
  }

  lemma NotNegative(a: string, b: string, less: (char, char) -> bool, k: int)
    requires LessFirstAt(a, b, less, k)
    ensures k >= 0
  {
  }

  lemma PrecedesEnds(a: string, less: (char, char) -> bool)
    ensures !Precedes(a, "", less) && (a != "" ==> Precedes("", a, less))
  {
  }

  /** The `Text` collation is the order of strings by code point. */
  lemma {:induction false} TextOrder(a: string, b: string)
    ensures Before(Text, a, b) <==> Precedes(a, b, ByCodePoint())
  {
    hide Precedes;
    if a == "" || b == "" {
      PrecedesEnds(a, ByCodePoint());
      PrecedesEnds(b, ByCodePoint());
    } else {
      PrecedesStep(a, b, ByCodePoint());
      assert CodePoints(a)[1..] == CodePoints(a[1..]) && CodePoints(b)[1..] == CodePoints(b[1..]);
      TextOrder(a[1..], b[1..]);
    }
  }

  lemma {:induction false} LexSameStart(u: seq<int>, s: seq<int>, t: seq<int>)
    ensures LexLess(u + s, u + t) <==> LexLess(s, t)
  {
    if u == [] {
      assert u + s == s && u + t == t;
    } else {
      assert (u + s)[1..] == u[1..] + s && (u + t)[1..] == u[1..] + t;
      LexSameStart(u[1..], s, t);
    }
  }

  lemma UnitsApart(x: char, y: char, s: seq<int>, t: seq<int>)
    requires x != y
    ensures LexLess(Units(x) + s, Units(y) + t) <==> ByCodeUnit()(x, y)
  {
    var u, v := Units(x) + s, Units(y) + t;
    assert u[0] == Units(x)[0] && v[0] == Units(y)[0];
    var m, n := x as int - 0x10000, y as int - 0x10000;
    if m >= 0 && n >= 0 {
      assert m == m / 1024 * 1024 + m % 1024 && n == n / 1024 * 1024 + n % 1024;
      assert u[1..][0] == Units(x)[1] && v[1..][0] == Units(y)[1];
      assert u[0] == v[0] ==> (m < n <==> u[1..][0] < v[1..][0]);
      assert u[0] != v[0] ==> (m < n <==> u[0] < v[0]);
    } else {
      assert u[0] != v[0];
    }
  }

  /** The `Keys` collation is the order of strings by UTF-16 code unit. */
  lemma {:induction false} KeyOrderMeans(a: string, b: string)
    ensures LexLess(CodeUnits(a), CodeUnits(b)) <==> Precedes(a, b, ByCodeUnit())
  {
    hide Precedes, Units, ByCodeUnit;
    if a == "" || b == "" {
      PrecedesEnds(a, ByCodeUnit());
      PrecedesEnds(b, ByCodeUnit());
    } else {
      PrecedesStep(a, b, ByCodeUnit());
      if a[0] == b[0] {
        LexSameStart(Units(a[0]), CodeUnits(a[1..]), CodeUnits(b[1..]));
        KeyOrderMeans(a[1..], b[1..]);
      } else {
        UnitsApart(a[0], b[0], CodeUnits(a[1..]), CodeUnits(b[1..]));
      }
    }
  }
}

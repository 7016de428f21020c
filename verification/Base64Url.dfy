/** Unpadded base64url (transport/_b64url.py), section 5 of RFC 4648. */
module Base64Url {
  import opened Basics

  function Symbol(v: int): (c: char)
    requires 0 <= v < 64
  {
    if v < 26 then (65 + v) as char
    else if v < 52 then (71 + v) as char
    else if v < 62 then (v - 4) as char
    else if v == 62 then '-'
    else '_'
  }

  function Value(c: char): (v: Option<int>)
    ensures v.Some? ==> 0 <= v.value < 64
  {
    if 'A' <= c <= 'Z' then Some(c as int - 65)
    else if 'a' <= c <= 'z' then Some(c as int - 71)
    else if '0' <= c <= '9' then Some(c as int + 4)
    else if c == '-' then Some(62)
    else if c == '_' then Some(63)
    else None
  }

  lemma ValueOfSymbol(v: int)
    requires 0 <= v < 64
    ensures Value(Symbol(v)) == Some(v)
  {
  }

  lemma SymbolOfValue(c: char)
    requires Value(c).Some?
    ensures Symbol(Value(c).value) == c
  {
  }

  /** The regular expression `[A-Za-z0-9_-]+`. */
  predicate InAlphabet(s: string) {
    s != "" && forall i | 0 <= i < |s| :: Value(s[i]).Some?
  }

  predicate IsSextet(x: int) {
    0 <= x < 64
  }

  predicate AreSextets(v: seq<int>) {
    forall i | 0 <= i < |v| :: IsSextet(v[i])
  }

  function Split1(x: Byte): (v: seq<int>)
    ensures |v| == 2 && AreSextets(v)
  {
    [x / 4, x % 4 * 16]
  }

  function Split2(x: Byte, y: Byte): (v: seq<int>)
    ensures |v| == 3 && AreSextets(v)
  {
    [x / 4, x % 4 * 16 + y / 16, y % 16 * 4]
  }

  function Split3(x: Byte, y: Byte, z: Byte): (v: seq<int>)
    ensures |v| == 4 && AreSextets(v)
  {
    [x / 4, x % 4 * 16 + y / 16, y % 16 * 4 + z / 64, z % 64]
  }

  /** The six-bit groups of a byte string, the last one padded with zero bits. */
  function Sextets(b: Bytes): (v: seq<int>)
    ensures AreSextets(v) && |v| % 4 != 1 && (v == [] <==> b == [])
  {
    if b == [] then []
    else if |b| == 1 then Split1(b[0])
    else if |b| == 2 then Split2(b[0], b[1])
    else Split3(b[0], b[1], b[2]) + Sextets(b[3..])
  }

  function Symbols(v: seq<int>): (s: string)
    requires AreSextets(v)
    ensures |s| == |v| && forall i | 0 <= i < |s| :: s[i] == Symbol(v[i])
  {
    seq(|v|, i requires 0 <= i < |v| => Symbol(v[i]))
  }

  /** `b64url_encode`: base64url with its padding stripped. */
  function Encode(b: Bytes): (s: string)
  {
    Symbols(Sextets(b))
  }

  function Join2(p: int, q: int): (b: Bytes)
    requires IsSextet(p) && IsSextet(q)
    ensures |b| == 1
  {
    [p * 4 + q / 16]
  }

  function Join3(p: int, q: int, r: int): (b: Bytes)
    requires IsSextet(p) && IsSextet(q) && IsSextet(r)
    ensures |b| == 2
  {
    [p * 4 + q / 16, q % 16 * 16 + r / 4]
  }

  function Join4(p: int, q: int, r: int, s: int): (b: Bytes)
    requires IsSextet(p) && IsSextet(q) && IsSextet(r) && IsSextet(s)
    ensures |b| == 3
  {
    [p * 4 + q / 16, q % 16 * 16 + r / 4, r % 4 * 64 + s]
  }

  /** The bytes of whole groups; bits left over after the last whole byte are dropped, as the library does. */
  function Groups(v: seq<int>): (b: Bytes)
    requires AreSextets(v)
  {
    if |v| < 2 then []
    else if |v| == 2 then Join2(v[0], v[1])
    else if |v| == 3 then Join3(v[0], v[1], v[2])
    else Join4(v[0], v[1], v[2], v[3]) + Groups(v[4..])
  }

  function Values(s: string): (v: seq<int>)
    requires forall i | 0 <= i < |s| :: Value(s[i]).Some?
    ensures |v| == |s| && forall i | 0 <= i < |v| :: v[i] == Value(s[i]).value
  {
    seq(|s|, i requires 0 <= i < |s| => Value(s[i]).value)
  }

  /** `b64url_decode`; None is TransportError. The empty string and lengths 1 modulo 4 are refused. */
  function Decode(s: string): (r: Option<Bytes>)
  {
    if !InAlphabet(s) || |s| % 4 == 1 then None else Some(Groups(Values(s)))
  }

  /** Three bytes from the quotients and remainders their sextets are made of. */
  lemma BytesApart(x: Byte, y: Byte, z: Byte)
    ensures (x % 4 * 16 + y / 16) / 16 == x % 4 && (x % 4 * 16 + y / 16) % 16 == y / 16
    ensures (y % 16 * 4 + z / 64) / 4 == y % 16 && (y % 16 * 4 + z / 64) % 4 == z / 64
    ensures x % 4 * 16 / 16 == x % 4 && y % 16 * 4 / 4 == y % 16
    ensures x / 4 * 4 + x % 4 == x && y / 16 * 16 + y % 16 == y && z / 64 * 64 + z % 64 == z
  {
  }

  lemma Split2Facts(x: Byte, y: Byte)
    ensures var v := Split2(x, y); v[0] * 4 + v[1] / 16 == x && v[1] % 16 * 16 + v[2] / 4 == y
  {
    hide AreSextets;
    BytesApart(x, y, 0);
  }

  lemma Split3Facts(x: Byte, y: Byte, z: Byte)
    ensures var v := Split3(x, y, z);
            v[0] * 4 + v[1] / 16 == x && v[1] % 16 * 16 + v[2] / 4 == y && v[2] % 4 * 64 + v[3] == z
  {
    hide AreSextets;
    BytesApart(x, y, z);
  }

  lemma JoinSplit1(x: Byte)
    ensures var v := Split1(x); Join2(v[0], v[1]) == [x]
  {
    BytesApart(x, 0, 0);
  }

  lemma JoinSplit2(x: Byte, y: Byte)
    ensures var v := Split2(x, y); Join3(v[0], v[1], v[2]) == [x, y]
  {
    hide Split2, IsSextet;
    Split2Facts(x, y);
  }

  lemma JoinSplit3(x: Byte, y: Byte, z: Byte)
    ensures var v := Split3(x, y, z); Join4(v[0], v[1], v[2], v[3]) == [x, y, z]
  {
    hide Split3, IsSextet;
    Split3Facts(x, y, z);
  }

  lemma {:induction false} GroupsOfSextets(b: Bytes)
    ensures Groups(Sextets(b)) == b
  {
    hide Split1, Split2, Split3, Join2, Join3, Join4;
    if |b| == 1 {
      JoinSplit1(b[0]);
    } else if |b| == 2 {
      JoinSplit2(b[0], b[1]);
    } else if |b| >= 3 {
      JoinSplit3(b[0], b[1], b[2]);
      assert Sextets(b)[4..] == Sextets(b[3..]);
      GroupsOfSextets(b[3..]);
      assert b == [b[0], b[1], b[2]] + b[3..];
    }
  }

  lemma ValuesOfSymbols(v: seq<int>)
    requires AreSextets(v)
    ensures forall i | 0 <= i < |v| :: Value(Symbols(v)[i]) == Some(v[i])
    ensures Values(Symbols(v)) == v
  {
    hide Symbol, Value;
    forall i | 0 <= i < |v|
      ensures Value(Symbols(v)[i]) == Some(v[i])
    {
      ValueOfSymbol(v[i]);
    }
  }

  lemma SymbolsOfValues(s: string)
    requires forall i | 0 <= i < |s| :: Value(s[i]).Some?
    ensures AreSextets(Values(s)) && Symbols(Values(s)) == s
  {
    hide Symbol, Value;
    forall i | 0 <= i < |s|
      ensures Symbol(Values(s)[i]) == s[i]
    {
      SymbolOfValue(s[i]);
    }
  }

  /** Decoding undoes encoding exactly for the non-empty byte strings. */
  lemma DecodeEncode(b: Bytes)
    ensures Decode(Encode(b)) == if b == [] then None else Some(b)
  {
    hide Sextets, Groups, Symbol, Value;
    ValuesOfSymbols(Sextets(b));
    GroupsOfSextets(b);
  }

  /** The bits after the last whole byte are zero. */
  predicate NoStrayBits(v: seq<int>)
    requires AreSextets(v)
  {
    && (|v| % 4 == 2 ==> v[|v| - 1] % 16 == 0)
    && (|v| % 4 == 3 ==> v[|v| - 1] % 4 == 0)
  }

  /** A byte made of the last bits of one sextet and the first bits of the next gives both back. */
  lemma BitsApart(p: int, q: int, r: int, s: int)
    requires IsSextet(p) && IsSextet(q) && IsSextet(r) && IsSextet(s)
    ensures (p * 4 + q / 16) / 4 == p && (p * 4 + q / 16) % 4 == q / 16
    ensures (q % 16 * 16 + r / 4) / 16 == q % 16 && (q % 16 * 16 + r / 4) % 16 == r / 4
    ensures (r % 4 * 64 + s) / 64 == r % 4 && (r % 4 * 64 + s) % 64 == s
    ensures q / 16 * 16 + q % 16 == q && r / 4 * 4 + r % 4 == r
  {
  }

  /** The sextets of three bytes, given the quotients and remainders of the bytes. */
  lemma SplitParts(x: Byte, y: Byte, z: Byte, p: int, q: int, r: int, s: int)
    requires x / 4 == p && x % 4 * 16 + y / 16 == q && y % 16 * 4 + z / 64 == r && z % 64 == s
    ensures Split3(x, y, z) == [p, q, r, s]
  {
    hide AreSextets;
  }

  lemma SplitJoin4(p: int, q: int, r: int, s: int)
    requires IsSextet(p) && IsSextet(q) && IsSextet(r) && IsSextet(s)
    ensures var b := Join4(p, q, r, s); Split3(b[0], b[1], b[2]) == [p, q, r, s]
  {
    hide AreSextets, Split3;
    BitsApart(p, q, r, s);
    hide IsSextet;
    var b := Join4(p, q, r, s);
    SplitParts(b[0], b[1], b[2], p, q, r, s);
  }

  lemma SplitJoin3(p: int, q: int, r: int)
    requires IsSextet(p) && IsSextet(q) && IsSextet(r)
    ensures var b := Join3(p, q, r); Split2(b[0], b[1]) == [p, q, r / 4 * 4]
  {
    hide AreSextets;
    BitsApart(p, q, r, 0);
    hide IsSextet;
  }

  lemma SplitJoin2(p: int, q: int)
    requires IsSextet(p) && IsSextet(q)
    ensures var b := Join2(p, q); Split1(b[0]) == [p, q / 16 * 16]
  {
    hide AreSextets;
    BitsApart(p, q, 0, 0);
  }

  lemma LastTwo(p: int, q: int)
    requires IsSextet(p) && IsSextet(q)
    ensures Sextets(Join2(p, q)) == [p, q] <==> q % 16 == 0
  {
    hide Split1, Join2, AreSextets;
    SplitJoin2(p, q);
    assert q / 16 * 16 == q <==> q % 16 == 0;
    assert [p, q / 16 * 16][1] == q / 16 * 16 && [p, q][1] == q;
  }

  lemma LastThree(p: int, q: int, r: int)
    requires IsSextet(p) && IsSextet(q) && IsSextet(r)
    ensures Sextets(Join3(p, q, r)) == [p, q, r] <==> r % 4 == 0
  {
    hide Split2, Join3, AreSextets;
    SplitJoin3(p, q, r);
    assert r / 4 * 4 == r <==> r % 4 == 0;
    assert [p, q, r / 4 * 4][2] == r / 4 * 4 && [p, q, r][2] == r;
  }

  lemma TwoSextets(v: seq<int>)
    requires AreSextets(v) && |v| == 2
    ensures IsSextet(v[0]) && IsSextet(v[1]) && v == [v[0], v[1]]
    ensures Groups(v) == Join2(v[0], v[1]) && (NoStrayBits(v) <==> v[1] % 16 == 0)
  {
    hide IsSextet, Join2, Join3, Join4;
  }

  lemma ThreeSextets(v: seq<int>)
    requires AreSextets(v) && |v| == 3
    ensures IsSextet(v[0]) && IsSextet(v[1]) && IsSextet(v[2]) && v == [v[0], v[1], v[2]]
    ensures Groups(v) == Join3(v[0], v[1], v[2]) && (NoStrayBits(v) <==> v[2] % 4 == 0)
  {
    hide IsSextet, Join2, Join3, Join4;
  }

  lemma LastGroup(v: seq<int>)
    requires AreSextets(v) && 2 <= |v| <= 3
    ensures Sextets(Groups(v)) == v <==> NoStrayBits(v)
  {
    hide *;
    if |v| == 2 {
      TwoSextets(v);
      LastTwo(v[0], v[1]);
    } else {
      ThreeSextets(v);
      LastThree(v[0], v[1], v[2]);
    }
  }

  lemma SextetsStep(j: Bytes, rest: Bytes)
    requires |j| == 3
    ensures Sextets(j + rest) == Split3(j[0], j[1], j[2]) + Sextets(rest)
  {
    hide Split3;
    var b := j + rest;
    assert b[0] == j[0] && b[1] == j[1] && b[2] == j[2] && b[3..] == rest;
  }

  lemma GroupsStep(v: seq<int>)
    requires AreSextets(v) && |v| >= 4
    ensures Groups(v) == Join4(v[0], v[1], v[2], v[3]) + Groups(v[4..])
  {
    hide Join4;
  }

  lemma FirstGroup(v: seq<int>)
    requires AreSextets(v) && |v| >= 4
    ensures var j := Join4(v[0], v[1], v[2], v[3]);
            Split3(j[0], j[1], j[2]) == v[..4]
  {
    hide Split3, Join4, IsSextet;
    SplitJoin4(v[0], v[1], v[2], v[3]);
  }

  lemma PeelGroup(v: seq<int>)
    requires AreSextets(v) && |v| >= 4
    ensures Sextets(Groups(v)) == v[..4] + Sextets(Groups(v[4..]))
  {
    hide Sextets, Groups, Split3, Join4;
    FirstGroup(v);
    GroupsStep(v);
    SextetsStep(Join4(v[0], v[1], v[2], v[3]), Groups(v[4..]));
  }

  lemma StrayBitsOfTail(v: seq<int>)
    requires AreSextets(v) && |v| >= 4
    ensures AreSextets(v[4..]) && |v[4..]| % 4 == |v| % 4 && NoStrayBits(v[4..]) == NoStrayBits(v)
  {
  }

  lemma {:induction false} SextetsOfGroups(v: seq<int>)
    requires AreSextets(v) && |v| % 4 != 1
    ensures Sextets(Groups(v)) == v <==> NoStrayBits(v)
  {
    if |v| >= 4 {
      hide Sextets, Groups, NoStrayBits;
      PeelGroup(v);
      StrayBitsOfTail(v);
      SextetsOfGroups(v[4..]);
      PrependIff(v, Sextets(Groups(v[4..])));
    } else if |v| >= 2 {
      LastGroup(v);
    }
  }

  lemma PrependIff(v: seq<int>, t: seq<int>)
    requires |v| >= 4
    ensures v[..4] + t == v <==> t == v[4..]
  {
    assert v == v[..4] + v[4..];
    assert (v[..4] + t)[4..] == t;
  }

  /** Which texts are the encoding of what they decode to: those without stray bits. The decoder also
      accepts the others, so several texts can carry the same bytes. */
  lemma CanonicalTextIff(s: string)
    requires Decode(s).Some?
    ensures Encode(Decode(s).value) == s <==> NoStrayBits(Values(s))
  {
    hide Sextets, Groups, Symbol, Value, NoStrayBits;
    var v := Values(s);
    SymbolsOfValues(s);
    SextetsOfGroups(v);
    ValuesOfSymbols(Sextets(Groups(v)));
  }

  // ---------------------------------------------------------------- the standard's table and bit order

  const UPPER: string := "ABCDEFGHIJKLMNOPQRSTUVWXYZ"
  const LOWER: string := "abcdefghijklmnopqrstuvwxyz"
  const DIGITS: string := "0123456789"

  /** Table 2 of RFC 4648: each symbol is the one the standard lists for its value. */
  lemma SymbolIsTable(v: int)
    requires 0 <= v < 64
    ensures v < 26 ==> Symbol(v) == UPPER[v]
    ensures 26 <= v < 52 ==> Symbol(v) == LOWER[v - 26]
    ensures 52 <= v < 62 ==> Symbol(v) == DIGITS[v - 52]
    ensures v == 62 ==> Symbol(v) == '-'
    ensures v == 63 ==> Symbol(v) == '_'
  {
    if v < 26 {
      assert UPPER[v] == (65 + v) as char;
    } else if v < 52 {
      assert LOWER[v - 26] == (71 + v) as char;
    } else if v < 62 {
      assert DIGITS[v - 52] == (v - 4) as char;
    }
  }

  /** Four sextets, read as one number, are the three bytes read as one number: most significant bits first. */
  lemma GroupsKeepTheNumber(x: Byte, y: Byte, z: Byte)
    ensures var v := Split3(x, y, z);
            ((v[0] * 64 + v[1]) * 64 + v[2]) * 64 + v[3] == (x * 256 + y) * 256 + z
    ensures var v := Split2(x, y); (v[0] * 64 + v[1]) * 64 + v[2] == (x * 256 + y) * 4
    ensures var v := Split1(x); v[0] * 64 + v[1] == x * 16
  {
    hide AreSextets;
    assert x / 4 * 4 + x % 4 == x && y / 16 * 16 + y % 16 == y && z / 64 * 64 + z % 64 == z;
  }
}

/** JSON values and the RFC 8785 printer of canonical.py. */
module Canonical {
  import opened Basics
  import opened Unicode
  import opened Decimal

  /** A Python value as `json.loads` builds it: an object is a dict, so it is a map here. */
  datatype Json =
    | JNull
    | JBool(b: bool)
    | JInt(n: int)
    | JFloat(literal: string)
    | JStr(s: string)
    | JArr(items: seq<Json>)
    | JObj(fields: map<string, Json>)

  /** The two exception classes `canonicalize` raises on a JSON value. */
  datatype CanonError = ValueError | TypeError

  const MAX_SAFE_INTEGER: int := 9007199254740991

  predicate IsSafe(n: int) {
    -MAX_SAFE_INTEGER <= n <= MAX_SAFE_INTEGER
  }

  function HexDigit(d: int): (c: char)
    requires 0 <= d < 16
    ensures IsLowerHexDigit(c)
  {
    if d < 10 then (48 + d) as char else (87 + d) as char
  }

  /** The JCS form of one character: a short escape, `\u00xx`, or the character itself. */
  function EscapeChar(c: char): (e: string)
    ensures e != ""
  {
    if c == 8 as char then "\\b"
    else if c == '\t' then "\\t"
    else if c == '\n' then "\\n"
    else if c == 12 as char then "\\f"
    else if c == '\r' then "\\r"
    else if c == '"' then "\\\""
    else if c == '\\' then "\\\\"
    else if c < 0x20 as char then "\\u00" + [HexDigit(c as int / 16), HexDigit(c as int % 16)]
    else [c]
  }

  function EscapeChars(s: string): (e: string)
  {
    if s == "" then "" else EscapeChar(s[0]) + EscapeChars(s[1..])
  }

  function EscapedString(s: string): (e: string)
  {
    "\"" + EscapeChars(s) + "\""
  }

  lemma {:induction false} EscapeCharsSnoc(s: string, c: char)
    ensures EscapeChars(s + [c]) == EscapeChars(s) + EscapeChar(c)
  {
    if s == "" {
      assert s + [c] == [c];
    } else {
      EscapeCharsSnoc(s[1..], c);
      assert (s + [c])[1..] == s[1..] + [c];
    }
  }

  lemma EscapeNone()
    ensures EscapeChars("") == ""
  {
  }

  /** `_escape_string`: one left-to-right pass that appends the form of each character. */
  method EscapeString(s: string) returns (out: string)
    ensures out == EscapedString(s)
  {
    hide EscapeChar, EscapeChars;
    assert s[..0] == "" && EscapeChars("") == "" by {
      EscapeNone();
    }
    out := "\"";
    for i := 0 to |s|
      invariant out == "\"" + EscapeChars(s[..i])
    {
      EscapeCharsSnoc(s[..i], s[i]);
      assert s[..i + 1] == s[..i] + [s[i]];
      out := out + EscapeChar(s[i]);
    }
    assert s[..|s|] == s;
    out := out + "\"";
  }

  /** `_serialize`. Object entries are visited in UTF-16 code unit order of their keys. */
  function Serialize(j: Json): (r: Result<string, CanonError>)
    decreases j, 1
  {
    match j
    case JNull => Ok("null")
    case JBool(b) => Ok(if b then "true" else "false")
    case JStr(s) => Ok(EscapedString(s))
    case JInt(n) => if IsSafe(n) then Ok(PrintInt(n)) else Err(ValueError)
    case JFloat(_) => Err(TypeError)
    case JArr(items) =>
      var text :- SerializeItems(items);
      Ok("[" + text + "]")
    case JObj(fields) =>
      var text :- SerializeFields(j, Sorted(Keys, fields.Keys));
      Ok("{" + text + "}")
  }

  function SerializeItems(items: seq<Json>): (r: Result<string, CanonError>)
    decreases items, 0
  {
    if items == [] then Ok("")
    else
      var head :- Serialize(items[0]);
      if |items| == 1 then Ok(head)
      else
        var tail :- SerializeItems(items[1..]);
        Ok(head + "," + tail)
  }

  function SerializeFields(j: Json, keys: seq<string>): (r: Result<string, CanonError>)
    requires j.JObj? && forall k | k in keys :: k in j.fields
    decreases j, 0, |keys|
  {
    if keys == [] then Ok("")
    else
      var value :- Serialize(j.fields[keys[0]]);
      var head := EscapedString(keys[0]) + ":" + value;
      if |keys| == 1 then Ok(head)
      else
        var tail :- SerializeFields(j, keys[1..]);
        Ok(head + "," + tail)
  }

  /** `canonicalize`: the UTF-8 bytes of the serialized text. */
  function Canonicalize(j: Json): (r: Result<Bytes, CanonError>)
  {
    var text :- Serialize(j);
    Ok(Utf8(text))
  }

  /** The values `canonicalize` can print: no float and no integer beyond 2^53 - 1 at any depth. */
  predicate Encodable(j: Json) {
    match j
    case JInt(n) => IsSafe(n)
    case JFloat(_) => false
    case JArr(items) => forall i | 0 <= i < |items| :: Encodable(items[i])
    case JObj(fields) => forall k | k in fields :: Encodable(fields[k])
    case _ => true
  }

  /** The printer succeeds on exactly the encodable values. */
  lemma {:induction false} SerializeSucceeds(j: Json)
    ensures Serialize(j).Ok? <==> Encodable(j)
    decreases j, 1
  {
    hide Sorted, SerializeItems, SerializeFields, EscapedString, PrintInt;
    match j
    case JArr(items) => ItemsSucceed(items);
    case JObj(fields) =>
      var keys := Sorted(Keys, fields.Keys);
      FieldsSucceed(j, keys);
      assert forall k :: k in keys <==> k in fields;
    case _ =>
  }

  lemma {:induction false} ItemsSucceed(items: seq<Json>)
    ensures SerializeItems(items).Ok? <==> forall i | 0 <= i < |items| :: Encodable(items[i])
    decreases items, 0
  {
    hide Serialize;
    if items != [] {
      SerializeSucceeds(items[0]);
      ItemsSucceed(items[1..]);
      assert forall i | 1 <= i < |items| :: items[i] == items[1..][i - 1];
      assert |items| == 1 ==> items[1..] == [];
    }
  }

  lemma {:induction false} FieldsSucceed(j: Json, keys: seq<string>)
    requires j.JObj? && forall k | k in keys :: k in j.fields
    ensures SerializeFields(j, keys).Ok? <==> forall k | k in keys :: Encodable(j.fields[k])
    decreases j, 0, |keys|
  {
    hide Serialize, EscapedString;
    if keys != [] {
      SerializeSucceeds(j.fields[keys[0]]);
      FieldsSucceed(j, keys[1..]);
      assert keys == [keys[0]] + keys[1..];
      assert |keys| == 1 ==> keys[1..] == [];
    }
  }

  /** A float somewhere in the value. */
  predicate HasFloat(j: Json) {
    match j
    case JFloat(_) => true
    case JArr(items) => exists i | 0 <= i < |items| :: HasFloat(items[i])
    case JObj(fields) => exists k | k in fields :: HasFloat(fields[k])
    case _ => false
  }

  /** An integer beyond 2^53 - 1 somewhere in the value. */
  predicate HasUnsafe(j: Json) {
    match j
    case JInt(n) => n < -9007199254740991 || 9007199254740991 < n
    case JArr(items) => exists i | 0 <= i < |items| :: HasUnsafe(items[i])
    case JObj(fields) => exists k | k in fields :: HasUnsafe(fields[k])
    case _ => false
  }

  /** Which error the printer raises: a TypeError only for a float, a ValueError only for an unsafe integer. */
  lemma {:induction false} SerializeErrorMeans(j: Json)
    ensures Serialize(j) == Err(TypeError) ==> HasFloat(j)
    ensures Serialize(j) == Err(ValueError) ==> HasUnsafe(j)
    decreases j, 1
  {
    hide Sorted, SerializeItems, SerializeFields, EscapedString, PrintInt;
    match j
    case JArr(items) => ItemsErrorMeans(items);
    case JObj(fields) => FieldsErrorMeans(j, Sorted(Keys, fields.Keys));
    case _ =>
  }

  lemma {:induction false} ItemsErrorMeans(items: seq<Json>)
    ensures SerializeItems(items) == Err(TypeError) ==> exists i | 0 <= i < |items| :: HasFloat(items[i])
    ensures SerializeItems(items) == Err(ValueError) ==> exists i | 0 <= i < |items| :: HasUnsafe(items[i])
    decreases items, 0
  {
    hide Serialize, HasFloat, HasUnsafe;
    if items != [] {
      SerializeErrorMeans(items[0]);
      ItemsErrorMeans(items[1..]);
      assert forall i | 1 <= i < |items| :: items[i] == items[1..][i - 1];
      assert forall i | 0 <= i < |items[1..]| :: items[1..][i] == items[i + 1];
    }
  }

  lemma {:induction false} FieldsErrorMeans(j: Json, keys: seq<string>)
    requires j.JObj? && forall k | k in keys :: k in j.fields
    ensures SerializeFields(j, keys) == Err(TypeError) ==> exists k | k in j.fields :: HasFloat(j.fields[k])
    ensures SerializeFields(j, keys) == Err(ValueError) ==> exists k | k in j.fields :: HasUnsafe(j.fields[k])
    decreases j, 0, |keys|
  {
    hide Serialize, EscapedString, HasFloat, HasUnsafe;
    if keys != [] {
      assert keys[0] in keys;
      SerializeErrorMeans(j.fields[keys[0]]);
      FieldsErrorMeans(j, keys[1..]);
    }
  }

  // ------------------------------------------------ dict entries in insertion order

  /** A dict as the list of its entries in insertion order. */
  type Entries = seq<(string, Json)>

  predicate DistinctKeys(ps: Entries) {
    forall i, j | 0 <= i < j < |ps| :: ps[i].0 != ps[j].0
  }

  function MapOf(ps: Entries): (m: map<string, Json>)
    ensures forall k :: k in m <==> exists i :: 0 <= i < |ps| && ps[i].0 == k
  {
    if ps == [] then map[]
    else
      var last := ps[|ps| - 1];
      MapOf(ps[..|ps| - 1])[last.0 := last.1]
  }

  lemma {:induction false} MapOfAt(ps: Entries, i: nat)
    requires DistinctKeys(ps) && i < |ps|
    ensures ps[i].0 in MapOf(ps) && MapOf(ps)[ps[i].0] == ps[i].1
  {
    if i < |ps| - 1 {
      MapOfAt(ps[..|ps| - 1], i);
    }
  }

  /** `sorted(items, key=...)` as a stable insertion sort on the UTF-16 key. */
  function InsertEntry(p: (string, Json), ps: Entries): (r: Entries)
    ensures |r| == |ps| + 1
    ensures forall q :: q in r <==> q == p || q in ps
  {
    if ps == [] || !Before(Keys, ps[0].0, p.0) then [p] + ps
    else
      assert ps == [ps[0]] + ps[1..];
      [ps[0]] + InsertEntry(p, ps[1..])
  }

  function SortEntries(ps: Entries): (r: Entries)
    ensures |r| == |ps|
    ensures forall q :: q in r <==> q in ps
  {
    if ps == [] then []
    else
      assert ps == [ps[0]] + ps[1..];
      InsertEntry(ps[0], SortEntries(ps[1..]))
  }

  function KeysOf(ps: Entries): (ks: seq<string>)
    ensures |ks| == |ps|
    ensures forall i | 0 <= i < |ps| :: ks[i] == ps[i].0
  {
    seq(|ps|, i requires 0 <= i < |ps| => ps[i].0)
  }

  predicate SortedEntries(ps: Entries) {
    forall i, j | 0 <= i < j < |ps| :: Before(Keys, ps[i].0, ps[j].0)
  }

  lemma {:induction false} InsertKeepsSorted(p: (string, Json), ps: Entries)
    requires SortedEntries(ps) && forall i | 0 <= i < |ps| :: ps[i].0 != p.0
    ensures SortedEntries(InsertEntry(p, ps))
  {
    if ps == [] {
    } else if !Before(Keys, ps[0].0, p.0) {
      BeforeTotal(Keys, p.0, ps[0].0);
      forall j | 1 <= j < |ps|
        ensures Before(Keys, p.0, ps[j].0)
      {
        LexTransitive(SortKey(Keys, p.0), SortKey(Keys, ps[0].0), SortKey(Keys, ps[j].0));
      }
    } else {
      InsertKeepsSorted(p, ps[1..]);
      var r := InsertEntry(p, ps[1..]);
      forall j | 0 <= j < |r|
        ensures Before(Keys, ps[0].0, r[j].0)
      {
        assert r[j] in r;
      }
    }
  }

  lemma {:induction false} SortSorts(ps: Entries)
    requires DistinctKeys(ps)
    ensures SortedEntries(SortEntries(ps))
  {
    if ps != [] {
      var rest := SortEntries(ps[1..]);
      SortSorts(ps[1..]);
      forall i | 0 <= i < |rest|
        ensures rest[i].0 != ps[0].0
      {
        assert rest[i] in ps[1..];
      }
      InsertKeepsSorted(ps[0], rest);
    }
  }

  /** Whatever the insertion order, sorting the entries of a dict visits its keys in the one
      strictly increasing UTF-16 order, each with its own value. */
  lemma SortingForgetsInsertionOrder(ps: Entries)
    requires DistinctKeys(ps)
    ensures KeysOf(SortEntries(ps)) == Sorted(Keys, MapOf(ps).Keys)
    ensures forall p | p in SortEntries(ps) :: p.0 in MapOf(ps) && MapOf(ps)[p.0] == p.1
  {
    hide SortEntries, Sorted, MapOf, Before;
    var r := SortEntries(ps);
    SortSorts(ps);
    forall k
      ensures k in KeysOf(r) <==> k in MapOf(ps)
    {
      if k in KeysOf(r) {
        var i :| 0 <= i < |r| && KeysOf(r)[i] == k;
        assert r[i] in ps;
      }
      if k in MapOf(ps) {
        var i :| 0 <= i < |ps| && ps[i].0 == k;
        assert ps[i] in r;
        var j :| 0 <= j < |r| && r[j] == ps[i];
        assert KeysOf(r)[j] == k;
      }
    }
    AscendingUnique(Keys, KeysOf(r), Sorted(Keys, MapOf(ps).Keys));
    forall p | p in r
      ensures p.0 in MapOf(ps) && MapOf(ps)[p.0] == p.1
    {
      var i :| 0 <= i < |ps| && ps[i] == p;
      MapOfAt(ps, i);
    }
  }

  /** The keys an object is printed with are in strictly increasing UTF-16 code unit order. */
  lemma KeyOrder(fields: map<string, Json>, i: nat, j: nat)
    requires i < j < |fields.Keys|
    ensures Precedes(Sorted(Keys, fields.Keys)[i], Sorted(Keys, fields.Keys)[j], ByCodeUnit())
    ensures LexLess(CodeUnits(Sorted(Keys, fields.Keys)[i]), CodeUnits(Sorted(Keys, fields.Keys)[j]))
  {
    hide Precedes, ByCodeUnit, Sorted;
    var ks := Sorted(Keys, fields.Keys);
    BigEndianKeepsOrder(CodeUnits(ks[i]), CodeUnits(ks[j]));
    assert Before(Keys, ks[i], ks[j]);
    KeyOrderMeans(ks[i], ks[j]);
  }
}

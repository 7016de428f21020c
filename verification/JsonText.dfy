/** The JSON reader behind `json.loads`, and every text that spells a given value.

    A `Layout` is one spelling: it fixes the white space, the escapes and the entry order.
    `Render` is its text and `Plain` its value. The reader undoes every spelling. */
module JsonText {
  import opened Basics
  import opened Decimal
  import opened Canonical

  // ---------------------------------------------------------------- the reader

  datatype Parsed<+T> = Parsed(value: T, rest: string) | Bad

  predicate IsSpace(c: char) {
    c == ' ' || c == '\t' || c == '\n' || c == '\r'
  }

  function SkipSpace(s: string): (r: string)
    ensures |r| <= |s|
  {
    if s != "" && IsSpace(s[0]) then SkipSpace(s[1..]) else s
  }

  /** The length of the leading run of decimal digits. */
  function Run(s: string): (n: nat)
    ensures n <= |s|
    ensures forall i | 0 <= i < n :: IsDigit(s[i])
  {
    if s != "" && IsDigit(s[0]) then 1 + Run(s[1..]) else 0
  }

  function HexValue(c: char): (v: Option<int>)
    ensures v.Some? ==> 0 <= v.value < 16
  {
    if '0' <= c <= '9' then Some(c as int - 48)
    else if 'a' <= c <= 'f' then Some(c as int - 87)
    else if 'A' <= c <= 'F' then Some(c as int - 55)
    else None
  }

  predicate IsHex4(h: string) {
    |h| == 4 && forall i | 0 <= i < 4 :: HexValue(h[i]).Some?
  }

  function Hex4(h: string): (v: int)
    requires IsHex4(h)
    ensures 0 <= v < 0x10000
  {
    HexValue(h[0]).value * 4096 + HexValue(h[1]).value * 256 + HexValue(h[2]).value * 16 + HexValue(h[3]).value
  }

  predicate StartsUnicodeEscape(s: string) {
    |s| >= 6 && s[0] == '\\' && s[1] == 'u' && IsHex4(s[2..6])
  }

  function ShortEscape(c: char): (r: Option<char>)
  {
    if c == '"' || c == '\\' || c == '/' then Some(c)
    else if c == 'b' then Some(8 as char)
    else if c == 't' then Some('\t')
    else if c == 'n' then Some('\n')
    else if c == 'f' then Some(12 as char)
    else if c == 'r' then Some('\r')
    else None
  }

  predicate IsHigh(v: int) {
    0xD800 <= v < 0xDC00
  }

  predicate IsLow(v: int) {
    0xDC00 <= v < 0xE000
  }

  function Combine(hi: int, lo: int): (c: char)
    requires IsHigh(hi) && IsLow(lo)
  {
    (0x10000 + (hi - 0xD800) * 1024 + (lo - 0xDC00)) as char
  }

  /** One character of a string body that does not start with a quote. A lone surrogate escape is
      refused here; Python builds the string and the canonical encoder refuses it afterwards. */
  function ParseChar(s: string): (r: Parsed<char>)
    ensures r.Parsed? ==> |r.rest| < |s|
  {
    if s == "" || s[0] < 0x20 as char then Bad
    else if s[0] != '\\' then Parsed(s[0], s[1..])
    else if |s| == 1 then Bad
    else if s[1] != 'u' then
      match ShortEscape(s[1])
      case Some(c) => Parsed(c, s[2..])
      case None => Bad
    else if !StartsUnicodeEscape(s) then Bad
    else
      var v := Hex4(s[2..6]);
      if IsHigh(v) then
        if StartsUnicodeEscape(s[6..]) && IsLow(Hex4(s[6..][2..6]))
        then Parsed(Combine(v, Hex4(s[6..][2..6])), s[12..])
        else Bad
      else if IsLow(v) then Bad
      else Parsed(v as char, s[6..])
  }

  /** A string body up to and including its closing quote. */
  function ParseChars(s: string): (r: Parsed<string>)
    ensures r.Parsed? ==> |r.rest| < |s|
    decreases |s|
  {
    if s != "" && s[0] == '"' then Parsed("", s[1..])
    else
      match ParseChar(s)
      case Bad => Bad
      case Parsed(c, rest) =>
        match ParseChars(rest)
        case Bad => Bad
        case Parsed(cs, rest2) => Parsed([c] + cs, rest2)
  }

  function FractionLength(s: string): (n: nat)
    ensures n <= |s|
  {
    if |s| >= 2 && s[0] == '.' && IsDigit(s[1]) then 1 + Run(s[1..]) else 0
  }

  function ExponentLength(s: string): (n: nat)
    ensures n <= |s|
  {
    if |s| >= 2 && (s[0] == 'e' || s[0] == 'E') then
      var sign := if s[1] == '+' || s[1] == '-' then 1 else 0;
      var digits := Run(s[1 + sign..]);
      if digits == 0 then 0 else 1 + sign + digits
    else 0
  }

  /** `-?(0|[1-9][0-9]*)(\.[0-9]+)?([eE][-+]?[0-9]+)?`: an int unless a fraction or exponent follows. */
  function ParseNumber(s: string): (r: Parsed<Json>)
    ensures r.Parsed? ==> |r.rest| < |s|
  {
    if s != "" && s[0] == '-' then ParseMagnitude(s[1..], -1) else ParseMagnitude(s, 1)
  }

  function ParseMagnitude(t: string, sign: int): (r: Parsed<Json>)
    ensures r.Parsed? ==> |r.rest| < |t|
  {
    if t == "" || !IsDigit(t[0]) then Bad
    else
      var n := if t[0] == '0' then 1 else Run(t);
      var u := t[n..];
      var f := FractionLength(u);
      var e := ExponentLength(u[f..]);
      if f + e > 0 then Parsed(JFloat(t[..n] + u[..f + e]), u[f + e..])
      else Parsed(JInt(sign * DigitsValue(t[..n])), u)
  }

  /** The literals and numbers. */
  function ParseAtom(s: string): (r: Parsed<Json>)
    ensures r.Parsed? ==> |r.rest| < |s|
  {
    if s == "" then Bad
    else if s[0] == 'n' && "null" <= s then Parsed(JNull, s[4..])
    else if s[0] == 't' && "true" <= s then Parsed(JBool(true), s[4..])
    else if s[0] == 'f' && "false" <= s then Parsed(JBool(false), s[5..])
    else if s[0] == 'N' && "NaN" <= s then Parsed(JFloat("NaN"), s[3..])
    else if s[0] == 'I' && "Infinity" <= s then Parsed(JFloat("Infinity"), s[8..])
    else if |s| > 1 && s[0] == '-' && s[1] == 'I' && "-Infinity" <= s then Parsed(JFloat("-Infinity"), s[9..])
    else ParseNumber(s)
  }

  /** `scan_once`: one value starting at a non-space character. */
  function ParseValue(s: string): (r: Parsed<Json>)
    ensures r.Parsed? ==> |r.rest| < |s|
    decreases |s|, 0
  {
    if s == "" then Bad
    else if s[0] == '"' then
      match ParseChars(s[1..])
      case Bad => Bad
      case Parsed(t, rest) => Parsed(JStr(t), rest)
    else if s[0] == '[' then
      var t := SkipSpace(s[1..]);
      if t != "" && t[0] == ']' then Parsed(JArr([]), t[1..])
      else
        match ParseItems(t)
        case Bad => Bad
        case Parsed(items, rest) => Parsed(JArr(items), rest)
    else if s[0] == '{' then
      var t := SkipSpace(s[1..]);
      if t != "" && t[0] == '}' then Parsed(JObj(map[]), t[1..])
      else
        match ParseFields(t)
        case Bad => Bad
        case Parsed(ps, rest) => if DistinctKeys(ps) then Parsed(JObj(MapOf(ps)), rest) else Bad
    else ParseAtom(s)
  }

  /** The items after `[`, up to and including `]`. */
  function ParseItems(s: string): (r: Parsed<seq<Json>>)
    ensures r.Parsed? ==> |r.rest| < |s|
    decreases |s|, 1
  {
    match ParseValue(s)
    case Bad => Bad
    case Parsed(v, rest) =>
      var t := SkipSpace(rest);
      if t == "" then Bad
      else if t[0] == ']' then Parsed([v], t[1..])
      else if t[0] == ',' then
        match ParseItems(SkipSpace(t[1..]))
        case Bad => Bad
        case Parsed(vs, rest2) => Parsed([v] + vs, rest2)
      else Bad
  }

  /** One `"key" : value` entry. */
  function ParseField(s: string): (r: Parsed<(string, Json)>)
    ensures r.Parsed? ==> |r.rest| < |s|
    decreases |s|, 1
  {
    if s == "" || s[0] != '"' then Bad
    else
      match ParseChars(s[1..])
      case Bad => Bad
      case Parsed(key, rest) =>
        var t := SkipSpace(rest);
        if t == "" || t[0] != ':' then Bad
        else
          match ParseValue(SkipSpace(t[1..]))
          case Bad => Bad
          case Parsed(v, rest2) => Parsed((key, v), rest2)
  }

  /** The entries after `{`, up to and including `}`, in the order written. */
  function ParseFields(s: string): (r: Parsed<Entries>)
    ensures r.Parsed? ==> |r.rest| < |s|
    decreases |s|, 2
  {
    match ParseField(s)
    case Bad => Bad
    case Parsed(p, rest) =>
      var t := SkipSpace(rest);
      if t == "" then Bad
      else if t[0] == '}' then Parsed([p], t[1..])
      else if t[0] == ',' then
        match ParseFields(SkipSpace(t[1..]))
        case Bad => Bad
        case Parsed(ps, rest2) => Parsed([p] + ps, rest2)
      else Bad
  }

  /** `json.loads` with the duplicate-refusing object hook; None stands for any raised error. */
  function Loads(s: string): (r: Option<Json>)
  {
    match ParseValue(SkipSpace(s))
    case Bad => None
    case Parsed(v, rest) => if SkipSpace(rest) == "" then Some(v) else None
  }

  lemma SnocEntry(ps: Entries, p: (string, Json))
    requires DistinctKeys(ps)
    ensures DistinctKeys(ps + [p]) <==> p.0 !in MapOf(ps)
    ensures MapOf(ps + [p]) == MapOf(ps)[p.0 := p.1]
  {
    var qs := ps + [p];
    assert qs[..|ps|] == ps;
    if p.0 in MapOf(ps) {
      var i :| 0 <= i < |ps| && ps[i].0 == p.0;
      assert qs[i].0 == qs[|ps|].0;
    }
  }

  /** `_object`: fill a dict, refusing the first repeated key. */
  method BuildObject(pairs: Entries) returns (r: Option<map<string, Json>>)
    ensures r == if DistinctKeys(pairs) then Some(MapOf(pairs)) else None
  {
    hide MapOf;
    var result: map<string, Json> := map[];
    NoEntries(pairs);
    for i := 0 to |pairs|
      invariant DistinctKeys(pairs[..i])
      invariant result == MapOf(pairs[..i])
    {
      SnocEntry(pairs[..i], pairs[i]);
      assert pairs[..i + 1] == pairs[..i] + [pairs[i]];
      if pairs[i].0 in result {
        PrefixDistinct(pairs, i + 1);
        return None;
      }
      result := result[pairs[i].0 := pairs[i].1];
    }
    assert pairs[..|pairs|] == pairs;
    return Some(result);
  }

  lemma NoEntries(ps: Entries)
    ensures MapOf(ps[..0]) == map[]
  {
  }

  lemma PrefixDistinct(ps: Entries, n: nat)
    requires n <= |ps|
    ensures DistinctKeys(ps) ==> DistinctKeys(ps[..n])
  {
  }

  // ---------------------------------------------------------------- spellings

  /** One character: itself, a short escape, `\uXXXX`, or a surrogate pair of escapes. */
  datatype Form = Raw(c: char) | Short(e: char) | Unit(h: string) | Pair(hi: string, lo: string)

  datatype Layout =
    | LNull
    | LBool(b: bool)
    | LInt(n: int)
    | LMinusZero
    | LText(forms: seq<Form>)
    | LArr(inner: string, items: seq<LItem>)
    | LObj(inner: string, fields: seq<LField>)

  datatype LItem = LItem(pre: string, body: Layout, post: string)
  datatype LField = LField(pre: string, key: seq<Form>, mid: string, gap: string, body: Layout, post: string)

  predicate IsSpaces(w: string) {
    forall i | 0 <= i < |w| :: IsSpace(w[i])
  }

  predicate FormOk(f: Form) {
    match f
    case Raw(c) => c >= 0x20 as char && c != '"' && c != '\\'
    case Short(e) => ShortEscape(e).Some?
    case Unit(h) => IsHex4(h) && !IsHigh(Hex4(h)) && !IsLow(Hex4(h))
    case Pair(hi, lo) => IsHex4(hi) && IsHex4(lo) && IsHigh(Hex4(hi)) && IsLow(Hex4(lo))
  }

  predicate FormsOk(fs: seq<Form>) {
    forall i | 0 <= i < |fs| :: FormOk(fs[i])
  }

  function FormText(f: Form): (t: string)
    ensures t != ""
  {
    match f
    case Raw(c) => [c]
    case Short(e) => "\\" + [e]
    case Unit(h) => "\\u" + h
    case Pair(hi, lo) => "\\u" + hi + "\\u" + lo
  }

  function FormValue(f: Form): (c: char) {
    if !FormOk(f) then '?'
    else
      match f
      case Raw(c) => c
      case Short(e) => ShortEscape(e).value
      case Unit(h) => Hex4(h) as char
      case Pair(hi, lo) => Combine(Hex4(hi), Hex4(lo))
  }

  function FormsText(fs: seq<Form>): (t: string) {
    if fs == [] then "" else FormText(fs[0]) + FormsText(fs[1..])
  }

  function FormsValue(fs: seq<Form>): (s: string) {
    if fs == [] then "" else [FormValue(fs[0])] + FormsValue(fs[1..])
  }

  function Quoted(fs: seq<Form>): (t: string) {
    "\"" + FormsText(fs) + "\""
  }

  predicate LayoutOk(l: Layout) {
    match l
    case LText(fs) => FormsOk(fs)
    case LArr(inner, items) => IsSpaces(inner) && forall i | 0 <= i < |items| :: ItemOk(items[i])
    case LObj(inner, fields) =>
      && IsSpaces(inner)
      && (forall i | 0 <= i < |fields| :: FieldOk(fields[i]))
      && DistinctKeys(PlainFields(fields))
    case _ => true
  }

  predicate ItemOk(i: LItem) {
    IsSpaces(i.pre) && IsSpaces(i.post) && LayoutOk(i.body)
  }

  predicate FieldOk(f: LField) {
    && IsSpaces(f.pre) && IsSpaces(f.mid) && IsSpaces(f.gap) && IsSpaces(f.post)
    && FormsOk(f.key) && LayoutOk(f.body)
  }

  /** The value a spelling stands for. */
  function Plain(l: Layout): (j: Json)
    decreases l, 1
  {
    match l
    case LNull => JNull
    case LBool(b) => JBool(b)
    case LInt(n) => JInt(n)
    case LMinusZero => JInt(0)
    case LText(fs) => JStr(FormsValue(fs))
    case LArr(_, items) => JArr(PlainItems(items))
    case LObj(_, fields) => JObj(MapOf(PlainFields(fields)))
  }

  function PlainItems(items: seq<LItem>): (js: seq<Json>)
    decreases items, 0
  {
    if items == [] then [] else [Plain(items[0].body)] + PlainItems(items[1..])
  }

  function PlainFields(fields: seq<LField>): (ps: Entries)
    decreases fields, 0
  {
    if fields == [] then []
    else [(FormsValue(fields[0].key), Plain(fields[0].body))] + PlainFields(fields[1..])
  }

  function Render(l: Layout): (t: string)
    decreases l, 1
  {
    match l
    case LNull => "null"
    case LBool(b) => if b then "true" else "false"
    case LInt(n) => PrintInt(n)
    case LMinusZero => "-0"
    case LText(fs) => Quoted(fs)
    case LArr(inner, items) => "[" + (if items == [] then inner else RenderItems(items)) + "]"
    case LObj(inner, fields) => "{" + (if fields == [] then inner else RenderFields(fields)) + "}"
  }

  function RenderItems(items: seq<LItem>): (t: string)
    decreases items, 0
  {
    if items == [] then ""
    else
      var head := items[0].pre + Render(items[0].body) + items[0].post;
      if |items| == 1 then head else head + "," + RenderItems(items[1..])
  }

  function RenderFields(fields: seq<LField>): (t: string)
    decreases fields, 0
  {
    if fields == [] then ""
    else
      var f := fields[0];
      var head := f.pre + Quoted(f.key) + f.mid + ":" + f.gap + Render(f.body) + f.post;
      if |fields| == 1 then head else head + "," + RenderFields(fields[1..])
  }
}

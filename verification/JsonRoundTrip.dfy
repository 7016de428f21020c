/** The reader undoes every spelling of a value, so canonical bytes determine the value. */
module JsonRoundTrip {
  import opened Basics
  import opened Decimal
  import opened Canonical
  import opened JsonText

  /** What may follow a value: the end, white space or a structural character. */
  predicate Stops(rest: string) {
    rest == "" || rest[0] == ',' || rest[0] == ']' || rest[0] == '}' || IsSpace(rest[0])
  }

  lemma {:induction false} SkipSpaces(w: string, s: string)
    requires IsSpaces(w) && (s == "" || !IsSpace(s[0]))
    ensures SkipSpace(w + s) == s
  {
    if w == "" {
      assert w + s == s;
    } else {
      assert (w + s)[1..] == w[1..] + s;
      SkipSpaces(w[1..], s);
    }
  }

  lemma Regroup(a: string, b: string, c: string, d: string)
    ensures a + b + c + d == a + (b + (c + d))
  {
    assert a + b + c + d == a + (b + c + d);
    assert b + c + d == b + (c + d);
  }

  lemma ReadPair(hi: string, lo: string, rest: string)
    requires FormOk(Pair(hi, lo))
    ensures ParseChar(FormText(Pair(hi, lo)) + rest) == Parsed(FormValue(Pair(hi, lo)), rest)
  {
    hide Hex4;
    var s := FormText(Pair(hi, lo)) + rest;
    var t := "\\u" + lo + rest;
    assert s == "\\u" + hi + t;
    assert s[0] == '\\' && s[1] == 'u' && s[2..6] == hi && s[6..] == t;
    assert t[0] == '\\' && t[1] == 'u' && t[2..6] == lo && t[6..] == rest;
    assert s[12..] == rest;
  }

  lemma ReadForm(f: Form, rest: string)
    requires FormOk(f)
    ensures FormText(f)[0] != '"'
    ensures ParseChar(FormText(f) + rest) == Parsed(FormValue(f), rest)
  {
    var s := FormText(f) + rest;
    match f
    case Raw(c) =>
      assert s[1..] == rest;
    case Short(e) =>
      assert s[1] == e && s[2..] == rest;
    case Unit(h) =>
      hide Hex4;
      assert s[0] == '\\' && s[1] == 'u' && s[2..6] == h && s[6..] == rest;
    case Pair(hi, lo) =>
      ReadPair(hi, lo, rest);
  }

  lemma {:induction false} ReadForms(fs: seq<Form>, rest: string)
    requires FormsOk(fs)
    ensures ParseChars(FormsText(fs) + "\"" + rest) == Parsed(FormsValue(fs), rest)
  {
    var s := FormsText(fs) + "\"" + rest;
    if fs == [] {
      assert s == "\"" + rest && s[1..] == rest;
    } else {
      var tail := FormsText(fs[1..]) + "\"" + rest;
      assert s == FormText(fs[0]) + tail;
      ReadForm(fs[0], tail);
      ReadForms(fs[1..], rest);
    }
  }

  lemma {:induction false} RunOfDigits(d: string, rest: string)
    requires forall i | 0 <= i < |d| :: IsDigit(d[i])
    requires rest == "" || !IsDigit(rest[0])
    ensures Run(d + rest) == |d|
  {
    if d == "" {
      assert d + rest == rest;
    } else {
      assert (d + rest)[1..] == d[1..] + rest;
      RunOfDigits(d[1..], rest);
    }
  }

  lemma NoTail(rest: string)
    requires Stops(rest)
    ensures FractionLength(rest) == 0 && ExponentLength(rest[0..]) == 0
  {
    assert rest[0..] == rest;
  }

  lemma ReadDigits(n: nat, sign: int, rest: string)
    requires Stops(rest)
    ensures ParseMagnitude(Digits(n) + rest, sign) == Parsed(JInt(sign * n), rest)
  {
    hide Digits, DigitsValue, Run, FractionLength, ExponentLength;
    var d := Digits(n);
    var t := d + rest;
    assert t[0] == d[0] && IsDigit(d[0]);
    RunOfDigits(d, rest);
    assert t[|d|..] == rest && t[..|d|] == d;
    NoTail(rest);
    DigitsRoundTrip(n);
  }

  lemma NumberIsNotALiteral(s: string)
    requires s != "" && (s[0] == '-' || IsDigit(s[0]))
    requires s[0] == '-' ==> |s| >= 2 && IsDigit(s[1])
    ensures ParseValue(s) == ParseNumber(s)
  {
    hide ParseNumber, ParseItems, ParseFields, ParseChars;
    assert ParseAtom(s) == ParseNumber(s);
  }

  lemma ReadNumber(n: int, rest: string)
    requires Stops(rest)
    ensures ParseNumber(PrintInt(n) + rest) == Parsed(JInt(n), rest)
  {
    hide ParseMagnitude, Digits;
    var s := PrintInt(n) + rest;
    if n < 0 {
      assert s[0] == '-' && s[1..] == Digits(-n) + rest;
      ReadDigits(-n, -1, rest);
    } else {
      assert s[0] == Digits(n)[0];
      ReadDigits(n, 1, rest);
    }
  }

  lemma ReadInt(n: int, rest: string)
    requires Stops(rest)
    ensures ParseValue(PrintInt(n) + rest) == Parsed(JInt(n), rest)
  {
    var p := PrintInt(n);
    assert n < 0 ==> p[1] == Digits(-n)[0];
    assert forall i | 0 <= i < |p| :: (p + rest)[i] == p[i];
    ReadNumber(n, rest);
    NumberIsNotALiteral(p + rest);
  }

  lemma ReadMinusZero(rest: string)
    requires Stops(rest)
    ensures ParseValue("-0" + rest) == Parsed(JInt(0), rest)
  {
    assert ("-0" + rest)[1..] == Digits(0) + rest;
    ReadDigits(0, -1, rest);
    NumberIsNotALiteral("-0" + rest);
  }

  lemma RenderStarts(l: Layout)
    ensures Render(l) != "" && !IsSpace(Render(l)[0]) && Render(l)[0] != ']'
  {
    match l
    case LInt(n) => assert IsDigit(PrintInt(n)[0]) || PrintInt(n)[0] == '-';
    case _ =>
  }

  lemma ReadWords(rest: string)
    ensures ParseValue("null" + rest) == Parsed(JNull, rest)
    ensures ParseValue("true" + rest) == Parsed(JBool(true), rest)
    ensures ParseValue("false" + rest) == Parsed(JBool(false), rest)
  {
    assert ("null" + rest)[4..] == rest && ("null" + rest)[..4] == "null";
    assert ("true" + rest)[4..] == rest && ("true" + rest)[..4] == "true";
    assert ("false" + rest)[5..] == rest && ("false" + rest)[..5] == "false";
  }

  lemma ReadText(fs: seq<Form>, rest: string)
    requires FormsOk(fs)
    ensures ParseValue(Quoted(fs) + rest) == Parsed(JStr(FormsValue(fs)), rest)
  {
    hide ParseChars, FormsText, ParseItems, ParseFields, ParseAtom, SkipSpace;
    assert (Quoted(fs) + rest)[1..] == FormsText(fs) + "\"" + rest;
    ReadForms(fs, rest);
  }

  /** Reading any well-formed spelling, followed by anything a value may be followed by, gives
      back exactly the value spelled and what followed it. */
  lemma {:induction false} ReadLayout(l: Layout, rest: string)
    requires LayoutOk(l) && Stops(rest)
    ensures ParseValue(Render(l) + rest) == Parsed(Plain(l), rest)
    decreases l, 1
  {
    hide ParseValue, PrintInt, Quoted, RenderItems, RenderFields;
    match l
    case LNull => ReadWords(rest);
    case LBool(b) => ReadWords(rest);
    case LInt(n) => ReadInt(n, rest);
    case LMinusZero => ReadMinusZero(rest);
    case LText(fs) => ReadText(fs, rest);
    case LArr(inner, items) => ReadArray(inner, items, rest);
    case LObj(inner, fields) => ReadObject(inner, fields, rest);
  }

  lemma RenderArray(inner: string, items: seq<LItem>, rest: string)
    ensures var s := Render(LArr(inner, items)) + rest;
            s != "" && s[0] == '[' && s[1..] == (if items == [] then inner else RenderItems(items)) + ("]" + rest)
  {
    hide RenderItems;
  }

  lemma ParseArrayStep(s: string)
    requires s != "" && s[0] == '['
    ensures var t := SkipSpace(s[1..]);
            ParseValue(s) ==
            if t != "" && t[0] == ']' then Parsed(JArr([]), t[1..])
            else match ParseItems(t)
                 case Bad => Bad
                 case Parsed(items, rest) => Parsed(JArr(items), rest)
  {
    hide ParseItems, SkipSpace, ParseFields, ParseAtom, ParseChars;
  }

  lemma {:induction false} ReadArray(inner: string, items: seq<LItem>, rest: string)
    requires LayoutOk(LArr(inner, items)) && Stops(rest)
    ensures ParseValue(Render(LArr(inner, items)) + rest) == Parsed(JArr(PlainItems(items)), rest)
    decreases items, 2
  {
    hide ParseValue, ParseItems, SkipSpace, Render, RenderItems;
    RenderArray(inner, items, rest);
    ParseArrayStep(Render(LArr(inner, items)) + rest);
    if items == [] {
      SkipSpaces(inner, "]" + rest);
      assert ("]" + rest)[1..] == rest;
    } else {
      ReadItems(items, rest);
    }
  }

  lemma ParseItemsStep(s: string, v: Json, rest: string)
    requires ParseValue(s) == Parsed(v, rest)
    ensures var t := SkipSpace(rest);
            ParseItems(s) ==
            if t == "" then Bad
            else if t[0] == ']' then Parsed([v], t[1..])
            else if t[0] == ',' then
              match ParseItems(SkipSpace(t[1..]))
              case Bad => Bad
              case Parsed(vs, rest2) => Parsed([v] + vs, rest2)
            else Bad
  {
    hide ParseValue, SkipSpace;
  }

  /** The text after the first item of an array. */
  function AfterItem(items: seq<LItem>, rest: string): (t: string)
    requires items != []
    ensures t != ""
  {
    if |items| == 1 then "]" + rest else "," + (RenderItems(items[1..]) + ("]" + rest))
  }

  lemma SplitItems(items: seq<LItem>, rest: string)
    requires items != []
    ensures var i := items[0];
            RenderItems(items) + ("]" + rest) == i.pre + (Render(i.body) + (i.post + AfterItem(items, rest)))
  {
    hide Render;
    var i, after := items[0], AfterItem(items, rest);
    Regroup(i.pre, Render(i.body), i.post, after);
    if |items| > 1 {
      Regroup(i.pre + Render(i.body) + i.post, ",", RenderItems(items[1..]), "]" + rest);
    }
  }

  lemma {:induction false} ReadItems(items: seq<LItem>, rest: string)
    requires items != [] && forall i | 0 <= i < |items| :: ItemOk(items[i])
    ensures var t := SkipSpace(RenderItems(items) + ("]" + rest));
            t != "" && t[0] != ']' && ParseItems(t) == Parsed(PlainItems(items), rest)
    decreases items, 1
  {
    hide ParseValue, ParseItems, SkipSpace, Render, LayoutOk, Plain, RenderItems;
    var i, after := items[0], AfterItem(items, rest);
    var body := Render(i.body) + (i.post + after);
    SplitItems(items, rest);
    RenderStarts(i.body);
    SkipSpaces(i.pre, body);
    assert Stops(i.post + after);
    ReadLayout(i.body, i.post + after);
    ParseItemsStep(body, Plain(i.body), i.post + after);
    SkipSpaces(i.post, after);
    if |items| == 1 {
      assert PlainItems(items) == [Plain(i.body)] && after[1..] == rest;
    } else {
      assert after[1..] == RenderItems(items[1..]) + ("]" + rest);
      ReadItems(items[1..], rest);
    }
  }

  lemma ParseObjectStep(s: string)
    requires s != "" && s[0] == '{'
    ensures var t := SkipSpace(s[1..]);
            ParseValue(s) ==
            if t != "" && t[0] == '}' then Parsed(JObj(map[]), t[1..])
            else match ParseFields(t)
                 case Bad => Bad
                 case Parsed(ps, rest) => if DistinctKeys(ps) then Parsed(JObj(MapOf(ps)), rest) else Bad
  {
    hide ParseItems, SkipSpace, ParseFields, ParseAtom, ParseChars, DistinctKeys, MapOf;
  }

  lemma RenderObject(inner: string, fields: seq<LField>, rest: string)
    ensures var s := Render(LObj(inner, fields)) + rest;
            s != "" && s[0] == '{' && s[1..] == (if fields == [] then inner else RenderFields(fields)) + ("}" + rest)
  {
    hide RenderFields;
  }

  lemma {:induction false} ReadObject(inner: string, fields: seq<LField>, rest: string)
    requires LayoutOk(LObj(inner, fields)) && Stops(rest)
    ensures ParseValue(Render(LObj(inner, fields)) + rest) == Parsed(JObj(MapOf(PlainFields(fields))), rest)
    decreases fields, 2
  {
    hide ParseValue, ParseFields, SkipSpace, Render, RenderFields, PlainFields;
    RenderObject(inner, fields, rest);
    ParseObjectStep(Render(LObj(inner, fields)) + rest);
    if fields == [] {
      SkipSpaces(inner, "}" + rest);
      assert ("}" + rest)[1..] == rest;
      NoFields();
    } else {
      ReadFields(fields, rest);
    }
  }

  lemma NoFields()
    ensures PlainFields([]) == []
  {
  }

  lemma {:induction false} ReadField(f: LField, rest: string)
    requires FieldOk(f) && Stops(rest)
    ensures ParseField(Quoted(f.key) + (f.mid + (":" + (f.gap + (Render(f.body) + rest)))))
         == Parsed((FormsValue(f.key), Plain(f.body)), rest)
    decreases f, 1
  {
    var value := Render(f.body) + rest;
    var colon := ":" + (f.gap + value);
    var s := Quoted(f.key) + (f.mid + colon);
    hide ParseChars, ParseValue, SkipSpace, FormsText, Render, LayoutOk, Plain;
    assert s[0] == '"' && s[1..] == FormsText(f.key) + "\"" + (f.mid + colon);
    ReadForms(f.key, f.mid + colon);
    SkipSpaces(f.mid, colon);
    assert colon[1..] == f.gap + value;
    RenderStarts(f.body);
    SkipSpaces(f.gap, value);
    ReadLayout(f.body, rest);
  }

  lemma ParseFieldsStep(s: string, p: (string, Json), rest: string)
    requires ParseField(s) == Parsed(p, rest)
    ensures var t := SkipSpace(rest);
            ParseFields(s) ==
            if t == "" then Bad
            else if t[0] == '}' then Parsed([p], t[1..])
            else if t[0] == ',' then
              match ParseFields(SkipSpace(t[1..]))
              case Bad => Bad
              case Parsed(ps, rest2) => Parsed([p] + ps, rest2)
            else Bad
  {
    hide ParseField, SkipSpace;
  }

  /** The text after the first entry of an object. */
  function AfterField(fields: seq<LField>, rest: string): (t: string)
    requires fields != []
    ensures t != ""
  {
    if |fields| == 1 then "}" + rest else "," + (RenderFields(fields[1..]) + ("}" + rest))
  }

  lemma SplitFields(fields: seq<LField>, rest: string)
    requires fields != []
    ensures var f := fields[0];
            RenderFields(fields) + ("}" + rest) ==
            f.pre + (Quoted(f.key) + (f.mid + (":" + (f.gap + (Render(f.body) + (f.post + AfterField(fields, rest)))))))
  {
    hide Render, Quoted;
    var f, after := fields[0], AfterField(fields, rest);
    var start := f.pre + Quoted(f.key) + f.mid;
    var value := ":" + (f.gap + (Render(f.body) + (f.post + after)));
    Regroup(f.pre, Quoted(f.key), f.mid, value);
    Regroup(start, ":", f.gap, Render(f.body) + (f.post + after));
    Regroup(start + ":" + f.gap, Render(f.body), f.post, after);
    var head := start + ":" + f.gap + Render(f.body) + f.post;
    if |fields| > 1 {
      Regroup(head, ",", RenderFields(fields[1..]), "}" + rest);
    }
  }

  lemma {:induction false} ReadFields(fields: seq<LField>, rest: string)
    requires fields != [] && forall i | 0 <= i < |fields| :: FieldOk(fields[i])
    ensures var t := SkipSpace(RenderFields(fields) + ("}" + rest));
            t != "" && t[0] == '"' && ParseFields(t) == Parsed(PlainFields(fields), rest)
    decreases fields, 1
  {
    hide ParseField, ParseFields, SkipSpace, Render, LayoutOk, Plain, RenderFields;
    var f, after := fields[0], AfterField(fields, rest);
    var entry := Quoted(f.key) + (f.mid + (":" + (f.gap + (Render(f.body) + (f.post + after)))));
    SplitFields(fields, rest);
    SkipSpaces(f.pre, entry);
    assert Stops(f.post + after);
    ReadField(f, f.post + after);
    ParseFieldsStep(entry, (FormsValue(f.key), Plain(f.body)), f.post + after);
    SkipSpaces(f.post, after);
    if |fields| == 1 {
      assert PlainFields(fields) == [(FormsValue(f.key), Plain(f.body))] && after[1..] == rest;
    } else {
      assert after[1..] == RenderFields(fields[1..]) + ("}" + rest);
      ReadFields(fields[1..], rest);
    }
  }

  /** `json.loads` of any spelling with any surrounding white space is the value spelled. */
  lemma LoadsLayout(pre: string, l: Layout, post: string)
    requires LayoutOk(l) && IsSpaces(pre) && IsSpaces(post)
    ensures Loads(pre + Render(l) + post) == Some(Plain(l))
  {
    RenderStarts(l);
    assert pre + Render(l) + post == pre + (Render(l) + post);
    SkipSpaces(pre, Render(l) + post);
    ReadLayout(l, post);
    SkipSpaces(post, "");
    assert post + "" == post;
  }
}

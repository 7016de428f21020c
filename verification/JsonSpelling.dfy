/** The converse of the round trip: whatever the reader accepts without a float is one of the spellings. */
module JsonSpelling {
  import opened Basics
  import opened Decimal
  import opened Canonical
  import opened JsonText
  import opened JsonRoundTrip

  /** No float at any depth; integers may be of any size. */
  predicate FloatFree(j: Json) {
    match j
    case JFloat(_) => false
    case JArr(items) => forall i | 0 <= i < |items| :: FloatFree(items[i])
    case JObj(fields) => forall k | k in fields :: FloatFree(fields[k])
    case _ => true
  }

  lemma EncodableIsFloatFree(j: Json)
    requires Encodable(j)
    ensures FloatFree(j)
  {
  }

  // ---------------------------------------------------------------- white space, strings and numbers

  lemma {:induction false} SpaceBefore(s: string) returns (w: string)
    ensures IsSpaces(w) && s == w + SkipSpace(s)
  {
    if s != "" && IsSpace(s[0]) {
      var v := SpaceBefore(s[1..]);
      w := [s[0]] + v;
      assert s == [s[0]] + s[1..];
    } else {
      w := "";
    }
  }

  lemma CharForm(s: string) returns (f: Form)
    requires ParseChar(s).Parsed? && s[0] != '"'
    ensures FormOk(f) && FormValue(f) == ParseChar(s).value && s == FormText(f) + ParseChar(s).rest
  {
    hide Hex4;
    if s[0] != '\\' {
      f := Raw(s[0]);
      assert s == [s[0]] + s[1..];
    } else if s[1] != 'u' {
      f := Short(s[1]);
      assert s == "\\" + [s[1]] + s[2..];
    } else if IsHigh(Hex4(s[2..6])) {
      var t := s[6..];
      f := Pair(s[2..6], t[2..6]);
      assert s == "\\u" + s[2..6] + t;
      assert t == "\\u" + t[2..6] + t[6..] && t[6..] == s[12..];
    } else {
      f := Unit(s[2..6]);
      assert s == "\\u" + s[2..6] + s[6..];
    }
  }

  lemma {:induction false} CharsForms(s: string) returns (fs: seq<Form>)
    requires ParseChars(s).Parsed?
    ensures FormsOk(fs) && FormsValue(fs) == ParseChars(s).value && s == FormsText(fs) + "\"" + ParseChars(s).rest
    decreases |s|
  {
    hide ParseChar, FormOk, FormText, FormValue;
    if s != "" && s[0] == '"' {
      fs := [];
      assert s == "\"" + s[1..];
    } else {
      NotEmpty(s);
      var f := CharForm(s);
      var rest := ParseChar(s).rest;
      var gs := CharsForms(rest);
      fs := [f] + gs;
      assert fs[1..] == gs;
      assert s == FormText(f) + (FormsText(gs) + "\"" + ParseChars(rest).rest);
    }
  }

  lemma NotEmpty(s: string)
    requires ParseChar(s).Parsed?
    ensures s != ""
  {
  }

  lemma {:induction false} NoLeadingZero(d: string)
    requires d != "" && (forall i | 0 <= i < |d| :: IsDigit(d[i])) && (d[0] == '0' ==> |d| == 1)
    ensures Digits(DigitsValue(d)) == d && (DigitsValue(d) == 0 <==> d == "0")
  {
    var init, last := d[..|d| - 1], d[|d| - 1];
    var v: int := last as int - 48;
    assert DigitChar(v) == last && d == init + [last];
    if init == "" {
      assert DigitsValue(d) == v;
    } else {
      NoLeadingZero(init);
      var n := DigitsValue(init);
      assert n > 0 && DigitsValue(d) == 10 * n + v;
      assert (10 * n + v) / 10 == n && (10 * n + v) % 10 == v;
    }
  }

  /** The digits an integer literal starts with. */
  lemma MagnitudeText(t: string, sign: int) returns (n: nat)
    requires ParseMagnitude(t, sign).Parsed? && ParseMagnitude(t, sign).value.JInt?
    ensures ParseMagnitude(t, sign).value == JInt(sign * n) && t == Digits(n) + ParseMagnitude(t, sign).rest
  {
    hide Digits, DigitsValue, Run, FractionLength, ExponentLength;
    var len := if t[0] == '0' then 1 else Run(t);
    var d := t[..len];
    RunStarts(t);
    NoLeadingZero(d);
    n := DigitsValue(d);
    assert t == d + t[len..];
  }

  lemma RunStarts(t: string)
    requires t != "" && IsDigit(t[0])
    ensures Run(t) > 0
  {
  }

  lemma NumberLayout(s: string) returns (l: Layout)
    requires ParseNumber(s).Parsed? && ParseNumber(s).value.JInt?
    ensures LayoutOk(l) && Plain(l) == ParseNumber(s).value && s == Render(l) + ParseNumber(s).rest
  {
    hide ParseMagnitude, Digits;
    if s != "" && s[0] == '-' {
      var n := MagnitudeText(s[1..], -1);
      assert s == "-" + s[1..];
      if n == 0 {
        l := LMinusZero;
        ZeroDigit();
      } else {
        var m: int := n;
        l := LInt(-m);
      }
    } else {
      var n := MagnitudeText(s, 1);
      l := LInt(n);
    }
  }

  lemma ZeroDigit()
    ensures Digits(0) == "0"
  {
  }

  /** The literals, and numbers that are not floats. */
  lemma AtomLayout(s: string) returns (l: Layout)
    requires ParseAtom(s).Parsed? && FloatFree(ParseAtom(s).value)
    ensures LayoutOk(l) && Plain(l) == ParseAtom(s).value && s == Render(l) + ParseAtom(s).rest
  {
    hide ParseNumber, PrintInt;
    if s[0] == 'n' && "null" <= s {
      l := LNull;
      assert s == "null" + s[4..];
    } else if s[0] == 't' && "true" <= s {
      l := LBool(true);
      assert s == "true" + s[4..];
    } else if s[0] == 'f' && "false" <= s {
      l := LBool(false);
      assert s == "false" + s[5..];
    } else {
      NumbersOnly(s);
      l := NumberLayout(s);
    }
  }

  lemma NumbersOnly(s: string)
    ensures ParseNumber(s).Parsed? ==> ParseNumber(s).value.JInt? || ParseNumber(s).value.JFloat?
  {
    hide Run, FractionLength, ExponentLength, DigitsValue;
  }

  // ---------------------------------------------------------------- values

  /** Every float-free value the reader finds is spelled by a well-formed layout. */
  lemma {:induction false} ValueLayout(s: string) returns (l: Layout)
    requires ParseValue(s).Parsed? && FloatFree(ParseValue(s).value)
    ensures LayoutOk(l) && Plain(l) == ParseValue(s).value && s == Render(l) + ParseValue(s).rest
    decreases |s|, 0
  {
    if s[0] == '"' {
      l := TextLayout(s);
    } else if s[0] == '[' {
      l := ArrayLayout(s);
    } else if s[0] == '{' {
      l := ObjectLayout(s);
    } else {
      NoBracket(s);
      l := AtomLayout(s);
    }
  }

  lemma NoBracket(s: string)
    requires s != "" && s[0] != '"' && s[0] != '[' && s[0] != '{'
    ensures ParseValue(s) == ParseAtom(s)
  {
    hide ParseAtom, ParseItems, ParseFields, ParseChars, SkipSpace;
  }

  lemma TextLayout(s: string) returns (l: Layout)
    requires s != "" && s[0] == '"' && ParseValue(s).Parsed?
    ensures LayoutOk(l) && Plain(l) == ParseValue(s).value && s == Render(l) + ParseValue(s).rest
  {
    hide ParseChars, ParseItems, ParseFields, ParseAtom, SkipSpace, FormsText, FormsOk, FormsValue;
    var fs := CharsForms(s[1..]);
    l := LText(fs);
    assert s == "\"" + s[1..];
  }

  lemma {:induction false} ArrayLayout(s: string) returns (l: Layout)
    requires s != "" && s[0] == '[' && ParseValue(s).Parsed? && FloatFree(ParseValue(s).value)
    ensures LayoutOk(l) && Plain(l) == ParseValue(s).value && s == Render(l) + ParseValue(s).rest
    decreases |s|, 0, 1
  {
    hide ParseValue, ParseItems, SkipSpace, Render, RenderItems, PlainItems, ItemOk;
    ParseArrayStep(s);
    var t := SkipSpace(s[1..]);
    var w := SpaceBefore(s[1..]);
    assert s == "[" + (w + t);
    if t != "" && t[0] == ']' {
      l := LArr(w, []);
      assert t == "]" + t[1..];
      EmptyPlain();
      RenderArray(w, [], t[1..]);
      SameText(s, Render(l) + t[1..]);
    } else {
      var items := ItemsLayout(w, t);
      l := LArr("", items);
      var rest := ParseItems(t).rest;
      RenderArray("", items, rest);
      SameText(s, Render(l) + rest);
    }
  }

  lemma SameText(a: string, b: string)
    requires a != "" && b != "" && a[0] == b[0] && a[1..] == b[1..]
    ensures a == b
  {
    assert a == [a[0]] + a[1..] && b == [b[0]] + b[1..];
  }

  lemma EmptyPlain()
    ensures PlainItems([]) == [] && PlainFields([]) == []
  {
  }

  /** The items of an array whose text starts after `pre`. */
  lemma {:induction false} ItemsLayout(pre: string, s: string) returns (items: seq<LItem>)
    requires IsSpaces(pre) && ParseItems(s).Parsed?
    requires forall i | 0 <= i < |ParseItems(s).value| :: FloatFree(ParseItems(s).value[i])
    ensures items != [] && (forall i | 0 <= i < |items| :: ItemOk(items[i]))
    ensures PlainItems(items) == ParseItems(s).value && RenderItems(items) + ("]" + ParseItems(s).rest) == pre + s
    decreases |s|, 1, 0
  {
    hide ParseValue, ParseItems, SkipSpace, Render, LayoutOk, Plain, FloatFree;
    ItemParses(s);
    var v, r1 := ParseValue(s).value, ParseValue(s).rest;
    ParseItemsStep(s, v, r1);
    var t := SkipSpace(r1);
    assert ParseItems(s).value[0] == v;
    var body := ValueLayout(s);
    var post := SpaceBefore(r1);
    var item := LItem(pre, body, post);
    if t[0] == ']' {
      items := [item];
      assert t == "]" + t[1..];
      assert pre + s == pre + Render(body) + post + ("]" + t[1..]);
      assert RenderItems(items) == pre + Render(body) + post;
    } else {
      var u := SkipSpace(t[1..]);
      var next := SpaceBefore(t[1..]);
      var tail := ParseItems(u).value;
      assert ParseItems(s).value == [v] + tail;
      forall i | 0 <= i < |tail|
        ensures FloatFree(tail[i])
      {
        assert ParseItems(s).value[i + 1] == tail[i];
      }
      var rest := ItemsLayout(next, u);
      items := [item] + rest;
      assert items[1..] == rest;
      assert t == "," + (next + u);
      JoinTexts(pre + Render(body) + post, RenderItems(rest), "]" + ParseItems(u).rest);
      assert pre + s == pre + Render(body) + post + t;
    }
  }

  lemma JoinTexts(a: string, b: string, c: string)
    ensures a + "," + b + c == a + ("," + (b + c))
  {
  }

  lemma ItemParses(s: string)
    requires ParseItems(s).Parsed?
    ensures ParseValue(s).Parsed?
  {
    hide ParseValue, SkipSpace;
  }

  lemma {:induction false} ObjectLayout(s: string) returns (l: Layout)
    requires s != "" && s[0] == '{' && ParseValue(s).Parsed? && FloatFree(ParseValue(s).value)
    ensures LayoutOk(l) && Plain(l) == ParseValue(s).value && s == Render(l) + ParseValue(s).rest
    decreases |s|, 0, 1
  {
    hide ParseValue, ParseFields, SkipSpace, Render, RenderFields, PlainFields, FieldOk, DistinctKeys, MapOf;
    ParseObjectStep(s);
    var t := SkipSpace(s[1..]);
    var w := SpaceBefore(s[1..]);
    assert s == "{" + (w + t);
    if t != "" && t[0] == '}' {
      l := LObj(w, []);
      assert t == "}" + t[1..];
      EmptyPlain();
      NoPairs();
      RenderObject(w, [], t[1..]);
      SameText(s, Render(l) + t[1..]);
    } else {
      var ps, rest := ParseFields(t).value, ParseFields(t).rest;
      EntriesFloatFree(ps);
      hide FloatFree;
      var fields := FieldsLayout(w, t);
      l := LObj("", fields);
      RenderObject("", fields, rest);
      SameText(s, Render(l) + rest);
    }
  }

  lemma EntriesFloatFree(ps: Entries)
    requires DistinctKeys(ps) && FloatFree(JObj(MapOf(ps)))
    ensures forall i | 0 <= i < |ps| :: FloatFree(ps[i].1)
  {
    hide MapOf;
    forall i | 0 <= i < |ps|
      ensures FloatFree(ps[i].1)
    {
      MapOfAt(ps, i);
    }
  }

  lemma NoPairs()
    ensures MapOf([]) == map[] && DistinctKeys([])
  {
  }

  /** One entry, with the white space around its colon. */
  lemma {:induction false} FieldLayout(pre: string, post: string, s: string) returns (f: LField)
    requires IsSpaces(pre) && IsSpaces(post) && ParseField(s).Parsed? && FloatFree(ParseField(s).value.1)
    ensures FieldOk(f) && f.pre == pre && f.post == post
    ensures (FormsValue(f.key), Plain(f.body)) == ParseField(s).value
    ensures s == Quoted(f.key) + f.mid + ":" + f.gap + Render(f.body) + ParseField(s).rest
    decreases |s|, 1, 0
  {
    hide ParseValue, ParseChars, SkipSpace, Render, LayoutOk, Plain, FloatFree, FormsText, FormsValue, FormsOk;
    var key := CharsForms(s[1..]);
    var r1 := ParseChars(s[1..]).rest;
    var mid := SpaceBefore(r1);
    var t := SkipSpace(r1);
    var gap := SpaceBefore(t[1..]);
    var u := SkipSpace(t[1..]);
    var body := ValueLayout(u);
    f := LField(pre, key, mid, gap, body, post);
    var rest := ParseValue(u).rest;
    assert t == ":" + t[1..] && s == "\"" + s[1..];
    assert s == Quoted(key) + r1;
    assert r1 == mid + (":" + (gap + (Render(body) + rest)));
    JoinEntry(Quoted(key), mid, gap, Render(body), rest);
  }

  lemma JoinEntry(a: string, b: string, c: string, d: string, e: string)
    ensures a + (b + (":" + (c + (d + e)))) == a + b + ":" + c + d + e
  {
    Regroup(a, b, ":", c + (d + e));
    Regroup(a + b + ":", c, d, e);
  }

  lemma {:induction false} FieldsLayout(pre: string, s: string) returns (fields: seq<LField>)
    requires IsSpaces(pre) && ParseFields(s).Parsed?
    requires forall i | 0 <= i < |ParseFields(s).value| :: FloatFree(ParseFields(s).value[i].1)
    ensures fields != [] && (forall i | 0 <= i < |fields| :: FieldOk(fields[i]))
    ensures PlainFields(fields) == ParseFields(s).value && RenderFields(fields) + ("}" + ParseFields(s).rest) == pre + s
    decreases |s|, 2, 0
  {
    hide ParseField, ParseFields, SkipSpace, Render, Plain, FieldOk, FloatFree, Quoted, FormsValue;
    EntryParses(s);
    var p, r1 := ParseField(s).value, ParseField(s).rest;
    ParseFieldsStep(s, p, r1);
    var t := SkipSpace(r1);
    assert ParseFields(s).value[0] == p;
    var post := SpaceBefore(r1);
    var f := FieldLayout(pre, post, s);
    var entry := Quoted(f.key) + f.mid + ":" + f.gap + Render(f.body);
    HeadText(pre, f, post);
    if t[0] == '}' {
      fields := [f];
      assert t == "}" + t[1..];
      assert pre + s == pre + entry + post + ("}" + t[1..]);
    } else {
      var u := SkipSpace(t[1..]);
      var next := SpaceBefore(t[1..]);
      var tail := ParseFields(u).value;
      assert ParseFields(s).value == [p] + tail;
      forall i | 0 <= i < |tail|
        ensures FloatFree(tail[i].1)
      {
        assert ParseFields(s).value[i + 1] == tail[i];
      }
      var rest := FieldsLayout(next, u);
      fields := [f] + rest;
      assert fields[1..] == rest;
      assert t == "," + (next + u);
      JoinTexts(pre + entry + post, RenderFields(rest), "}" + ParseFields(u).rest);
      assert pre + s == pre + entry + post + t;
    }
  }

  lemma HeadText(pre: string, f: LField, post: string)
    ensures pre + (Quoted(f.key) + f.mid + ":" + f.gap + Render(f.body)) + post
         == pre + Quoted(f.key) + f.mid + ":" + f.gap + Render(f.body) + post
  {
    hide Quoted, Render;
    var a, b, c, d := Quoted(f.key), f.mid, f.gap, Render(f.body);
    assert pre + (a + b + ":" + c + d) == pre + (a + b + ":" + c) + d;
    assert pre + (a + b + ":" + c) == pre + (a + b + ":") + c;
    assert pre + (a + b + ":") == pre + (a + b) + ":";
    assert pre + (a + b) == pre + a + b;
  }

  lemma EntryParses(s: string)
    requires ParseFields(s).Parsed?
    ensures ParseField(s).Parsed?
  {
    hide ParseField, SkipSpace;
  }

  // ---------------------------------------------------------------- whole texts

  ghost predicate Spells(s: string, pre: string, l: Layout, post: string, j: Json) {
    LayoutOk(l) && IsSpaces(pre) && IsSpaces(post) && s == pre + Render(l) + post && Plain(l) == j
  }

  /** The layouts are all there is: a text reads as a float-free value exactly when it is a spelling of it. */
  lemma LoadsIff(s: string, j: Json)
    requires FloatFree(j)
    ensures Loads(s) == Some(j) <==> exists pre, l, post :: Spells(s, pre, l, post, j)
  {
    hide ParseValue, SkipSpace, LayoutOk, Render, Plain, FloatFree;
    if Loads(s) == Some(j) {
      var t := SkipSpace(s);
      var pre := SpaceBefore(s);
      var l := ValueLayout(t);
      var rest := ParseValue(t).rest;
      var post := SpaceBefore(rest);
      assert rest == post + "" == post;
      assert s == pre + (Render(l) + post) == pre + Render(l) + post;
      assert Spells(s, pre, l, post, j);
    }
    if exists pre, l, post :: Spells(s, pre, l, post, j) {
      var pre, l, post :| Spells(s, pre, l, post, j);
      LoadsLayout(pre, l, post);
    }
  }
}

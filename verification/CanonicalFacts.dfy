/** Canonical text is one spelling of its value; the bytes therefore determine the value. */
module CanonicalFacts {
  import opened Basics
  import opened Unicode
  import opened Canonical
  import opened JsonText
  import opened JsonRoundTrip

  function CanonForm(c: char): (f: Form)
  {
    if c == 8 as char then Short('b')
    else if c == '\t' then Short('t')
    else if c == '\n' then Short('n')
    else if c == 12 as char then Short('f')
    else if c == '\r' then Short('r')
    else if c == '"' then Short('"')
    else if c == '\\' then Short('\\')
    else if c < 0x20 as char then Unit("00" + [HexDigit(c as int / 16), HexDigit(c as int % 16)])
    else Raw(c)
  }

  lemma CanonFormFacts(c: char)
    ensures FormOk(CanonForm(c))
    ensures FormText(CanonForm(c)) == EscapeChar(c)
    ensures FormValue(CanonForm(c)) == c
  {
    if CanonForm(c).Unit? {
      var h := CanonForm(c).h;
      assert HexValue(h[2]) == Some(c as int / 16) && HexValue(h[3]) == Some(c as int % 16);
      assert Hex4(h) == c as int;
    }
  }

  function CanonForms(s: string): (fs: seq<Form>)
  {
    if s == "" then [] else [CanonForm(s[0])] + CanonForms(s[1..])
  }

  lemma {:induction false} CanonFormsFacts(s: string)
    ensures FormsOk(CanonForms(s))
    ensures FormsText(CanonForms(s)) == EscapeChars(s) && Quoted(CanonForms(s)) == EscapedString(s)
    ensures FormsValue(CanonForms(s)) == s
  {
    if s != "" {
      CanonFormFacts(s[0]);
      CanonFormsFacts(s[1..]);
      assert CanonForms(s)[1..] == CanonForms(s[1..]);
      assert s == [s[0]] + s[1..];
    }
  }

  /** The spelling the printer chooses: no white space, sorted keys, shortest escapes. */
  function CanonLayout(j: Json): (l: Layout)
    decreases j, 1
  {
    match j
    case JNull => LNull
    case JBool(b) => LBool(b)
    case JInt(n) => LInt(n)
    case JFloat(_) => LNull
    case JStr(s) => LText(CanonForms(s))
    case JArr(items) => LArr("", CanonItems(items))
    case JObj(fields) => LObj("", CanonFields(j, Sorted(Keys, fields.Keys)))
  }

  function CanonItems(items: seq<Json>): (r: seq<LItem>)
    ensures |r| == |items|
    decreases items, 0
  {
    if items == [] then [] else [LItem("", CanonLayout(items[0]), "")] + CanonItems(items[1..])
  }

  function CanonFields(j: Json, keys: seq<string>): (r: seq<LField>)
    requires j.JObj? && forall k | k in keys :: k in j.fields
    ensures |r| == |keys|
    decreases j, 0, |keys|
  {
    if keys == [] then []
    else [LField("", CanonForms(keys[0]), "", "", CanonLayout(j.fields[keys[0]]), "")] + CanonFields(j, keys[1..])
  }

  function Listed(j: Json, keys: seq<string>): (ps: Entries)
    requires j.JObj? && forall k | k in keys :: k in j.fields
    ensures |ps| == |keys|
    ensures forall i | 0 <= i < |keys| :: ps[i] == (keys[i], j.fields[keys[i]])
  {
    seq(|keys|, i requires 0 <= i < |keys| => (keys[i], j.fields[keys[i]]))
  }

  lemma ListedDistinct(j: Json, keys: seq<string>)
    requires j.JObj? && (forall k | k in keys :: k in j.fields) && Ascending(Keys, keys)
    ensures DistinctKeys(Listed(j, keys))
  {
    hide Before, Listed;
    forall a, b | 0 <= a < b < |keys|
      ensures keys[a] != keys[b]
    {
      assert Before(Keys, keys[a], keys[b]);
      BeforeStrict(Keys, keys[a], keys[b]);
    }
  }

  /** Listing a dict by its sorted keys loses nothing. */
  lemma ListedIsWhole(j: Json, keys: seq<string>)
    requires j.JObj? && (forall k :: k in keys <==> k in j.fields) && Ascending(Keys, keys)
    ensures DistinctKeys(Listed(j, keys)) && MapOf(Listed(j, keys)) == j.fields
  {
    hide Before, Listed, MapOf;
    var ps := Listed(j, keys);
    ListedDistinct(j, keys);
    assert forall k | k in MapOf(ps) :: k in keys;
    forall k | k in j.fields
      ensures k in MapOf(ps) && MapOf(ps)[k] == j.fields[k]
    {
      var i :| 0 <= i < |keys| && keys[i] == k;
      MapOfAt(ps, i);
    }
  }

  /** The printer's output is the rendering of the canonical spelling, which spells `j` itself. */
  lemma {:induction false} CanonLayoutFacts(j: Json)
    requires Encodable(j)
    ensures LayoutOk(CanonLayout(j))
    ensures Plain(CanonLayout(j)) == j
    ensures Serialize(j) == Ok(Render(CanonLayout(j)))
    decreases j, 1, 1
  {
    hide CanonForms, CanonItems, CanonFields, SerializeItems, SerializeFields, PlainItems, PlainFields, RenderItems,
         RenderFields, EscapeChars, FormsText, FormsValue, Sorted, ItemOk, FieldOk, DistinctKeys, MapOf;
    match j
    case JStr(s) => CanonFormsFacts(s);
    case JArr(items) =>
      CanonItemsFacts(items);
      EmptyTexts(j, []);
    case JObj(fields) => CanonObjectFacts(j);
    case _ =>
  }

  lemma {:induction false} CanonObjectFacts(j: Json)
    requires j.JObj? && Encodable(j)
    ensures LayoutOk(CanonLayout(j))
    ensures Plain(CanonLayout(j)) == j
    ensures Serialize(j) == Ok(Render(CanonLayout(j)))
    decreases j, 1, 0
  {
    hide CanonForms, CanonItems, CanonFields, SerializeItems, SerializeFields, PlainItems, PlainFields, RenderItems,
         RenderFields, EscapeChars, FormsText, FormsValue, Sorted, ItemOk, FieldOk, DistinctKeys, MapOf,
         Listed, Encodable, FormsOk, Quoted, EscapedString;
    var keys := Sorted(Keys, j.fields.Keys);
    CanonFieldsFacts(j, keys);
    ListedIsWhole(j, keys);
    EmptyTexts(j, keys);
  }

  lemma EmptyTexts(j: Json, keys: seq<string>)
    requires j.JObj? ==> forall k | k in keys :: k in j.fields
    ensures RenderItems([]) == "" && RenderFields([]) == ""
    ensures j.JArr? && CanonItems(j.items) == [] ==> SerializeItems(j.items) == Ok("")
    ensures j.JObj? && CanonFields(j, keys) == [] ==> SerializeFields(j, keys) == Ok("")
  {
  }

  lemma {:induction false} CanonItemsFacts(items: seq<Json>)
    requires forall i | 0 <= i < |items| :: Encodable(items[i])
    ensures forall i | 0 <= i < |items| :: ItemOk(CanonItems(items)[i])
    ensures PlainItems(CanonItems(items)) == items
    ensures SerializeItems(items) == Ok(RenderItems(CanonItems(items)))
    decreases items, 0
  {
    hide Serialize, Render, Plain, LayoutOk, CanonLayout;
    if items != [] {
      CanonLayoutFacts(items[0]);
      CanonItemsFacts(items[1..]);
      var r := CanonItems(items);
      assert r[1..] == CanonItems(items[1..]);
      assert items == [items[0]] + items[1..];
      var t := Render(r[0].body);
      assert "" + t + "" == t;
    }
  }

  lemma {:induction false} CanonFieldsFacts(j: Json, keys: seq<string>)
    requires j.JObj? && Encodable(j) && forall k | k in keys :: k in j.fields
    ensures forall i | 0 <= i < |keys| :: FieldOk(CanonFields(j, keys)[i])
    ensures PlainFields(CanonFields(j, keys)) == Listed(j, keys)
    ensures SerializeFields(j, keys) == Ok(RenderFields(CanonFields(j, keys)))
    decreases j, 0, |keys|
  {
    hide Serialize, Render, Plain, LayoutOk, CanonLayout, CanonForms, FormsText, EscapeChars, FormsOk, FormsValue,
         Sorted,
         Quoted, EscapedString;
    if keys != [] {
      assert Encodable(j.fields[keys[0]]);
      hide Encodable;
      CanonLayoutFacts(j.fields[keys[0]]);
      CanonFormsFacts(keys[0]);
      CanonFieldsFacts(j, keys[1..]);
      var r := CanonFields(j, keys);
      assert r[1..] == CanonFields(j, keys[1..]);
      assert Listed(j, keys) == [(keys[0], j.fields[keys[0]])] + Listed(j, keys[1..]);
      var q, t := EscapedString(keys[0]), Render(r[0].body);
      assert "" + q + "" + ":" + "" + t + "" == q + ":" + t;
    }
  }

  /** `json.loads` undoes the printer on every value it can print. */
  lemma LoadsSerialized(j: Json)
    requires Encodable(j)
    ensures Serialize(j).Ok? && Loads(Serialize(j).value) == Some(j)
  {
    hide Serialize, Loads, Render, Plain, LayoutOk, CanonLayout, Encodable;
    CanonLayoutFacts(j);
    LoadsLayout("", CanonLayout(j), "");
    var t := Render(CanonLayout(j));
    assert "" + t + "" == t;
  }

  /** Two values have the same canonical bytes exactly when they are the same value. */
  lemma CanonicalInjective(a: Json, b: Json)
    requires Encodable(a) && Encodable(b)
    ensures Canonicalize(a).Ok? && Canonicalize(b).Ok?
    ensures Canonicalize(a) == Canonicalize(b) <==> a == b
  {
    hide Serialize, Loads, Encodable, Utf8;
    LoadsSerialized(a);
    LoadsSerialized(b);
    if Canonicalize(a) == Canonicalize(b) {
      Utf8Injective(Serialize(a).value, Serialize(b).value);
    }
  }

  /** `canonicalize` raises exactly on a value holding a float or an unsafe integer. */
  lemma CanonicalizeSucceeds(j: Json)
    ensures Canonicalize(j).Ok? <==> Encodable(j)
  {
    SerializeSucceeds(j);
  }

  /** Different values never share canonical bytes. */
  lemma BytesApart(a: Json, b: Json)
    requires a != b
    ensures Canonicalize(a).Ok? ==> Canonicalize(a) != Canonicalize(b)
  {
    hide Canonicalize, Encodable;
    CanonicalizeSucceeds(a);
    CanonicalizeSucceeds(b);
    if Canonicalize(a).Ok? && Canonicalize(b).Ok? {
      CanonicalInjective(a, b);
    }
  }

  /** An object of strings and nulls can always be encoded. */
  lemma TextObjectEncodes(fields: map<string, Json>)
    requires forall k | k in fields :: fields[k].JStr? || fields[k].JNull?
    ensures Canonicalize(JObj(fields)).Ok? && Encodable(JObj(fields))
  {
    hide Canonicalize;
    CanonicalizeSucceeds(JObj(fields));
  }
}

/** The size- and depth-bounded JSON codec of response.py. None stands for the one error both raise. */
module BoundedJson {
  import opened Basics
  import opened Unicode
  import opened Canonical
  import opened JsonText
  import opened JsonRoundTrip
  import opened JsonSpelling
  import opened CanonicalFacts

  const MAX_BYTES: int := 1048576
  const MAX_DEPTH: int := 64

  /** The nested `check`: no item sits deeper than 64 levels. */
  predicate Shallow(j: Json, depth: nat) {
    && depth <= MAX_DEPTH
    && match j
       case JArr(items) => forall i | 0 <= i < |items| :: Shallow(items[i], depth + 1)
       case JObj(fields) => forall k | k in fields :: Shallow(fields[k], depth + 1)
       case _ => true
  }

  function Encode(j: Json): (r: Option<Bytes>)
  {
    if !Shallow(j, 0) then None
    else
      match Canonicalize(j)
      case Err(_) => None
      case Ok(raw) => if |raw| > MAX_BYTES then None else Some(raw)
  }

  function Decode(raw: Bytes): (r: Option<Json>)
    ensures r.Some? ==> r.value.JObj? && Encode(r.value).Some?
  {
    if |raw| > MAX_BYTES then None
    else
      match Utf8Decode(raw)
      case None => None
      case Some(text) =>
        match Loads(text)
        case None => None
        case Some(v) => if v.JObj? && Encode(v).Some? then Some(v) else None
  }

  /** Whatever spelling carries an object, decoding yields the object, as long as the text fits. */
  lemma DecodeSpelling(pre: string, l: Layout, post: string)
    requires LayoutOk(l) && IsSpaces(pre) && IsSpaces(post)
    requires Plain(l).JObj? && Encode(Plain(l)).Some?
    requires |Utf8(pre + Render(l) + post)| <= MAX_BYTES
    ensures Decode(Utf8(pre + Render(l) + post)) == Some(Plain(l))
  {
    hide Loads, Render, Plain, LayoutOk, Encode, Utf8Decode;
    Utf8RoundTrip(pre + Render(l) + post);
    LoadsLayout(pre, l, post);
  }

  /** Decoding undoes encoding on objects, and refuses the encoding of anything else. */
  lemma DecodeEncode(j: Json)
    requires Encode(j).Some?
    ensures Decode(Encode(j).value) == if j.JObj? then Some(j) else None
  {
    hide Loads, Utf8Decode, Serialize, Encodable;
    CanonicalizeSucceeds(j);
    LoadsSerialized(j);
    Utf8RoundTrip(Serialize(j).value);
  }

  lemma EncodeInjective(a: Json, b: Json)
    requires Encode(a).Some? && Encode(a) == Encode(b)
    ensures a == b
  {
    hide Serialize, Encodable;
    CanonicalizeSucceeds(a);
    CanonicalizeSucceeds(b);
    CanonicalInjective(a, b);
  }

  /** Exactly which bytes decode to an object: within the bound, the UTF-8 of any spelling of it. */
  lemma DecodeIff(raw: Bytes, j: Json)
    ensures Decode(raw) == Some(j) <==>
            && j.JObj? && Encode(j).Some? && |raw| <= MAX_BYTES
            && exists s, pre, l, post :: raw == Utf8(s) && Spells(s, pre, l, post, j)
  {
    hide Loads, Utf8Decode, Utf8, Encode, Spells;
    if Encode(j).Some? {
      EncodedIsFloatFree(j);
      if Decode(raw) == Some(j) {
        var s := Utf8Decode(raw).value;
        Utf8DecodeIff(raw, s);
        LoadsIff(s, j);
        var pre, l, post :| Spells(s, pre, l, post, j);
      }
      if exists s, pre, l, post :: raw == Utf8(s) && Spells(s, pre, l, post, j) {
        var s, pre, l, post :| raw == Utf8(s) && Spells(s, pre, l, post, j);
        Utf8DecodeIff(raw, s);
        LoadsIff(s, j);
      }
    }
  }

  lemma EncodedIsFloatFree(j: Json)
    requires Encode(j).Some?
    ensures FloatFree(j)
  {
    hide Canonicalize, Shallow, FloatFree, Encodable;
    CanonicalizeSucceeds(j);
    EncodableIsFloatFree(j);
  }

  /** When encoding succeeds, and to what. */
  lemma EncodeIff(j: Json)
    ensures Encode(j).Some? <==> Shallow(j, 0) && Canonicalize(j).Ok? && |Canonicalize(j).value| <= MAX_BYTES
    ensures Encode(j).Some? ==> Canonicalize(j) == Ok(Encode(j).value)
  {
    hide Canonicalize, Encodable, Shallow;
    CanonicalizeSucceeds(j);
  }

  // ---------------------------------------------------------------- nesting

  /** One step into a value: a position of an array or a name of an object. */
  datatype Into = Item(i: nat) | Named(key: string)

  /** The steps lead to a value inside `j`. */
  predicate Reaches(j: Json, path: seq<Into>) {
    || path == []
    || match path[0]
       case Item(i) => j.JArr? && i < |j.items| && Reaches(j.items[i], path[1..])
       case Named(key) => j.JObj? && key in j.fields && Reaches(j.fields[key], path[1..])
  }

  /** The depth check is about paths: it passes exactly when no path into the value is longer than 64. */
  lemma {:induction false} ShallowIff(j: Json, depth: nat)
    ensures Shallow(j, depth) <==> forall path: seq<Into> | Reaches(j, path) :: depth + |path| <= 64
    decreases j
  {
    if Shallow(j, depth) {
      forall path: seq<Into> | Reaches(j, path)
        ensures depth + |path| <= 64
      {
        if path != [] {
          var child := if path[0].Item? then j.items[path[0].i] else j.fields[path[0].key];
          ShallowIff(child, depth + 1);
          assert Reaches(child, path[1..]);
        }
      }
    } else if depth <= 64 {
      var step, child := DeepChild(j, depth);
      ShallowIff(child, depth + 1);
      var path :| Reaches(child, path) && depth + 1 + |path| > 64;
      assert ([step] + path)[1..] == path;
      assert Reaches(j, [step] + path);
    } else {
      assert Reaches(j, []);
    }
  }

  lemma DeepChild(j: Json, depth: nat) returns (step: Into, child: Json)
    requires depth <= 64 && !Shallow(j, depth)
    ensures !Shallow(child, depth + 1) && child < j
    ensures match step
            case Item(i) => j.JArr? && i < |j.items| && child == j.items[i]
            case Named(key) => j.JObj? && key in j.fields && child == j.fields[key]
  {
    if j.JArr? {
      var i :| 0 <= i < |j.items| && !Shallow(j.items[i], depth + 1);
      step, child := Item(i), j.items[i];
    } else {
      var key :| key in j.fields && !Shallow(j.fields[key], depth + 1);
      step, child := Named(key), j.fields[key];
    }
  }
}

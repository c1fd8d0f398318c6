/** The values that JSON texts stand for, with numbers kept as text. */
module Values {
  import opened Bytes
  import opened Grammar
  import opened Strings

  datatype Json =
    | JNull
    | JBool(b: bool)
    | JNumber(text: bytes)
    | JString(s: bytes)
    | JArray(elems: seq<Json>)
    | JObject(members: map<bytes, Json>)

  function Unquoted(text: bytes): bytes {
    var u := Unquote(text);
    if u.None? then [] else u.value
  }

  function LiteralMeaning(text: bytes): Json
    requires text != []
  {
    if text[0] == 0x6E then JNull
    else if text[0] == 0x74 || text[0] == 0x66 then JBool(text[0] == 0x74)
    else if text[0] == QUOTE then JString(Unquoted(text))
    else JNumber(text)
  }

  function KeyName(k: Key): bytes {
    if k.Key? then Unquoted(k.text) else []
  }

  /** The value of a tree, or None when some object repeats a key. */
  function Meaning(t: Tree): Option<Json>
    decreases t, 0
  {
    match t
    case Leaf(text) => if text == [] then None else Some(LiteralMeaning(text))
    case Node(obj, gap, items) =>
      if obj then
        var m := ObjectMeaning(items, map[]);
        if m.None? then None else Some(JObject(m.value))
      else
        var a := ArrayMeaning(items, []);
        if a.None? then None else Some(JArray(a.value))
  }

  function ArrayMeaning(xs: Items, done: seq<Json>): Option<seq<Json>>
    decreases xs, 0
  {
    match xs
    case Nil => Some(done)
    case Cons(_, _, value, _, rest) =>
      var v := Meaning(value);
      if v.None? then None else ArrayMeaning(rest, done + [v.value])
  }

  function ObjectMeaning(xs: Items, done: map<bytes, Json>): Option<map<bytes, Json>>
    decreases xs, 0
  {
    match xs
    case Nil => Some(done)
    case Cons(_, key, value, _, rest) =>
      if KeyName(key) in done then None else
      var v := Meaning(value);
      if v.None? then None else ObjectMeaning(rest, done[KeyName(key) := v.value])
  }

  // When a text has no value.

  function KeyNames(xs: Items): seq<bytes> {
    match xs
    case Nil => []
    case Cons(_, key, _, _, rest) => [KeyName(key)] + KeyNames(rest)
  }

  predicate Distinct(names: seq<bytes>) {
    forall i, j | 0 <= i < j < |names| :: names[i] != names[j]
  }

  /** Some object, at any depth, has two members with the same name. */
  predicate RepeatsKey(t: Tree) {
    match t
    case Leaf(_) => false
    case Node(obj, _, items) => (obj && !Distinct(KeyNames(items))) || ItemRepeatsKey(items)
  }

  predicate ItemRepeatsKey(xs: Items) {
    match xs
    case Nil => false
    case Cons(_, _, value, _, rest) => RepeatsKey(value) || ItemRepeatsKey(rest)
  }

  predicate Fresh(names: seq<bytes>, done: set<bytes>) {
    Distinct(names) && forall i | 0 <= i < |names| :: names[i] !in done
  }

  lemma FreshStep(n: bytes, names: seq<bytes>, done: set<bytes>)
    ensures Fresh([n] + names, done) <==> n !in done && Fresh(names, done + {n})
  {
    var all := [n] + names;
    if Fresh(all, done) {
      assert all[0] == n;
      forall i | 0 <= i < |names| ensures names[i] !in done + {n} { assert all[i + 1] == names[i]; }
      forall i, j | 0 <= i < j < |names| ensures names[i] != names[j] {
        assert all[i + 1] == names[i] && all[j + 1] == names[j];
      }
    }
  }

  /** Decoding has no value exactly when some object at some depth repeats a key. */
  lemma {:induction false} NoMeaning(t: Tree)
    requires TreeOk(t)
    ensures Meaning(t).None? <==> RepeatsKey(t)
    decreases t, 0
  {
    match t
    case Leaf(text) => LeafNonempty(text);
    case Node(obj, gap, items) =>
      if obj { NoObject(items, map[]); } else { NoArray(items, []); }
  }

  lemma LeafNonempty(text: bytes)
    requires IsLiteral(text)
    ensures text != []
  {
    if IsNumber(text) {
      var m, i, f, e :| NumberParts(text, m, i, f, e);
    }
  }

  lemma {:induction false} NoArray(xs: Items, done: seq<Json>)
    requires ItemsOk(false, xs)
    ensures ArrayMeaning(xs, done).None? <==> ItemRepeatsKey(xs)
    decreases xs, 0
  {
    if xs.Cons? {
      NoMeaning(xs.value);
      if Meaning(xs.value).Some? { NoArray(xs.rest, done + [Meaning(xs.value).value]); }
    }
  }

  lemma {:induction false} NoObject(xs: Items, done: map<bytes, Json>)
    requires ItemsOk(true, xs)
    ensures ObjectMeaning(xs, done).None? <==> !Fresh(KeyNames(xs), done.Keys) || ItemRepeatsKey(xs)
    decreases xs, 0
  {
    if xs.Cons? {
      var n := KeyName(xs.key);
      FreshStep(n, KeyNames(xs.rest), done.Keys);
      NoMeaning(xs.value);
      if Meaning(xs.value).Some? {
        var next := done[n := Meaning(xs.value).value];
        assert next.Keys == done.Keys + {n};
        NoObject(xs.rest, next);
      }
    }
  }
}

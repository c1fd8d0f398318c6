/** `Marshal` across calls: map order does not matter, raw messages reprint unchanged, decoding undoes it. */
module RoundTrip {
  import opened Bytes
  import opened Grammar
  import opened Parser
  import opened Utf8
  import opened Strings
  import opened Values
  import opened Compact
  import opened Encode
  import Decode

  // Key order.

  lemma {:induction false} BeforeOrder(a: bytes, b: bytes)
    ensures Before(a, b) || a == b || Before(b, a)
    ensures Before(a, b) ==> a != b && !Before(b, a)
    decreases a
  {
    if a != [] && b != [] && a[0] == b[0] {
      BeforeOrder(a[1..], b[1..]);
      HeadTail(a);
      HeadTail(b);
    }
  }

  lemma {:induction false} BeforeChain(a: bytes, b: bytes, c: bytes)
    requires Before(a, b) && Before(b, c)
    ensures Before(a, c)
    decreases a
  {
    if a != [] && a[0] == b[0] == c[0] { BeforeChain(a[1..], b[1..], c[1..]); }
  }

  /** `a` is a proper prefix of `b`, or has the smaller byte where they first differ. */
  ghost predicate Precedes(a: bytes, b: bytes) {
    || a < b
    || exists i :: DifferFirst(a, b, i) && a[i] < b[i]
  }

  predicate DifferFirst(a: bytes, b: bytes, i: int) {
    0 <= i < |a| && i < |b| && a[..i] == b[..i] && a[i] != b[i]
  }

  lemma PrecedesTail(a: bytes, b: bytes)
    requires a != [] && b != [] && a[0] == b[0]
    ensures Precedes(a, b) <==> Precedes(a[1..], b[1..])
  {
    var x, y := a[1..], b[1..];
    HeadTail(a);
    HeadTail(b);
    forall i | DifferFirst(x, y, i) ensures DifferFirst(a, b, i + 1) && a[i + 1] == x[i] && b[i + 1] == y[i] {
      assert a[..i + 1] == [a[0]] + x[..i] && b[..i + 1] == [b[0]] + y[..i];
    }
    forall i | DifferFirst(a, b, i) ensures DifferFirst(x, y, i - 1) && a[i] == x[i - 1] && b[i] == y[i - 1] {
      assert x[..i - 1] == a[..i][1..] && y[..i - 1] == b[..i][1..];
    }
  }

  lemma PrecedesHead(a: bytes, b: bytes)
    requires a != [] && b != [] && a[0] != b[0]
    ensures Precedes(a, b) <==> a[0] < b[0]
  {
    assert DifferFirst(a, b, 0);
    forall i | 0 < i < |a| && i < |b| ensures !DifferFirst(a, b, i) {
      assert a[..i][0] == a[0] && b[..i][0] == b[0];
    }
  }

  /** Keys are compared byte by byte. */
  lemma {:induction false} BeforeExactly(a: bytes, b: bytes)
    ensures Before(a, b) <==> Precedes(a, b)
    decreases a
  {
    if a != [] && b != [] {
      hide Precedes;
      if a[0] == b[0] {
        PrecedesTail(a, b);
        BeforeExactly(a[1..], b[1..]);
      } else {
        PrecedesHead(a, b);
      }
    }
  }

  function Names(vals: Vals): set<bytes> {
    if vals.NoVals? then {} else {vals.name} + Names(vals.rest)
  }

  predicate DistinctNames(vals: Vals) {
    vals.AVal? ==> vals.name !in Names(vals.rest) && DistinctNames(vals.rest)
  }

  function Lookup(vals: Vals, n: bytes): (v: Option<Val>)
    ensures v.Some? <==> n in Names(vals)
  {
    if vals.NoVals? then None else if vals.name == n then Some(vals.v) else Lookup(vals.rest, n)
  }

  /** Names strictly ascend. */
  predicate Ascending(vals: Vals) {
    vals.AVal? ==> Ascending(vals.rest) && (vals.rest.AVal? ==> Before(vals.name, vals.rest.name))
  }

  lemma {:induction false} AscendingFirst(vals: Vals, n: bytes)
    requires Ascending(vals) && vals.AVal? && n in Names(vals.rest)
    ensures Before(vals.name, n)
    decreases vals
  {
    var r := vals.rest;
    if n != r.name {
      AscendingFirst(r, n);
      BeforeChain(vals.name, r.name, n);
    }
  }

  lemma {:induction false} InsertKeeps(name: bytes, v: Val, vals: Vals)
    requires Ascending(vals) && name !in Names(vals)
    ensures Ascending(InsertVal(name, v, vals)) && Names(InsertVal(name, v, vals)) == {name} + Names(vals)
    ensures forall n :: Lookup(InsertVal(name, v, vals), n) == if n == name then Some(v) else Lookup(vals, n)
    decreases vals
  {
    if vals.AVal? {
      BeforeOrder(name, vals.name);
      if !Before(name, vals.name) { InsertKeeps(name, v, vals.rest); }
    }
  }

  /** Sorting puts distinct names in ascending order and keeps every entry. */
  lemma {:induction false} SortKeeps(vals: Vals)
    requires DistinctNames(vals)
    ensures Ascending(SortVals(vals)) && Names(SortVals(vals)) == Names(vals)
    ensures forall n :: Lookup(SortVals(vals), n) == Lookup(vals, n)
  {
    if vals.AVal? {
      SortKeeps(vals.rest);
      InsertKeeps(vals.name, vals.v, SortVals(vals.rest));
    }
  }

  function NameList(vals: Vals): seq<bytes> {
    if vals.NoVals? then [] else [vals.name] + NameList(vals.rest)
  }

  lemma {:induction false} NamesListed(vals: Vals, i: nat)
    requires i < |NameList(vals)|
    ensures NameList(vals)[i] in Names(vals)
    decreases vals
  {
    if i > 0 { NamesListed(vals.rest, i - 1); }
  }

  lemma {:induction false} AscendingList(vals: Vals, i: nat, j: nat)
    requires Ascending(vals) && i < j < |NameList(vals)|
    ensures Precedes(NameList(vals)[i], NameList(vals)[j])
    decreases vals
  {
    hide Precedes, Before;
    if i > 0 {
      AscendingList(vals.rest, i - 1, j - 1);
    } else {
      NamesListed(vals.rest, j - 1);
      AscendingFirst(vals, NameList(vals)[j]);
      BeforeExactly(vals.name, NameList(vals)[j]);
    }
  }

  function KeyTexts(xs: Items): seq<bytes> {
    match xs
    case Nil => []
    case Cons(_, key, _, _, rest) => [if key.Key? then key.text else []] + KeyTexts(rest)
  }

  /** Fields are printed in the order given. */
  lemma {:induction false} FieldsInOrder(vals: Vals)
    requires FieldsOf(true, vals).Some?
    ensures var texts := KeyTexts(FieldsOf(true, vals).value);
            |texts| == |NameList(vals)| && forall i | 0 <= i < |texts| :: texts[i] == Quote(NameList(vals)[i])
    decreases vals
  {
    hide TreeOf, Quote;
    if vals.AVal? { FieldsInOrder(vals.rest); }
  }

  /** The names of a printed map ascend byte by byte, and are exactly the names of the map. */
  lemma MapInOrder(vals: Vals)
    requires DistinctNames(vals) && TreeOf(VMap(vals)).Some?
    ensures TreeOf(VMap(vals)).value.Node?
    ensures exists names: seq<bytes> ::
              && |names| == |KeyTexts(TreeOf(VMap(vals)).value.items)|
              && (forall i | 0 <= i < |names| :: KeyTexts(TreeOf(VMap(vals)).value.items)[i] == Quote(names[i]))
              && (forall i, j | 0 <= i < j < |names| :: Precedes(names[i], names[j]))
              && (forall n :: n in names <==> n in Names(vals))
  {
    hide FieldsOf, Quote, Precedes, SortVals;
    var sorted := SortVals(vals);
    SortKeeps(vals);
    FieldsInOrder(sorted);
    var names := NameList(sorted);
    forall i: nat, j: nat | i < j < |names| ensures Precedes(names[i], names[j]) { AscendingList(sorted, i, j); }
    ListedNames(sorted);
    assert forall i, j | 0 <= i < j < |names| :: Precedes(names[i], names[j]);
  }

  lemma {:induction false} ListedNames(vals: Vals)
    ensures forall n :: n in NameList(vals) <==> n in Names(vals)
    decreases vals
  {
    if vals.AVal? { ListedNames(vals.rest); }
  }

  lemma FirstOf(a: Vals, b: Vals)
    requires Ascending(a) && Ascending(b) && Names(a) == Names(b) && a.AVal? && b.AVal?
    ensures a.name == b.name
  {
    assert a.name in Names(b) && b.name in Names(a);
    if a.name != b.name {
      AscendingFirst(b, a.name);
      AscendingFirst(a, b.name);
      BeforeOrder(a.name, b.name);
    }
  }

  lemma {:induction false} AscendingUnique(a: Vals, b: Vals)
    requires Ascending(a) && Ascending(b) && forall n :: Lookup(a, n) == Lookup(b, n)
    ensures a == b
    decreases a
  {
    NamesByLookup(a, b);
    if a.AVal? && b.AVal? {
      FirstOf(a, b);
      forall n ensures Lookup(a.rest, n) == Lookup(b.rest, n) {
        if n == a.name {
          NotAgain(a);
          NotAgain(b);
        } else {
          assert Lookup(a, n) == Lookup(b, n);
        }
      }
      assert Lookup(a, a.name) == Lookup(b, a.name);
      AscendingUnique(a.rest, b.rest);
    } else {
      EmptyNames(a);
      EmptyNames(b);
    }
  }

  lemma EmptyNames(a: Vals)
    ensures Names(a) == {} <==> a.NoVals?
  {
    if a.AVal? { assert a.name in Names(a); }
  }

  lemma NamesByLookup(a: Vals, b: Vals)
    requires forall n :: Lookup(a, n) == Lookup(b, n)
    ensures Names(a) == Names(b)
  {
    forall n ensures n in Names(a) <==> n in Names(b) { assert Lookup(a, n) == Lookup(b, n); }
  }

  lemma NotAgain(a: Vals)
    requires Ascending(a) && a.AVal?
    ensures a.name !in Names(a.rest) && Lookup(a.rest, a.name) == None
  {
    if a.name in Names(a.rest) {
      AscendingFirst(a, a.name);
      BeforeOrder(a.name, a.name);
    }
  }

  /** Two enumerations of the same map print the same. */
  lemma MapOrder(a: Vals, b: Vals)
    requires DistinctNames(a) && DistinctNames(b) && forall n :: Lookup(a, n) == Lookup(b, n)
    ensures TreeOf(VMap(a)) == TreeOf(VMap(b))
  {
    hide FieldsOf;
    SortKeeps(a);
    SortKeeps(b);
    AscendingUnique(SortVals(a), SortVals(b));
  }

  // Raw messages.

  /** Every value replaced by its own output, as a raw message. */
  ghost function Raws(vals: Vals): Vals
    requires FieldsOf(true, vals).Some?
  {
    if vals.NoVals? then NoVals else AVal(vals.name, VRaw(MarshalText(vals.v).value), Raws(vals.rest))
  }

  lemma RawTree(v: Val)
    requires MarshalText(v).Some?
    ensures TreeOf(VRaw(MarshalText(v).value)) == TreeOf(v)
  {
    hide Parse, TreeOf, Tight, CompactText, TreeOk, Spell;
    MarshalForm(v);
    PrintedForm(v);
    TreeOfRaw(MarshalText(v).value);
  }

  lemma TreeOfRaw(text: bytes)
    requires Parse(text).Some?
    ensures TreeOf(VRaw(text)) == Some(Tight(Parse(text).value.tree, true))
  {}

  lemma {:induction false} RawFields(vals: Vals)
    requires FieldsOf(true, vals).Some?
    ensures FieldsOf(true, Raws(vals)) == FieldsOf(true, vals)
    decreases vals
  {
    hide TreeOf, Quote;
    if vals.AVal? {
      RawTree(vals.v);
      RawFields(vals.rest);
    }
  }

  lemma {:induction false} InsertRaw(name: bytes, v: Val, vals: Vals)
    requires TreeOf(v).Some? && FieldsOf(true, vals).Some?
    ensures FieldsOf(true, InsertVal(name, v, vals)).Some?
    ensures Raws(InsertVal(name, v, vals)) == InsertVal(name, VRaw(MarshalText(v).value), Raws(vals))
    decreases vals
  {
    hide TreeOf, Quote;
    if vals.AVal? && !Before(name, vals.name) { InsertRaw(name, v, vals.rest); }
  }

  lemma {:induction false} InsertFails(name: bytes, v: Val, vals: Vals)
    ensures FieldsOf(true, InsertVal(name, v, vals)).Some? <==> TreeOf(v).Some? && FieldsOf(true, vals).Some?
    decreases vals
  {
    hide TreeOf, Quote;
    if vals.AVal? && !Before(name, vals.name) { InsertFails(name, v, vals.rest); }
  }

  lemma {:induction false} SortRaw(vals: Vals)
    ensures FieldsOf(true, SortVals(vals)).Some? <==> FieldsOf(true, vals).Some?
    ensures FieldsOf(true, vals).Some? ==> SortVals(Raws(vals)) == Raws(SortVals(vals))
    decreases vals
  {
    hide TreeOf, Quote;
    if vals.AVal? {
      SortRaw(vals.rest);
      InsertFails(vals.name, vals.v, SortVals(vals.rest));
      if FieldsOf(true, vals).Some? { InsertRaw(vals.name, vals.v, SortVals(vals.rest)); }
    }
  }

  /** Marshalling each value of a map by itself and then the map of raw messages prints the same bytes. */
  lemma RemarshalSame(vals: Vals)
    requires MarshalText(VMap(vals)).Some?
    ensures FieldsOf(true, vals).Some? && MarshalText(VMap(Raws(vals))) == MarshalText(VMap(vals))
  {
    hide FieldsOf, SortVals;
    SortRaw(vals);
    RawFields(SortVals(vals));
  }

  // Decoding.

  /** `v` is a rendering of `x`: the same value, with valid UTF-8 and valid number texts. */
  ghost predicate Renders(v: Val, x: Json)
    decreases Size(v)
  {
    match v
    case VNull => x.JNull?
    case VBool(b) => x == JBool(b)
    case VInt(n) => x == JNumber(IntText(n))
    case VNumber(text) => x == JNumber(text) && IsNumber(text)
    case VString(s) => x == JString(s) && IsUtf8(s)
    case VArray(elems) => x.JArray? && RendersElems(elems, x.elems)
    case VMap(entries) => x.JObject? && RendersMembers(entries, x.members) && Names(entries) == x.members.Keys
    case VStruct(fields) => x.JObject? && RendersMembers(fields, x.members) && Names(fields) == x.members.Keys
    case VRaw(text) => Parse(text).Some? && Meaning(Parse(text).value.tree) == Some(x)
  }

  ghost predicate RendersElems(vals: Vals, xs: seq<Json>)
    decreases SizeAll(vals)
  {
    match vals
    case NoVals => xs == []
    case AVal(_, v, rest) => xs != [] && Renders(v, xs[0]) && RendersElems(rest, xs[1..])
  }

  ghost predicate RendersMembers(vals: Vals, m: map<bytes, Json>)
    decreases SizeAll(vals)
  {
    match vals
    case NoVals => true
    case AVal(n, v, rest) => n in m && IsUtf8(n) && n !in Names(rest) && Renders(v, m[n]) && RendersMembers(rest, m)
  }

  lemma {:induction false} InsertRenders(name: bytes, v: Val, vals: Vals, m: map<bytes, Json>)
    requires RendersMembers(vals, m) && name in m && IsUtf8(name) && name !in Names(vals) && Renders(v, m[name])
    ensures RendersMembers(InsertVal(name, v, vals), m) && Names(InsertVal(name, v, vals)) == {name} + Names(vals)
    decreases vals
  {
    hide Renders, IsUtf8, Before;
    if vals.AVal? && !Before(name, vals.name) { InsertRenders(name, v, vals.rest, m); }
  }

  lemma {:induction false} SortRenders(vals: Vals, m: map<bytes, Json>)
    requires RendersMembers(vals, m)
    ensures RendersMembers(SortVals(vals), m) && Names(SortVals(vals)) == Names(vals)
    decreases vals
  {
    hide Renders, IsUtf8;
    if vals.AVal? {
      SortRenders(vals.rest, m);
      InsertRenders(vals.name, vals.v, SortVals(vals.rest), m);
    }
  }

  /** A quoted name or string of valid UTF-8 reads back as itself. */
  lemma QuotedBack(s: bytes)
    requires IsUtf8(s)
    ensures Unquoted(Quote(s)) == s && Quote(s) != [] && Quote(s)[0] == QUOTE
  {
    hide Quote, Unquote, IsUtf8;
    QuoteRoundTrip(s);
    CoerceFixes(s);
    QuoteIsString(s);
  }

  function Pick(names: set<bytes>, m: map<bytes, Json>): map<bytes, Json> {
    map n | n in names && n in m :: m[n]
  }

  lemma {:induction false} MembersBack(vals: Vals, m: map<bytes, Json>, done: map<bytes, Json>)
    requires RendersMembers(vals, m) && done.Keys !! Names(vals)
    ensures FieldsOf(true, vals).Some?
    ensures ObjectMeaning(FieldsOf(true, vals).value, done) == Some(done + Pick(Names(vals), m))
    decreases SizeAll(vals)
  {
    hide TreeOf, Meaning, Renders, Quote, IsUtf8;
    if vals.AVal? {
      DecodesBack(vals.v, m[vals.name]);
      QuotedBack(vals.name);
      var more := done[vals.name := m[vals.name]];
      MembersBack(vals.rest, m, more);
      assert more + Pick(Names(vals.rest), m) == done + Pick(Names(vals), m);
    } else {
      assert done + Pick({}, m) == done;
    }
  }

  lemma {:induction false} ElemsBack(vals: Vals, xs: seq<Json>, done: seq<Json>)
    requires RendersElems(vals, xs)
    ensures FieldsOf(false, vals).Some?
    ensures ArrayMeaning(FieldsOf(false, vals).value, done) == Some(done + xs)
    decreases SizeAll(vals)
  {
    hide TreeOf, Meaning, Renders, Quote;
    if vals.AVal? {
      DecodesBack(vals.v, xs[0]);
      ElemsBack(vals.rest, xs[1..], done + [xs[0]]);
      assert done + [xs[0]] + xs[1..] == done + xs;
    } else {
      assert done + xs == done;
    }
  }

  lemma ScalarBack(v: Val, x: Json)
    requires Renders(v, x) && (v.VNull? || v.VBool? || v.VInt? || v.VNumber? || v.VString?)
    ensures TreeOf(v).Some? && TreeOf(v).value.Leaf? && Meaning(TreeOf(v).value) == Some(x)
  {
    hide Quote, Unquoted, IsUtf8, IsNumber;
    if v.VInt? {
      IntIsNumber(v.n);
      LiteralHeadOf(IntText(v.n));
    } else if v.VNumber? {
      LiteralHeadOf(v.text);
    } else if v.VString? {
      QuotedBack(v.s);
    }
  }

  lemma LiteralHeadOf(text: bytes)
    requires IsNumber(text)
    ensures text != [] && (text[0] == MINUS || IsDigit(text[0]))
  {
    LiteralHead(text);
  }

  lemma MemberTree(vals: Vals, m: map<bytes, Json>)
    requires RendersMembers(vals, m) && Names(vals) == m.Keys
    requires FieldsOf(true, vals).Some?
    requires ObjectMeaning(FieldsOf(true, vals).value, map[]) == Some(map[] + Pick(Names(vals), m))
    ensures Meaning(Node(true, [], FieldsOf(true, vals).value)) == Some(JObject(m))
  {
    hide FieldsOf, ObjectMeaning;
    assert map[] + Pick(Names(vals), m) == m;
  }

  /** The tree that is printed stands for the value. */
  lemma {:induction false} DecodesBack(v: Val, x: Json)
    requires Renders(v, x)
    ensures TreeOf(v).Some? && Meaning(TreeOf(v).value) == Some(x)
    decreases Size(v)
  {
    hide FieldsOf, ObjectMeaning, ArrayMeaning, Parse, Tight, IsNumber, IsUtf8;
    if v.VArray? {
      ElemsBack(v.elems, x.elems, []);
      assert [] + x.elems == x.elems;
    } else if v.VMap? {
      SortRenders(v.entries, x.members);
      MembersBack(SortVals(v.entries), x.members, map[]);
      MemberTree(SortVals(v.entries), x.members);
    } else if v.VStruct? {
      MembersBack(v.fields, x.members, map[]);
      MemberTree(v.fields, x.members);
    } else if v.VRaw? {
      ParseSound(v.text);
      TreeTight(Parse(v.text).value.tree, true);
    } else {
      ScalarBack(v, x);
    }
  }

  /** Parsing the bytes that `Marshal` printed and taking their value gives the value back. */
  lemma MarshalDecodes(v: Val, x: Json)
    requires Renders(v, x)
    ensures MarshalText(v).Some? && Parse(MarshalText(v).value).Some?
    ensures Meaning(Parse(MarshalText(v).value).value.tree) == Some(x)
  {
    hide Parse, TreeOf, Meaning, Renders, CompactText, Spell;
    DecodesBack(v, x);
    MarshalForm(v);
  }

  /** Marshalling and unmarshalling: the decoder returns the value that was printed. */
  method MarshalThenUnmarshal(v: Val, ghost x: Json) returns (out: Decode.Decoded)
    requires Renders(v, x)
    ensures out == Decode.Ok(x)
  {
    hide Parse, TreeOf, Meaning, Renders, CompactText, Spell, IsJson, RepeatsKey, DocOk, DocText, Text;
    var text := Marshal(v);
    MarshalDecodes(v, x);
    ParseSound(text.value);
    IsJsonParses(text.value);
    ghost var off: nat;
    out, off := Decode.Unmarshal(text.value);
    assert Decode.Decodes(Parse(text.value).value, out, off);
  }
}

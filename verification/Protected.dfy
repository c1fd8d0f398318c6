/** Protected headers as JSON text: how `Sign` prints them, and how parsing and reprinting give the same bytes. */
module Protected {
  import opened Bytes
  import opened Grammar
  import opened Parser
  import opened Utf8
  import opened Strings
  import opened Values
  import opened Compact
  import opened Encode
  import opened RoundTrip
  import opened Headers

  // Decoding into a header map.

  /** The raw message of a value: its text, or a nil pointer for null. */
  function RawOf(t: Tree): Raw {
    if t == Leaf(NULL) then None else Some(Text(t))
  }

  function MembersOf(xs: Items, done: HeaderMap): Option<HeaderMap> {
    match xs
    case Nil => Some(done)
    case Cons(_, key, value, _, rest) =>
      if KeyName(key) in done then None else MembersOf(rest, done[KeyName(key) := RawOf(value)])
  }

  /** The header map in a JSON text: None for anything but null and an object without repeated keys. */
  function HeaderOf(s: bytes): Option<HeaderMap> {
    var d := Parse(s);
    if d.None? then None
    else if d.value.tree == Leaf(NULL) then Some(map[])
    else if d.value.tree.Node? && d.value.tree.obj then MembersOf(d.value.tree.items, map[])
    else None
  }

  // Printing a header map.

  function ValOf(r: Raw): Val {
    if r.None? then VNull else VRaw(r.value)
  }

  /** The entries of a header map, in some order. */
  ghost predicate Enumerates(vals: Vals, h: HeaderMap) {
    DistinctNames(vals) && forall n :: Lookup(vals, n) == if n in h then Some(ValOf(h[n])) else None
  }

  ghost function EntriesOf(h: HeaderMap): (vals: Vals)
    ensures Enumerates(vals, h)
    decreases |h|
  {
    if h == map[] then NoVals
    else
      var k :| k in h;
      var rest := EntriesOf(h - {k});
      assert Lookup(rest, k) == None;
      AVal(k, ValOf(h[k]), rest)
  }

  ghost function HeaderText(h: HeaderMap): Option<bytes> {
    MarshalText(VMap(EntriesOf(h)))
  }

  lemma EnumerationText(vals: Vals, h: HeaderMap)
    requires Enumerates(vals, h)
    ensures MarshalText(VMap(vals)) == HeaderText(h)
  {
    hide TreeOf;
    forall n ensures Lookup(vals, n) == Lookup(EntriesOf(h), n) {}
    MapOrder(vals, EntriesOf(h));
  }

  /** Prints a header map, going through its keys in any order. */
  method MarshalHeader(h: HeaderMap) returns (out: Option<bytes>)
    ensures out == HeaderText(h)
  {
    hide TreeOf, HeaderText, Parse, CompactText;
    var vals := NoVals;
    var todo := h.Keys;
    while todo != {}
      invariant todo <= h.Keys && DistinctNames(vals)
      invariant forall n :: Lookup(vals, n) == if n in h && n !in todo then Some(ValOf(h[n])) else None
      decreases todo
    {
      var k :| k in todo;
      assert Lookup(vals, k) == None;
      vals := AVal(k, ValOf(h[k]), vals);
      todo := todo - {k};
    }
    EnumerationText(vals, h);
    out := Marshal(VMap(vals));
  }

  // What Sign stores.

  /** Every value marshalled by itself. */
  ghost function SignedHeader(vals: Vals): HeaderMap
    requires FieldsOf(true, vals).Some?
  {
    if vals.NoVals? then map[] else SignedHeader(vals.rest)[vals.name := Some(MarshalText(vals.v).value)]
  }

  lemma {:induction false} SignedEnumerated(vals: Vals)
    requires DistinctNames(vals) && FieldsOf(true, vals).Some?
    ensures Enumerates(Raws(vals), SignedHeader(vals)) && Names(Raws(vals)) == Names(vals) == SignedHeader(vals).Keys
    decreases vals
  {
    hide TreeOf, Quote;
    if vals.AVal? {
      SignedEnumerated(vals.rest);
      var h := SignedHeader(vals.rest);
      assert Lookup(Raws(vals.rest), vals.name) == None;
    }
  }

  /** Reprinting the stored raw messages gives the bytes that were signed. */
  lemma Reserialized(vals: Vals)
    requires DistinctNames(vals) && MarshalText(VMap(vals)).Some?
    ensures FieldsOf(true, vals).Some? && HeaderText(SignedHeader(vals)) == MarshalText(VMap(vals))
  {
    hide TreeOf, HeaderText, Enumerates, FieldsOf;
    RemarshalSame(vals);
    SignedEnumerated(vals);
    EnumerationText(Raws(vals), SignedHeader(vals));
  }

  // Reading the printed header back.

  /** No two names become equal when ill-formed bytes are replaced by U+FFFD. */
  predicate CoerceInjective(names: set<bytes>) {
    forall a, b | a in names && b in names && Coerce(a) == Coerce(b) :: a == b
  }

  /** The header map read from printed entries: names coerced, null values as nil pointers. */
  ghost function ReadBack(vals: Vals, done: HeaderMap): Option<HeaderMap>
    requires FieldsOf(true, vals).Some?
    decreases vals
  {
    if vals.NoVals? then Some(done)
    else if Coerce(vals.name) in done then None
    else ReadBack(vals.rest, done[Coerce(vals.name) := RawOf(TreeOf(vals.v).value)])
  }

  lemma QuotedName(name: bytes)
    ensures KeyName(Key(Quote(name), [], [])) == Coerce(name)
  {
    hide Quote, Unquote, Coerce;
    QuoteRoundTrip(name);
  }

  lemma {:induction false} MembersReadBack(vals: Vals, done: HeaderMap)
    requires FieldsOf(true, vals).Some?
    ensures MembersOf(FieldsOf(true, vals).value, done) == ReadBack(vals, done)
    decreases vals
  {
    hide TreeOf, Quote, KeyName, Coerce, RawOf;
    if vals.AVal? {
      QuotedName(vals.name);
      if Coerce(vals.name) !in done {
        MembersReadBack(vals.rest, done[Coerce(vals.name) := RawOf(TreeOf(vals.v).value)]);
      }
    }
  }

  function Images(names: set<bytes>): set<bytes> {
    set n | n in names :: Coerce(n)
  }

  lemma {:induction false} ReadBackWhen(vals: Vals, done: HeaderMap)
    requires FieldsOf(true, vals).Some? && DistinctNames(vals)
    ensures ReadBack(vals, done).Some? <==> CoerceInjective(Names(vals)) && Images(Names(vals)) !! done.Keys
    decreases vals
  {
    hide TreeOf, Quote, Coerce, RawOf;
    if vals.AVal? {
      var c := Coerce(vals.name);
      assert c in Images(Names(vals));
      if c !in done {
        var next := done[c := RawOf(TreeOf(vals.v).value)];
        ReadBackWhen(vals.rest, next);
        assert next.Keys == done.Keys + {c};
        ImagesMore(vals.name, Names(vals.rest), done.Keys);
      }
    }
  }

  lemma ImagesMore(name: bytes, names: set<bytes>, keys: set<bytes>)
    requires name !in names && Coerce(name) !in keys
    ensures (CoerceInjective({name} + names) && Images({name} + names) !! keys) <==>
            (CoerceInjective(names) && Images(names) !! keys + {Coerce(name)})
  {
    hide Coerce;
    if CoerceInjective(names) && Images(names) !! keys + {Coerce(name)} {
      forall a, b | a in {name} + names && b in {name} + names && Coerce(a) == Coerce(b) ensures a == b {
        assert a in names ==> Coerce(a) in Images(names);
        assert b in names ==> Coerce(b) in Images(names);
      }
      forall k | k in Images({name} + names) ensures k !in keys {
        var a :| a in {name} + names && Coerce(a) == k;
        assert a in names ==> k in Images(names);
      }
    }
    if CoerceInjective({name} + names) && Images({name} + names) !! keys {
      forall k | k in Images(names) ensures k !in keys + {Coerce(name)} {
        var a :| a in names && Coerce(a) == k;
        assert a in {name} + names && name in {name} + names;
        assert k in Images({name} + names);
      }
    }
  }

  lemma {:induction false} ReadBackAt(vals: Vals, done: HeaderMap, k: bytes)
    requires FieldsOf(true, vals).Some? && ReadBack(vals, done).Some?
    ensures var h := ReadBack(vals, done).value;
            && (k in done ==> k in h && h[k] == done[k])
            && (k in h ==> k in done || exists n :: n in Names(vals) && Coerce(n) == k)
    decreases vals
  {
    hide TreeOf, Quote, Coerce, RawOf;
    if vals.AVal? {
      var next := done[Coerce(vals.name) := RawOf(TreeOf(vals.v).value)];
      ReadBackAt(vals.rest, next, k);
      if k !in done && k in ReadBack(vals, done).value {
        if k == Coerce(vals.name) {
          assert vals.name in Names(vals);
        } else {
          var n :| n in Names(vals.rest) && Coerce(n) == k;
          assert n in Names(vals);
        }
      }
    }
  }

  lemma {:induction false} ReadBackEntry(vals: Vals, done: HeaderMap, n: bytes)
    requires FieldsOf(true, vals).Some? && ReadBack(vals, done).Some? && n in Names(vals) && DistinctNames(vals)
    ensures var h := ReadBack(vals, done).value;
            TreeOf(Lookup(vals, n).value).Some? &&
            Coerce(n) in h && h[Coerce(n)] == RawOf(TreeOf(Lookup(vals, n).value).value)
    decreases vals
  {
    hide TreeOf, Quote, Coerce, RawOf;
    var next := done[Coerce(vals.name) := RawOf(TreeOf(vals.v).value)];
    if n == vals.name {
      ReadBackAt(vals.rest, next, Coerce(n));
    } else {
      ReadBackEntry(vals.rest, next, n);
    }
  }

  /** Reading a printed map of header values gives the read-back map of its sorted entries. */
  lemma HeaderOfPrinted(vals: Vals)
    requires MarshalText(VMap(vals)).Some?
    ensures FieldsOf(true, SortVals(vals)).Some?
    ensures HeaderOf(MarshalText(VMap(vals)).value) == ReadBack(SortVals(vals), map[])
  {
    hide Parse, FieldsOf, ReadBack, MembersOf, CompactText, SortVals;
    MarshalForm(VMap(vals));
    MembersReadBack(SortVals(vals), map[]);
  }

  lemma {:induction false} AscendingDistinct(vals: Vals)
    requires Ascending(vals)
    ensures DistinctNames(vals)
    decreases vals
  {
    if vals.AVal? {
      NotAgain(vals);
      AscendingDistinct(vals.rest);
    }
  }

  /** The printed header reads back exactly when no two names coincide after coercion. */
  lemma PrintedReadsBack(vals: Vals)
    requires MarshalText(VMap(vals)).Some? && DistinctNames(vals)
    ensures HeaderOf(MarshalText(VMap(vals)).value).Some? <==> CoerceInjective(Names(vals))
  {
    hide TreeOf, FieldsOf, ReadBack, HeaderOf, CoerceInjective, SortVals;
    HeaderOfPrinted(vals);
    SortKeeps(vals);
    AscendingDistinct(SortVals(vals));
    ReadBackWhen(SortVals(vals), map[]);
  }

  /** Plain ASCII names are their own coercion and nobody else's. */
  lemma CoerceAscii(s: bytes)
    requires forall i | 0 <= i < |Coerce(s)| :: Coerce(s)[i] < 0x80
    ensures Coerce(s) == s
  {
    AsciiImage(s);
    CoerceFixes(s);
  }

  lemma {:induction false} AsciiImage(s: bytes)
    requires forall i | 0 <= i < |Coerce(s)| :: Coerce(s)[i] < 0x80
    ensures IsUtf8(s)
    decreases |s|
  {
    if s != [] {
      var n := if BadRune(s) then 1 else DecodeRune(s).size;
      var head := if BadRune(s) then [0xEF, 0xBF, 0xBD] else s[..n];
      assert Coerce(s) == head + Coerce(s[n..]);
      assert Coerce(s)[0] == head[0];
      forall i | 0 <= i < |Coerce(s[n..])| ensures Coerce(s[n..])[i] < 0x80 {
        assert Coerce(s)[|head| + i] == Coerce(s[n..])[i];
      }
      AsciiImage(s[n..]);
    }
  }

  /** A header with two given names and nil values. */
  function TwoNames(a: bytes, b: bytes): Vals {
    AVal(a, VNull, AVal(b, VNull, NoVals))
  }

  /** Any two names that the map tells apart and their coercions do not: the header prints and does not read back. */
  lemma CollidingPair(a: bytes, b: bytes)
    requires a != b && Coerce(a) == Coerce(b)
    ensures DistinctNames(TwoNames(a, b)) && MarshalText(VMap(TwoNames(a, b))).Some?
    ensures HeaderOf(MarshalText(VMap(TwoNames(a, b))).value) == None
  {
    hide HeaderOf, Coerce, SortVals, Quote, FieldsOf, Names, DistinctNames;
    var vals := TwoNames(a, b);
    BothNames(a, b);
    SortRaw(vals);
    PrintedReadsBack(vals);
  }

  lemma BothNames(a: bytes, b: bytes)
    requires a != b
    ensures var vals := TwoNames(a, b);
            a in Names(vals) && b in Names(vals) && DistinctNames(vals) && FieldsOf(true, vals).Some?
  {
    hide Quote;
    var one := AVal(b, VNull, NoVals);
    assert Names(NoVals) == {} && Names(one) == {b} + Names(NoVals);
    assert DistinctNames(NoVals) && DistinctNames(one);
    assert FieldsOf(true, NoVals).Some? && FieldsOf(true, one).Some?;
  }

  /** Such names exist: two single bytes that are not UTF-8. */
  lemma CollidingNames()
    ensures MarshalText(VMap(TwoNames([0x80], [0x81]))).Some?
    ensures HeaderOf(MarshalText(VMap(TwoNames([0x80], [0x81]))).value) == None
  {
    hide HeaderOf, Coerce, MarshalText;
    SameCoercion();
    CollidingPair([0x80], [0x81]);
  }

  lemma SameCoercion()
    ensures Coerce([0x80]) == Coerce([0x81])
  {}

  // What the values read back as.

  ghost predicate PrintsNull(v: Val) {
    TreeOf(v) == Some(Leaf(NULL))
  }

  ghost predicate PrintsString(v: Val) {
    var t := TreeOf(v);
    t.Some? && t.value.Leaf? && t.value.text != [] && t.value.text[0] == QUOTE
  }

  /** The string a value prints as; empty for anything else. */
  ghost function PrintedName(v: Val): bytes {
    if PrintsString(v) then Unquoted(TreeOf(v).value.text) else []
  }

  ghost function NameAt(vals: Vals, k: bytes): bytes {
    var v := Lookup(vals, k);
    if v.None? then [] else PrintedName(v.value)
  }

  lemma StringPrinted(s: bytes)
    ensures PrintedName(VString(s)) == Coerce(s)
  {
    hide Quote, Unquote, Coerce;
    QuoteRoundTrip(s);
    QuoteIsString(s);
  }

  lemma NullOnly(text: bytes)
    requires IsLiteral(text) && text != [] && text[0] == 0x6E
    ensures text == NULL
  {
    LiteralHead(text);
  }

  lemma LiteralPrinted(v: Val)
    requires TreeOf(v).Some?
    ensures var t := TreeOf(v).value;
            LiteralOf(Text(t)) == if t.Leaf? then Some(t.text) else None
    ensures TreeOf(v).value.Leaf? ==> TreeOf(v).value.text != [] && IsLiteral(TreeOf(v).value.text)
  {
    hide Parse, TreeOf, CompactText, IsLiteral, Spell;
    MarshalForm(v);
    PrintedForm(v);
    if TreeOf(v).value.Leaf? { LiteralHead(TreeOf(v).value.text); }
  }

  /** A printed value as a raw message: null is a nil pointer, strings decode to themselves. */
  lemma RawPrinted(v: Val)
    requires TreeOf(v).Some?
    ensures var raw := RawOf(TreeOf(v).value);
            && (raw.None? <==> PrintsNull(v))
            && (raw.Some? ==> raw == MarshalText(v) && StringOf(raw.value) == PrintedName(v))
            && (raw.Some? ==> (StringOk(raw.value) <==> PrintsString(v)))
    ensures PrintsNull(v) ==> PrintedName(v) == []
  {
    hide TreeOf, LiteralOf, IsLiteral, Unquoted, Spell;
    LiteralPrinted(v);
    var t := TreeOf(v).value;
    if t.Leaf? && t.text[0] == 0x6E { NullOnly(t.text); }
  }

  predicate AsciiOnly(k: bytes) {
    forall i | 0 <= i < |k| :: k[i] < 0x80
  }

  lemma {:induction false} AsciiUtf8(k: bytes)
    requires AsciiOnly(k)
    ensures IsUtf8(k)
  {
    if k != [] { AsciiUtf8(k[1..]); }
  }

  lemma AsciiFixed(k: bytes)
    requires AsciiOnly(k)
    ensures Coerce(k) == k && forall n :: Coerce(n) == k ==> n == k
  {
    hide Coerce;
    AsciiUtf8(k);
    CoerceFixes(k);
    forall n | Coerce(n) == k ensures n == k { CoerceAscii(n); }
  }

  /** Every entry reads back under its coerced name, and nothing else is there. */
  lemma PrintedEntry(vals: Vals, n: bytes)
    requires MarshalText(VMap(vals)).Some? && DistinctNames(vals) && n in Names(vals)
    requires HeaderOf(MarshalText(VMap(vals)).value).Some?
    ensures var h := HeaderOf(MarshalText(VMap(vals)).value).value;
            && TreeOf(Lookup(vals, n).value).Some?
            && Coerce(n) in h && h[Coerce(n)] == RawOf(TreeOf(Lookup(vals, n).value).value)
  {
    hide MarshalText, FieldsOf, TreeOf, HeaderOf, ReadBack, SortVals, Coerce, RawOf;
    HeaderOfPrinted(vals);
    SortKeeps(vals);
    AscendingDistinct(SortVals(vals));
    ReadBackEntry(SortVals(vals), map[], n);
  }

  lemma PrintedKeys(vals: Vals, k: bytes)
    requires MarshalText(VMap(vals)).Some? && DistinctNames(vals)
    requires HeaderOf(MarshalText(VMap(vals)).value).Some? && k in HeaderOf(MarshalText(VMap(vals)).value).value
    ensures exists n :: n in Names(vals) && Coerce(n) == k
  {
    hide MarshalText, FieldsOf, TreeOf, HeaderOf, ReadBack, SortVals, Coerce, RawOf;
    HeaderOfPrinted(vals);
    SortKeeps(vals);
    ReadBackAt(SortVals(vals), map[], k);
  }

  /** A header field with a plain ASCII name reads back as what was printed under that name. */
  lemma PrintedField(vals: Vals, k: bytes)
    requires MarshalText(VMap(vals)).Some? && DistinctNames(vals) && AsciiOnly(k)
    requires HeaderOf(MarshalText(VMap(vals)).value).Some?
    ensures var h := HeaderOf(MarshalText(VMap(vals)).value).value;
            && (k in h <==> k in Names(vals))
            && (k in Names(vals) ==>
                  TreeOf(Lookup(vals, k).value).Some? && h[k] == RawOf(TreeOf(Lookup(vals, k).value).value))
            && GetString(h, k) == NameAt(vals, k)
  {
    hide MarshalText, TreeOf, HeaderOf, Coerce, RawOf, StringOf, PrintedName, PrintsNull, PrintsString, StringOk;
    AsciiFixed(k);
    if k in Names(vals) {
      PrintedEntry(vals, k);
      RawPrinted(Lookup(vals, k).value);
    } else if k in HeaderOf(MarshalText(VMap(vals)).value).value {
      PrintedKeys(vals, k);
    }
  }

  // A header that was read can be printed.

  ghost predicate RawsParse(h: HeaderMap) {
    forall k | k in h && h[k].Some? :: Parse(h[k].value).Some?
  }

  lemma {:induction false} MembersParse(xs: Items, done: HeaderMap)
    requires ItemsOk(true, xs) && RawsParse(done) && MembersOf(xs, done).Some?
    ensures RawsParse(MembersOf(xs, done).value)
    decreases xs
  {
    hide Parse, RawOf, KeyName;
    if xs.Cons? {
      RawParses(xs.value);
      MembersParse(xs.rest, done[KeyName(xs.key) := RawOf(xs.value)]);
    }
  }

  lemma RawParses(t: Tree)
    requires TreeOk(t)
    ensures RawOf(t).Some? ==> Parse(RawOf(t).value).Some?
  {
    hide Parse, TreeOk, Spell;
    ParseComplete(Doc([], t, []));
    assert [] + Spell(t, []) == Spell(t, []);
  }

  lemma HeaderParses(s: bytes)
    requires HeaderOf(s).Some?
    ensures RawsParse(HeaderOf(s).value)
  {
    hide Parse, MembersOf;
    ParseSound(s);
    var t := Parse(s).value.tree;
    if t.Node? { MembersParse(t.items, map[]); }
  }

  lemma {:induction false} EntriesPrint(vals: Vals, h: HeaderMap)
    requires RawsParse(h) && forall n | n in Names(vals) :: n in h && Lookup(vals, n) == Some(ValOf(h[n]))
    requires DistinctNames(vals)
    ensures FieldsOf(true, vals).Some?
    decreases vals
  {
    hide Parse, Quote, Tight;
    if vals.AVal? {
      assert vals.name in Names(vals) && vals.v == ValOf(h[vals.name]);
      assert TreeOf(vals.v).Some?;
      forall n | n in Names(vals.rest) ensures n in h && Lookup(vals.rest, n) == Some(ValOf(h[n])) {
        assert n in Names(vals) && Lookup(vals, n) == Lookup(vals.rest, n);
      }
      EntriesPrint(vals.rest, h);
    }
  }

  /** Every header that was read from a text prints again, as an object. */
  lemma ReadHeaderPrints(s: bytes)
    requires HeaderOf(s).Some?
    ensures HeaderText(HeaderOf(s).value).Some?
    ensures HeaderText(HeaderOf(s).value).value != [] && HeaderText(HeaderOf(s).value).value[0] == LBRACE
  {
    hide HeaderOf, Parse, FieldsOf, SortVals, EntriesOf;
    var h := HeaderOf(s).value;
    var vals := EntriesOf(h);
    HeaderParses(s);
    forall n | n in Names(vals) ensures n in h && Lookup(vals, n) == Some(ValOf(h[n])) {
      assert Lookup(vals, n).Some?;
    }
    EntriesPrint(vals, h);
    SortRaw(vals);
    NodeHead(FieldsOf(true, SortVals(vals)).value);
  }

  lemma NodeHead(xs: Items)
    ensures Text(Node(true, [], xs)) != [] && Text(Node(true, [], xs))[0] == LBRACE
  {}
}

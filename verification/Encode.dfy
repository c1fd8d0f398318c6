/** Printing values: `encodeState.string`, the container printers, and `Marshal`. */
module Encode {
  import opened Bytes
  import opened Grammar
  import opened Parser
  import opened Utf8
  import opened Strings
  import opened Numbers
  import opened Escape
  import opened Compact
  import opened Validate

  // encodeState.string.

  /** `done` has been written; the bytes from `start` to `i` are still to be copied. */
  ghost predicate Quoting(s: bytes, done: bytes, start: nat, i: nat) {
    start <= i <= |s| && done + (s[start..i] + QuoteChars(s[i..])) == [QUOTE] + QuoteChars(s)
  }

  lemma QuotingStart(s: bytes)
    ensures Quoting(s, [QUOTE], 0, 0)
  {
    assert s[0..] == s && s[0..0] == [];
    assert [] + QuoteChars(s) == QuoteChars(s);
  }

  /** A character that is written as it stands. */
  lemma QuotingCopy(s: bytes, done: bytes, start: nat, i: nat)
    requires Quoting(s, done, start, i) && i < |s|
    requires var n := DecodeRune(s[i..]).size; QuoteOne(s[i..]) == s[i..][..n]
    ensures Quoting(s, done, start, i + DecodeRune(s[i..]).size)
  {
    hide DecodeRune, QuoteOne;
    var n := DecodeRune(s[i..]).size;
    var x := QuoteChars(s[i..][n..]);
    assert s[i..][n..] == s[i + n..];
    assert s[start..i + n] == s[start..i] + s[i..][..n];
    Assoc(s[start..i], s[i..][..n], x);
  }

  /** A character that is written as an escape, after what was still to be copied. */
  lemma QuotingEscape(s: bytes, done: bytes, start: nat, i: nat)
    requires Quoting(s, done, start, i) && i < |s|
    ensures var n := DecodeRune(s[i..]).size;
            Quoting(s, done + s[start..i] + QuoteOne(s[i..]), i + n, i + n)
  {
    hide DecodeRune, QuoteOne;
    var n := DecodeRune(s[i..]).size;
    var q, x := QuoteOne(s[i..]), QuoteChars(s[i..][n..]);
    assert s[i..][n..] == s[i + n..];
    Rebracket(done, s[start..i], q, x);
    assert s[i + n..i + n] == [] && [] + x == x;
  }

  lemma Rebracket(a: bytes, b: bytes, c: bytes, d: bytes)
    ensures a + (b + (c + d)) == (a + b + c) + d
  {}

  lemma QuotingEnd(s: bytes, done: bytes, start: nat)
    requires Quoting(s, done, start, |s|)
    ensures done + s[start..] + [QUOTE] == Quote(s)
  {
    assert s[start..|s|] == s[start..] && s[|s|..] == [];
    assert s[start..] + QuoteChars(s[|s|..]) == s[start..];
  }

  /** The escape of an ASCII byte that may not stand for itself. */
  method WriteAscii(e: Buffer, b: byte)
    requires b < 0x80 && !Plain(b)
    modifies e
    ensures e.data == old(e.data) + QuoteAscii(b)
  {
    if b == BACKSLASH || b == QUOTE {
      e.Write([BACKSLASH, b]);
    } else if b == LF {
      e.Write([BACKSLASH, 0x6E]);
    } else if b == CR {
      e.Write([BACKSLASH, 0x72]);
    } else if b == TAB {
      e.Write([BACKSLASH, 0x74]);
    } else {
      e.Write([BACKSLASH, 0x75, 0x30, 0x30, HexDigit(b / 16), HexDigit(b % 16)]);
    }
  }

  /** One character: either it waits to be copied, or the waiting bytes and its escape are written. */
  method WriteRune(e: Buffer, s: bytes, start0: nat, i0: nat, ghost orig: bytes, ghost done: bytes)
    returns (start: nat, i: nat, ghost done': bytes)
    requires i0 < |s| && Quoting(s, done, start0, i0) && e.data == orig + done
    modifies e
    ensures i0 < i <= |s| && Quoting(s, done', start, i) && e.data == orig + done'
  {
    hide Quoting, QuoteChars, DecodeRune;
    start, i, done' := start0, i0, done;
    assert start <= i by { QuotingBounds(s, done, start, i); }
    ghost var q := QuoteOne(s[i..]);
    var d := DecodeRune(s[i..]);
    var b := s[i];
    AsciiRune(s[i..]);
    if b < 0x80 && Plain(b) {
      QuotingCopy(s, done, start, i);
      i := i + 1;
      return;
    }
    if b >= 0x80 && !(d.rune == RUNE_ERROR && d.size == 1) && d.rune != 0x2028 && d.rune != 0x2029 {
      QuotingCopy(s, done, start, i);
      i := i + d.size;
      return;
    }
    QuotingEscape(s, done, start, i);
    if start < i {
      e.Write(s[start..i]);
    }
    if b < 0x80 {
      WriteAscii(e, b);
    } else if d.rune == RUNE_ERROR && d.size == 1 {
      e.Write(ESCAPED_ERROR);
    } else {
      e.Write([BACKSLASH, 0x75, 0x32, 0x30, 0x32] + [HexDigit(d.rune % 16)]);
    }
    done' := done + s[start..i] + q;
    Grouped(orig, done, s[start..i], q);
    i := i + d.size;
    start := i;
  }

  lemma QuotingBounds(s: bytes, done: bytes, start: nat, i: nat)
    requires Quoting(s, done, start, i)
    ensures start <= i <= |s|
  {}

  lemma AsciiRune(s: bytes)
    requires s != []
    ensures s[0] < 0x80 ==> DecodeRune(s).size == 1 && s[..1] == [s[0]]
  {}

  lemma Grouped(orig: bytes, done: bytes, u: bytes, q: bytes)
    ensures orig + done + u + q == orig + (done + u + q)
    ensures u == [] ==> orig + done + q == orig + (done + u + q)
  {
    if u == [] { assert done + u == done; }
  }

  /** Writes `s` as a string literal and returns how many bytes that took. */
  method WriteString(e: Buffer, s: bytes) returns (n: nat)
    modifies e
    ensures e.data == old(e.data) + Quote(s) && n == |Quote(s)|
  {
    hide Quoting, QuoteChars, Quote;
    ghost var orig := e.data;
    var len0 := |e.data|;
    e.Write([QUOTE]);
    QuotingStart(s);
    ghost var done := [QUOTE];
    var start: nat, i: nat := 0, 0;
    while i < |s|
      invariant i <= |s| && Quoting(s, done, start, i) && e.data == orig + done
    {
      start, i, done := WriteRune(e, s, start, i, orig, done);
    }
    QuotingBounds(s, done, start, i);
    if start < |s| {
      e.Write(s[start..]);
    }
    e.Write([QUOTE]);
    QuotingEnd(s, done, start);
    Grouped(orig, done, s[start..], [QUOTE]);
    n := |e.data| - len0;
  }

  // Values.

  /** What `Marshal` is given: nil, booleans, integers, number texts, strings, containers, self-marshalling values. */
  datatype Val =
    | VNull
    | VBool(b: bool)
    | VInt(n: int)
    | VNumber(text: bytes)
    | VString(s: bytes)
    | VArray(elems: Vals)
    | VMap(entries: Vals)
    | VStruct(fields: Vals)
    | VRaw(text: bytes)

  /** Elements or named entries; a map's entries come in no particular order. */
  datatype Vals = NoVals | AVal(name: bytes, v: Val, rest: Vals)

  function Size(v: Val): nat {
    match v
    case VArray(vals) => 1 + SizeAll(vals)
    case VMap(vals) => 1 + SizeAll(vals)
    case VStruct(vals) => 1 + SizeAll(vals)
    case _ => 0
  }

  function SizeAll(vals: Vals): nat {
    match vals
    case NoVals => 0
    case AVal(_, v, rest) => 1 + Size(v) + SizeAll(rest)
  }

  // Map keys are printed in the order of their bytes.

  predicate Before(a: bytes, b: bytes) {
    b != [] && (a == [] || a[0] < b[0] || (a[0] == b[0] && Before(a[1..], b[1..])))
  }

  function InsertVal(name: bytes, v: Val, vals: Vals): (r: Vals)
    ensures SizeAll(r) == 1 + Size(v) + SizeAll(vals)
  {
    if vals.NoVals? || Before(name, vals.name) then AVal(name, v, vals)
    else AVal(vals.name, vals.v, InsertVal(name, v, vals.rest))
  }

  function SortVals(vals: Vals): (r: Vals)
    ensures SizeAll(r) == SizeAll(vals)
  {
    if vals.NoVals? then NoVals else InsertVal(vals.name, vals.v, SortVals(vals.rest))
  }

  // The tree that is printed.

  function Decimal(n: nat): bytes {
    if n < 10 then [0x30 + n] else Decimal(n / 10) + [0x30 + n % 10]
  }

  function IntText(n: int): bytes {
    if n < 0 then [MINUS] + Decimal(-n) else Decimal(n)
  }

  ghost function TreeOf(v: Val): Option<Tree>
    decreases Size(v)
  {
    match v
    case VNull => Some(Leaf(NULL))
    case VBool(b) => Some(Leaf(if b then TRUE else FALSE))
    case VInt(n) => Some(Leaf(IntText(n)))
    case VNumber(text) =>
      if text == [] then Some(Leaf([ZERO])) else if IsNumber(text) then Some(Leaf(text)) else None
    case VString(s) => Some(Leaf(Quote(s)))
    case VArray(elems) => NodeOf(false, FieldsOf(false, elems))
    case VMap(entries) => NodeOf(true, FieldsOf(true, SortVals(entries)))
    case VStruct(fields) => NodeOf(true, FieldsOf(true, fields))
    case VRaw(text) => if Parse(text).None? then None else Some(Tight(Parse(text).value.tree, true))
  }

  function NodeOf(obj: bool, xs: Option<Items>): Option<Tree> {
    if xs.None? then None else Some(Node(obj, [], xs.value))
  }

  ghost function FieldsOf(obj: bool, vals: Vals): Option<Items>
    decreases SizeAll(vals)
  {
    match vals
    case NoVals => Some(Nil)
    case AVal(name, v, rest) =>
      var t := TreeOf(v);
      var xs := FieldsOf(obj, rest);
      if t.None? || xs.None? then None else Some(ItemOf(obj, name, t.value, xs.value))
  }

  function ItemOf(obj: bool, name: bytes, t: Tree, rest: Items): Items {
    Cons([], if obj then Key(Quote(name), [], []) else NoKey, t, [], rest)
  }

  // What Marshal prints.

  lemma {:induction false} DecimalDigits(n: nat)
    ensures AllDigits(Decimal(n)) && Decimal(n) != [] && (n > 0 ==> Decimal(n)[0] != ZERO)
  {
    if n >= 10 { DecimalDigits(n / 10); }
  }

  /** The number that decimal digits stand for. */
  function DecimalValue(s: bytes): int {
    if s == [] then 0 else DecimalValue(s[..|s| - 1]) * 10 + (s[|s| - 1] - ZERO)
  }

  /** The digits of an integer read back as that integer. */
  lemma {:induction false} DecimalReads(n: nat)
    ensures DecimalValue(Decimal(n)) == n
  {
    if n >= 10 {
      DecimalReads(n / 10);
      Seam(Decimal(n / 10), [0x30 + n % 10]);
    } else {
      assert Decimal(n)[..0] == [];
    }
  }

  lemma IntReads(n: int)
    ensures var s := IntText(n);
            if n < 0 then s != [] && s[0] == MINUS && DecimalValue(s[1..]) == -n else DecimalValue(s) == n
  {
    DecimalReads(if n < 0 then -n else n);
    if n < 0 { Behead(MINUS, Decimal(-n)); }
  }

  lemma IntIsNumber(n: int)
    ensures IsNumber(IntText(n))
  {
    var minus: bytes := if n < 0 then [MINUS] else [];
    var whole := Decimal(if n < 0 then -n else n);
    DecimalDigits(if n < 0 then -n else n);
    var none: bytes := [];
    assert none + none == none && whole + none == whole && none + whole == whole;
    assert NumberParts(IntText(n), minus, whole, none, none);
  }

  lemma NumberEscaped(text: bytes)
    requires IsNumber(text)
    ensures Esc(text, true) == text
  {
    NumberTame(text);
    EscAscii(text, [], true);
    assert text + [] == text;
  }

  lemma LeafForm(v: Val)
    requires TreeOf(v).Some? && TreeOf(v).value.Leaf? && !v.VRaw?
    ensures IsLiteral(TreeOf(v).value.text) && Esc(TreeOf(v).value.text, true) == TreeOf(v).value.text
  {
    if v.VInt? {
      IntIsNumber(v.n);
      NumberEscaped(IntText(v.n));
    } else if v.VNumber? {
      IntIsNumber(0);
      NumberEscaped(TreeOf(v).value.text);
    } else if v.VString? {
      QuoteIsString(v.s);
      QuoteIsEscaped(v.s);
    } else {
      var w := TreeOf(v).value.text;
      EscAscii(w, [], true);
      assert w + [] == w;
    }
  }

  /** Every printed tree is a tree of the grammar, and compacting with escaping leaves it unchanged. */
  lemma {:induction false} PrintedForm(v: Val)
    requires TreeOf(v).Some?
    ensures TreeOk(TreeOf(v).value) && Tight(TreeOf(v).value, true) == TreeOf(v).value
    decreases Size(v)
  {
    match v
    case VArray(elems) => ItemsForm(false, elems);
    case VMap(entries) => ItemsForm(true, SortVals(entries));
    case VStruct(fields) => ItemsForm(true, fields);
    case VRaw(text) =>
      ParseSound(text);
      TreeTight(Parse(text).value.tree, true);
    case _ => LeafForm(v);
  }

  lemma {:induction false} ItemsForm(obj: bool, vals: Vals)
    requires FieldsOf(obj, vals).Some?
    ensures ItemsOk(obj, FieldsOf(obj, vals).value)
    ensures TightItems(FieldsOf(obj, vals).value, true) == FieldsOf(obj, vals).value
    decreases SizeAll(vals)
  {
    hide IsLiteral, Esc;
    if vals.AVal? {
      PrintedForm(vals.v);
      ItemsForm(obj, vals.rest);
      QuoteIsString(vals.name);
      QuoteIsEscaped(vals.name);
    }
  }

  /** What `Marshal` prints, or None when it fails. */
  ghost function MarshalText(v: Val): Option<bytes> {
    var t := TreeOf(v);
    if t.None? then None else Some(Text(t.value))
  }

  /** Every output of `Marshal` is a JSON text, and a fixpoint of compacting with escaping. */
  lemma MarshalForm(v: Val)
    requires MarshalText(v).Some?
    ensures var out := MarshalText(v).value;
            && Parse(out) == Some(Doc([], TreeOf(v).value, []))
            && CompactText(out, true) == out
  {
    hide Parse;
    var t := TreeOf(v).value;
    PrintedForm(v);
    ParseComplete(Doc([], t, []));
    assert [] + Spell(t, []) == Spell(t, []);
  }

  // The printers.

  /** One item, after the comma that separates it from the previous one. */
  lemma PrintItem(obj: bool, name: bytes, t: Tree, rest: Items, z: bytes)
    ensures SpellItems(ItemOf(obj, name, t, rest), z)
         == (if obj then Quote(name) + [COLON] else []) + (Text(t) + SpellTail(rest, z))
  {
    var y := SpellTail(rest, z);
    var x := Text(t) + y;
    SpellSplit(t, y);
    assert [] + y == y && [] + x == x && [] + ([COLON] + x) == [COLON] + x;
    if obj {
      var k := Quote(name) + ([COLON] + x);
      assert [] + k == k;
      Assoc(Quote(name), [COLON], x);
    }
  }

  /** What is still to be printed: the items left, after a comma unless none has been printed yet. */
  function Left(first: bool, xs: Items, z: bytes): bytes {
    if first then SpellItems(xs, z) else SpellTail(xs, z)
  }

  /** With `done` printed and `rest` left, the whole adds up, and it fails just when the rest does. */
  ghost predicate Printing(obj: bool, all: Vals, done: bytes, first: bool, rest: Vals) {
    && (FieldsOf(obj, all).Some? <==> FieldsOf(obj, rest).Some?)
    && (FieldsOf(obj, all).Some? ==>
          SpellItems(FieldsOf(obj, all).value, [Close(obj)])
          == done + Left(first, FieldsOf(obj, rest).value, [Close(obj)]))
  }

  lemma PrintingStart(obj: bool, all: Vals)
    ensures Printing(obj, all, [], true, all)
  {
    if FieldsOf(obj, all).Some? {
      var x := SpellItems(FieldsOf(obj, all).value, [Close(obj)]);
      assert [] + x == x;
    }
  }

  lemma PrintingFails(obj: bool, all: Vals, done: bytes, first: bool, rest: Vals)
    requires Printing(obj, all, done, first, rest) && rest.AVal? && TreeOf(rest.v).None?
    ensures FieldsOf(obj, all).None?
  {}

  lemma PrintingStep(obj: bool, all: Vals, done: bytes, first: bool, rest: Vals)
    requires Printing(obj, all, done, first, rest) && rest.AVal? && TreeOf(rest.v).Some?
    ensures var comma := if first then [] else [COMMA];
            var key := if obj then Quote(rest.name) + [COLON] else [];
            Printing(obj, all, done + comma + key + Text(TreeOf(rest.v).value), false, rest.rest)
  {
    hide SpellItems, Spell, Quote;
    if FieldsOf(obj, rest.rest).Some? {
      var xs, t := FieldsOf(obj, rest.rest).value, TreeOf(rest.v).value;
      var z := [Close(obj)];
      PrintItem(obj, rest.name, t, xs, z);
      var comma := if first then [] else [COMMA];
      var key := if obj then Quote(rest.name) + [COLON] else [];
      assert SpellItems(ItemOf(obj, rest.name, t, xs), z) == key + (Text(t) + SpellTail(xs, z));
      Regroup(done, comma, key, Text(t), SpellTail(xs, z));
    }
  }

  lemma Regroup(a: bytes, b: bytes, c: bytes, d: bytes, e: bytes)
    ensures a + (b + (c + (d + e))) == (a + b + c + d) + e
    ensures b == [] ==> a + (c + (d + e)) == (a + b + c + d) + e
  {
    if b == [] { assert a + b == a; }
  }

  /** The values that print as one literal. */
  method EncodeScalar(e: Buffer, v: Val) returns (ok: bool)
    requires v.VNull? || v.VBool? || v.VInt? || v.VNumber? || v.VString?
    modifies e
    ensures ok <==> TreeOf(v).Some?
    ensures ok ==> TreeOf(v).value.Leaf? && e.data == old(e.data) + TreeOf(v).value.text
  {
    hide IsNumber, Quote;
    if v.VString? {
      var _ := WriteString(e, v.s);
    } else if v.VNumber? {
      var numStr := v.text;
      if numStr == [] {
        numStr := [ZERO];
      }
      ZeroIsNumber();
      var valid := IsValidNumber(numStr);
      if !valid {
        return false;
      }
      e.Write(numStr);
    } else if v.VBool? {
      e.Write(if v.b then TRUE else FALSE);
    } else if v.VInt? {
      e.Write(IntText(v.n));
    } else {
      e.Write(NULL);
    }
    return true;
  }

  lemma ZeroIsNumber()
    ensures IsNumber([ZERO])
  {
    IntIsNumber(0);
  }

  /** Prints an array or object, its items in the order given. */
  method EncodeItems(e: Buffer, obj: bool, vals: Vals) returns (ok: bool)
    modifies e
    ensures ok <==> FieldsOf(obj, vals).Some?
    ensures ok ==> e.data == old(e.data) + Text(Node(obj, [], FieldsOf(obj, vals).value))
    decreases SizeAll(vals), 0
  {
    hide Quote, Printing, Spell, SpellItems, TreeOf;
    ghost var orig := e.data;
    e.Write([Open(obj)]);
    var first := true;
    var rest := vals;
    ghost var done: bytes := [];
    PrintingStart(obj, vals);
    while rest.AVal?
      invariant Printing(obj, vals, done, first, rest) && e.data == orig + [Open(obj)] + done
      invariant SizeAll(rest) <= SizeAll(vals)
      decreases rest
    {
      ghost var was := e.data;
      if !first {
        e.Write([COMMA]);
      }
      if obj {
        var _ := WriteString(e, rest.name);
        e.Write([COLON]);
      }
      var good := EncodeValue(e, rest.v);
      if !good {
        PrintingFails(obj, vals, done, first, rest);
        return false;
      }
      PrintingStep(obj, vals, done, first, rest);
      ghost var comma := if first then [] else [COMMA];
      ghost var key := if obj then Quote(rest.name) + [COLON] else [];
      ghost var text := Text(TreeOf(rest.v).value);
      ItemWritten(orig + [Open(obj)], done, comma, key, text, Quote(rest.name), first, obj);
      done := done + comma + key + text;
      first := false;
      rest := rest.rest;
    }
    e.Write([Close(obj)]);
    NodeWritten(obj, vals, done, first, orig);
    return true;
  }

  lemma ItemWritten(a: bytes, done: bytes, comma: bytes, key: bytes, text: bytes, q: bytes, first: bool, obj: bool)
    requires comma == (if first then [] else [COMMA]) && key == (if obj then q + [COLON] else [])
    ensures var b := if first then a + done else a + done + [COMMA];
            var c := if obj then b + q + [COLON] else b;
            c + text == a + (done + comma + key + text)
  {
    var b := if first then a + done else a + done + [COMMA];
    var c := if obj then b + q + [COLON] else b;
    assert b == a + (done + comma);
    assert c == b + key;
  }

  lemma NodeWritten(obj: bool, vals: Vals, done: bytes, first: bool, orig: bytes)
    requires Printing(obj, vals, done, first, NoVals)
    ensures FieldsOf(obj, vals).Some?
    ensures orig + [Open(obj)] + done + [Close(obj)] == orig + Text(Node(obj, [], FieldsOf(obj, vals).value))
  {
    var x := SpellItems(FieldsOf(obj, vals).value, [Close(obj)] + []);
    assert [Close(obj)] + [] == [Close(obj)];
    assert [] + x == x;
  }

  /** Prints any value; fails just when the value has no tree. */
  method EncodeValue(e: Buffer, v: Val) returns (ok: bool)
    modifies e
    ensures ok <==> TreeOf(v).Some?
    ensures ok ==> e.data == old(e.data) + Text(TreeOf(v).value)
    decreases Size(v), 1
  {
    hide Spell, FieldsOf, IsNumber, Quote, SpellItems, Tight, Parse, IsJson;
    if v.VArray? {
      ok := EncodeItems(e, false, v.elems);
    } else if v.VMap? {
      var sv := SortVals(v.entries);
      ok := EncodeItems(e, true, sv);
    } else if v.VStruct? {
      ok := EncodeItems(e, true, v.fields);
    } else if v.VRaw? {
      IsJsonParses(v.text);
      ok := CompactInto(e, v.text, true);
    } else {
      ok := EncodeScalar(e, v);
      if ok { LeafText(TreeOf(v).value); }
    }
  }

  lemma LeafText(t: Tree)
    requires t.Leaf?
    ensures Text(t) == t.text
  {
    assert t.text + [] == t.text;
  }

  method Marshal(v: Val) returns (out: Option<bytes>)
    ensures out == MarshalText(v)
    ensures out.Some? ==> Parse(out.value).Some? && CompactText(out.value, true) == out.value
  {
    hide Spell, TreeOf, Parse, CompactText;
    var e := new Buffer();
    var ok := EncodeValue(e, v);
    if !ok {
      return None;
    }
    ghost var text := Text(TreeOf(v).value);
    assert [] + text == text;
    MarshalForm(v);
    return Some(e.data);
  }
}

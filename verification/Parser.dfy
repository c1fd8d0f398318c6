/**
 A reference parser for the grammar: recursive descent over the remaining input.  It is sound (what it
 returns spells what it consumed) and complete (it finds every tree again), so the grammar is unambiguous
 and `Parse` is the tree the grammar assigns to a text.
 */
module Parser {
  import opened Bytes
  import opened Grammar

  /** What may follow a value inside a JSON text. */
  predicate Follow(r: bytes) {
    r == [] || IsSpace(r[0]) || r[0] == COMMA || r[0] == COLON || r[0] == RBRACKET || r[0] == RBRACE
  }

  /** Number of leading white-space bytes. */
  function Spaces(s: bytes): (n: nat)
    ensures n <= |s|
  {
    if s == [] || !IsSpace(s[0]) then 0 else 1 + Spaces(s[1..])
  }

  lemma {:induction false} SpacesRun(s: bytes)
    ensures AllSpace(s[..Spaces(s)])
    ensures Spaces(s) < |s| ==> !IsSpace(s[Spaces(s)])
  {
    if s != [] && IsSpace(s[0]) {
      SpacesRun(s[1..]);
      assert s[..Spaces(s)] == [s[0]] + s[1..][..Spaces(s) - 1];
    }
  }

  lemma {:induction false} SpacesOf(w: bytes, r: bytes)
    requires AllSpace(w) && (r == [] || !IsSpace(r[0]))
    ensures Spaces(w + r) == |w|
  {
    if w == [] {
      assert w + r == r;
    } else {
      assert (w + r)[1..] == w[1..] + r;
      SpacesOf(w[1..], r);
    }
  }

  /** Number of leading digits. */
  function Digits(s: bytes): (n: nat)
    ensures n <= |s|
  {
    if s == [] || !IsDigit(s[0]) then 0 else 1 + Digits(s[1..])
  }

  lemma {:induction false} DigitsRun(s: bytes)
    ensures AllDigits(s[..Digits(s)])
    ensures Digits(s) < |s| ==> !IsDigit(s[Digits(s)])
  {
    if s != [] && IsDigit(s[0]) {
      DigitsRun(s[1..]);
      assert s[..Digits(s)] == [s[0]] + s[1..][..Digits(s) - 1];
    }
  }

  lemma {:induction false} DigitsOf(d: bytes, r: bytes)
    requires AllDigits(d) && (r == [] || !IsDigit(r[0]))
    ensures Digits(d + r) == |d|
  {
    if d == [] {
      assert d + r == r;
    } else {
      assert (d + r)[1..] == d[1..] + r;
      DigitsOf(d[1..], r);
    }
  }

  // Numbers: the length of each part, or None where the grammar has no continuation.

  function IntLen(s: bytes): (n: Option<nat>)
    ensures n.Some? ==> 0 < n.value <= |s|
  {
    if s == [] || !IsDigit(s[0]) then None
    else if s[0] == ZERO then Some(1)
    else Some(Digits(s))
  }

  function FracLen(s: bytes): (n: Option<nat>)
    ensures n.Some? ==> n.value <= |s|
  {
    if s == [] || s[0] != DOT then Some(0)
    else
      var d := Digits(s[1..]);
      if d == 0 then None else Some(1 + d)
  }

  function ExpLen(s: bytes): (n: Option<nat>)
    ensures n.Some? ==> n.value <= |s|
  {
    if s == [] || !IsE(s[0]) then Some(0)
    else
      var g := if |s| > 1 && IsSign(s[1]) then 2 else 1;
      var d := Digits(s[g..]);
      if d == 0 then None else Some(g + d)
  }

  lemma PartsSound(s: bytes)
    ensures IntLen(s).Some? ==> IsInt(s[..IntLen(s).value])
    ensures FracLen(s).Some? ==> IsFrac(s[..FracLen(s).value])
  {
    DigitsRun(s);
    if s != [] {
      DigitsRun(s[1..]);
      var d := Digits(s[1..]);
      assert s[..1 + d][1..] == s[1..][..d];
    }
  }

  lemma ExpSound(s: bytes)
    requires ExpLen(s).Some?
    ensures IsExp(s[..ExpLen(s).value])
  {
    if s != [] && IsE(s[0]) {
      var g := if |s| > 1 && IsSign(s[1]) then 2 else 1;
      DigitsRun(s[g..]);
      var d := Digits(s[g..]);
      assert s[..g + d][g..] == s[g..][..d];
    }
  }

  function FracExpLen(s: bytes): (n: Option<nat>)
    ensures n.Some? ==> n.value <= |s|
  {
    var f := FracLen(s);
    if f.None? then None else
    var e := ExpLen(s[f.value..]);
    if e.None? then None else Some(f.value + e.value)
  }

  function UnsignedLen(s: bytes): (n: Option<nat>)
    ensures n.Some? ==> 0 < n.value <= |s|
  {
    var i := IntLen(s);
    if i.None? then None else
    var f := FracExpLen(s[i.value..]);
    if f.None? then None else Some(i.value + f.value)
  }

  function NumberLen(s: bytes): (n: Option<nat>)
    ensures n.Some? ==> 0 < n.value <= |s|
  {
    if s != [] && s[0] == MINUS then
      var n := UnsignedLen(s[1..]);
      if n.None? then None else Some(1 + n.value)
    else UnsignedLen(s)
  }

  lemma FracExpSound(s: bytes) returns (f: bytes, e: bytes)
    requires FracExpLen(s).Some?
    ensures IsFrac(f) && IsExp(e) && s[..FracExpLen(s).value] == f + e
  {
    var m := FracLen(s).value;
    var k := ExpLen(s[m..]).value;
    f, e := s[..m], s[m..][..k];
    PartsSound(s);
    ExpSound(s[m..]);
    TakeSum(s, m, k);
  }

  lemma UnsignedSound(s: bytes) returns (i: bytes, f: bytes, e: bytes)
    requires UnsignedLen(s).Some?
    ensures IsInt(i) && IsFrac(f) && IsExp(e) && s[..UnsignedLen(s).value] == i + (f + e)
  {
    var n := IntLen(s).value;
    i := s[..n];
    PartsSound(s);
    f, e := FracExpSound(s[n..]);
    TakeSum(s, n, FracExpLen(s[n..]).value);
  }

  lemma NumberSound(s: bytes)
    requires NumberLen(s).Some?
    ensures IsNumber(s[..NumberLen(s).value])
  {
    if s[0] == MINUS {
      var i, f, e := UnsignedSound(s[1..]);
      TakeSum(s, 1, UnsignedLen(s[1..]).value);
      assert NumberParts(s[..NumberLen(s).value], [MINUS], i, f, e);
    } else {
      var i, f, e := UnsignedSound(s);
      assert [] + (i + (f + e)) == i + (f + e);
      assert NumberParts(s[..NumberLen(s).value], [], i, f, e);
    }
  }

  lemma FracComplete(f: bytes, r: bytes)
    requires IsFrac(f) && (r == [] || (!IsDigit(r[0]) && r[0] != DOT))
    ensures FracLen(f + r) == Some(|f|)
  {
    if f == [] {
      assert f + r == r;
    } else {
      assert (f + r)[1..] == f[1..] + r;
      DigitsOf(f[1..], r);
    }
  }

  lemma ExpComplete(e: bytes, r: bytes)
    requires IsExp(e) && Follow(r)
    ensures ExpLen(e + r) == Some(|e|)
  {
    if e == [] {
      assert e + r == r;
    } else {
      var g := if IsSign(e[1]) then 2 else 1;
      assert (e + r)[g..] == e[g..] + r;
      DigitsOf(e[g..], r);
    }
  }

  lemma FracExpComplete(f: bytes, e: bytes, r: bytes)
    requires IsFrac(f) && IsExp(e) && Follow(r)
    ensures FracExpLen(f + (e + r)) == Some(|f| + |e|)
  {
    FracComplete(f, e + r);
    Seam(f, e + r);
    ExpComplete(e, r);
  }

  lemma AfterInt(f: bytes, e: bytes, r: bytes)
    requires IsFrac(f) && IsExp(e) && Follow(r)
    ensures var x := f + (e + r); x == [] || !IsDigit(x[0])
  {}

  lemma UnsignedComplete(i: bytes, f: bytes, e: bytes, r: bytes)
    requires IsInt(i) && IsFrac(f) && IsExp(e) && Follow(r)
    ensures UnsignedLen(i + (f + (e + r))) == Some(|i| + |f| + |e|)
  {
    hide IsFrac, IsExp, Follow, FracExpLen;
    AfterInt(f, e, r);
    if i[0] != ZERO { DigitsOf(i, f + (e + r)); }
    Seam(i, f + (e + r));
    FracExpComplete(f, e, r);
  }

  lemma MinusLen(m: bytes, u: bytes)
    requires UnsignedLen(u).Some? && (m == [] || m == [MINUS])
    ensures NumberLen(m + u) == Some(|m| + UnsignedLen(u).value)
  {
    if m == [] {
      assert m + u == u;
    } else {
      Behead(MINUS, u);
    }
  }

  lemma Regroup(m: bytes, i: bytes, f: bytes, e: bytes, r: bytes)
    ensures m + (i + (f + e)) + r == m + (i + (f + (e + r)))
  {
    Assoc(m, i + (f + e), r);
    Assoc(i, f + e, r);
    Assoc(f, e, r);
  }

  lemma SignedComplete(m: bytes, i: bytes, f: bytes, e: bytes, r: bytes, s: bytes)
    requires m == [] || m == [MINUS]
    requires IsInt(i) && IsFrac(f) && IsExp(e) && Follow(r)
    requires s == m + (i + (f + (e + r)))
    ensures NumberLen(s) == Some(|m| + (|i| + |f| + |e|))
  {
    hide UnsignedLen, NumberLen, IsInt, IsFrac, IsExp, Follow;
    UnsignedComplete(i, f, e, r);
    var u := i + (f + (e + r));
    MinusLen(m, u);
  }

  lemma NumberComplete(t: bytes, r: bytes)
    requires IsNumber(t) && Follow(r)
    ensures NumberLen(t + r) == Some(|t|)
  {
    var m, i, f, e :| NumberParts(t, m, i, f, e);
    Regroup(m, i, f, e, r);
    SignedComplete(m, i, f, e, r, t + r);
  }

  lemma Shift(a: bytes, b: bytes, c: bytes)
    ensures (a + (b + c))[|a| + |b|..] == c
  {}

  // Strings.

  /** Number of bytes before the closing quote. */
  function CharsLen(s: bytes): (n: Option<nat>)
    ensures n.Some? ==> n.value < |s|
  {
    if s == [] then None
    else if s[0] == QUOTE then Some(0)
    else
      var k := CharLen(s);
      if k == 0 then None else
      var n := CharsLen(s[k..]);
      if n.None? then None else Some(k + n.value)
  }

  lemma {:induction false} CharsSound(s: bytes)
    requires CharsLen(s).Some?
    ensures s[CharsLen(s).value] == QUOTE && IsChars(s[..CharsLen(s).value])
    decreases |s|
  {
    if s[0] != QUOTE {
      var k := CharLen(s);
      CharsSound(s[k..]);
      var n := CharsLen(s[k..]).value;
      assert s[..k + n][k..] == s[k..][..n];
    }
  }

  /** Length of the one string character that `s` starts with, or 0. */
  function CharLen(s: bytes): (k: nat)
    requires s != [] && s[0] != QUOTE
    ensures k <= |s|
  {
    if s[0] == BACKSLASH then
      if |s| < 2 then 0
      else if s[1] == 0x75
      then if |s| >= 6 && IsHex(s[2]) && IsHex(s[3]) && IsHex(s[4]) && IsHex(s[5]) then 6 else 0
      else if IsEscape(s[1]) then 2 else 0
    else if s[0] < 0x20 then 0
    else 1
  }

  /** The first character of a string's contents is found whatever follows them. */
  lemma FirstChar(t: bytes, r: bytes)
    requires IsChars(t) && t != []
    ensures var k := CharLen(t + [QUOTE] + r); 0 < k <= |t| && IsChars(t[k..]) && (t + [QUOTE] + r)[0] != QUOTE
  {
    assert forall i | 0 <= i < |t| :: (t + [QUOTE] + r)[i] == t[i];
  }

  lemma {:induction false} CharsComplete(t: bytes, r: bytes)
    requires IsChars(t)
    ensures CharsLen(t + [QUOTE] + r) == Some(|t|)
    decreases |t|
  {
    if t != [] {
      var s := t + [QUOTE] + r;
      var k := CharLen(s);
      FirstChar(t, r);
      assert s[k..] == t[k..] + [QUOTE] + r;
      CharsComplete(t[k..], r);
    }
  }

  // Values.

  function NameLen(s: bytes): (n: Option<nat>) {
    if Begins(s, TRUE) then Some(4)
    else if Begins(s, FALSE) then Some(5)
    else if Begins(s, NULL) then Some(4)
    else None
  }

  lemma NameSound(s: bytes)
    requires NameLen(s).Some?
    ensures NameLen(s).value <= |s| && IsName(s[..NameLen(s).value])
  {
    BeginsWith(s, TRUE);
    BeginsWith(s, FALSE);
    BeginsWith(s, NULL);
  }

  function LiteralLen(s: bytes): (n: Option<nat>)
    ensures n.Some? ==> 0 < n.value <= |s|
  {
    if s == [] then None
    else if s[0] == QUOTE then
      var n := CharsLen(s[1..]);
      if n.None? then None else Some(n.value + 2)
    else if s[0] == MINUS || IsDigit(s[0]) then NumberLen(s)
    else
      var n := NameLen(s);
      if n.Some? then NameSound(s); n else None
  }

  lemma StringSound(s: bytes)
    requires s != [] && s[0] == QUOTE && CharsLen(s[1..]).Some?
    ensures IsString(s[..CharsLen(s[1..]).value + 2])
  {
    var n := CharsLen(s[1..]).value;
    CharsSound(s[1..]);
    assert s[..n + 2][1..n + 1] == s[1..][..n];
  }

  lemma LiteralSound(s: bytes)
    requires LiteralLen(s).Some?
    ensures IsLiteral(s[..LiteralLen(s).value])
  {
    if s[0] == QUOTE {
      StringSound(s);
    } else if s[0] == MINUS || IsDigit(s[0]) {
      NumberSound(s);
    } else {
      NameSound(s);
    }
  }

  /** How a literal begins. */
  lemma LiteralHead(t: bytes)
    requires IsLiteral(t)
    ensures t != [] && (t[0] == QUOTE || t[0] == MINUS || IsDigit(t[0]) || t[0] in {0x74, 0x66, 0x6E})
    ensures IsNumber(t) ==> t[0] == MINUS || IsDigit(t[0])
  {
    if IsNumber(t) {
      var m, i, f, e :| NumberParts(t, m, i, f, e);
    }
  }

  lemma StringComplete(t: bytes, r: bytes)
    requires IsString(t)
    ensures LiteralLen(t + r) == Some(|t|)
  {
    var m := t[1..|t| - 1];
    assert (t + r)[1..] == m + [QUOTE] + r;
    CharsComplete(m, r);
  }

  lemma LiteralComplete(t: bytes, r: bytes)
    requires IsLiteral(t) && Follow(r)
    ensures LiteralLen(t + r) == Some(|t|)
  {
    LiteralHead(t);
    if IsString(t) {
      StringComplete(t, r);
    } else if IsNumber(t) {
      NumberComplete(t, r);
    } else {
      Seam(t, r);
      BeginsWith(t + r, t);
      assert t == NULL ==> !Begins(t + r, TRUE) && !Begins(t + r, FALSE);
      assert t == FALSE ==> !Begins(t + r, TRUE);
    }
  }

  /** The value that `s` starts with and what is left after it. */
  function Value(s: bytes): (p: Option<(Tree, bytes)>)
    ensures p.Some? ==> |p.value.1| < |s|
    decreases |s|, 1
  {
    if s == [] then None
    else if s[0] == LBRACE then Container(true, s[1..])
    else if s[0] == LBRACKET then Container(false, s[1..])
    else
      var n := LiteralLen(s);
      if n.None? then None else Some((Leaf(s[..n.value]), s[n.value..]))
  }

  /** The rest of an object or array whose opening bracket has just been read. */
  function Container(obj: bool, s: bytes): (p: Option<(Tree, bytes)>)
    ensures p.Some? ==> |p.value.1| < |s|
    decreases |s|, 3
  {
    var w := Spaces(s);
    if w < |s| && s[w] == Close(obj) then Some((Node(obj, s[..w], Nil), s[w + 1..]))
    else
      var q := ItemsOf(obj, s);
      if q.None? then None else Some((Node(obj, [], q.value.0), q.value.1))
  }

  /** For an object: a member's name, its colon and the white space around both. */
  function KeyOf(obj: bool, s: bytes): (p: Option<(Key, bytes)>)
    ensures p.Some? ==> |p.value.1| <= |s|
  {
    if !obj then Some((NoKey, s)) else
    if s == [] || s[0] != QUOTE then None else
    var n := LiteralLen(s);
    if n.None? then None else
    var u := s[n.value..];
    var a := Spaces(u);
    if a == |u| || u[a] != COLON then None else
    var v := u[a + 1..];
    var b := Spaces(v);
    Some((Key(s[..n.value], u[..a], v[..b]), v[b..]))
  }

  lemma KeySound(obj: bool, s: bytes)
    requires KeyOf(obj, s).Some?
    ensures KeyOk(obj, KeyOf(obj, s).value.0)
    ensures s == SpellKey(KeyOf(obj, s).value.0, KeyOf(obj, s).value.1)
  {
    if obj {
      StringSound(s);
      var n := LiteralLen(s).value;
      var u := s[n..];
      var a := Spaces(u);
      var v := u[a + 1..];
      Rejoin(s, n);
      RejoinAt(u, a);
      Rejoin(v, Spaces(v));
      SpacesRun(u);
      SpacesRun(v);
    }
  }

  /** One or more items, up to and including the closing bracket. */
  function ItemsOf(obj: bool, s: bytes): (p: Option<(Items, bytes)>)
    ensures p.Some? ==> |p.value.1| < |s| && p.value.0.Cons?
    decreases |s|, 2
  {
    var w := Spaces(s);
    var k := KeyOf(obj, s[w..]);
    if k.None? then None else
    var v := Value(k.value.1);
    if v.None? then None else
    var (t, r) := v.value;
    var x := Spaces(r);
    var q := TailOf(obj, r[x..]);
    if q.None? then None else Some((Cons(s[..w], k.value.0, t, r[..x], q.value.0), q.value.1))
  }

  /** The closing bracket, or a comma and more items. */
  function TailOf(obj: bool, s: bytes): (p: Option<(Items, bytes)>)
    ensures p.Some? ==> |p.value.1| < |s|
    decreases |s|, 2
  {
    if s == [] then None
    else if s[0] == Close(obj) then Some((Nil, s[1..]))
    else if s[0] == COMMA then ItemsOf(obj, s[1..])
    else None
  }

  lemma {:induction false} ValueSound(s: bytes)
    requires Value(s).Some?
    ensures TreeOk(Value(s).value.0)
    ensures s == Spell(Value(s).value.0, Value(s).value.1)
    decreases |s|, 1
  {
    if s[0] == LBRACE || s[0] == LBRACKET {
      var obj := s[0] == LBRACE;
      var u := s[1..];
      var w := Spaces(u);
      HeadTail(s);
      if w < |u| && u[w] == Close(obj) {
        RejoinAt(u, w);
        SpacesRun(u);
      } else {
        ItemsSound(obj, u);
        var xs := ItemsOf(obj, u).value.0;
        assert u == [] + u;
      }
    } else {
      LiteralSound(s);
      Rejoin(s, LiteralLen(s).value);
    }
  }

  lemma {:induction false} ItemsSound(obj: bool, s: bytes)
    requires ItemsOf(obj, s).Some?
    ensures ItemsOk(obj, ItemsOf(obj, s).value.0)
    ensures s == SpellItems(ItemsOf(obj, s).value.0, [Close(obj)] + ItemsOf(obj, s).value.1)
    decreases |s|, 2
  {
    var w := Spaces(s);
    Rejoin(s, w);
    SpacesRun(s);
    KeySound(obj, s[w..]);
    var u := KeyOf(obj, s[w..]).value.1;
    ValueSound(u);
    var r := Value(u).value.1;
    var x := Spaces(r);
    Rejoin(r, x);
    SpacesRun(r);
    TailSound(obj, r[x..]);
  }

  lemma {:induction false} TailSound(obj: bool, s: bytes)
    requires TailOf(obj, s).Some?
    ensures ItemsOk(obj, TailOf(obj, s).value.0)
    ensures s == SpellTail(TailOf(obj, s).value.0, [Close(obj)] + TailOf(obj, s).value.1)
    decreases |s|, 2
  {
    HeadTail(s);
    if s[0] != Close(obj) {
      ItemsSound(obj, s[1..]);
    }
  }

  lemma TreeHead(t: Tree, r: bytes)
    requires TreeOk(t)
    ensures var s := Spell(t, r); s != [] && !IsSpace(s[0]) && s[0] != RBRACE && s[0] != RBRACKET
  {
    if t.Leaf? { LiteralHead(t.text); }
  }

  lemma NameComplete(k: Key, r: bytes)
    requires KeyOk(true, k) && r != [] && !IsSpace(r[0])
    ensures KeyOf(true, SpellKey(k, r)) == Some((k, r))
  {
    var v := k.after + r;
    var u := k.before + ([COLON] + v);
    StringComplete(k.text, u);
    Seam(k.text, u);
    SpacesOf(k.before, [COLON] + v);
    Seam(k.before, [COLON] + v);
    Shift(k.before, [COLON], v);
    SpacesOf(k.after, r);
    Seam(k.after, r);
  }

  lemma KeyComplete(obj: bool, k: Key, r: bytes)
    requires KeyOk(obj, k) && r != [] && !IsSpace(r[0])
    ensures KeyOf(obj, SpellKey(k, r)) == Some((k, r))
  {
    if obj { NameComplete(k, r); }
  }

  lemma {:induction false} ValueComplete(t: Tree, r: bytes)
    requires TreeOk(t) && Follow(r)
    ensures Value(Spell(t, r)) == Some((t, r))
    decreases t
  {
    hide Container, ItemsOk, AllSpace, SpellItems, IsLiteral, LiteralLen, Follow;
    match t
    case Leaf(text) => LeafComplete(text, r);
    case Node(obj, gap, items) =>
      Behead(Open(obj), gap + SpellItems(items, [Close(obj)] + r));
      ContainerComplete(obj, gap, items, r);
  }

  lemma LeafComplete(text: bytes, r: bytes)
    requires IsLiteral(text) && Follow(r)
    ensures Value(text + r) == Some((Leaf(text), r))
  {
    hide Container, IsLiteral, LiteralLen, Follow;
    LiteralHead(text);
    LiteralComplete(text, r);
    Seam(text, r);
  }

  lemma {:induction false} ContainerComplete(obj: bool, gap: bytes, items: Items, r: bytes)
    requires TreeOk(Node(obj, gap, items))
    ensures Container(obj, gap + SpellItems(items, [Close(obj)] + r)) == Some((Node(obj, gap, items), r))
    decreases items, 2
  {
    var u := SpellItems(items, [Close(obj)] + r);
    if items.Nil? {
      SpacesOf(gap, u);
      Seam(gap, u);
      Shift(gap, [Close(obj)], r);
    } else {
      assert gap + u == u;
      ItemsHead(obj, items, r);
      ItemsComplete(obj, items, r);
    }
  }

  /** Items never begin with the closing bracket. */
  lemma ItemsHead(obj: bool, xs: Items, r: bytes)
    requires ItemsOk(obj, xs) && xs.Cons?
    ensures var s := SpellItems(xs, [Close(obj)] + r);
            Spaces(s) == |xs.pre| && |s| > |xs.pre| && s[|xs.pre|] != Close(obj)
  {
    var v := Spell(xs.value, xs.post + SpellTail(xs.rest, [Close(obj)] + r));
    TreeHead(xs.value, xs.post + SpellTail(xs.rest, [Close(obj)] + r));
    SpacesOf(xs.pre, SpellKey(xs.key, v));
  }

  /** What follows a value inside a container. */
  lemma AfterItem(obj: bool, post: bytes, rest: Items, r: bytes)
    requires AllSpace(post)
    ensures var z := SpellTail(rest, [Close(obj)] + r); z != [] && !IsSpace(z[0]) && Follow(post + z)
  {
    hide SpellItems;
  }

  lemma {:induction false} ItemsComplete(obj: bool, xs: Items, r: bytes)
    requires ItemsOk(obj, xs) && xs.Cons?
    ensures ItemsOf(obj, SpellItems(xs, [Close(obj)] + r)) == Some((xs, r))
    decreases xs, 0
  {
    hide Value, KeyOf, TailOf, Spell, SpellTail, SpellKey, TreeOk, KeyOk, AllSpace, Follow, IsSpace;
    var Cons(pre, key, value, post, rest) := xs;
    ItemsHead(obj, xs, r);
    var z := SpellTail(rest, [Close(obj)] + r);
    var v := Spell(value, post + z);
    Seam(pre, SpellKey(key, v));
    TreeHead(value, post + z);
    AfterItem(obj, post, rest, r);
    KeyComplete(obj, key, v);
    ValueComplete(value, post + z);
    SpacesOf(post, z);
    Seam(post, z);
    TailComplete(obj, rest, r);
  }

  lemma {:induction false} TailComplete(obj: bool, rest: Items, r: bytes)
    requires ItemsOk(obj, rest)
    ensures TailOf(obj, SpellTail(rest, [Close(obj)] + r)) == Some((rest, r))
    decreases rest, 1
  {
    if rest.Cons? {
      Behead(COMMA, SpellItems(rest, [Close(obj)] + r));
      ItemsComplete(obj, rest, r);
    } else {
      Behead(Close(obj), r);
    }
  }

  /** The document the grammar assigns to a text. */
  function Parse(s: bytes): (d: Option<Doc>) {
    var w := Spaces(s);
    var v := Value(s[w..]);
    if v.None? || Spaces(v.value.1) != |v.value.1| then None
    else Some(Doc(s[..w], v.value.0, v.value.1))
  }

  lemma ParseSound(s: bytes)
    requires Parse(s).Some?
    ensures DocOk(Parse(s).value) && DocText(Parse(s).value) == s
  {
    var w := Spaces(s);
    ValueSound(s[w..]);
    var r := Value(s[w..]).value.1;
    assert r[..|r|] == r;
    SpacesRun(s);
    SpacesRun(r);
    Rejoin(s, w);
  }

  lemma ParseComplete(d: Doc)
    requires DocOk(d)
    ensures Parse(DocText(d)) == Some(d)
  {
    TreeHead(d.tree, d.post);
    var u := Spell(d.tree, d.post);
    SpacesOf(d.pre, u);
    Seam(d.pre, u);
    ValueComplete(d.tree, d.post);
    SpacesOf(d.post, []);
    assert d.post + [] == d.post;
  }

  /** Soundness and completeness of the reference parser; hence the grammar is unambiguous. */
  lemma ParseExact(s: bytes, d: Doc)
    ensures Parse(s) == Some(d) <==> DocOk(d) && DocText(d) == s
  {
    if Parse(s) == Some(d) { ParseSound(s); }
    if DocOk(d) && DocText(d) == s { ParseComplete(d); }
  }

  lemma IsJsonParses(s: bytes)
    ensures IsJson(s) <==> Parse(s).Some?
  {
    if Parse(s).Some? { ParseSound(s); }
    if IsJson(s) {
      var d :| DocOk(d) && DocText(d) == s;
      ParseComplete(d);
    }
  }
}

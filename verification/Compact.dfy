/** `compact`: white space dropped and bytes escaped while the scanner watches. */
module Compact {
  import opened Bytes
  import opened Grammar
  import opened Parser
  import opened ScanCore
  import opened ScanLiteral
  import opened ScanGrammar
  import opened Strings
  import opened Escape
  import opened Values
  import opened Scanner
  import opened Validate

  /** The tree without white space, its literals escaped. */
  function Tight(t: Tree, html: bool): Tree
    decreases t, 0
  {
    match t
    case Leaf(text) => Leaf(Esc(text, html))
    case Node(obj, gap, items) => Node(obj, [], TightItems(items, html))
  }

  function TightItems(xs: Items, html: bool): Items
    decreases xs, 0
  {
    match xs
    case Nil => Nil
    case Cons(pre, key, value, post, rest) =>
      Cons([], TightKey(key, html), Tight(value, html), [], TightItems(rest, html))
  }

  function TightKey(k: Key, html: bool): Key {
    match k
    case NoKey => NoKey
    case Key(text, _, _) => Key(Esc(text, html), [], [])
  }

  /** The compact form of a JSON text. */
  function CompactText(s: bytes, html: bool): bytes
    requires Parse(s).Some?
  {
    Text(Tight(Parse(s).value.tree, html))
  }

  // What the loop emits.

  predicate Drops(op: Op) { op == SkipSpace || op == End }

  /** The escape emitted for the byte at the front of `s`, if any. */
  function Emit(s: bytes, html: bool): bytes
    requires s != []
  {
    if LineSep(s) then EscapeLine(s[2]) else if html && IsHtml(s[0]) then EscapeByte(s[0]) else []
  }

  /** How many bytes, this one included, are covered by what has been emitted. */
  function Cover(s: bytes, html: bool, skip: nat): nat
    requires s != []
  {
    if LineSep(s) then 3 else if html && IsHtml(s[0]) then 1 else skip
  }

  /** What the byte at the front of `s` contributes when it is not dropped. */
  function Show(s: bytes, html: bool, k: nat): bytes
    requires s != []
  {
    if k > 0 then Emit(s, html) else [s[0]]
  }

  function Less(k: nat): nat { if k > 0 then k - 1 else 0 }

  /** The output for `s` under the signals `q`, when `skip` bytes are already covered. */
  function Squeeze(q: seq<Op>, s: bytes, skip: nat, html: bool): bytes {
    if s == [] || q == [] || q[0] == Failed then []
    else
      var k := Cover(s, html, skip);
      if Drops(q[0]) then Emit(s, html) + Squeeze(q[1..], s[1..], 0, html)
      else Show(s, html, k) + Squeeze(q[1..], s[1..], Less(k), html)
  }

  // On the text of a tree it emits the compact form.

  lemma SqueezeKeep(op: Op, q: seq<Op>, c: byte, s: bytes, html: bool)
    requires !Drops(op) && op != Failed && c < 0x80 && !IsHtml(c)
    ensures Squeeze([op] + q, [c] + s, 0, html) == [c] + Squeeze(q, s, 0, html)
  {
    Behead(c, s);
    assert ([op] + q)[1..] == q;
  }

  lemma {:induction false} SqueezeSpaces(op: Op, w: bytes, q: seq<Op>, s: bytes, html: bool)
    requires AllSpace(w) && Drops(op)
    ensures Squeeze(Repeat(op, |w|) + q, w + s, 0, html) == Squeeze(q, s, 0, html)
    decreases w
  {
    hide Squeeze;
    if w == [] {
      assert w + s == s;
      assert Repeat(op, 0) + q == q;
    } else {
      RepeatStep(op, |w|, q);
      Past(w, s);
      SqueezeSpaces(op, w[1..], q, s, html);
      SqueezeSpace(Repeat(op, |w|) + q, w + s, html);
    }
  }

  lemma SqueezeSpace(q: seq<Op>, s: bytes, html: bool)
    requires s != [] && q != [] && Drops(q[0]) && IsSpace(s[0])
    ensures Squeeze(q, s, 0, html) == Squeeze(q[1..], s[1..], 0, html)
  {
    var z := Squeeze(q[1..], s[1..], 0, html);
    assert [] + z == z;
  }

  lemma RepeatStep(op: Op, n: nat, q: seq<Op>)
    requires n > 0
    ensures var r := Repeat(op, n) + q; r[0] == op && r[1..] == Repeat(op, n - 1) + q
  {}

  /** Inside a literal whose last byte is ASCII, so that no separator straddles its end. */
  lemma {:induction false} SqueezeInside(x: bytes, q: seq<Op>, s: bytes, html: bool)
    requires x != [] ==> x[|x| - 1] < 0x80
    ensures Squeeze(Repeat(Continue, |x|) + q, x + s, 0, html) == Esc(x, html) + Squeeze(q, s, 0, html)
    decreases |x|
  {
    hide Squeeze;
    if x == [] {
      assert x + s == s;
      assert Repeat(Continue, 0) + q == q;
    } else {
      RepeatStep(Continue, |x|, q);
      Past(x, s);
      assert LineSep(x + s) <==> LineSep(x);
      if LineSep(x) {
        SqueezeSeparator(x, q, s, html);
        SqueezeInside(x[3..], q, s, html);
        Assoc(EscapeLine(x[2]), Esc(x[3..], html), Squeeze(q, s, 0, html));
      } else {
        SqueezeInside(x[1..], q, s, html);
        var e := if html && IsHtml(x[0]) then EscapeByte(x[0]) else [x[0]];
        SqueezeOne(Repeat(Continue, |x|) + q, x + s, html);
        Assoc(e, Esc(x[1..], html), Squeeze(q, s, 0, html));
      }
    }
  }

  /** A byte inside a literal that no separator begins at. */
  lemma SqueezeOne(q: seq<Op>, s: bytes, html: bool)
    requires s != [] && q != [] && q[0] == Continue && !LineSep(s)
    ensures Squeeze(q, s, 0, html)
         == (if html && IsHtml(s[0]) then EscapeByte(s[0]) else [s[0]]) + Squeeze(q[1..], s[1..], 0, html)
  {}

  lemma SqueezeCovered(q: seq<Op>, s: bytes, skip: nat, html: bool)
    requires skip > 0 && s != [] && q != [] && q[0] == Continue && s[0] != 0xE2 && !IsHtml(s[0])
    ensures Squeeze(q, s, skip, html) == Squeeze(q[1..], s[1..], skip - 1, html)
  {
    var z := Squeeze(q[1..], s[1..], skip - 1, html);
    assert [] + z == z;
  }

  /** The two bytes after the first byte of a separator are covered by its escape. */
  lemma SqueezeSeparator(x: bytes, q: seq<Op>, s: bytes, html: bool)
    requires LineSep(x)
    ensures Squeeze(Repeat(Continue, |x|) + q, x + s, 0, html)
         == EscapeLine(x[2]) + Squeeze(Repeat(Continue, |x| - 3) + q, x[3..] + s, 0, html)
  {
    hide Squeeze;
    var n := |x|;
    RepeatStep(Continue, n, q);
    RepeatStep(Continue, n - 1, q);
    RepeatStep(Continue, n - 2, q);
    var y, z := x[1..] + s, x[2..] + s;
    assert (x + s)[1..] == y && y[1..] == z && z[1..] == x[3..] + s;
    SqueezeFirst(Repeat(Continue, n) + q, x + s, html);
    SqueezeCovered(Repeat(Continue, n - 1) + q, y, 2, html);
    SqueezeCovered(Repeat(Continue, n - 2) + q, z, 1, html);
  }

  lemma SqueezeFirst(q: seq<Op>, s: bytes, html: bool)
    requires LineSep(s) && q != [] && q[0] == Continue
    ensures Squeeze(q, s, 0, html) == EscapeLine(s[2]) + Squeeze(q[1..], s[1..], 2, html)
  {}

  lemma SqueezeLiteral(x: bytes, q: seq<Op>, s: bytes, html: bool)
    requires IsLiteral(x)
    ensures x != []
    ensures Squeeze(SignalLiteral(|x|, q), x + s, 0, html) == Esc(x, html) + Squeeze(q, s, 0, html)
  {
    hide Squeeze, IsLiteral;
    LiteralHead(x);
    LiteralLast(x);
    var y := x[1..];
    EscFirst(x, html);
    assert x + s == [x[0]] + (y + s);
    SqueezeKeep(BeginLiteral, Repeat(Continue, |y|) + q, x[0], y + s, html);
    SqueezeInside(y, q, s, html);
    Assoc([x[0]], Esc(y, html), Squeeze(q, s, 0, html));
  }

  lemma EscFirst(x: bytes, html: bool)
    requires x != [] && x[0] < 0x80 && !IsHtml(x[0])
    ensures Esc(x, html) == [x[0]] + Esc(x[1..], html)
  {}

  lemma LiteralLast(x: bytes)
    requires IsLiteral(x) && x != []
    ensures x[|x| - 1] < 0x80
  {
    if IsNumber(x) { NumberTame(x); }
  }

  // Trees.

  lemma SqueezeKey(k: Key, obj: bool, q: seq<Op>, s: bytes, html: bool)
    requires KeyOk(obj, k)
    ensures Squeeze(SignalKey(k, q), SpellKey(k, s), 0, html) == SpellKey(TightKey(k, html), Squeeze(q, s, 0, html))
  {
    if k.Key? {
      var z := Squeeze(q, s, 0, html);
      var u, x := Repeat(SkipSpace, |k.after|) + q, k.after + s;
      SqueezeSpaces(SkipSpace, k.after, q, s, html);
      SqueezeKeep(ObjectKey, u, COLON, x, html);
      SqueezeSpaces(SkipSpace, k.before, [ObjectKey] + u, [COLON] + x, html);
      SqueezeLiteral(k.text, Repeat(SkipSpace, |k.before|) + ([ObjectKey] + u), k.before + ([COLON] + x), html);
      assert [] + z == z && [] + ([COLON] + z) == [COLON] + z;
    }
  }

  lemma {:induction false} SqueezeTree(t: Tree, q: seq<Op>, s: bytes, html: bool)
    requires TreeOk(t)
    ensures Squeeze(Signals(t, q), Spell(t, s), 0, html) == Spell(Tight(t, html), Squeeze(q, s, 0, html))
    decreases t, 0
  {
    hide Squeeze;
    match t
    case Leaf(text) =>
      SqueezeLiteral(text, q, s, html);
    case Node(obj, gap, items) =>
      var u, x := [Finish(obj)] + q, [Close(obj)] + s;
      SqueezeKeep(Finish(obj), q, Close(obj), s, html);
      SqueezeItems(obj, items, u, x, html);
      SqueezeSpaces(SkipSpace, gap, SignalItems(obj, items, u), SpellItems(items, x), html);
      var v, w := Repeat(SkipSpace, |gap|) + SignalItems(obj, items, u), gap + SpellItems(items, x);
      SqueezeKeep(Begin(obj), v, Open(obj), w, html);
      var y := SpellItems(TightItems(items, html), [Close(obj)] + Squeeze(q, s, 0, html));
      assert [] + y == y;
  }

  lemma {:induction false} SqueezeItems(obj: bool, xs: Items, q: seq<Op>, s: bytes, html: bool)
    requires ItemsOk(obj, xs)
    ensures Squeeze(SignalItems(obj, xs, q), SpellItems(xs, s), 0, html)
         == SpellItems(TightItems(xs, html), Squeeze(q, s, 0, html))
    decreases xs, 0
  {
    hide Squeeze, SignalKey, SpellKey, TightKey;
    match xs
    case Nil =>
    case Cons(pre, key, value, post, rest) =>
      var u, x := SignalTail(obj, rest, q), SpellTail(rest, s);
      SqueezeTail(obj, rest, q, s, html);
      SqueezeSpaces(SkipSpace, post, u, x, html);
      var v, y := Repeat(SkipSpace, |post|) + u, post + x;
      SqueezeTree(value, v, y, html);
      SqueezeKey(key, obj, Signals(value, v), Spell(value, y), html);
      SqueezeSpaces(SkipSpace, pre, SignalKey(key, Signals(value, v)), SpellKey(key, Spell(value, y)), html);
      TightItem(xs, html, Squeeze(q, s, 0, html));
  }

  lemma TightItem(xs: Items, html: bool, s: bytes)
    requires xs.Cons?
    ensures SpellItems(TightItems(xs, html), s)
         == SpellKey(TightKey(xs.key, html), Spell(Tight(xs.value, html), SpellTail(TightItems(xs.rest, html), s)))
  {
    var z := SpellTail(TightItems(xs.rest, html), s);
    assert [] + z == z;
    var y := SpellKey(TightKey(xs.key, html), Spell(Tight(xs.value, html), z));
    assert [] + y == y;
  }

  lemma {:induction false} SqueezeTail(obj: bool, rest: Items, q: seq<Op>, s: bytes, html: bool)
    requires ItemsOk(obj, rest)
    ensures Squeeze(SignalTail(obj, rest, q), SpellTail(rest, s), 0, html)
         == SpellTail(TightItems(rest, html), Squeeze(q, s, 0, html))
    decreases rest, 1
  {
    hide Squeeze;
    if rest.Cons? {
      SqueezeItems(obj, rest, q, s, html);
      SqueezeKeep(Between(obj), SignalItems(obj, rest, q), COMMA, SpellItems(rest, s), html);
    }
  }

  /** On a JSON text the loop emits exactly the compact form. */
  lemma SqueezeDoc(s: bytes, html: bool)
    requires Parse(s).Some?
    ensures Squeeze(Ops(START, s), s, 0, html) == CompactText(s, html)
  {
    hide Squeeze;
    var d := Parse(s).value;
    ParseSound(s);
    SignalsExactly(s);
    var q := Repeat(End, |d.post|);
    SqueezeNothing(q, d.post, html);
    SqueezeTree(d.tree, q, d.post, html);
    SqueezeSpaces(SkipSpace, d.pre, Signals(d.tree, q), Spell(d.tree, d.post), html);
  }

  lemma SqueezeNothing(q: seq<Op>, w: bytes, html: bool)
    requires AllSpace(w) && q == Repeat(End, |w|)
    ensures Squeeze(q, w, 0, html) == []
  {
    SqueezeSpaces(End, w, [], [], html);
    assert q + [] == q && w + [] == w;
  }

  // The compact form.

  lemma KeyTight(obj: bool, k: Key, html: bool)
    requires KeyOk(obj, k)
    ensures KeyOk(obj, TightKey(k, html))
    ensures TightKey(TightKey(k, html), html) == TightKey(k, html)
    ensures KeyName(TightKey(k, html)) == KeyName(k)
  {
    if k.Key? {
      EscString(k.text, html);
      EscTwice(k.text, html);
      EscUnquote(k.text, html);
    }
  }

  lemma LeafTight(text: bytes, html: bool)
    requires IsLiteral(text)
    ensures IsLiteral(Esc(text, html)) && Esc(Esc(text, html), html) == Esc(text, html)
    ensures Meaning(Leaf(Esc(text, html))) == Meaning(Leaf(text))
  {
    EscLiteral(text, html);
    EscTwice(text, html);
    if IsString(text) { EscUnquote(text, html); EscString(text, html); }
  }

  /** Compacting a tree gives a tree of the grammar that is already compact and means the same. */
  lemma {:induction false} TreeTight(t: Tree, html: bool)
    requires TreeOk(t)
    ensures TreeOk(Tight(t, html)) && Tight(Tight(t, html), html) == Tight(t, html)
    ensures Meaning(Tight(t, html)) == Meaning(t)
    decreases t, 0
  {
    match t
    case Leaf(text) => LeafTight(text, html);
    case Node(obj, gap, items) =>
      ItemsTight(obj, items, html);
      if obj { ObjectTight(items, map[], html); } else { ArrayTight(items, [], html); }
  }

  lemma {:induction false} ItemsTight(obj: bool, xs: Items, html: bool)
    requires ItemsOk(obj, xs)
    ensures ItemsOk(obj, TightItems(xs, html)) && TightItems(TightItems(xs, html), html) == TightItems(xs, html)
    decreases xs, 0
  {
    if xs.Cons? {
      KeyTight(obj, xs.key, html);
      TreeTight(xs.value, html);
      ItemsTight(obj, xs.rest, html);
    }
  }

  lemma {:induction false} ArrayTight(xs: Items, done: seq<Json>, html: bool)
    requires ItemsOk(false, xs)
    ensures ArrayMeaning(TightItems(xs, html), done) == ArrayMeaning(xs, done)
    decreases xs, 0
  {
    if xs.Cons? {
      TreeTight(xs.value, html);
      if Meaning(xs.value).Some? { ArrayTight(xs.rest, done + [Meaning(xs.value).value], html); }
    }
  }

  lemma {:induction false} ObjectTight(xs: Items, done: map<bytes, Json>, html: bool)
    requires ItemsOk(true, xs)
    ensures ObjectMeaning(TightItems(xs, html), done) == ObjectMeaning(xs, done)
    decreases xs, 0
  {
    if xs.Cons? {
      KeyTight(true, xs.key, html);
      TreeTight(xs.value, html);
      if Meaning(xs.value).Some? { ObjectTight(xs.rest, done[KeyName(xs.key) := Meaning(xs.value).value], html); }
    }
  }

  /** No white space is left outside the literals. */
  predicate Spaceless(t: Tree) {
    match t
    case Leaf(_) => true
    case Node(_, gap, items) => gap == [] && SpacelessItems(items)
  }

  predicate SpacelessItems(xs: Items) {
    match xs
    case Nil => true
    case Cons(pre, key, value, post, rest) =>
      && pre == [] && post == [] && (key.Key? ==> key.before == [] && key.after == [])
      && Spaceless(value) && SpacelessItems(rest)
  }

  lemma {:induction false} TightSpaceless(t: Tree, html: bool)
    ensures Spaceless(Tight(t, html))
    decreases t, 0
  {
    if t.Node? { ItemsSpaceless(t.items, html); }
  }

  lemma {:induction false} ItemsSpaceless(xs: Items, html: bool)
    ensures SpacelessItems(TightItems(xs, html))
    decreases xs, 0
  {
    if xs.Cons? {
      TightSpaceless(xs.value, html);
      ItemsSpaceless(xs.rest, html);
    }
  }

  /**
   The compact form is a JSON text without white space outside its literals, stands for the same
   value, and compacting it again changes nothing.
   */
  lemma CompactForm(s: bytes, html: bool)
    requires Parse(s).Some?
    ensures var c := CompactText(s, html);
            && Parse(c) == Some(Doc([], Tight(Parse(s).value.tree, html), []))
            && Spaceless(Parse(c).value.tree)
            && Meaning(Parse(c).value.tree) == Meaning(Parse(s).value.tree)
            && CompactText(c, html) == c
  {
    var t := Parse(s).value.tree;
    ParseSound(s);
    TreeTight(t, html);
    TightSpaceless(t, html);
    var d := Doc([], Tight(t, html), []);
    ParseComplete(d);
    assert [] + Spell(d.tree, []) == Spell(d.tree, []);
  }

  // The method.

  class Buffer {
    var data: bytes

    constructor ()
      ensures data == []
    {
      data := [];
    }

    method Write(s: bytes)
      modifies this
      ensures data == old(data) + s
    {
      data := data + s;
    }

    method Truncate(n: nat)
      requires n <= |data|
      modifies this
      ensures data == old(data)[..n]
    {
      data := data[..n];
    }
  }

  /** Bytes of `src` that are to be copied but have not been yet. */
  function Unwritten(src: bytes, start: nat, i: nat): bytes
    requires i <= |src|
  {
    if start < i then src[start..i] else []
  }

  function Ahead(start: nat, i: nat): nat { if start > i then start - i else 0 }

  /** What has been written, is still to be copied and is still to come add up to the whole output. */
  ghost predicate Accounted(src: bytes, html: bool, done: bytes, start: nat, i: nat) {
    && i <= |src|
    && done + (Unwritten(src, start, i) + Squeeze(Ops(START, src)[i..], src[i..], Ahead(start, i), html))
       == Squeeze(Ops(START, src), src, 0, html)
  }

  lemma AccountedStart(src: bytes, html: bool)
    ensures Accounted(src, html, [], 0, 0)
  {
    assert src[0..] == src && Ops(START, src)[0..] == Ops(START, src);
    var z := Squeeze(Ops(START, src), src, 0, html);
    assert [] + ([] + z) == z;
  }

  method CopyPending(dst: Buffer, src: bytes, start: nat, i: nat)
    requires i <= |src|
    modifies dst
    ensures dst.data == old(dst.data) + Unwritten(src, start, i)
  {
    if start < i {
      dst.Write(src[start..i]);
    }
  }

  /** The escape written for one byte, when there is one. */
  method WriteEscape(dst: Buffer, src: bytes, start: nat, i: nat, html: bool) returns (start': nat)
    requires i < |src|
    modifies dst
    ensures Emit(src[i..], html) == [] ==> start' == start && dst.data == old(dst.data)
    ensures Emit(src[i..], html) != [] ==>
              start' == i + Cover(src[i..], html, 0) &&
              dst.data == old(dst.data) + Unwritten(src, start, i) + Emit(src[i..], html)
  {
    start' := start;
    var c := src[i];
    if html && (c == 0x3C || c == 0x3E || c == 0x26) {
      CopyPending(dst, src, start, i);
      dst.Write(EscapeByte(c));
      start' := i + 1;
    }
    if c == 0xE2 && i + 2 < |src| && src[i + 1] == 0x80 && (src[i + 2] == 0xA8 || src[i + 2] == 0xA9) {
      CopyPending(dst, src, start, i);
      dst.Write(EscapeLine(src[i + 2]));
      start' := i + 3;
    }
  }

  /** What the escape of the byte at `i` does to what is written and to `start`. */
  ghost predicate Escaped(src: bytes, html: bool, done: bytes, start: nat, i: nat, done': bytes, start': nat)
    requires i < |src|
  {
    var e := Emit(src[i..], html);
    if e == [] then done' == done && start' == start
    else done' == done + Unwritten(src, start, i) + e && start' == i + Cover(src[i..], html, 0)
  }

  lemma SqueezeDrop(q: seq<Op>, s: bytes, skip: nat, html: bool)
    requires s != [] && q != [] && Drops(q[0])
    ensures Squeeze(q, s, skip, html) == Emit(s, html) + Squeeze(q[1..], s[1..], 0, html)
  {}

  /** A dropped byte keeps the account. */
  lemma AccountedDrop(src: bytes, html: bool, done: bytes, start: nat, i: nat, done': bytes, start': nat)
    requires i < |src| && Accounted(src, html, done, start, i) && Drops(Ops(START, src)[i])
    requires Escaped(src, html, done, start, i, done', start')
    ensures Accounted(src, html, done' + Unwritten(src, start', i), i + 1, i + 1)
  {
    hide Ops, Squeeze, Emit;
    var q, s := Ops(START, src)[i..], src[i..];
    assert q[1..] == Ops(START, src)[i + 1..] && s[1..] == src[i + 1..];
    SqueezeDrop(q, s, Ahead(start, i), html);
    DropKept(done, Unwritten(src, start, i), Emit(s, html), Squeeze(q[1..], s[1..], 0, html));
    assert Unwritten(src, i + 1, i + 1) == [];
    if Emit(s, html) != [] { assert Unwritten(src, start', i) == []; }
  }

  lemma DropKept(done: bytes, u: bytes, e: bytes, z: bytes)
    ensures done + (u + (e + z)) == (done + u + e) + z
    ensures e == [] ==> done + (u + (e + z)) == (done + u) + z
    ensures [] + z == z && (done + u + e) + [] == done + u + e
  {}

  lemma SqueezeStay(q: seq<Op>, s: bytes, skip: nat, html: bool)
    requires s != [] && q != [] && !Drops(q[0]) && q[0] != Failed
    ensures var k := Cover(s, html, skip);
            Squeeze(q, s, skip, html) == Show(s, html, k) + Squeeze(q[1..], s[1..], Less(k), html)
  {}

  /** A byte that is not dropped keeps the account. */
  lemma AccountedKeep(src: bytes, html: bool, done: bytes, start: nat, i: nat, done': bytes, start': nat)
    requires i < |src| && Accounted(src, html, done, start, i)
    requires !Drops(Ops(START, src)[i]) && Ops(START, src)[i] != Failed
    requires Escaped(src, html, done, start, i, done', start')
    ensures Accounted(src, html, done', start', i + 1)
  {
    hide Ops, Emit, Cover, Unwritten, Ahead, Squeeze, Show, Less, Escaped;
    var q, s := Ops(START, src)[i..], src[i..];
    assert q[1..] == Ops(START, src)[i + 1..] && s[1..] == src[i + 1..];
    SqueezeStay(q, s, Ahead(start, i), html);
    var k := Cover(s, html, Ahead(start, i));
    StepKept(src, done, start, i, done', start', Squeeze(q[1..], s[1..], Less(k), html), html);
  }

  lemma AccountedEnd(src: bytes, html: bool, done: bytes, start: nat)
    requires Accounted(src, html, done, start, |src|)
    ensures done + Unwritten(src, start, |src|) == Squeeze(Ops(START, src), src, 0, html)
  {
    var u := Unwritten(src, start, |src|);
    assert u + [] == u;
  }

  lemma StepKept(src: bytes, done: bytes, start: nat, i: nat, done': bytes, start': nat, z: bytes, html: bool)
    requires i < |src| && Escaped(src, html, done, start, i, done', start')
    ensures var k := Cover(src[i..], html, Ahead(start, i));
            && Ahead(start', i + 1) == Less(k)
            && done + (Unwritten(src, start, i) + (Show(src[i..], html, k) + z))
               == done' + (Unwritten(src, start', i + 1) + z)
  {
    var u, e := Unwritten(src, start, i), Emit(src[i..], html);
    if e != [] {
      DropKept(done, u, e, z);
    } else if start > i {
      assert u + (e + z) == u + z;
    } else {
      assert src[start..i + 1] == u + [src[i]];
      Assoc(u, [src[i]], z);
    }
  }

  /** Writes the escape for the byte at `i`, when one is due. */
  method EscapeDue(dst: Buffer, src: bytes, html: bool, i: nat, start: nat, ghost orig: bytes, ghost done: bytes)
    returns (start': nat, ghost done': bytes)
    requires i < |src| && dst.data == orig + done
    modifies dst
    ensures dst.data == orig + done' && Escaped(src, html, done, start, i, done', start')
  {
    hide Emit, Unwritten, Cover;
    start' := WriteEscape(dst, src, start, i, html);
    done' := done;
    if Emit(src[i..], html) != [] {
      done' := done + Unwritten(src, start, i) + Emit(src[i..], html);
      Assoc(orig, done, Unwritten(src, start, i));
      Assoc(orig, done + Unwritten(src, start, i), Emit(src[i..], html));
    }
  }

  /** One iteration of the loop: an escape if one is due, then the scanner's answer for the byte. */
  method CompactByte(dst: Buffer, scan: Scanner, src: bytes, html: bool, i: nat, start: nat,
                     ghost orig: bytes, ghost done: bytes)
    returns (start': nat, op: Op, ghost done': bytes)
    requires i < |src| && scan.Valid() && !scan.redo && scan.State() == Feed(START, src[..i])
    requires dst.data == orig + done && Accounted(src, html, done, start, i)
    modifies dst, scan
    ensures scan.Valid() && !scan.redo && scan.State() == Feed(START, src[..i + 1]) && op == Ops(START, src)[i]
    ensures dst.data == orig + done'
    ensures op != Failed ==> Accounted(src, html, done', start', i + 1)
  {
    hide Squeeze, Feed, Ops, Next, Accounted, Unwritten, Escaped;
    start', done' := EscapeDue(dst, src, html, i, start, orig, done);
    op := scan.Step(src[i]);
    FeedSnoc(START, src, i);
    if op == SkipSpace || op == End {
      AccountedDrop(src, html, done, start, i, done', start');
      CopyPending(dst, src, start', i);
      Assoc(orig, done', Unwritten(src, start', i));
      done' := done' + Unwritten(src, start', i);
      start' := i + 1;
    } else if op != Failed {
      AccountedKeep(src, html, done, start, i, done', start');
    }
  }

  /**
   Appends to `dst` the compact form of `src`; for anything but a JSON text, fails and leaves `dst` as it was.
   */
  method CompactInto(dst: Buffer, src: bytes, html: bool) returns (ok: bool)
    modifies dst
    ensures ok <==> IsJson(src)
    ensures ok ==> Parse(src).Some? && dst.data == old(dst.data) + CompactText(src, html)
    ensures !ok ==> dst.data == old(dst.data)
  {
    hide Squeeze, Feed, Ops, Next, Accounted, Unwritten, CompactText, Parse, IsJson, Emit;
    var origLen := |dst.data|;
    ghost var orig, done: bytes := dst.data, [];
    var scan := new Scanner();
    var start: nat := 0;
    var i := 0;
    AccountedStart(src, html);
    FeedNothing(START);
    assert src[..0] == [];
    while i < |src|
      invariant scan.Valid() && !scan.redo && fresh(scan)
      invariant i <= |src| && scan.State() == Feed(START, src[..i])
      invariant dst.data == orig + done && Accounted(src, html, done, start, i)
    {
      var op;
      start, op, done := CompactByte(dst, scan, src, html, i, start, orig, done);
      if op == Failed {
        FailedBy(src, i);
        break;
      }
      i := i + 1;
    }
    AcceptsExactly(src);
    IsJsonParses(src);
    if i == |src| { assert src[..i] == src; }
    var op := scan.Eof();
    if op == Failed {
      dst.Truncate(origLen);
      return false;
    }
    AccountedEnd(src, html, done, start);
    SqueezeDoc(src, html);
    CopyPending(dst, src, start, |src|);
    return true;
  }

  lemma FailedBy(src: bytes, i: nat)
    requires i < |src| && Ops(START, src)[i] == Failed
    ensures !Accepts(START, src) && Feed(START, src[..i + 1]).failed
  {
    hide Feed, Ops, Next;
    EarlyError(src, i);
    FeedSnoc(START, src, i);
    NextKept(Feed(START, src[..i]), src[i]);
  }
}

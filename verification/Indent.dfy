/** `Indent`: the same text laid out on lines. */
module Indent {
  import opened Bytes
  import opened Grammar
  import opened Parser
  import opened ScanCore
  import opened ScanLiteral
  import opened ScanGrammar
  import opened Scanner
  import opened Validate
  import opened Compact
  import opened Values

  datatype Layout = Layout(prefix: bytes, indent: bytes)

  function Copies(s: bytes, n: int): bytes
    decreases n
  {
    if n <= 0 then [] else s + Copies(s, n - 1)
  }

  function Newline(f: Layout, depth: int): bytes {
    [LF] + (f.prefix + Copies(f.indent, depth))
  }

  // The laid-out tree: white space exactly where the layout puts it.

  function Pretty(t: Tree, depth: int, f: Layout): Tree
    decreases t, 0
  {
    match t
    case Leaf(text) => t
    case Node(obj, gap, items) => Node(obj, [], PrettyItems(items, depth + 1, f))
  }

  function PrettyItems(xs: Items, depth: int, f: Layout): Items
    decreases xs, 0
  {
    match xs
    case Nil => Nil
    case Cons(pre, key, value, post, rest) =>
      Cons(Newline(f, depth), PrettyKey(key), Pretty(value, depth, f),
           if rest.Nil? then Newline(f, depth - 1) else [], PrettyItems(rest, depth, f))
  }

  function PrettyKey(k: Key): Key {
    match k
    case NoKey => NoKey
    case Key(text, _, _) => Key(text, [], [SPACE])
  }

  /** Leading white space is dropped, trailing white space is kept. */
  function IndentText(s: bytes, f: Layout): bytes
    requires Parse(s).Some?
  {
    Spell(Pretty(Parse(s).value.tree, 0, f), Parse(s).value.post)
  }

  // What the loop emits.

  datatype Emitted = Emitted(out: bytes, need: bool, depth: int)

  /** A byte that is not white space, once any pending indent has been written. */
  function EmitByte(op: Op, c: byte, need: bool, depth: int, f: Layout): Emitted {
    if op == Continue then Emitted([c], need, depth)
    else if c == LBRACE || c == LBRACKET then Emitted([c], true, depth)
    else if c == COMMA then Emitted([c] + Newline(f, depth), need, depth)
    else if c == COLON then Emitted([c, SPACE], need, depth)
    else if c == RBRACE || c == RBRACKET then
      if need then Emitted([c], false, depth) else Emitted(Newline(f, depth - 1) + [c], need, depth - 1)
    else Emitted([c], need, depth)
  }

  /** One byte of the loop. */
  function EmitStep(op: Op, c: byte, need: bool, depth: int, f: Layout): Emitted {
    if op == SkipSpace then Emitted([], need, depth)
    else if need && !Closes(op) then
      var e := EmitByte(op, c, false, depth + 1, f);
      e.(out := Newline(f, depth + 1) + e.out)
    else EmitByte(op, c, need, depth, f)
  }

  function Laid(q: seq<Op>, s: bytes, need: bool, depth: int, f: Layout): bytes
    decreases s
  {
    if s == [] || q == [] || q[0] == Failed then []
    else
      var e := EmitStep(q[0], s[0], need, depth, f);
      e.out + Laid(q[1..], s[1..], e.need, e.depth, f)
  }

  lemma LaidStep(op: Op, q: seq<Op>, c: byte, s: bytes, need: bool, depth: int, f: Layout)
    requires op != Failed
    ensures var e := EmitStep(op, c, need, depth, f);
            Laid([op] + q, [c] + s, need, depth, f) == e.out + Laid(q, s, e.need, e.depth, f)
  {
    Behead(c, s);
    assert ([op] + q)[1..] == q;
  }

  lemma {:induction false} LaidSpaces(w: bytes, q: seq<Op>, s: bytes, need: bool, depth: int, f: Layout)
    ensures Laid(Repeat(SkipSpace, |w|) + q, w + s, need, depth, f) == Laid(q, s, need, depth, f)
    decreases w
  {
    hide Laid;
    if w == [] {
      assert w + s == s;
      assert Repeat(SkipSpace, 0) + q == q;
    } else {
      var r := Repeat(SkipSpace, |w| - 1) + q;
      assert Repeat(SkipSpace, |w|) + q == [SkipSpace] + r;
      assert w + s == [w[0]] + (w[1..] + s);
      LaidStep(SkipSpace, r, w[0], w[1..] + s, need, depth, f);
      LaidSpaces(w[1..], q, s, need, depth, f);
      var z := Laid(q, s, need, depth, f);
      assert [] + z == z;
    }
  }

  /** Bytes that are simply copied: inside a literal, or white space after the value. */
  lemma {:induction false} LaidCopy(op: Op, x: bytes, q: seq<Op>, s: bytes, depth: int, f: Layout)
    requires op == Continue || (op == End && AllSpace(x))
    ensures Laid(Repeat(op, |x|) + q, x + s, false, depth, f) == x + Laid(q, s, false, depth, f)
    decreases x
  {
    hide Laid;
    var z := Laid(q, s, false, depth, f);
    if x == [] {
      assert x + s == s;
      assert Repeat(op, 0) + q == q;
      assert [] + z == z;
    } else {
      var r := Repeat(op, |x| - 1) + q;
      assert Repeat(op, |x|) + q == [op] + r;
      HeadTail(x);
      Assoc([x[0]], x[1..], s);
      LaidStep(op, r, x[0], x[1..] + s, false, depth, f);
      LaidCopy(op, x[1..], q, s, depth, f);
      Assoc([x[0]], x[1..], z);
    }
  }

  lemma LaidLiteral(x: bytes, q: seq<Op>, s: bytes, depth: int, f: Layout)
    requires IsLiteral(x)
    ensures x != []
    ensures Laid(SignalLiteral(|x|, q), x + s, false, depth, f) == x + Laid(q, s, false, depth, f)
  {
    hide Laid, IsLiteral;
    LiteralHead(x);
    var y := x[1..];
    HeadTail(x);
    Assoc([x[0]], y, s);
    LaidStep(BeginLiteral, Repeat(Continue, |y|) + q, x[0], y + s, false, depth, f);
    LaidCopy(Continue, y, q, s, depth, f);
    Assoc([x[0]], y, Laid(q, s, false, depth, f));
  }

  lemma LaidKey(obj: bool, k: Key, q: seq<Op>, s: bytes, depth: int, f: Layout)
    requires KeyOk(obj, k)
    ensures Laid(SignalKey(k, q), SpellKey(k, s), false, depth, f)
            == SpellKey(PrettyKey(k), Laid(q, s, false, depth, f))
  {
    hide Laid;
    if k.Key? {
      var z := Laid(q, s, false, depth, f);
      var u, x := Repeat(SkipSpace, |k.after|) + q, k.after + s;
      LaidSpaces(k.after, q, s, false, depth, f);
      LaidStep(ObjectKey, u, COLON, x, false, depth, f);
      LaidSpaces(k.before, [ObjectKey] + u, [COLON] + x, false, depth, f);
      LaidLiteral(k.text, Repeat(SkipSpace, |k.before|) + ([ObjectKey] + u), k.before + ([COLON] + x), depth, f);
      var y := [COLON] + ([SPACE] + z);
      assert [COLON, SPACE] + z == y && [] + y == y;
    }
  }

  /** A pending indent is written before the first item. */
  lemma LaidNeed(w: bytes, q: seq<Op>, s: bytes, depth: int, f: Layout)
    requires q != [] && s != [] && q[0] != Failed && q[0] != SkipSpace && !Closes(q[0])
    ensures Laid(Repeat(SkipSpace, |w|) + q, w + s, true, depth - 1, f)
            == Newline(f, depth) + Laid(q, s, false, depth, f)
  {
    LaidSpaces(w, q, s, true, depth - 1, f);
    var e := EmitByte(q[0], s[0], false, depth, f);
    Assoc(Newline(f, depth), e.out, Laid(q[1..], s[1..], e.need, e.depth, f));
  }

  lemma HeadSignal(obj: bool, k: Key, t: Tree, q: seq<Op>, s: bytes)
    requires KeyOk(obj, k) && TreeOk(t)
    ensures var a, x := SignalKey(k, Signals(t, q)), SpellKey(k, Spell(t, s));
            a != [] && x != [] && a[0] in {BeginLiteral, BeginObject, BeginArray}
  {
    if t.Leaf? { LiteralHead(t.text); }
  }

  lemma {:induction false} LaidTree(t: Tree, q: seq<Op>, s: bytes, depth: int, f: Layout)
    requires TreeOk(t)
    ensures Laid(Signals(t, q), Spell(t, s), false, depth, f) == Spell(Pretty(t, depth, f), Laid(q, s, false, depth, f))
    decreases t, 0
  {
    hide Laid;
    match t
    case Leaf(text) =>
      LaidLiteral(text, q, s, depth, f);
    case Node(obj, gap, items) =>
      var u, x := [Finish(obj)] + q, [Close(obj)] + s;
      var v, w := Repeat(SkipSpace, |gap|) + SignalItems(obj, items, u), gap + SpellItems(items, x);
      LaidStep(Begin(obj), v, Open(obj), w, false, depth, f);
      LaidBody(obj, gap, items, q, s, depth, f);
  }

  /** Everything between the brackets of a container, and the closing bracket. */
  lemma {:induction false} LaidBody(obj: bool, gap: bytes, items: Items, q: seq<Op>, s: bytes, depth: int, f: Layout)
    requires TreeOk(Node(obj, gap, items))
    ensures Laid(Repeat(SkipSpace, |gap|) + SignalItems(obj, items, [Finish(obj)] + q),
                  gap + SpellItems(items, [Close(obj)] + s), true, depth, f)
         == [] + SpellItems(PrettyItems(items, depth + 1, f), [Close(obj)] + Laid(q, s, false, depth, f))
    decreases items, 2
  {
    hide Laid;
    var u, x := [Finish(obj)] + q, [Close(obj)] + s;
    if items.Nil? {
      LaidSpaces(gap, u, x, true, depth, f);
      LaidStep(Finish(obj), q, Close(obj), s, true, depth, f);
    } else {
      var b := Repeat(SkipSpace, |items.post|) + SignalTail(obj, items.rest, u);
      var a := SignalKey(items.key, Signals(items.value, b));
      var y := SpellKey(items.key, Spell(items.value, items.post + SpellTail(items.rest, x)));
      HeadSignal(obj, items.key, items.value, Repeat(SkipSpace, |items.post|) + SignalTail(obj, items.rest, u),
                 items.post + SpellTail(items.rest, x));
      LaidNeed(items.pre, a, y, depth + 1, f);
      LaidItem(obj, items, q, s, depth + 1, f);
      var r, z := SignalItems(obj, items, u), SpellItems(items, x);
      assert Repeat(SkipSpace, 0) + r == r && [] + z == z;
    }
    var v := SpellItems(PrettyItems(items, depth + 1, f), [Close(obj)] + Laid(q, s, false, depth, f));
    assert [] + v == v;
  }

  /** One item and all that follow it in the container. */
  lemma {:induction false} LaidItem(obj: bool, xs: Items, q: seq<Op>, s: bytes, depth: int, f: Layout)
    requires ItemsOk(obj, xs) && xs.Cons?
    ensures var u, x := [Finish(obj)] + q, [Close(obj)] + s;
            Newline(f, depth) +
            Laid(SignalKey(xs.key, Signals(xs.value, Repeat(SkipSpace, |xs.post|) + SignalTail(obj, xs.rest, u))),
                  SpellKey(xs.key, Spell(xs.value, xs.post + SpellTail(xs.rest, x))), false, depth, f)
            == SpellItems(PrettyItems(xs, depth, f), [Close(obj)] + Laid(q, s, false, depth - 1, f))
    decreases xs, 0
  {
    hide Laid, SignalKey, SpellKey, PrettyKey, Newline;
    var u, x := [Finish(obj)] + q, [Close(obj)] + s;
    var a, y := Repeat(SkipSpace, |xs.post|) + SignalTail(obj, xs.rest, u), xs.post + SpellTail(xs.rest, x);
    LaidKey(obj, xs.key, Signals(xs.value, a), Spell(xs.value, y), depth, f);
    LaidTree(xs.value, a, y, depth, f);
    LaidSpaces(xs.post, SignalTail(obj, xs.rest, u), SpellTail(xs.rest, x), false, depth, f);
    LaidTail(obj, xs.rest, q, s, depth, f);
  }

  lemma {:induction false} LaidTail(obj: bool, rest: Items, q: seq<Op>, s: bytes, depth: int, f: Layout)
    requires ItemsOk(obj, rest)
    ensures Laid(SignalTail(obj, rest, [Finish(obj)] + q), SpellTail(rest, [Close(obj)] + s), false, depth, f)
         == (if rest.Nil? then Newline(f, depth - 1) else []) +
            SpellTail(PrettyItems(rest, depth, f), [Close(obj)] + Laid(q, s, false, depth - 1, f))
    decreases rest, 1
  {
    hide Laid, Newline;
    if rest.Nil? {
      LaidStep(Finish(obj), q, Close(obj), s, false, depth, f);
      Assoc(Newline(f, depth - 1), [Close(obj)], Laid(q, s, false, depth - 1, f));
    } else {
      var u, x := [Finish(obj)] + q, [Close(obj)] + s;
      var a := SignalKey(rest.key, Signals(rest.value, Repeat(SkipSpace, |rest.post|) + SignalTail(obj, rest.rest, u)));
      var y := SpellKey(rest.key, Spell(rest.value, rest.post + SpellTail(rest.rest, x)));
      LaidStep(Between(obj), SignalItems(obj, rest, u), COMMA, SpellItems(rest, x), false, depth, f);
      LaidSpaces(rest.pre, a, y, false, depth, f);
      LaidItem(obj, rest, q, s, depth, f);
      Assoc([COMMA], Newline(f, depth), Laid(a, y, false, depth, f));
      var z := SpellTail(PrettyItems(rest, depth, f), [Close(obj)] + Laid(q, s, false, depth - 1, f));
      assert [] + z == z;
    }
  }

  /** On a JSON text the loop emits exactly the laid-out text. */
  lemma LaidDoc(s: bytes, f: Layout)
    requires Parse(s).Some?
    ensures Laid(Ops(START, s), s, false, 0, f) == IndentText(s, f)
  {
    hide Laid;
    var d := Parse(s).value;
    ParseSound(s);
    SignalsExactly(s);
    var q := Repeat(End, |d.post|);
    LaidCopy(End, d.post, [], [], 0, f);
    LaidNothing(f);
    assert q + [] == q && d.post + [] == d.post;
    LaidTree(d.tree, q, d.post, 0, f);
    LaidSpaces(d.pre, Signals(d.tree, q), Spell(d.tree, d.post), false, 0, f);
  }

  lemma LaidNothing(f: Layout)
    ensures Laid([], [], false, 0, f) == []
  {}

  // White-space layouts.

  ghost predicate Blank(f: Layout) {
    AllSpace(f.prefix) && AllSpace(f.indent)
  }

  lemma {:induction false} CopiesBlank(s: bytes, n: int)
    requires AllSpace(s)
    ensures AllSpace(Copies(s, n))
    decreases n
  {
    if n > 0 { CopiesBlank(s, n - 1); }
  }

  lemma NewlineBlank(f: Layout, depth: int)
    requires Blank(f)
    ensures AllSpace(Newline(f, depth))
  {
    CopiesBlank(f.indent, depth);
  }

  /** Laying out a tree only moves white space. */
  lemma {:induction false} PrettyTree(t: Tree, depth: int, f: Layout, html: bool)
    requires TreeOk(t) && Blank(f)
    ensures TreeOk(Pretty(t, depth, f)) && Tight(Pretty(t, depth, f), html) == Tight(t, html)
    decreases t, 0
  {
    if t.Node? { PrettyList(t.obj, t.items, depth + 1, f, html); }
  }

  lemma {:induction false} PrettyList(obj: bool, xs: Items, depth: int, f: Layout, html: bool)
    requires ItemsOk(obj, xs) && Blank(f)
    ensures ItemsOk(obj, PrettyItems(xs, depth, f))
    ensures TightItems(PrettyItems(xs, depth, f), html) == TightItems(xs, html)
    decreases xs, 0
  {
    if xs.Cons? {
      NewlineBlank(f, depth);
      NewlineBlank(f, depth - 1);
      PrettyTree(xs.value, depth, f, html);
      PrettyList(obj, xs.rest, depth, f, html);
    }
  }

  /** Compacting an indented text gives what compacting the text itself gives; the value is the same. */
  lemma CompactOfIndent(s: bytes, f: Layout, html: bool)
    requires Parse(s).Some? && Blank(f)
    ensures var x := IndentText(s, f);
            && Parse(x).Some?
            && CompactText(x, html) == CompactText(s, html)
            && Meaning(Parse(x).value.tree) == Meaning(Parse(s).value.tree)
  {
    ParseSound(s);
    var d := Parse(s).value;
    PrettyTree(d.tree, 0, f, html);
    var e := Doc([], Pretty(d.tree, 0, f), d.post);
    ParseComplete(e);
    var x := IndentText(s, f);
    assert [] + x == x;
    TreeTight(d.tree, html);
    TreeTight(e.tree, html);
  }

  // The depth is the scanner's stack height.

  /** How an answer changes the stack, and which punctuation it is given for. */
  ghost predicate Counted(s: Core, c: byte, o: Out) {
    var h, h' := |s.stack|, |o.core.stack|;
    && (o.op == BeginObject || o.op == BeginArray ==> h' == h + 1 && (c == LBRACE || c == LBRACKET))
    && (Closes(o.op) ==> h' + 1 == h && (c == RBRACE || c == RBRACKET))
    && (o.op == ObjectKey ==> h' == h && c == COLON)
    && (o.op == ObjectValue || o.op == ArrayValue ==> h' == h && c == COMMA)
    && (o.op == SkipSpace || o.op == Continue ==> h' == h)
    && (o.op == BeginLiteral ==> h' == h && c !in {LBRACE, LBRACKET, RBRACE, RBRACKET, COLON, COMMA})
    && (o.op == End && !o.core.failed ==> h' == h && IsSpace(c))
  }

  lemma EndValueCounted(s: Core, c: byte)
    requires !s.endTop
    ensures Counted(s, c, AtEndValue(s, c))
  {}

  lemma BeginCounted(s: Core, c: byte)
    requires Safe(s)
    requires s.step.BeginValueOrEmpty? || s.step.BeginValue? || s.step.BeginStringOrEmpty? || s.step.BeginString?
    ensures Counted(s, c, Next(s, c))
  {
    hide AtEndValue;
    EndValueCounted(s, c);
    if s.step.BeginStringOrEmpty? { EndValueCounted(SetTop(s, InValue), c); }
  }

  lemma InNumberCounted(s: Core, c: byte)
    requires Safe(s) && InNumberStep(s.step)
    ensures Counted(s, c, Next(s, c))
  {
    hide AtEndValue;
    EndValueCounted(s, c);
  }

  lemma InStringCounted(s: Core, c: byte)
    requires Safe(s) && InStringStep(s.step)
    ensures Counted(s, c, Next(s, c))
  {}

  lemma NextCounted(s: Core, c: byte)
    requires Safe(s)
    ensures Counted(s, c, Next(s, c))
  {
    hide Counted;
    if s.step.BeginValueOrEmpty? || s.step.BeginValue? || s.step.BeginStringOrEmpty? || s.step.BeginString? {
      BeginCounted(s, c);
    } else if InStringStep(s.step) {
      InStringCounted(s, c);
    } else if InNumberStep(s.step) {
      InNumberCounted(s, c);
    } else {
      OtherCounted(s, c);
    }
  }

  lemma OtherCounted(s: Core, c: byte)
    requires Safe(s) && !InStringStep(s.step) && !InNumberStep(s.step)
    requires !(s.step.BeginValueOrEmpty? || s.step.BeginValue? || s.step.BeginStringOrEmpty? || s.step.BeginString?)
    ensures Counted(s, c, Next(s, c))
  {
    if s.step.EndValue? { EndValueCounted(s, c); }
  }

  /** The depth, plus one while an indent is pending, is the height of the scanner's stack. */
  ghost predicate AtHeight(s: Core, need: bool, depth: int) {
    !s.failed ==> depth + (if need then 1 else 0) == |s.stack|
  }

  lemma HeightKept(s: Core, c: byte, need: bool, depth: int, f: Layout)
    requires Safe(s) && AtHeight(s, need, depth)
    ensures var o := Next(s, c);
            var e := EmitStep(o.op, c, need, depth, f);
            o.op != Failed ==> AtHeight(o.core, e.need, e.depth)
  {
    hide Next;
    NextCounted(s, c);
    NextKept(s, c);
    var o := Next(s, c);
    if s.failed { assert o.core.failed; }
  }

  /** Whether an indent is pending, and the depth, after the loop has read `i` bytes. */
  function CountersAt(src: bytes, i: nat, f: Layout): (bool, int)
    requires i <= |src|
    decreases i
  {
    if i == 0 then (false, 0)
    else
      var (need, depth) := CountersAt(src, i - 1, f);
      var op := Ops(START, src)[i - 1];
      if op == Failed then (need, depth)
      else var e := EmitStep(op, src[i - 1], need, depth, f); (e.need, e.depth)
  }

  /** On every input, and after every prefix of it that has not failed, the counters add up to the stack height. */
  lemma {:induction false} HeightAlways(src: bytes, i: nat, f: Layout)
    requires i <= |src|
    ensures var (need, depth) := CountersAt(src, i, f);
            var s := Feed(START, src[..i]);
            !s.failed ==> depth + (if need then 1 else 0) == |s.stack|
    decreases i
  {
    hide Feed, Ops, Next, EmitStep;
    if i == 0 {
      assert src[..0] == [];
      FeedNothing(START);
    } else {
      HeightAlways(src, i - 1, f);
      var (need, depth) := CountersAt(src, i - 1, f);
      FeedSnoc(START, src, i - 1);
      NextKept(Feed(START, src[..i - 1]), src[i - 1]);
      HeightKept(Feed(START, src[..i - 1]), src[i - 1], need, depth, f);
    }
  }

  // The method.

  method WriteNewline(dst: Buffer, f: Layout, depth: int)
    modifies dst
    ensures dst.data == old(dst.data) + Newline(f, depth)
  {
    dst.Write([LF]);
    dst.Write(f.prefix);
    ghost var start := dst.data;
    var i := 0;
    assert Copies(f.indent, 0) == [] && start + [] == start;
    while i < depth
      invariant 0 <= i && (i <= depth || i == 0)
      invariant dst.data == start + Copies(f.indent, i)
    {
      CopiesSnoc(f.indent, i);
      Assoc(start, Copies(f.indent, i), f.indent);
      dst.Write(f.indent);
      i := i + 1;
    }
    assert Copies(f.indent, i) == Copies(f.indent, depth);
    assert start == old(dst.data) + ([LF] + f.prefix);
    Assoc(old(dst.data), [LF] + f.prefix, Copies(f.indent, depth));
    Assoc([LF], f.prefix, Copies(f.indent, depth));
  }

  lemma {:induction false} CopiesSnoc(s: bytes, n: nat)
    ensures Copies(s, n + 1) == Copies(s, n) + s
  {
    if n == 0 {
      assert s + [] == s && [] + s == s;
    } else {
      CopiesSnoc(s, n - 1);
      Assoc(s, Copies(s, n - 1), s);
    }
  }

  /** A byte that is not white space: spacing around real punctuation, everything else as it is. */
  method WriteByte(dst: Buffer, op: Op, c: byte, need: bool, depth: int, f: Layout) returns (need': bool, depth': int)
    modifies dst
    ensures var e := EmitByte(op, c, need, depth, f);
            dst.data == old(dst.data) + e.out && need' == e.need && depth' == e.depth
  {
    hide Newline;
    need', depth' := need, depth;
    if op == Continue {
      dst.Write([c]);
    } else if c == LBRACE || c == LBRACKET {
      need' := true;
      dst.Write([c]);
    } else if c == COMMA {
      dst.Write([c]);
      WriteNewline(dst, f, depth');
      Assoc(old(dst.data), [c], Newline(f, depth'));
    } else if c == COLON {
      dst.Write([c]);
      dst.Write([SPACE]);
      Assoc(old(dst.data), [c], [SPACE]);
    } else if c == RBRACE || c == RBRACKET {
      if need' {
        need' := false;
        dst.Write([c]);
      } else {
        depth' := depth' - 1;
        WriteNewline(dst, f, depth');
        dst.Write([c]);
        Assoc(old(dst.data), Newline(f, depth'), [c]);
      }
    } else {
      dst.Write([c]);
    }
  }

  /** One byte of the loop: a pending indent is written before anything but a closing bracket. */
  method IndentByte(dst: Buffer, op: Op, c: byte, need: bool, depth: int, f: Layout) returns (need': bool, depth': int)
    modifies dst
    ensures var e := EmitStep(op, c, need, depth, f);
            dst.data == old(dst.data) + e.out && need' == e.need && depth' == e.depth
  {
    hide Newline, EmitByte;
    need', depth' := need, depth;
    if op == SkipSpace {
      return;
    }
    if need && op != EndObject && op != EndArray {
      need' := false;
      depth' := depth + 1;
      WriteNewline(dst, f, depth');
      Assoc(old(dst.data), Newline(f, depth'), EmitByte(op, c, false, depth', f).out);
    }
    need', depth' := WriteByte(dst, op, c, need', depth', f);
  }

  /** Appends to `dst` the laid-out form of `src`; for anything but a JSON text, fails and leaves `dst` as it was. */
  method IndentInto(dst: Buffer, src: bytes, f: Layout) returns (ok: bool)
    modifies dst
    ensures ok <==> IsJson(src)
    ensures ok ==> Parse(src).Some? && dst.data == old(dst.data) + IndentText(src, f)
    ensures !ok ==> dst.data == old(dst.data)
  {
    hide Laid, Feed, Ops, Next, EmitStep, IndentText, Parse, IsJson;
    var origLen := |dst.data|;
    ghost var orig, done: bytes := dst.data, [];
    var scan := new Scanner();
    var need, depth := false, 0;
    var i := 0;
    ghost var all := Laid(Ops(START, src), src, false, 0, f);
    FeedNothing(START);
    assert src[..0] == [] && src[0..] == src && Ops(START, src)[0..] == Ops(START, src) && [] + all == all;
    while i < |src|
      invariant scan.Valid() && !scan.redo && fresh(scan)
      invariant i <= |src| && scan.State() == Feed(START, src[..i])
      invariant dst.data == orig + done
      invariant done + Laid(Ops(START, src)[i..], src[i..], need, depth, f) == all
      invariant (need, depth) == CountersAt(src, i, f)
    {
      var op := scan.Step(src[i]);
      FeedSnoc(START, src, i);
      if op == Failed {
        FailedBy(src, i);
        break;
      }
      LaidNext(src, i, need, depth, f, done);
      ghost var out := EmitStep(op, src[i], need, depth, f).out;
      need, depth := IndentByte(dst, op, src[i], need, depth, f);
      Assoc(orig, done, out);
      done := done + out;
      i := i + 1;
    }
    AcceptsExactly(src);
    IsJsonParses(src);
    if i == |src| { assert src[..i] == src; }
    var op := scan.Eof();
    if op == Failed {
      dst.Truncate(origLen);
      return false;
    }
    LaidDoc(src, f);
    LaidEnd(src, need, depth, f);
    assert done + [] == done;
    return true;
  }

  lemma LaidNext(src: bytes, i: nat, need: bool, depth: int, f: Layout, done: bytes)
    requires i < |src| && Ops(START, src)[i] != Failed
    ensures var e := EmitStep(Ops(START, src)[i], src[i], need, depth, f);
            done + Laid(Ops(START, src)[i..], src[i..], need, depth, f)
            == (done + e.out) + Laid(Ops(START, src)[i + 1..], src[i + 1..], e.need, e.depth, f)
  {
    hide Ops, EmitStep;
    var q, s := Ops(START, src)[i..], src[i..];
    assert q[1..] == Ops(START, src)[i + 1..] && s[1..] == src[i + 1..];
    var e := EmitStep(q[0], s[0], need, depth, f);
    Assoc(done, e.out, Laid(q[1..], s[1..], e.need, e.depth, f));
  }

  lemma LaidEnd(src: bytes, need: bool, depth: int, f: Layout)
    ensures Laid(Ops(START, src)[|src|..], src[|src|..], need, depth, f) == []
  {}
}

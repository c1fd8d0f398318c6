/**
 The scanner and the grammar agree: on the text of a document the scanner reports exactly the signals
 the tree prescribes, and on any other text it never completes a value.
 */
module ScanGrammar {
  import opened Bytes
  import opened Grammar
  import opened Parser
  import opened ScanCore
  import opened ScanLiteral

  // The signals of a phrase, followed by the given signals.

  function Begin(obj: bool): Op { if obj then BeginObject else BeginArray }

  function Finish(obj: bool): Op { if obj then EndObject else EndArray }

  function Between(obj: bool): Op { if obj then ObjectValue else ArrayValue }

  function SignalLiteral(n: nat, q: seq<Op>): seq<Op>
    requires n > 0
  {
    [BeginLiteral] + (Repeat(Continue, n - 1) + q)
  }

  function SignalKey(k: Key, q: seq<Op>): seq<Op> {
    match k
    case NoKey => q
    case Key(text, before, after) =>
      if text == [] then q
      else SignalLiteral(|text|, Repeat(SkipSpace, |before|) + ([ObjectKey] + (Repeat(SkipSpace, |after|) + q)))
  }

  function Signals(t: Tree, q: seq<Op>): seq<Op>
    decreases t, 0
  {
    match t
    case Leaf(text) => if text == [] then q else SignalLiteral(|text|, q)
    case Node(obj, gap, items) => [Begin(obj)] + (Repeat(SkipSpace, |gap|) + SignalItems(obj, items, [Finish(obj)] + q))
  }

  function SignalItems(obj: bool, xs: Items, q: seq<Op>): seq<Op>
    decreases xs, 0
  {
    match xs
    case Nil => q
    case Cons(pre, key, value, post, rest) =>
      Repeat(SkipSpace, |pre|) +
      SignalKey(key, Signals(value, Repeat(SkipSpace, |post|) + SignalTail(obj, rest, q)))
  }

  function SignalTail(obj: bool, rest: Items, q: seq<Op>): seq<Op>
    decreases rest, 1
  {
    if rest.Nil? then q else [Between(obj)] + SignalItems(obj, rest, q)
  }

  function DocSignals(d: Doc): seq<Op> {
    Repeat(SkipSpace, |d.pre|) + Signals(d.tree, Repeat(End, |d.post|))
  }

  // White space.

  predicate Skips(c: Core) {
    && Safe(c) && !c.endTop
    && (c.step.BeginValue? || c.step.BeginValueOrEmpty? || c.step.BeginString? || c.step.BeginStringOrEmpty?
        || (c.step.EndValue? && c.stack != []))
  }

  lemma {:induction false} ScanSpaces(c: Core, s: bytes)
    requires Skips(c)
    ensures Leads(c, s, Repeat(SkipSpace, Spaces(s)), c, s[Spaces(s)..])
    decreases s
  {
    if s == [] || !IsSpace(s[0]) {
      assert s[0..] == s;
      assert Repeat(SkipSpace, 0) == [];
    } else {
      TakeOne(c, s);
      ScanSpaces(c, s[1..]);
      var n := Spaces(s[1..]);
      Chain(c, s, [SkipSpace], c, s[1..], Repeat(SkipSpace, n), c, s[1..][n..]);
      assert [SkipSpace] + Repeat(SkipSpace, n) == Repeat(SkipSpace, n + 1);
      assert s[1..][n..] == s[n + 1..];
    }
  }

  // Literals.

  lemma FirstByte(c: Core, s: bytes, c': Core, n: nat)
    requires Safe(c) && s != [] && Next(c, s[0]) == Out(c', BeginLiteral) && Safe(c.Go(EndValue))
    ensures Rests(c', s[1..], n, c.Go(EndValue)) ==>
              Settles(c, s, [BeginLiteral] + Repeat(Continue, n), c.Go(EndValue), s[n + 1..])
    ensures Runs(c', s[1..], n, c.Go(EndValue)) ==>
              Settles(c, s, [BeginLiteral] + Repeat(Continue, n), c.Go(EndValue), s[n + 1..])
    ensures Safe(c') && (Dead(c, s) <==> Dead(c', s[1..]))
  {
    TakeOne(c, s);
    if n <= |s[1..]| {
      assert s[1..][n..] == s[n + 1..];
      Chain(c, s, [BeginLiteral], c', s[1..], Repeat(Continue, n), c.Go(EndValue), s[n + 1..]);
    }
  }

  /** The state can begin this literal: any value, or a string where a key is due. */
  predicate CanBegin(c: Core, s: bytes) {
    && Safe(c) && !c.endTop && s != []
    && (c.step.BeginValue? || c.step.BeginValueOrEmpty?
        || (s[0] == QUOTE && (c.step.BeginString? || c.step.BeginStringOrEmpty?)))
  }

  ghost predicate ReadsLiteral(c: Core, s: bytes) {
    && Safe(c) && Safe(c.Go(EndValue))
    && (match LiteralLen(s)
        case Some(n) => Settles(c, s, [BeginLiteral] + Repeat(Continue, n - 1), c.Go(EndValue), s[n..])
        case None => Dead(c, s))
  }

  lemma ScanStringLiteral(c: Core, s: bytes)
    requires CanBegin(c, s) && s[0] == QUOTE
    ensures ReadsLiteral(c, s)
  {
    hide Runs, Rests, Dead, Settles;
    var c' := c.Go(InString);
    ScanChars(c', s[1..]);
    var n := CharsLen(s[1..]);
    FirstByte(c, s, c', if n.Some? then n.value + 1 else 0);
  }

  lemma ScanUnsigned(c: Core, s: bytes)
    requires Safe(c) && !c.endTop && c.step.Neg?
    ensures UnsignedLen(s).Some? ==> Rests(c, s, UnsignedLen(s).value, c.Go(EndValue))
    ensures UnsignedLen(s).None? ==> Dead(c, s)
  {
    hide Runs, Rests, Dead;
    if s == [] {
      EmptyDead(c);
    } else if IsDigit(s[0]) {
      var c' := c.Go(if s[0] == ZERO then Int0 else Int1);
      RunOne(c, s, c');
      HeadTail(s);
      ScanAfterDigit(c', s[1..], s[0]);
      var n := UnsignedLen(s);
      Join(c, s, 1, c', if n.Some? then n.value - 1 else 0, c.Go(EndValue));
    } else {
      ErrorDead(c, s);
    }
  }

  lemma ScanNumberLiteral(c: Core, s: bytes)
    requires CanBegin(c, s) && (s[0] == MINUS || IsDigit(s[0]))
    ensures ReadsLiteral(c, s)
  {
    hide Runs, Rests, Dead, Settles, IntLen, FracExpLen;
    if s[0] == MINUS {
      var c' := c.Go(Neg);
      ScanUnsigned(c', s[1..]);
      var n := UnsignedLen(s[1..]);
      FirstByte(c, s, c', if n.Some? then n.value else 0);
    } else {
      var c' := c.Go(if s[0] == ZERO then Int0 else Int1);
      HeadTail(s);
      ScanAfterDigit(c', s[1..], s[0]);
      var n := UnsignedLen(s);
      FirstByte(c, s, c', if n.Some? then n.value - 1 else 0);
    }
  }

  lemma ScanNameLiteral(c: Core, s: bytes)
    requires CanBegin(c, s) && s[0] in {0x74, 0x66, 0x6E}
    ensures ReadsLiteral(c, s)
  {
    hide Runs, Rests, Dead, Settles;
    var c' := c.Go(if s[0] == 0x74 then T else if s[0] == 0x66 then F else N);
    var w := NameLeft(c'.step);
    ScanName(c', s[1..], w);
    FirstByte(c, s, c', |w|);
    NameIs(s, w);
  }

  lemma NameIs(s: bytes, w: bytes)
    requires s != [] && s[0] in {0x74, 0x66, 0x6E}
    requires w == NameLeft(if s[0] == 0x74 then T else if s[0] == 0x66 then F else N)
    ensures LiteralLen(s) == if Begins(s[1..], w) then Some(|w| + 1) else None
  {
    hide Begins, NumberLen, CharsLen;
    NameHead(s, TRUE);
    NameHead(s, FALSE);
    NameHead(s, NULL);
    assert TRUE[1..] == NameLeft(T);
    assert FALSE[1..] == NameLeft(F);
    assert NULL[1..] == NameLeft(N);
  }

  lemma NameHead(s: bytes, w: bytes)
    requires s != [] && w != []
    ensures Begins(s, w) <==> s[0] == w[0] && Begins(s[1..], w[1..])
  {}

  lemma ScanLiteralAt(c: Core, s: bytes)
    requires CanBegin(c, s) && !IsSpace(s[0]) && s[0] != LBRACE && s[0] != LBRACKET
    requires c.step.BeginValueOrEmpty? ==> s[0] != RBRACKET
    ensures ReadsLiteral(c, s)
  {
    hide Runs, Rests, Dead, Settles;
    if s[0] == QUOTE {
      ScanStringLiteral(c, s);
    } else if s[0] == MINUS || IsDigit(s[0]) {
      ScanNumberLiteral(c, s);
    } else if s[0] in {0x74, 0x66, 0x6E} {
      ScanNameLiteral(c, s);
    } else {
      ErrorDead(c, s);
    }
  }

  // Values.

  /** `a` is where `b` is, at least once the next byte (or the end of input) has been seen. */
  ghost predicate Agree(a: Core, b: Core, r: bytes) {
    Safe(a) && Safe(b) && Next(a, SPACE) == Next(b, SPACE) && (r != [] ==> a == b)
  }

  /** Where a value may begin inside `s`. */
  predicate AtValue(c: Core, s: bytes) {
    && Safe(c) && !c.endTop && (s != [] ==> !IsSpace(s[0]))
    && (c.step.BeginValue? || (c.step.BeginValueOrEmpty? && (s != [] ==> s[0] != RBRACKET)))
  }

  ghost predicate ReadsValue(c: Core, s: bytes) {
    && Safe(c) && Safe(c.Go(EndValue))
    && (match Value(s)
        case Some((t, r)) =>
          && Ops(c, s) == Signals(t, Ops(c.Go(EndValue), r))
          && Agree(Feed(c, s), Feed(c.Go(EndValue), r), r)
        case None => Dead(c, s))
  }

  function Step0(obj: bool): Step { if obj then BeginStringOrEmpty else BeginValueOrEmpty }

  function Step1(obj: bool): Step { if obj then BeginString else BeginValue }

  function Inside(obj: bool): ParseState { if obj then InKey else InArray }

  /** Where the items of a container may begin inside `s`: at once, or after a comma. */
  predicate AtItems(obj: bool, c: Core, s: bytes) {
    && Safe(c) && !c.endTop && c.stack != [] && c.stack[|c.stack| - 1] == Inside(obj)
    && (|| c.step == Step1(obj)
        || (c.step == Step0(obj) && (Spaces(s) < |s| ==> s[Spaces(s)] != Close(obj))))
  }

  ghost predicate ReadsItems(obj: bool, c: Core, s: bytes) {
    && Safe(c) && c.stack != [] && Safe(Pop(c))
    && (match ItemsOf(obj, s)
        case Some((xs, r)) =>
          && Ops(c, s) == SignalItems(obj, xs, [Finish(obj)] + Ops(Pop(c), r))
          && Feed(c, s) == Feed(Pop(c), r)
        case None => Dead(c, s))
  }

  /** After a value inside a container, past any white space. */
  predicate AtTail(obj: bool, c: Core, s: bytes) {
    && Safe(c) && !c.endTop && c.step.EndValue? && c.stack != []
    && c.stack[|c.stack| - 1] == (if obj then InValue else InArray)
    && (s != [] ==> !IsSpace(s[0]))
  }

  ghost predicate ReadsTail(obj: bool, c: Core, s: bytes) {
    && Safe(c) && c.stack != [] && Safe(Pop(c))
    && (match TailOf(obj, s)
        case Some((xs, r)) =>
          && Ops(c, s) == SignalTail(obj, xs, [Finish(obj)] + Ops(Pop(c), r))
          && Feed(c, s) == Feed(Pop(c), r)
        case None => Dead(c, s))
  }

  /** The state after a member's name and colon; unchanged for array elements. */
  function PastKey(obj: bool, c: Core): Core
    requires c.stack != []
  {
    if obj then SetTop(c.Go(BeginValue), InValue) else c
  }

  ghost predicate ReadsKey(obj: bool, c: Core, s: bytes) {
    && Safe(c) && c.stack != [] && Safe(PastKey(obj, c))
    && (match KeyOf(obj, s)
        case Some((k, r)) =>
          Ops(c, s) == SignalKey(k, Ops(PastKey(obj, c), r)) && Feed(c, s) == Feed(PastKey(obj, c), r)
        case None => Dead(c, s))
  }

  lemma DeadAgree(c: Core, s: bytes, c': Core, r: bytes)
    requires Safe(c) && Safe(c') && Agree(Feed(c, s), Feed(c', r), r)
    ensures Dead(c, s) <==> Dead(c', r)
  {}

  lemma DeadFeed(c: Core, s: bytes, c': Core, r: bytes)
    requires Safe(c) && Safe(c') && Feed(c, s) == Feed(c', r)
    ensures Dead(c, s) <==> Dead(c', r)
  {}

  lemma LiteralSettled(c: Core, s: bytes, n: nat)
    requires Safe(c) && Safe(c.Go(EndValue)) && 0 < n <= |s|
    requires Settles(c, s, [BeginLiteral] + Repeat(Continue, n - 1), c.Go(EndValue), s[n..])
    ensures Ops(c, s) == SignalLiteral(n, Ops(c.Go(EndValue), s[n..]))
    ensures Agree(Feed(c, s), Feed(c.Go(EndValue), s[n..]), s[n..])
  {
    hide Feed, Ops, Next, SignalLiteral, Safe;
    LiteralGroup(n, Ops(c.Go(EndValue), s[n..]));
  }

  lemma LiteralGroup(n: nat, q: seq<Op>)
    requires n > 0
    ensures [BeginLiteral] + Repeat(Continue, n - 1) + q == SignalLiteral(n, q)
  {
    assert [BeginLiteral] + Repeat(Continue, n - 1) + q == [BeginLiteral] + (Repeat(Continue, n - 1) + q);
  }

  lemma ScanLeaf(c: Core, s: bytes)
    requires AtValue(c, s) && s != [] && s[0] != LBRACE && s[0] != LBRACKET
    ensures ReadsValue(c, s)
  {
    hide Settles, Dead, Feed, Ops;
    ScanLiteralAt(c, s);
    var n := LiteralLen(s);
    if n.Some? {
      LiteralSettled(c, s, n.value);
      assert |s[..n.value]| == n.value;
    }
  }

  /** Popping what was pushed for a container leaves the scanner after the container's value. */
  lemma PopPush(c: Core, obj: bool, r: bytes)
    requires Safe(c) && !c.endTop && (c.step.BeginValue? || c.step.BeginValueOrEmpty?)
    ensures var p := Pop(Push(c.Go(Step0(obj)), Inside(obj)));
            && Safe(p) && Safe(c.Go(EndValue))
            && Ops(p, r) == Ops(c.Go(EndValue), r)
            && Agree(Feed(p, r), Feed(c.Go(EndValue), r), r)
  {
    var p, e := Pop(Push(c.Go(Step0(obj)), Inside(obj))), c.Go(EndValue);
    assert Push(c, Inside(obj)).stack[..|c.stack|] == c.stack;
    assert Next(p, SPACE) == Next(e, SPACE);
    if r != [] {
      assert Next(p, r[0]) == Next(e, r[0]);
      Twins(p, e, r, 0, e);
    }
  }

  lemma ScanSpacesIn(c: Core, s: bytes)
    requires Skips(c)
    ensures Ops(c, s) == Repeat(SkipSpace, Spaces(s)) + Ops(c, s[Spaces(s)..])
    ensures Feed(c, s) == Feed(c, s[Spaces(s)..])
  {
    ScanSpaces(c, s);
  }

  lemma ScanColon(c: Core, s: bytes)
    requires Safe(c) && !c.endTop && c.step.EndValue? && c.stack != [] && c.stack[|c.stack| - 1] == InKey
    requires s != [] ==> !IsSpace(s[0])
    ensures Safe(PastKey(true, c))
    ensures s != [] && s[0] == COLON ==>
              Ops(c, s) == [ObjectKey] + Ops(PastKey(true, c), s[1..]) && Feed(c, s) == Feed(PastKey(true, c), s[1..])
    ensures s == [] || s[0] != COLON ==> Dead(c, s)
  {
    if s == [] {
      EmptyDead(c);
    } else if s[0] == COLON {
      assert PastKey(true, c) == Next(c, s[0]).core;
      TakeOne(c, s);
    } else {
      ErrorDead(c, s);
    }
  }

  lemma ScanKeyAt(obj: bool, c: Core, s: bytes)
    requires AtItems(obj, c, s) && (s != [] ==> !IsSpace(s[0]))
    ensures ReadsKey(obj, c, s)
  {
    hide Settles, Dead, Feed, Ops;
    if !obj {
    } else if s == [] {
      EmptyDead(c);
    } else if s[0] != QUOTE {
      ErrorDead(c, s);
    } else {
      ScanLiteralAt(c, s);
      var n := LiteralLen(s);
      if n.Some? {
        ScanKeyRest(c, s, n.value);
      }
    }
  }

  lemma ScanKeyRest(c: Core, s: bytes, n: nat)
    requires AtItems(true, c, s) && s != [] && s[0] == QUOTE && LiteralLen(s) == Some(n)
    requires Safe(c.Go(EndValue))
    requires Settles(c, s, [BeginLiteral] + Repeat(Continue, n - 1), c.Go(EndValue), s[n..])
    ensures ReadsKey(true, c, s)
  {
    hide Settles, Dead, Feed, Ops, Next, LiteralLen;
    LiteralSettled(c, s, n);
    var e := c.Go(EndValue);
    var u := s[n..];
    var a := Spaces(u);
    SpacesRun(u);
    ScanSpacesIn(e, u);
    ScanColon(e, u[a..]);
    var p := PastKey(true, c);
    assert p == PastKey(true, e);
    if a < |u| && u[a] == COLON {
      var v := u[a + 1..];
      assert u[a..][1..] == v;
      ScanSpacesIn(p, v);
      assert |s[..n]| == n && |u[..a]| == a && |v[..Spaces(v)]| == Spaces(v);
    } else {
      DeadFeed(e, u, e, u[a..]);
      DeadAgree(c, s, e, u);
    }
  }

  // Containers.

  lemma ScanNode(obj: bool, c: Core, s: bytes)
    requires AtValue(c, s) && s != [] && s[0] == Open(obj)
    requires ReadsContainer(obj, Push(c.Go(Step0(obj)), Inside(obj)), s[1..])
    ensures ReadsValue(c, s)
  {
    hide Dead, Feed, Ops, Container, Push, Pop;
    var c' := Push(c.Go(Step0(obj)), Inside(obj));
    assert Next(c, s[0]) == Out(c', Begin(obj));
    TakeNext(c, s, c', Begin(obj));
    var p := Container(obj, s[1..]);
    if p.Some? {
      PopPush(c, obj, p.value.1);
    } else {
      DeadFeed(c, s, c', s[1..]);
    }
  }

  lemma {:induction false} ScanValueAt(c: Core, s: bytes)
    requires AtValue(c, s)
    ensures ReadsValue(c, s)
    decreases |s|, 1
  {
    hide Dead, Feed, Ops, ReadsContainer;
    if s == [] {
      EmptyDead(c);
    } else if s[0] == LBRACE || s[0] == LBRACKET {
      var obj := s[0] == LBRACE;
      ScanContainerAt(obj, Push(c.Go(Step0(obj)), Inside(obj)), s[1..]);
      ScanNode(obj, c, s);
    } else {
      ScanLeaf(c, s);
    }
  }

  lemma TakeNext(c: Core, s: bytes, c': Core, op: Op)
    requires Safe(c) && s != [] && Next(c, s[0]) == Out(c', op)
    ensures Safe(c') && Ops(c, s) == [op] + Ops(c', s[1..]) && Feed(c, s) == Feed(c', s[1..])
  {
    TakeOne(c, s);
  }

  ghost predicate ReadsContainer(obj: bool, c: Core, s: bytes) {
    && Safe(c) && c.stack != [] && Safe(Pop(c))
    && (match Container(obj, s)
        case Some((t, r)) =>
          && t.Node? && t.obj == obj
          && Ops(c, s) == Repeat(SkipSpace, |t.gap|) + SignalItems(obj, t.items, [Finish(obj)] + Ops(Pop(c), r))
          && Feed(c, s) == Feed(Pop(c), r)
        case None => Dead(c, s))
  }

  /** The closing bracket of an empty container. */
  lemma ScanEmptyClose(obj: bool, c: Core, s: bytes)
    requires Safe(c) && !c.endTop && c.step == Step0(obj)
    requires s != [] && s[0] == Close(obj)
    ensures c.stack != [] && Safe(Pop(c))
    ensures Ops(c, s) == [Finish(obj)] + Ops(Pop(c), s[1..]) && Feed(c, s) == Feed(Pop(c), s[1..])
  {
    assert SetTop(c, InValue).stack[..|c.stack| - 1] == c.stack[..|c.stack| - 1];
    TakeNext(c, s, Pop(c), Finish(obj));
  }

  lemma {:induction false} ScanContainerAt(obj: bool, c: Core, s: bytes)
    requires Safe(c) && !c.endTop && c.step == Step0(obj)
    ensures ReadsContainer(obj, c, s)
    decreases |s|, 4
  {
    hide Dead, Feed, Ops;
    var w := Spaces(s);
    if w < |s| && s[w] == Close(obj) {
      ScanSpacesIn(c, s);
      ScanEmptyClose(obj, c, s[w..]);
      assert s[w..][1..] == s[w + 1..];
      assert |s[..w]| == w;
    } else {
      ScanItemsAt(obj, c, s);
      if ItemsOf(obj, s).Some? { NoSpaces(Ops(c, s)); }
    }
  }

  lemma NoSpaces(q: seq<Op>)
    ensures Repeat(SkipSpace, 0) + q == q
  {}

  lemma {:induction false} ScanItemsAt(obj: bool, c: Core, s: bytes)
    requires AtItems(obj, c, s)
    ensures ReadsItems(obj, c, s)
    decreases |s|, 3
  {
    hide Dead, Feed, Ops, ReadsKey, ReadsBody, ReadsItems;
    var u := s[Spaces(s)..];
    SpacesRun(s);
    SpacesAgain(s);
    ScanKeyAt(obj, c, u);
    if KeyOf(obj, u).Some? {
      KeyThenValue(obj, c, u);
      ScanItemBody(obj, PastKey(obj, c), KeyOf(obj, u).value.1);
    }
    ScanItemParts(obj, c, s);
  }

  lemma ScanItemParts(obj: bool, c: Core, s: bytes)
    requires AtItems(obj, c, s) && ReadsKey(obj, c, s[Spaces(s)..])
    requires var k := KeyOf(obj, s[Spaces(s)..]); k.Some? ==> ReadsBody(obj, PastKey(obj, c), k.value.1)
    ensures ReadsItems(obj, c, s)
  {
    hide Dead, Feed, Ops, KeyOf, TailOf, Value, Pop, PastKey;
    var w := Spaces(s);
    var u := s[w..];
    ScanSpacesIn(c, s);
    var k := KeyOf(obj, u);
    PopPast(obj, c);
    assert |s[..w]| == w;
    assert Safe(Pop(c)) by { SafePop(obj, c); }
    if k.None? {
      DeadFeed(c, s, c, u);
    } else if ItemBody(obj, k.value.1).None? {
      DeadFeed(c, u, PastKey(obj, c), k.value.1);
      DeadFeed(c, s, c, u);
    }
  }

  lemma SafePop(obj: bool, c: Core)
    requires Safe(c) && c.stack != [] && !c.step.Error?
    ensures Safe(Pop(c))
  {}

  lemma SpacesAgain(s: bytes)
    ensures Spaces(s[Spaces(s)..]) == 0
  {
    SpacesRun(s);
  }

  lemma PopPast(obj: bool, c: Core)
    requires c.stack != []
    ensures Pop(PastKey(obj, c).Go(EndValue)) == Pop(c)
  {}

  /** After a member's name a value may begin. */
  lemma KeyThenValue(obj: bool, c: Core, s: bytes)
    requires AtItems(obj, c, s) && Spaces(s) == 0 && KeyOf(obj, s).Some?
    ensures AtValue(PastKey(obj, c), KeyOf(obj, s).value.1)
    ensures var e := PastKey(obj, c).Go(EndValue);
            e.stack != [] && e.stack[|e.stack| - 1] == if obj then InValue else InArray
  {
    if obj {
      var v := s[LiteralLen(s).value..][Spaces(s[LiteralLen(s).value..]) + 1..];
      SpacesRun(v);
    } else {
      assert s[Spaces(s)..] == s;
    }
  }

  /** A value, the white space after it, and the rest of the items. */
  function ItemBody(obj: bool, s: bytes): Option<(Tree, bytes, Items, bytes)> {
    var v := Value(s);
    if v.None? then None else
    var (t, r) := v.value;
    var x := Spaces(r);
    var q := TailOf(obj, r[x..]);
    if q.None? then None else Some((t, r[..x], q.value.0, q.value.1))
  }

  ghost predicate ReadsBody(obj: bool, c: Core, s: bytes) {
    && Safe(c) && c.stack != [] && Safe(Pop(c.Go(EndValue)))
    && (match ItemBody(obj, s)
        case Some((t, post, xs, r)) =>
          var z := Pop(c.Go(EndValue));
          && Ops(c, s) == Signals(t, Repeat(SkipSpace, |post|) + SignalTail(obj, xs, [Finish(obj)] + Ops(z, r)))
          && Feed(c, s) == Feed(z, r)
        case None => Dead(c, s))
  }

  lemma {:induction false} ScanItemBody(obj: bool, c: Core, s: bytes)
    requires AtValue(c, s) && c.stack != []
    requires c.stack[|c.stack| - 1] == if obj then InValue else InArray
    ensures ReadsBody(obj, c, s)
    decreases |s|, 2
  {
    hide Dead, Feed, Ops;
    ScanValueAt(c, s);
    var v := Value(s);
    if v.Some? {
      var e := c.Go(EndValue);
      var r := v.value.1;
      var x := Spaces(r);
      SpacesRun(r);
      ScanSpacesIn(e, r);
      ScanTailAt(obj, e, r[x..]);
      assert |r[..x]| == x;
      if TailOf(obj, r[x..]).None? {
        DeadFeed(e, r, e, r[x..]);
        DeadAgree(c, s, e, r);
      }
    }
  }

  lemma {:induction false} ScanTailAt(obj: bool, c: Core, s: bytes)
    requires AtTail(obj, c, s)
    ensures ReadsTail(obj, c, s)
    decreases |s|, 2
  {
    hide Dead, Feed, Ops;
    if s == [] {
      EmptyDead(c);
    } else if s[0] == Close(obj) {
      TakeNext(c, s, Pop(c), Finish(obj));
    } else if s[0] == COMMA {
      var c' := if obj then SetTop(c.Go(BeginString), InKey) else c.Go(BeginValue);
      TakeNext(c, s, c', Between(obj));
      assert Pop(c') == Pop(c);
      ScanItemsAt(obj, c', s[1..]);
      if ItemsOf(obj, s[1..]).None? { DeadFeed(c, s, c', s[1..]); }
    } else {
      ErrorDead(c, s);
    }
  }

  // Whole texts.

  const ENDED: Core := Core(EndTop, [], true, false)

  lemma {:induction false} ScanTrailing(r: bytes)
    ensures AllSpace(r) ==> Ops(ENDED, r) == Repeat(End, |r|) && Feed(ENDED, r) == ENDED
    ensures !AllSpace(r) ==> Feed(ENDED, r).failed
  {
    if r == [] {
    } else if IsSpace(r[0]) {
      TakeNext(ENDED, r, ENDED, End);
      ScanTrailing(r[1..]);
      HeadTail(r);
      assert AllSpace(r) <==> AllSpace(r[1..]);
      assert [End] + Repeat(End, |r| - 1) == Repeat(End, |r|);
    } else {
      TakeOne(ENDED, r);
      FeedSticky(Next(ENDED, r[0]).core, r[1..]);
    }
  }

  /** After a top-level value only white space is accepted. */
  lemma AfterTop(a: Core, r: bytes)
    requires Agree(a, Feed(START.Go(EndValue), r), r)
    ensures Next(a, SPACE).core.endTop
    ensures Eof(a).op != Failed <==> AllSpace(r)
    ensures AllSpace(r) ==> Ops(START.Go(EndValue), r) == Repeat(End, |r|)
  {
    hide Feed, Ops, Next, Eof;
    var e := START.Go(EndValue);
    if r == [] {
      FeedNothing(e);
      assert Next(e, SPACE) == Out(ENDED, End) by { ProbeEnded(e); }
      ProbeOnly(a);
    } else {
      SameAsEnded(r);
      ScanTrailing(r);
      FeedSticky(ENDED, r);
      EofEnded(a);
    }
  }

  lemma ProbeEnded(e: Core)
    requires e == START.Go(EndValue)
    ensures Next(e, SPACE) == Out(ENDED, End)
  {}

  lemma ProbeOnly(a: Core)
    requires Safe(a) && Next(a, SPACE) == Out(ENDED, End)
    ensures Eof(a).op != Failed
  {
    NextKept(a, SPACE);
  }

  lemma SameAsEnded(r: bytes)
    requires r != []
    ensures Ops(START.Go(EndValue), r) == Ops(ENDED, r) && Feed(START.Go(EndValue), r) == Feed(ENDED, r)
  {
    hide Feed, Ops;
    var e := START.Go(EndValue);
    assert Next(e, r[0]) == Next(ENDED, r[0]);
    Twins(e, ENDED, r, 0, e);
  }

  lemma EofEnded(a: Core)
    requires Safe(a) && a.endTop
    ensures Next(a, SPACE).core.endTop && (Eof(a).op != Failed <==> !a.failed)
  {
    hide Next;
    NextKept(a, SPACE);
  }

  lemma FeedNothing(c: Core)
    requires Safe(c)
    ensures Feed(c, []) == c && Ops(c, []) == []
  {}

  lemma ScanLeading(s: bytes)
    ensures var w := Spaces(s);
            && Ops(START, s) == Repeat(SkipSpace, w) + Ops(START, s[w..])
            && Feed(START, s) == Feed(START, s[w..])
            && ReadsValue(START, s[w..])
  {
    ScanSpacesIn(START, s);
    SpacesRun(s);
    ScanValueAt(START, s[Spaces(s)..]);
  }

  lemma SpacesAll(r: bytes)
    ensures Spaces(r) == |r| <==> AllSpace(r)
  {
    SpacesRun(r);
    if Spaces(r) == |r| { assert r[..|r|] == r; }
  }

  lemma DeadRejects(s: bytes)
    requires Dead(START, s)
    ensures !Accepts(START, s)
  {
    NextKept(Feed(START, s), SPACE);
  }

  /** The scanner accepts exactly the texts of the grammar. */
  lemma AcceptsExactly(s: bytes)
    ensures Accepts(START, s) <==> IsJson(s)
  {
    hide Dead, Feed, Ops, Value, Eof;
    IsJsonParses(s);
    ScanLeading(s);
    var u := s[Spaces(s)..];
    match Value(u)
    case Some((t, r)) =>
      AfterTop(Feed(START, u), r);
      SpacesAll(r);
    case None =>
      DeadFeed(START, s, START, u);
      DeadRejects(s);
  }

  /** On the text of a document the scanner reports exactly the signals of the document. */
  lemma SignalsExactly(s: bytes)
    requires Parse(s).Some?
    ensures Ops(START, s) == DocSignals(Parse(s).value)
  {
    hide Dead, Feed, Ops, Value;
    ScanLeading(s);
    var u := s[Spaces(s)..];
    var r := Value(u).value.1;
    AfterTop(Feed(START, u), r);
    SpacesAll(r);
    assert |s[..Spaces(s)]| == Spaces(s);
  }
}

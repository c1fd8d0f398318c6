/** The loops that drive the scanner over a whole slice: `checkValid` and `nextValue`. */
module Validate {
  import opened Bytes
  import opened Grammar
  import opened Parser
  import opened ScanCore
  import opened ScanLiteral
  import opened ScanGrammar
  import opened Scanner

  lemma FeedSnoc(s: Core, d: bytes, i: nat)
    requires Safe(s) && i < |d|
    ensures Feed(s, d[..i + 1]) == Next(Feed(s, d[..i]), d[i]).core
    ensures Ops(s, d)[i] == Next(Feed(s, d[..i]), d[i]).op
  {
    hide Feed, Ops, Next, Safe;
    FeedAppend(s, d[..i], d[i..]);
    Rejoin(d, i);
    FeedAppend(s, d[..i], [d[i]]);
    assert d[..i + 1] == d[..i] + [d[i]];
    TakeOne(Feed(s, d[..i]), d[i..]);
    TakeOne(Feed(s, d[..i]), [d[i]]);
    assert [d[i]][1..] == [];
    FeedNothing(Next(Feed(s, d[..i]), d[i]).core);
  }

  /** A flag raised at one position stays raised. */
  lemma FlagsStay(s: Core, d: bytes, i: nat, j: nat)
    requires Safe(s) && i <= j <= |d|
    ensures Feed(s, d[..i]).endTop ==> Feed(s, d[..j]).endTop
    ensures Feed(s, d[..i]).failed ==> Feed(s, d[..j]).failed
  {
    hide Feed, Ops, Next, Safe;
    FeedAppend(s, d[..i], d[i..j]);
    assert d[..j] == d[..i] + d[i..j];
    FeedSticky(Feed(s, d[..i]), d[i..j]);
  }

  /** An error answer at one position is an error answer at every later one. */
  lemma ErrorStays(s: Core, d: bytes, i: nat, j: nat)
    requires Safe(s) && i <= j < |d| && Ops(s, d)[i] == Failed
    ensures Ops(s, d)[j] == Failed
    decreases j
  {
    hide Feed, Ops, Next;
    if i < j {
      ErrorStays(s, d, i, j - 1);
      FeedSnoc(s, d, j - 1);
      FeedSnoc(s, d, j);
      NextKept(Feed(s, d[..j - 1]), d[j - 1]);
      ErrorAgain(Feed(s, d[..j]), d[j]);
    }
  }

  lemma ErrorAgain(s: Core, c: byte)
    requires Safe(s) && s.step.Error?
    ensures Next(s, c).op == Failed
  {}

  lemma EarlyError(d: bytes, i: nat)
    requires i < |d| && Ops(START, d)[i] == Failed
    ensures !Accepts(START, d)
  {
    hide Feed, Ops, Next;
    FeedSnoc(START, d, i);
    NextKept(Feed(START, d[..i]), d[i]);
    FlagsStay(START, d, i + 1, |d|);
    assert d[..|d|] == d;
  }

  method CheckValid(data: bytes, scan: Scanner) returns (ok: bool)
    modifies scan
    ensures ok <==> IsJson(data)
    ensures scan.Valid()
  {
    AcceptsExactly(data);
    scan.Reset();
    for i := 0 to |data|
      invariant scan.Valid() && !scan.redo
      invariant scan.State() == Feed(START, data[..i])
    {
      var op := scan.Step(data[i]);
      FeedSnoc(START, data, i);
      if op == Failed {
        EarlyError(data, i);
        return false;
      }
    }
    assert data[..|data|] == data;
    var op := scan.Eof();
    return op != Failed;
  }

  // nextValue.

  /** How many bytes the first value of `data` takes, with the white space before it. */
  ghost function FirstValue(data: bytes): (n: Option<nat>)
    ensures n.Some? ==> n.value <= |data|
  {
    var v := Value(data[Spaces(data)..]);
    if v.None? then None else Some(|data| - |v.value.1|)
  }

  /** The first value together with the white space before it is a JSON text. */
  lemma FirstValueIsJson(data: bytes)
    requires FirstValue(data).Some?
    ensures var w, n := Spaces(data), FirstValue(data).value;
            Parse(data[..n]) == Some(Doc(data[..w], Value(data[w..]).value.0, []))
    ensures IsJson(data[..FirstValue(data).value])
  {
    hide Value, TreeOk, Spell;
    var w := Spaces(data);
    var n := FirstValue(data).value;
    var (t, r) := Value(data[w..]).value;
    assert TreeOk(t) && data[w..] == Spell(t, r) by { ValueSound(data[w..]); }
    assert data[w..] == Text(t) + r by { SpellSplit(t, r); }
    var d := Doc(data[..w], t, []);
    assert data[..n] == DocText(d) && AllSpace(data[..w]) by {
      Seam(Text(t), r);
      TakeSum(data, w, n - w);
      SpacesRun(data);
    }
    hide Parse, IsJson;
    ParseComplete(d);
    IsJsonParses(data[..n]);
  }

  lemma {:induction false} SpellSplit(t: Tree, r: bytes)
    ensures Spell(t, r) == Text(t) + r
    decreases t, 0
  {
    match t
    case Leaf(text) =>
      Assoc(text, [], r);
    case Node(obj, gap, items) =>
      var z := [Close(obj)];
      ItemsSplit(items, z + r);
      ItemsSplit(items, z + []);
      assert z + [] == z;
      NodeSplit([Open(obj)], gap, SpellItems(items, []), z, r);
  }

  lemma NodeSplit(o: bytes, g: bytes, x: bytes, z: bytes, r: bytes)
    ensures o + (g + (x + (z + r))) == (o + (g + (x + z))) + r
  {
    Assoc(x, z, r);
    Assoc(g, x + z, r);
    Assoc(o, g + (x + z), r);
  }

  lemma {:induction false} ItemsSplit(xs: Items, r: bytes)
    ensures SpellItems(xs, r) == SpellItems(xs, []) + r
    decreases xs, 0
  {
    match xs
    case Nil =>
    case Cons(pre, key, value, post, rest) =>
      var t := SpellTail(rest, []);
      TailSplit(rest, r);
      SpellSplit(value, post + (t + r));
      SpellSplit(value, post + t);
      Assoc(post, t, r);
      Assoc(Text(value), post + t, r);
      KeySplit(key, Text(value) + (post + t), r);
      Assoc(pre, SpellKey(key, Text(value) + (post + t)), r);
  }

  lemma {:induction false} TailSplit(rest: Items, r: bytes)
    ensures SpellTail(rest, r) == SpellTail(rest, []) + r
    decreases rest, 1
  {
    if rest.Cons? {
      ItemsSplit(rest, r);
      Assoc([COMMA], SpellItems(rest, []), r);
    }
  }

  lemma KeySplit(k: Key, x: bytes, r: bytes)
    ensures SpellKey(k, x + r) == SpellKey(k, x) + r
  {
    if k.Key? {
      Assoc(k.after, x, r);
      Assoc([COLON], k.after + x, r);
      Assoc(k.before, [COLON] + (k.after + x), r);
      Assoc(k.text, k.before + ([COLON] + (k.after + x)), r);
    }
  }

  /** Right after a closing bracket, a probing space tells whether the top-level value is complete. */
  lemma ProbeAfterClose(s: Core, c: byte)
    requires Safe(s) && (Next(s, c).op == EndObject || Next(s, c).op == EndArray)
    ensures var t := Next(s, c).core;
            Safe(t) && Next(t, SPACE) == Out(t, if t.endTop then End else SkipSpace)
  {
    hide Next;
    NextKept(s, c);
    ClosesByPop(s, c);
    var t := Next(s, c).core;
    ProbeEndStep(t);
  }

  /** A closing bracket leaves the scanner after a value, or at the end of the top-level one. */
  lemma ClosesByPop(s: Core, c: byte)
    requires Safe(s) && (Next(s, c).op == EndObject || Next(s, c).op == EndArray)
    ensures var t := Next(s, c).core;
            if t.stack == [] then t.step.EndTop? && t.endTop else t.step.EndValue? && !t.endTop
  {
    hide AtEndValue;
    EndValueCloses(s, c);
    if s.step.BeginStringOrEmpty? { EndValueCloses(SetTop(s, InValue), c); }
  }

  lemma EndValueCloses(s: Core, c: byte)
    requires !s.endTop || s.stack == []
    ensures var o := AtEndValue(s, c);
            o.op == EndObject || o.op == EndArray ==>
              if o.core.stack == [] then o.core.step.EndTop? && o.core.endTop
              else o.core.step.EndValue? && !o.core.endTop
  {}

  lemma ProbeEndStep(t: Core)
    requires Safe(t) && (if t.stack == [] then t.step.EndTop? && t.endTop else t.step.EndValue? && !t.endTop)
    ensures Next(t, SPACE) == Out(t, if t.endTop then End else SkipSpace)
  {}

  // The last signal of a phrase.

  function Last(q: seq<Op>): Op
    requires q != []
  {
    q[|q| - 1]
  }

  lemma LastAppend(a: seq<Op>, b: seq<Op>)
    requires b != []
    ensures a + b != [] && Last(a + b) == Last(b)
  {}

  lemma LiteralEnd(n: nat, q: seq<Op>)
    requires n > 0 && q != []
    ensures SignalLiteral(n, q) != [] && Last(SignalLiteral(n, q)) == Last(q)
  {
    LastAppend(Repeat(Continue, n - 1), q);
    LastAppend([BeginLiteral], Repeat(Continue, n - 1) + q);
  }

  lemma KeyEnd(k: Key, q: seq<Op>)
    requires q != []
    ensures SignalKey(k, q) != [] && Last(SignalKey(k, q)) == Last(q)
  {
    if k.Key? && k.text != [] {
      var x := Repeat(SkipSpace, |k.after|) + q;
      LastAppend(Repeat(SkipSpace, |k.after|), q);
      LastAppend([ObjectKey], x);
      LastAppend(Repeat(SkipSpace, |k.before|), [ObjectKey] + x);
      LiteralEnd(|k.text|, Repeat(SkipSpace, |k.before|) + ([ObjectKey] + x));
    }
  }

  lemma {:induction false} SignalsEnd(t: Tree, q: seq<Op>)
    requires q != []
    ensures Signals(t, q) != [] && Last(Signals(t, q)) == Last(q)
    decreases t, 0
  {
    match t
    case Leaf(text) =>
      if text != [] { LiteralEnd(|text|, q); }
    case Node(obj, gap, items) =>
      LastAppend([Finish(obj)], q);
      ItemsEnd(obj, items, [Finish(obj)] + q);
      var x := SignalItems(obj, items, [Finish(obj)] + q);
      LastAppend(Repeat(SkipSpace, |gap|), x);
      LastAppend([Begin(obj)], Repeat(SkipSpace, |gap|) + x);
  }

  lemma {:induction false} ItemsEnd(obj: bool, xs: Items, q: seq<Op>)
    requires q != []
    ensures SignalItems(obj, xs, q) != [] && Last(SignalItems(obj, xs, q)) == Last(q)
    decreases xs, 0
  {
    match xs
    case Nil =>
    case Cons(pre, key, value, post, rest) =>
      TailEnd(obj, rest, q);
      var x := SignalTail(obj, rest, q);
      var y := Repeat(SkipSpace, |post|) + x;
      LastAppend(Repeat(SkipSpace, |post|), x);
      SignalsEnd(value, y);
      KeyEnd(key, Signals(value, y));
      LastAppend(Repeat(SkipSpace, |pre|), SignalKey(key, Signals(value, y)));
  }

  lemma {:induction false} TailEnd(obj: bool, rest: Items, q: seq<Op>)
    requires q != []
    ensures SignalTail(obj, rest, q) != [] && Last(SignalTail(obj, rest, q)) == Last(q)
    decreases rest, 1
  {
    if rest.Cons? {
      ItemsEnd(obj, rest, q);
      LastAppend([Between(obj)], SignalItems(obj, rest, q));
    }
  }

  lemma NodeSignalsEnd(t: Tree)
    requires t.Node?
    ensures Signals(t, []) != [] && Last(Signals(t, [])) == Finish(t.obj)
  {
    var x := SignalItems(t.obj, t.items, [Finish(t.obj)] + []);
    ItemsEnd(t.obj, t.items, [Finish(t.obj)] + []);
    LastAppend(Repeat(SkipSpace, |t.gap|), x);
    LastAppend([Begin(t.obj)], Repeat(SkipSpace, |t.gap|) + x);
  }

  lemma OpsPrefix(data: bytes, n: nat)
    requires n <= |data|
    ensures Ops(START, data)[..n] == Ops(START, data[..n])
  {
    FeedAppend(START, data[..n], data[n..]);
    Rejoin(data, n);
  }

  /** Where the scan of a first value that is an object or array reports its end. */
  lemma FirstNode(data: bytes)
    requires FirstValue(data).Some? && Value(data[Spaces(data)..]).value.0.Node?
    ensures var n := FirstValue(data).value;
            && 0 < n && Ops(START, data)[n - 1] == Finish(Value(data[Spaces(data)..]).value.0.obj)
            && Feed(START, data[..n]).endTop
  {
    hide Feed, Ops, Next, Value;
    var n := FirstValue(data).value;
    var t := Value(data[Spaces(data)..]).value.0;
    FirstValueIsJson(data);
    var u := data[..n];
    SignalsExactly(u);
    NodeSignalsEnd(t);
    OpsPrefix(data, n);
    assert Ops(START, data)[n - 1] == Ops(START, u)[n - 1];
    FeedSnoc(START, data, n - 1);
    assert Feed(START, u).endTop by {
      ProbeAfterClose(Feed(START, data[..n - 1]), data[n - 1]);
      AcceptsExactly(u);
      ProbeAccepted(u);
    }
  }

  /** Before that end, nothing has ended or failed. */
  lemma BeforeNode(data: bytes, i: nat)
    requires FirstValue(data).Some? && Value(data[Spaces(data)..]).value.0.Node? && i < FirstValue(data).value
    ensures !Feed(START, data[..i]).endTop && Ops(START, data)[i] != End && Ops(START, data)[i] != Failed
  {
    hide Feed, Ops, Next, Value, FirstValue;
    FirstNode(data);
    NotYet(data, i, FirstValue(data).value - 1);
  }

  lemma ProbeAccepted(u: bytes)
    requires Accepts(START, u)
    ensures Next(Feed(START, u), SPACE).core.endTop
  {
    NextKept(Feed(START, u), SPACE);
  }

  /** Before a position whose signal is ordinary, nothing has ended or failed. */
  lemma NotYet(data: bytes, i: nat, j: nat)
    requires i <= j < |data| && Ops(START, data)[j] != End && Ops(START, data)[j] != Failed
    ensures !Feed(START, data[..i]).endTop && Ops(START, data)[i] != End && Ops(START, data)[i] != Failed
  {
    hide Feed, Ops, Next;
    FeedSnoc(START, data, j);
    NextKept(Feed(START, data[..j]), data[j]);
    FlagsStay(START, data, i, j);
    FeedSnoc(START, data, i);
    NextKept(Feed(START, data[..i]), data[i]);
    if i < j { FlagsStay(START, data, i + 1, j); }
    if Ops(START, data)[i] == Failed { ErrorStays(START, data, i, j); }
  }

  lemma FirstLeafSignals(data: bytes)
    requires FirstValue(data).Some? && Value(data[Spaces(data)..]).value.0.Leaf?
    ensures var w, n := Spaces(data), FirstValue(data).value;
            w < n && Ops(START, data) == Repeat(SkipSpace, w) + SignalLiteral(n - w, Ops(START.Go(EndValue), data[n..]))
  {
    hide Feed, Ops, Next, Value, Dead, SignalLiteral;
    var u := data[Spaces(data)..];
    ScanLeading(data);
    LeafLength(u);
    var r := Value(u).value.1;
    assert data[FirstValue(data).value..] == r by { ValueSuffix(u); }
  }

  lemma ValueSuffix(u: bytes)
    requires Value(u).Some?
    ensures u[|u| - |Value(u).value.1|..] == Value(u).value.1
  {
    hide Value;
    ValueSound(u);
    var (t, r) := Value(u).value;
    SpellSplit(t, r);
    Seam(Text(t), r);
  }

  /** The same for a literal: the byte after it, if any, is answered with `End`. */
  lemma FirstLeaf(data: bytes, i: nat)
    requires FirstValue(data).Some? && Value(data[Spaces(data)..]).value.0.Leaf? && i < |data|
    ensures var n := FirstValue(data).value;
            && (i < n ==> Ops(START, data)[i] in {SkipSpace, BeginLiteral, Continue})
            && (i == n ==> Ops(START, data)[i] == End)
  {
    hide Feed, Ops, Next, Value, SignalLiteral, FirstValue, Repeat;
    var w, n := Spaces(data), FirstValue(data).value;
    FirstLeafSignals(data);
    var e := START.Go(EndValue);
    LeafAnswer(Ops(START, data), w, n - w, Ops(e, data[n..]), i);
    if i == n { FirstEnd(e, data[n..]); }
  }

  lemma LeafAnswer(ops: seq<Op>, w: nat, m: nat, q: seq<Op>, i: nat)
    requires m > 0 && ops == Repeat(SkipSpace, w) + SignalLiteral(m, q) && i < |ops|
    ensures i < w + m ==> ops[i] in {SkipSpace, BeginLiteral, Continue}
    ensures i == w + m ==> q != [] && ops[i] == q[0]
  {
    LiteralSignals(w, m, q);
  }

  lemma WholeAccepted(data: bytes)
    requires FirstValue(data) == Some(|data|)
    ensures Accepts(START, data)
  {
    hide Feed, Ops, Next, FirstValue, IsJson, Accepts, Parse;
    FirstValueIsJson(data);
    assert data[..|data|] == data;
    AcceptsExactly(data);
  }

  lemma LeafLength(u: bytes)
    requires Value(u).Some? && Value(u).value.0.Leaf?
    ensures var (t, r) := Value(u).value; t.text != [] && |t.text| == |u| - |r|
  {
    hide ItemsOf, LiteralLen, Spaces;
  }

  lemma LiteralSignals(w: nat, m: nat, q: seq<Op>)
    requires m > 0
    ensures var ops := Repeat(SkipSpace, w) + SignalLiteral(m, q);
            && |ops| == w + m + |q|
            && (forall i | 0 <= i < w + m :: ops[i] in {SkipSpace, BeginLiteral, Continue})
            && (q != [] ==> ops[w + m] == q[0])
  {}

  lemma FirstEnd(e: Core, r: bytes)
    requires e == START.Go(EndValue) && r != []
    ensures Ops(e, r)[0] == End
  {
    TakeOne(e, r);
  }

  // Scanning for the first value.

  /** While no value is complete, only an error answer is recorded as an error. */
  lemma NoFailure(s: Core, c: byte)
    requires Safe(s) && !s.failed && Next(s, c).op != Failed && !Next(s, c).core.endTop
    ensures !Next(s, c).core.failed
  {
    hide AtEndValue;
    EndValueFails(s, c);
    if s.step.BeginStringOrEmpty? { EndValueFails(SetTop(s, InValue), c); }
  }

  lemma EndValueFails(s: Core, c: byte)
    requires !s.failed
    ensures var o := AtEndValue(s, c); o.core.failed ==> o.op == Failed || o.core.endTop
  {}

  /** A text with no first value never lets the scanner reach the end of one. */
  lemma NoFirstValue(data: bytes, i: nat)
    requires FirstValue(data).None? && i <= |data|
    ensures !Feed(START, data[..i]).endTop && !Accepts(START, data)
  {
    hide Feed, Ops, Next, Value;
    var u := data[Spaces(data)..];
    ScanLeading(data);
    DeadFeed(START, data, START, u);
    DeadRejects(data);
    FlagsStay(START, data, i, |data|);
    assert data[..|data|] == data;
    NextKept(Feed(START, data), SPACE);
  }

  /** Only an end signal or a closing bracket can complete the top-level value. */
  lemma EndsOnlyBy(s: Core, c: byte)
    requires Safe(s) && !s.endTop && Next(s, c).core.endTop
    ensures Next(s, c).op in {End, EndObject, EndArray}
  {}

  /** The scan has read `i` bytes and the first value, if there is one, is not over yet. */
  ghost predicate Pending(data: bytes, i: nat) {
    && i <= |data| && !Feed(START, data[..i]).endTop
    && (FirstValue(data).Some? ==> i <= FirstValue(data).value)
  }

  predicate Closes(op: Op) {
    op == EndObject || op == EndArray
  }

  /** What one more byte says about the first value. */
  ghost predicate Reveals(data: bytes, i: nat, op: Op)
    requires i < |data|
  {
    && (op == Failed ==> FirstValue(data) == None)
    && (op == End ==> FirstValue(data) == Some(i))
    && (Closes(op) && Feed(START, data[..i + 1]).endTop ==> FirstValue(data) == Some(i + 1))
    && (op != Failed && op != End && !(Closes(op) && Feed(START, data[..i + 1]).endTop) ==> Pending(data, i + 1))
  }

  lemma PendingNode(data: bytes, i: nat)
    requires Pending(data, i) && i < |data|
    requires FirstValue(data).Some? && Value(data[Spaces(data)..]).value.0.Node?
    ensures Reveals(data, i, Ops(START, data)[i])
  {
    hide Feed, Ops, Next, Value, FirstValue;
    FirstNode(data);
    var n := FirstValue(data).value;
    if i < n { BeforeNode(data, i); }
    if i + 1 < n { BeforeNode(data, i + 1); }
    FeedSnoc(START, data, i);
    if Feed(START, data[..i + 1]).endTop { EndsOnlyBy(Feed(START, data[..i]), data[i]); }
  }

  lemma PendingLeaf(data: bytes, i: nat)
    requires Pending(data, i) && i < |data|
    requires FirstValue(data).Some? && Value(data[Spaces(data)..]).value.0.Leaf?
    ensures Reveals(data, i, Ops(START, data)[i])
  {
    hide Feed, Ops, Next, Value, FirstValue;
    FirstLeaf(data, i);
    FeedSnoc(START, data, i);
    if Feed(START, data[..i + 1]).endTop { EndsOnlyBy(Feed(START, data[..i]), data[i]); }
  }

  lemma PendingNone(data: bytes, i: nat)
    requires Pending(data, i) && i < |data| && FirstValue(data).None?
    ensures Reveals(data, i, Ops(START, data)[i])
  {
    hide Feed, Ops, Next, Value, FirstValue;
    NoFirstValue(data, i + 1);
    FeedSnoc(START, data, i);
    NextKept(Feed(START, data[..i]), data[i]);
  }

  lemma PendingStep(data: bytes, i: nat)
    requires Pending(data, i) && i < |data|
    ensures Reveals(data, i, Ops(START, data)[i])
  {
    hide Feed, Ops, Next, Pending, Reveals;
    if FirstValue(data).None? {
      PendingNone(data, i);
    } else if Value(data[Spaces(data)..]).value.0.Node? {
      PendingNode(data, i);
    } else {
      PendingLeaf(data, i);
    }
  }

  lemma PendingEnd(data: bytes)
    requires Pending(data, |data|)
    ensures Accepts(START, data) <==> FirstValue(data) == Some(|data|)
    ensures FirstValue(data).Some? ==> FirstValue(data) == Some(|data|)
  {
    hide Feed, Ops, Next, Value;
    assert data[..|data|] == data;
    if FirstValue(data).None? {
      NoFirstValue(data, |data|);
    } else if Value(data[Spaces(data)..]).value.0.Node? {
      FirstNode(data);
    } else {
      WholeAccepted(data);
    }
  }

  lemma PendingStart(data: bytes)
    ensures Pending(data, 0)
  {
    assert data[..0] == [];
  }

  /** Probing with a space after a closing bracket: a nested scan is left exactly where it was. */
  lemma ProbeAt(data: bytes, i: nat)
    requires i < |data| && Closes(Ops(START, data)[i])
    ensures var t := Feed(START, data[..i + 1]);
            Next(t, SPACE) == Out(t, if t.endTop then End else SkipSpace)
  {
    hide Feed, Ops, Next;
    FeedSnoc(START, data, i);
    ProbeAfterClose(Feed(START, data[..i]), data[i]);
  }

  /** Scans one byte, with a probing space after a closing bracket; inner brackets are answered like other bytes. */
  method NextByte(data: bytes, scan: Scanner, i: nat) returns (op: Op)
    requires i < |data| && scan.Valid() && !scan.redo && scan.State() == Feed(START, data[..i]) && Pending(data, i)
    modifies scan
    ensures scan.Valid() && !scan.redo
    ensures op == Failed ==> FirstValue(data) == None
    ensures op == End ==> FirstValue(data) == Some(i)
    ensures Closes(op) ==> FirstValue(data) == Some(i + 1)
    ensures op != Failed && op != End && !Closes(op) ==>
              scan.State() == Feed(START, data[..i + 1]) && Pending(data, i + 1)
  {
    hide Feed, Ops, Next, Value, FirstValue, Pending;
    FeedSnoc(START, data, i);
    PendingStep(data, i);
    op := scan.Step(data[i]);
    if op == EndObject || op == EndArray {
      ProbeAt(data, i);
      var probe := scan.Step(SPACE);
      if probe != End {
        op := Continue;
      }
    }
  }

  /** Splits `data` after its first value; the value alone is a JSON text. */
  method NextValue(data: bytes, scan: Scanner) returns (value: bytes, rest: bytes, ok: bool)
    modifies scan
    ensures ok <==> FirstValue(data).Some?
    ensures ok ==> value + rest == data && |value| == FirstValue(data).value && IsJson(value)
    ensures scan.Valid()
  {
    hide Feed, Ops, Next, Value, FirstValue, Pending, IsJson, Parse;
    scan.Reset();
    PendingStart(data);
    assert data[..0] == [];
    FeedNothing(START);
    for i := 0 to |data|
      invariant scan.Valid() && !scan.redo
      invariant scan.State() == Feed(START, data[..i])
      invariant Pending(data, i)
    {
      var op := NextByte(data, scan, i);
      if op == EndObject || op == EndArray {
        FirstValueIsJson(data);
        Rejoin(data, i + 1);
        return data[..i + 1], data[i + 1..], true;
      } else if op == Failed {
        return [], [], false;
      } else if op == End {
        FirstValueIsJson(data);
        Rejoin(data, i);
        return data[..i], data[i..], true;
      }
    }
    assert data[..|data|] == data;
    PendingEnd(data);
    var op := scan.Eof();
    if op == Failed {
      return [], [], false;
    }
    FirstValueIsJson(data);
    return data, [], true;
  }
}

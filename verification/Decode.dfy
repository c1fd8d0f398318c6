/**
 Decoding into interface values: `scanWhile`, `valueInterface`, `arrayInterface`, `objectInterface` and
 `literalInterface`.
 */
module Decode {
  import opened Bytes
  import opened Grammar
  import opened Parser
  import opened ScanCore
  import opened ScanLiteral
  import opened ScanGrammar
  import opened Scanner
  import opened Validate
  import opened Strings
  import opened Values

  /** `OutOfSync` is the error the source reports when decoder and scanner disagree. */
  datatype Decoded = Ok(v: Json) | SyntaxError | DuplicateKey | OutOfSync

  function Answer(m: Option<Json>): Decoded {
    if m.Some? then Ok(m.value) else DuplicateKey
  }

  /** From offset `k` on, the input is `s` and the scanner's answers are `q`. */
  ghost predicate At(data: bytes, k: nat, s: bytes, q: seq<Op>) {
    k <= |data| && data[k..] == s && Ops(START, data)[k..] == q
  }

  lemma AtPast(data: bytes, k: nat, w: bytes, s: bytes, p: seq<Op>, q: seq<Op>)
    requires At(data, k, w + s, p + q) && |w| == |p|
    ensures At(data, k + |w|, s, q) && data[k..k + |w|] == w
    ensures forall j | 0 <= j < |p| :: Ops(START, data)[k + j] == p[j]
  {
    hide Ops;
    var ops := Ops(START, data);
    assert data[k + |w|..] == (w + s)[|w|..];
    assert ops[k + |w|..] == (p + q)[|p|..];
    assert data[k..k + |w|] == (w + s)[..|w|];
    forall j | 0 <= j < |p| ensures ops[k + j] == p[j] { assert ops[k..][j] == (p + q)[j]; }
  }

  class DecodeState {
    const data: bytes
    var off: nat
    const scan: Scanner

    ghost predicate Valid()
      reads this, scan
    {
      scan.Valid() && off <= |data| + 1
    }

    /** The scanner has seen exactly the bytes before `off`, or one more whose answer it will repeat. */
    ghost predicate Synced()
      reads this, scan
    {
      && Valid() && off <= |data|
      && (!scan.redo ==> scan.State() == Feed(START, data[..off]))
      && (scan.redo ==>
            off < |data| && scan.redoCode == Ops(START, data)[off] && scan.State() == Feed(START, data[..off + 1]))
    }

    ghost predicate Here(s: bytes, q: seq<Op>)
      reads this, scan
    {
      Synced() && At(data, off, s, q)
    }

    constructor (d: bytes)
      ensures data == d && off == 0 && fresh(scan) && Synced()
    {
      data := d;
      off := 0;
      scan := new Scanner();
      new;
      assert d[..0] == [];
    }

    /** One byte, or the end of input. */
    method ReadOp() returns (op: Op)
      requires Synced()
      modifies this, scan
      ensures scan.Valid()
      ensures old(off) < |data| ==> Synced() && !scan.redo && off == old(off) + 1 && op == Ops(START, data)[old(off)]
      ensures old(off) == |data| ==> Valid() && !scan.redo && off == |data| + 1 && op in {End, Failed}
    {
      hide Feed, Ops, Next;
      if off >= |data| {
        op := scan.Eof();
        off := |data| + 1;
      } else {
        var c := data[off];
        FeedSnoc(START, data, off);
        off := off + 1;
        op := scan.Step(c);
      }
    }

    /** Skips the bytes answered with `op`, which end before `k`, and returns the first other answer. */
    method ScanWhile(op: Op, ghost k: nat) returns (newOp: Op)
      requires op == SkipSpace || op == Continue
      requires Synced() && RunTo(data, off, op, k)
      modifies this, scan
      ensures !scan.redo
      ensures k < |data| ==> newOp == Ops(START, data)[k] && Synced() && off == k + 1
      ensures k == |data| ==> Valid() && off == |data| + 1 && newOp in {End, Failed}
    {
      hide Feed, Ops, Next;
      newOp := ReadOp();
      while newOp == op
        invariant old(off) < off <= k + 1 && Valid() && !scan.redo
        invariant off <= |data| ==> Synced() && newOp == Ops(START, data)[off - 1]
        invariant off == |data| + 1 ==> newOp in {End, Failed}
        decreases k - off
      {
        newOp := ReadOp();
      }
    }

    /** Un-reads the last byte: its answer `op` will be given once more. */
    method BackUp(op: Op)
      requires Valid() && !scan.redo && 0 < off
      modifies this, scan
      ensures Valid() && off == old(off) - 1
      ensures old(Synced()) && op == Ops(START, data)[old(off) - 1] ==> Synced()
    {
      hide Feed, Ops, Next;
      off := off - 1;
      scan.Undo(op);
    }

    /** The rest of a literal whose first byte has just been read. */
    method LiteralInterface(ghost text: bytes, ghost r: bytes, ghost q: seq<Op>) returns (v: Decoded)
      requires IsLiteral(text) && text != [] && 0 < off <= |data| && data[off - 1..] == text + r
      requires Here(text[1..] + r, Repeat(Continue, |text| - 1) + q) && !scan.redo && (q != [] ==> q[0] != Continue)
      modifies this, scan
      ensures v == Ok(LiteralMeaning(text))
      ensures Valid() && off == old(off) - 1 + |text| && (r != [] ==> Here(r, q))
    {
      hide Feed, Ops, Next, IsLiteral;
      LiteralHead(text);
      AtRun(data, off, Continue, text[1..], r, q);
      var start := off - 1;
      var op := ScanWhile(Continue, off + |text| - 1);
      BackUp(op);
      AtAfter(data, start, text, r, q);
      v := LiteralValue(data[start..off]);
    }

    /** What a literal stands for, by its first byte. */
    method LiteralValue(item: bytes) returns (v: Decoded)
      requires IsLiteral(item) && item != []
      ensures v == Ok(LiteralMeaning(item))
    {
      hide IsLiteral, IsString;
      LiteralHead(item);
      var c := item[0];
      if c == 0x6E {
        return Ok(JNull);
      }
      if c == 0x74 || c == 0x66 {
        return Ok(JBool(c == 0x74));
      }
      if c == QUOTE {
        QuotedIsString(item);
        UnquotesString(item);
        var u := UnquoteBytes(item);
        if u.None? {
          return OutOfSync;
        }
        return Ok(JString(u.value));
      }
      if c != MINUS && (c < ZERO || c > NINE) {
        return OutOfSync;
      }
      return Ok(JNumber(item));
    }

    /** A value, after the white space `w`. */
    method ValueInterface(ghost w: bytes, ghost t: Tree, ghost r: bytes, ghost q: seq<Op>) returns (v: Decoded)
      requires TreeOk(t) && Here(w + Spell(t, r), Repeat(SkipSpace, |w|) + Signals(t, q))
      requires q != [] ==> q[0] != Continue
      modifies this, scan
      ensures v == Answer(Meaning(t))
      ensures v.Ok? ==> Valid() && off == |data| - |r| && (r != [] ==> Here(r, q))
      decreases t
    {
      hide Feed, Ops, Next, At, RunTo, Spell, Signals, SpellItems, SignalItems, ArrayMeaning, ObjectMeaning;
      FirstSignal(t, r, q);
      AtRun(data, off, SkipSpace, w, Spell(t, r), Signals(t, q));
      var op := ScanWhile(SkipSpace, off + |w|);
      TreeAt(data, off, t, r, q);
      if op == BeginArray {
        v := ArrayInterface(t.gap, t.items, r, q);
      } else if op == BeginObject {
        v := ObjectInterface(t.gap, t.items, r, q);
      } else if op == BeginLiteral {
        v := LiteralInterface(t.text, r, q);
      } else {
        v := OutOfSync;
      }
    }

    /** White space, then the first byte of the next item or the closing bracket of an empty container. */
    method NextItem(ghost obj: bool, ghost g: bytes, ghost xs: Items, ghost r: bytes, ghost q: seq<Op>) returns (op: Op)
      requires ItemsOk(obj, xs) && (xs.Cons? ==> g == [])
      requires Here(g + SpellItems(xs, [Close(obj)] + r),
                    Repeat(SkipSpace, |g|) + SignalItems(obj, xs, [Finish(obj)] + q))
      modifies this, scan
      ensures Synced() && !scan.redo && 0 < off <= |data| && op == Ops(START, data)[off - 1]
      ensures xs.Nil? ==> op == Finish(obj) && Here(r, q) && off == |data| - |r|
      ensures xs.Cons? ==> !Closes(op) && (obj ==> op == BeginLiteral)
      ensures xs.Cons? ==> At(data, off - 1, LeadText(xs, [Close(obj)] + r), LeadSignals(obj, xs, [Finish(obj)] + q))
      ensures xs.Cons? && !obj ==>
                At(data, off - 1, [] + MemberText(xs, [Close(obj)] + r),
                   Repeat(SkipSpace, 0) + MemberSignals(false, xs, [Finish(obj)] + q))
    {
      hide Feed, Ops, Next, At, RunTo, SpellItems, SignalItems, LeadText, LeadSignals, MemberText, MemberSignals,
        ItemsOk, TreeOk;
      ItemsAt(data, off, obj, g, xs, r, q);
      op := ScanWhile(SkipSpace, off + |Lead(g, xs)|);
    }

    /** White space after an item, then the comma or the closing bracket. */
    method AfterItem(ghost obj: bool, ghost xs: Items, ghost r: bytes, ghost q: seq<Op>) returns (op: Op)
      requires xs.Cons? && ItemsOk(obj, xs.rest)
      requires Here(xs.post + SpellTail(xs.rest, [Close(obj)] + r),
                    Repeat(SkipSpace, |xs.post|) + SignalTail(obj, xs.rest, [Finish(obj)] + q))
      modifies this, scan
      ensures xs.rest.Nil? ==> op == Finish(obj) && Here(r, q) && off == |data| - |r|
      ensures xs.rest.Cons? ==>
                op == Between(obj) && Here([] + SpellItems(xs.rest, [Close(obj)] + r),
                                           Repeat(SkipSpace, 0) + SignalItems(obj, xs.rest, [Finish(obj)] + q))
    {
      hide Feed, Ops, Next, At, RunTo, SpellItems, SignalItems, SpellTail, SignalTail, ItemsOk, TreeOk;
      TailAt(data, off, obj, xs.post, xs.rest, r, q);
      op := ScanWhile(SkipSpace, off + |xs.post|);
    }

    /** The rest of an array whose bracket has just been read. */
    method ArrayInterface(ghost gap: bytes, ghost items: Items, ghost r: bytes, ghost q: seq<Op>) returns (v: Decoded)
      requires TreeOk(Node(false, gap, items))
      requires Here(gap + SpellItems(items, [RBRACKET] + r),
                    Repeat(SkipSpace, |gap|) + SignalItems(false, items, [EndArray] + q))
      modifies this, scan
      ensures v == Answer(Meaning(Node(false, gap, items)))
      ensures v.Ok? ==> Here(r, q) && off == |data| - |r|
      decreases items
    {
      hide Feed, Ops, Next, At, RunTo, SpellItems, SignalItems, SpellTail, SignalTail, Spell, Signals,
        LeadText, LeadSignals, MemberText, MemberSignals, IsLiteral, KeyOk, AllSpace;
      var elems: seq<Json> := [];
      ghost var g, xs := gap, items;
      ghost var z, p := [RBRACKET] + r, [EndArray] + q;
      while true
        invariant Here(g + SpellItems(xs, z), Repeat(SkipSpace, |g|) + SignalItems(false, xs, p))
        invariant ItemsOk(false, xs) && (xs.Cons? ==> g == [])
        invariant ArrayMeaning(items, []) == ArrayMeaning(xs, elems)
        invariant xs == items || xs < items
        decreases xs
      {
        var op := NextItem(false, g, xs, r, q);
        if op == EndArray {
          break;
        }
        BackUp(op);
        AfterValue(false, xs, r, q);
        MemberSplit(false, xs, z, p);
        var elem := ValueInterface([], xs.value, xs.post + SpellTail(xs.rest, z),
                                   Repeat(SkipSpace, |xs.post|) + SignalTail(false, xs.rest, p));
        if !elem.Ok? {
          return elem;
        }
        elems := elems + [elem.v];
        op := AfterItem(false, xs, r, q);
        if op == EndArray {
          break;
        }
        if op != ArrayValue {
          return OutOfSync;
        }
        xs := xs.rest;
        g := [];
      }
      return Ok(JArray(elems));
    }

    /** A member's name, whose quote has just been read; returns the answer to the byte after it. */
    method ReadName(ghost text: bytes, ghost s: bytes, ghost q: seq<Op>) returns (name: Option<bytes>, op: Op)
      requires IsString(text) && 0 < off <= |data| && data[off - 1..] == text + s
      requires Here(text[1..] + s, Repeat(Continue, |text| - 1) + q) && q != [] && q[0] != Continue
      modifies this, scan
      ensures name == Unquote(text) && name.Some?
      ensures |s| == |q| && op == q[0] && Here(s[1..], q[1..])
    {
      hide Feed, Ops, Next;
      AtRun(data, off, Continue, text[1..], s, q);
      var start := off - 1;
      op := ScanWhile(Continue, off + |text| - 1);
      var item := data[start..off - 1];
      AtAfter(data, start, text, s, q);
      UnquotesString(text);
      name := UnquoteBytes(item);
    }

    /** The colon after a member's name, whose first byte after the name was answered with `op0`. */
    method ReadColon(op0: Op, ghost before: bytes, ghost s: bytes, ghost q: seq<Op>) returns (op: Op)
      requires op0 == if before == [] then ObjectKey else SkipSpace
      requires Here((before + ([COLON] + s))[1..], (Repeat(SkipSpace, |before|) + ([ObjectKey] + q))[1..])
      modifies this, scan
      ensures op == ObjectKey && Here(s, q)
    {
      hide Feed, Ops, Next;
      op := op0;
      Behead(COLON, s);
      assert ([ObjectKey] + q)[1..] == q;
      if op == SkipSpace {
        assert (before + ([COLON] + s))[1..] == before[1..] + ([COLON] + s);
        assert (Repeat(SkipSpace, |before|) + ([ObjectKey] + q))[1..]
            == Repeat(SkipSpace, |before| - 1) + ([ObjectKey] + q);
        AtRun(data, off, SkipSpace, before[1..], [COLON] + s, [ObjectKey] + q);
        op := ScanWhile(SkipSpace, off + |before| - 1);
      } else {
        assert before + ([COLON] + s) == [COLON] + s;
        assert Repeat(SkipSpace, 0) + ([ObjectKey] + q) == [ObjectKey] + q;
      }
    }

    /** A member whose opening quote has just been read, up to and including its value. */
    method MemberInterface(ghost xs: Items, ghost r: bytes, ghost q: seq<Op>, keys: set<bytes>)
      returns (name: bytes, val: Decoded)
      requires ItemsOk(true, xs) && xs.Cons? && Synced() && !scan.redo && 0 < off <= |data|
      requires At(data, off - 1, LeadText(xs, [RBRACE] + r), LeadSignals(true, xs, [EndObject] + q))
      modifies this, scan
      ensures val == if KeyName(xs.key) in keys then DuplicateKey else Answer(Meaning(xs.value))
      ensures val.Ok? ==> name == KeyName(xs.key)
      ensures val.Ok? ==> Here(xs.post + SpellTail(xs.rest, [RBRACE] + r),
                               Repeat(SkipSpace, |xs.post|) + SignalTail(true, xs.rest, [EndObject] + q))
      decreases xs, 0
    {
      hide Feed, Ops, Next, At, SpellTail, SignalTail, Spell, Signals,
        LeadText, LeadSignals, MemberText, MemberSignals, IsString;
      ghost var z, p := [RBRACE] + r, [EndObject] + q;
      ghost var s, a := MemberText(xs, z), MemberSignals(true, xs, p);
      name := [];
      MemberAt(data, off, xs, z, p);
      var u, op := ReadName(xs.key.text, xs.key.before + ([COLON] + (xs.key.after + s)),
                            Repeat(SkipSpace, |xs.key.before|)
                            + ([ObjectKey] + (Repeat(SkipSpace, |xs.key.after|) + a)));
      if u.None? {
        return name, OutOfSync;
      }
      name := u.value;
      if name in keys {
        return name, DuplicateKey;
      }
      op := ReadColon(op, xs.key.before, xs.key.after + s, Repeat(SkipSpace, |xs.key.after|) + a);
      if op != ObjectKey {
        return name, OutOfSync;
      }
      AfterValue(true, xs, r, q);
      MemberSplit(true, xs, z, p);
      val := ValueInterface(xs.key.after, xs.value, xs.post + SpellTail(xs.rest, z),
                            Repeat(SkipSpace, |xs.post|) + SignalTail(true, xs.rest, p));
    }

    /** The rest of an object whose brace has just been read. */
    method ObjectInterface(ghost gap: bytes, ghost items: Items, ghost r: bytes, ghost q: seq<Op>) returns (v: Decoded)
      requires TreeOk(Node(true, gap, items))
      requires Here(gap + SpellItems(items, [RBRACE] + r),
                    Repeat(SkipSpace, |gap|) + SignalItems(true, items, [EndObject] + q))
      modifies this, scan
      ensures v == Answer(Meaning(Node(true, gap, items)))
      ensures v.Ok? ==> Here(r, q) && off == |data| - |r|
      decreases items, 1
    {
      hide Feed, Ops, Next, At, RunTo, SpellItems, SignalItems, SpellTail, SignalTail, Spell, Signals,
        LeadText, LeadSignals, MemberText, MemberSignals, IsLiteral, KeyOk, AllSpace;
      var m: map<bytes, Json> := map[];
      var keys: set<bytes> := {};
      ghost var g, xs := gap, items;
      ghost var z, p := [RBRACE] + r, [EndObject] + q;
      while true
        invariant Here(g + SpellItems(xs, z), Repeat(SkipSpace, |g|) + SignalItems(true, xs, p))
        invariant ItemsOk(true, xs) && (xs.Cons? ==> g == []) && keys == m.Keys
        invariant ObjectMeaning(items, map[]) == ObjectMeaning(xs, m)
        invariant xs == items || xs < items
        decreases xs
      {
        var op := NextItem(true, g, xs, r, q);
        if op == EndObject {
          break;
        }
        if op != BeginLiteral {
          return OutOfSync;
        }
        var name, val := MemberInterface(xs, r, q, keys);
        if !val.Ok? {
          return val;
        }
        keys := keys + {name};
        m := m[name := val.v];
        op := AfterItem(true, xs, r, q);
        if op == EndObject {
          break;
        }
        if op != ObjectValue {
          return OutOfSync;
        }
        xs := xs.rest;
        g := [];
      }
      return Ok(JObject(m));
    }

    /**
     Skips the container whose bracket is at `off` and has been scanned already.  The invented closing
     bracket leaves the scanner where scanning the whole container would have left it.
     */
    method NextContainer(nextscan: Scanner) returns (item: bytes, ok: bool)
      requires Valid() && !scan.redo && nextscan != scan && off < |data| && data[off] in {LBRACE, LBRACKET}
      requires AtValue(Feed(START, data[..off]), [data[off]]) && scan.State() == Feed(START, data[..off + 1])
      modifies this, scan, nextscan
      ensures ok <==> FirstValue(data[old(off)..]).Some?
      ensures ok ==> |item| == FirstValue(data[old(off)..]).value && IsJson(item)
      ensures ok ==> off == old(off) + |item| && item == data[old(off)..off]
      ensures ok ==> Synced() && !scan.redo
    {
      hide Feed, Ops, Next, FirstValue, IsJson, AtValue;
      var c := data[off];
      var rest;
      item, rest, ok := NextValue(data[off..], nextscan);
      if !ok {
        return;
      }
      Skipped(data, off, item, rest);
      off := |data| - |rest|;
      var op := if c == LBRACE then RBRACE else RBRACKET;
      var _ := scan.Step(op);
    }
  }

  lemma Skipped(data: bytes, k: nat, item: bytes, rest: bytes)
    requires k < |data| && data[k] in {LBRACE, LBRACKET} && AtValue(Feed(START, data[..k]), [data[k]])
    requires data[k..] == item + rest && FirstValue(data[k..]) == Some(|item|)
    ensures k + |item| == |data| - |rest| && item == data[k..k + |item|]
    ensures Next(Feed(START, data[..k + 1]), if data[k] == LBRACE then RBRACE else RBRACKET).core
            == Feed(START, data[..k + |item|])
  {
    hide Feed, Ops, Next, Value, FirstValue, AtValue;
    Seam(item, rest);
    TakeSum(data, k, |item|);
    FirstContainer(data[k..], item, rest);
    OnlyFirst(Feed(START, data[..k]), item, [data[k]]);
    InventedClose(Feed(START, data[..k]), item);
    FeedAppend(START, data[..k], item);
    FeedSnoc(START, data, k);
  }

  lemma FirstContainer(s: bytes, item: bytes, rest: bytes)
    requires s == item + rest && FirstValue(s) == Some(|item|) && s != [] && s[0] in {LBRACE, LBRACKET}
    ensures item != [] && item[0] == s[0] && Value(item).Some? && Value(item).value.1 == []
  {
    hide Value, IsJson;
    FirstValueIsJson(s);
    Seam(item, rest);
    assert item[0..] == item;
  }

  lemma OnlyFirst(c: Core, s: bytes, s': bytes)
    requires s != [] && s' != [] && s[0] == s'[0] && AtValue(c, s')
    ensures AtValue(c, s)
  {}

  /** Closing a container right after its opening bracket ends where scanning all of it would. */
  lemma InventedClose(c: Core, item: bytes)
    requires item != [] && item[0] in {LBRACE, LBRACKET} && AtValue(c, item)
    requires Value(item).Some? && Value(item).value.1 == []
    ensures Safe(Next(c, item[0]).core)
    ensures Next(Next(c, item[0]).core, if item[0] == LBRACE then RBRACE else RBRACKET).core == Feed(c, item)
  {
    hide Feed, Ops, Container, Pop;
    var obj := item[0] == LBRACE;
    var c' := Push(c.Go(Step0(obj)), Inside(obj));
    TakeNext(c, item, c', Begin(obj));
    ScanContainerAt(obj, c', item[1..]);
    FeedNothing(Pop(c'));
    var z := [Close(obj)];
    ScanEmptyClose(obj, c', z);
    TakeOne(c', z);
    FeedNothing(Next(c', z[0]).core);
  }

  /**
   Decodes a whole text into an interface value: exactly the value the grammar gives it, a syntax
   error exactly when it is not JSON, a duplicate-key error exactly when some object repeats a key.
   */
  method Unmarshal(data: bytes) returns (v: Decoded, off: nat)
    ensures v == SyntaxError <==> !IsJson(data)
    ensures forall d: Doc | DocOk(d) && DocText(d) == data :: Decodes(d, v, off)
  {
    hide IsJson, DocOk, DocText, Decodes, Parse;
    var scan := new Scanner();
    var ok := CheckValid(data, scan);
    IsJsonParses(data);
    if !ok {
      NoDoc(data);
      return SyntaxError, 0;
    }
    v, off := UnmarshalValid(data);
    DecodesAll(data, v, off);
  }

  /** Decodes a text already known to be JSON; the offset ends just past its value. */
  method UnmarshalValid(data: bytes) returns (v: Decoded, off: nat)
    requires Parse(data).Some?
    ensures v == Answer(Meaning(Parse(data).value.tree))
    ensures v.Ok? ==> off == |data| - |Parse(data).value.post|
  {
    hide Feed, Ops, Next, At, Spell, Signals, Parse, Text, TreeOk;
    ghost var d := Parse(data).value;
    DocAt(data);
    var state := new DecodeState(data);
    v := state.ValueInterface(d.pre, d.tree, d.post, Repeat(End, |d.post|));
    off := state.off;
  }

  /** `v` is what `d` stands for, and `off` is just past its value. */
  ghost predicate Decodes(d: Doc, v: Decoded, off: nat) {
    && v == Answer(Meaning(d.tree)) && (v == DuplicateKey <==> RepeatsKey(d.tree))
    && (v.Ok? ==> off == |d.pre| + |Text(d.tree)|)
  }

  lemma NoDoc(data: bytes)
    requires !IsJson(data)
    ensures forall d: Doc :: !(DocOk(d) && DocText(d) == data)
  {}

  lemma DocAt(data: bytes)
    requires Parse(data).Some?
    ensures var d := Parse(data).value;
            && TreeOk(d.tree) && |data| == |d.pre| + |Text(d.tree)| + |d.post|
            && At(data, 0, d.pre + Spell(d.tree, d.post),
                  Repeat(SkipSpace, |d.pre|) + Signals(d.tree, Repeat(End, |d.post|)))
  {
    hide Ops, Parse, Spell, Signals, TreeOk;
    var d := Parse(data).value;
    ParseSound(data);
    SignalsExactly(data);
    SpellSplit(d.tree, d.post);
  }

  lemma DecodesAll(data: bytes, v: Decoded, off: nat)
    requires Parse(data).Some? && v == Answer(Meaning(Parse(data).value.tree))
    requires v.Ok? ==> off == |data| - |Parse(data).value.post|
    ensures forall d: Doc | DocOk(d) && DocText(d) == data :: Decodes(d, v, off)
  {
    hide Parse, Spell, Signals, Meaning, RepeatsKey, Text;
    forall d: Doc | DocOk(d) && DocText(d) == data ensures Decodes(d, v, off) {
      ParseExact(data, d);
      NoMeaning(d.tree);
      SpellSplit(d.tree, d.post);
    }
  }

  /** From `off` up to `k`, and no further, every answer is `op`. */
  ghost predicate RunTo(data: bytes, off: nat, op: Op, k: nat) {
    && off <= k <= |data|
    && (forall j | off <= j < k :: Ops(START, data)[j] == op)
    && (k < |data| ==> Ops(START, data)[k] != op)
  }

  lemma AtRun(data: bytes, off: nat, op: Op, w: bytes, s: bytes, q: seq<Op>)
    requires At(data, off, w + s, Repeat(op, |w|) + q) && (q != [] ==> q[0] != op)
    ensures RunTo(data, off, op, off + |w|) && |s| == |q| && At(data, off + |w|, s, q)
    ensures q == [] ==> off + |w| == |data|
    ensures q != [] ==>
              off + |w| < |data| && Ops(START, data)[off + |w|] == q[0] && At(data, off + |w| + 1, s[1..], q[1..])
  {
    hide Ops, At;
    AtPast(data, off, w, s, Repeat(op, |w|), q);
    var k := off + |w|;
    AtLength(data, k, s, q);
    forall j | off <= j < k ensures Ops(START, data)[j] == op { assert Repeat(op, |w|)[j - off] == op; }
    if q != [] { AtNext(data, k, s, q); }
  }

  lemma AtLength(data: bytes, k: nat, s: bytes, q: seq<Op>)
    requires At(data, k, s, q)
    ensures |s| == |q| && k + |s| == |data| == |Ops(START, data)|
  {}

  lemma AtNext(data: bytes, k: nat, s: bytes, q: seq<Op>)
    requires At(data, k, s, q) && q != []
    ensures At(data, k + 1, s[1..], q[1..]) && s[0] == data[k] && q[0] == Ops(START, data)[k]
  {
    hide Ops;
    assert data[k..][1..] == data[k + 1..];
    assert Ops(START, data)[k..][1..] == Ops(START, data)[k + 1..];
  }

  // Positions inside a tree.

  lemma FirstSignal(t: Tree, r: bytes, q: seq<Op>)
    requires TreeOk(t)
    ensures Signals(t, q) != [] && Spell(t, r) != []
    ensures Signals(t, q)[0] == if t.Leaf? then BeginLiteral else Begin(t.obj)
  {
    if t.Leaf? { LiteralHead(t.text); }
  }

  /** Just past the first byte of a value. */
  lemma TreeAt(data: bytes, k: nat, t: Tree, r: bytes, q: seq<Op>)
    requires TreeOk(t) && 0 < k && At(data, k - 1, Spell(t, r), Signals(t, q))
    ensures t.Leaf? ==>
              && t.text != [] && data[k - 1..] == t.text + r
              && At(data, k, t.text[1..] + r, Repeat(Continue, |t.text| - 1) + q)
    ensures t.Node? ==>
              At(data, k, t.gap + SpellItems(t.items, [Close(t.obj)] + r),
                 Repeat(SkipSpace, |t.gap|) + SignalItems(t.obj, t.items, [Finish(t.obj)] + q))
  {
    hide Ops;
    FirstSignal(t, r, q);
    AtNext(data, k - 1, Spell(t, r), Signals(t, q));
    if t.Leaf? {
      LiteralHead(t.text);
      assert (t.text + r)[1..] == t.text[1..] + r;
    } else {
      Behead(Open(t.obj), t.gap + SpellItems(t.items, [Close(t.obj)] + r));
    }
  }

  lemma QuotedIsString(text: bytes)
    requires IsLiteral(text) && text != [] && text[0] == QUOTE
    ensures IsString(text)
  {
    LiteralHead(text);
  }

  lemma AtAfter(data: bytes, start: nat, text: bytes, r: bytes, q: seq<Op>)
    requires start < |data| && text != [] && data[start..] == text + r
    requires At(data, start + 1, text[1..] + r, Repeat(Continue, |text| - 1) + q)
    ensures start + |text| <= |data| && data[start..start + |text|] == text
    ensures At(data, start + |text|, r, q)
  {
    hide Ops;
    AtPast(data, start + 1, text[1..], r, Repeat(Continue, |text| - 1), q);
    assert data[start..start + |text|] == data[start..][..|text|];
  }

  /** The white space before the next item, or before the closing bracket of an empty container. */
  function Lead(g: bytes, xs: Items): bytes { if xs.Nil? then g else xs.pre }

  function LeadText(xs: Items, z: bytes): bytes {
    if xs.Nil? then z else SpellKey(xs.key, Spell(xs.value, xs.post + SpellTail(xs.rest, z)))
  }

  function LeadSignals(obj: bool, xs: Items, p: seq<Op>): seq<Op> {
    if xs.Nil? then p
    else SignalKey(xs.key, Signals(xs.value, Repeat(SkipSpace, |xs.post|) + SignalTail(obj, xs.rest, p)))
  }

  function MemberText(xs: Items, z: bytes): bytes
    requires xs.Cons?
  {
    Spell(xs.value, xs.post + SpellTail(xs.rest, z))
  }

  function MemberSignals(obj: bool, xs: Items, p: seq<Op>): seq<Op>
    requires xs.Cons?
  {
    Signals(xs.value, Repeat(SkipSpace, |xs.post|) + SignalTail(obj, xs.rest, p))
  }

  lemma LeadSignal(obj: bool, xs: Items, z: bytes, p: seq<Op>)
    requires ItemsOk(obj, xs) && p != [] && p[0] == Finish(obj)
    ensures var a := LeadSignals(obj, xs, p);
            a != [] && a[0] == (if xs.Nil? then Finish(obj)
                                else if obj || xs.value.Leaf? then BeginLiteral else Begin(xs.value.obj))
  {
    if xs.Cons? {
      FirstSignal(xs.value, z, Repeat(SkipSpace, |xs.post|) + SignalTail(obj, xs.rest, p));
    }
  }

  /** The next item, where it begins; or just past the closing bracket of an empty container. */
  lemma ItemsAt(data: bytes, k: nat, obj: bool, g: bytes, xs: Items, r: bytes, q: seq<Op>)
    requires ItemsOk(obj, xs) && (xs.Cons? ==> g == [])
    requires At(data, k, g + SpellItems(xs, [Close(obj)] + r),
                Repeat(SkipSpace, |g|) + SignalItems(obj, xs, [Finish(obj)] + q))
    ensures var z, p := [Close(obj)] + r, [Finish(obj)] + q;
            var n := k + |Lead(g, xs)|;
            && RunTo(data, k, SkipSpace, n) && n < |data|
            && Ops(START, data)[n] == (if xs.Nil? then Finish(obj)
                                       else if obj || xs.value.Leaf? then BeginLiteral else Begin(xs.value.obj))
            && (xs.Nil? ==> At(data, n + 1, r, q) && n + 1 == |data| - |r|)
            && (xs.Cons? ==> At(data, n, LeadText(xs, z), LeadSignals(obj, xs, p)))
            && (xs.Cons? && !obj ==>
                  At(data, n, [] + MemberText(xs, z), Repeat(SkipSpace, 0) + MemberSignals(false, xs, p)))
  {
    hide Ops, RunTo, At, SpellItems, SignalItems, LeadText, LeadSignals, MemberText, MemberSignals,
      ItemsOk, TreeOk, Repeat;
    var z, p := [Close(obj)] + r, [Finish(obj)] + q;
    if xs.Nil? {
      NilForm(obj, xs, z, p);
      EndAt(data, k, obj, g, r, q);
    } else {
      BeheadOp(Finish(obj), q);
      ConsForm(obj, g, xs, z, p);
      ItemAt(data, k, obj, xs.pre, xs, z, p);
      if !obj { ElementForm(xs, z, p); }
    }
  }

  lemma ItemAt(data: bytes, k: nat, obj: bool, w: bytes, xs: Items, z: bytes, p: seq<Op>)
    requires ItemsOk(obj, xs) && xs.Cons? && p != [] && p[0] == Finish(obj)
    requires At(data, k, w + LeadText(xs, z), Repeat(SkipSpace, |w|) + LeadSignals(obj, xs, p))
    ensures var n := k + |w|;
            && RunTo(data, k, SkipSpace, n) && n < |data| && At(data, n, LeadText(xs, z), LeadSignals(obj, xs, p))
            && Ops(START, data)[n] == if obj || xs.value.Leaf? then BeginLiteral else Begin(xs.value.obj)
  {
    hide Ops, RunTo, At, LeadText, LeadSignals, ItemsOk, TreeOk, Repeat;
    LeadSignal(obj, xs, z, p);
    AtRun(data, k, SkipSpace, w, LeadText(xs, z), LeadSignals(obj, xs, p));
  }

  lemma EndAt(data: bytes, k: nat, obj: bool, w: bytes, r: bytes, q: seq<Op>)
    requires At(data, k, w + ([Close(obj)] + r), Repeat(SkipSpace, |w|) + ([Finish(obj)] + q))
    ensures var n := k + |w|;
            && RunTo(data, k, SkipSpace, n) && n < |data| && Ops(START, data)[n] == Finish(obj)
            && At(data, n + 1, r, q) && n + 1 == |data| - |r|
  {
    hide Ops, RunTo, At, Repeat;
    BeheadOp(Finish(obj), q);
    Behead(Close(obj), r);
    AtRun(data, k, SkipSpace, w, [Close(obj)] + r, [Finish(obj)] + q);
    AtLength(data, k + |w| + 1, r, q);
  }

  lemma BeheadOp(op: Op, q: seq<Op>)
    ensures ([op] + q)[0] == op && ([op] + q)[1..] == q
  {}

  lemma NilForm(obj: bool, xs: Items, z: bytes, p: seq<Op>)
    requires xs.Nil?
    ensures SpellItems(xs, z) == z && SignalItems(obj, xs, p) == p
  {}

  lemma ConsForm(obj: bool, g: bytes, xs: Items, z: bytes, p: seq<Op>)
    requires xs.Cons? && g == []
    ensures g + SpellItems(xs, z) == xs.pre + LeadText(xs, z)
    ensures Repeat(SkipSpace, |g|) + SignalItems(obj, xs, p) == Repeat(SkipSpace, |xs.pre|) + LeadSignals(obj, xs, p)
  {
    var s, a := SpellItems(xs, z), SignalItems(obj, xs, p);
    assert [] + s == s && Repeat(SkipSpace, 0) + a == a;
  }

  lemma ElementForm(xs: Items, z: bytes, p: seq<Op>)
    requires ItemsOk(false, xs) && xs.Cons?
    ensures LeadText(xs, z) == [] + MemberText(xs, z)
    ensures LeadSignals(false, xs, p) == Repeat(SkipSpace, 0) + MemberSignals(false, xs, p)
  {
    var t, b := MemberText(xs, z), MemberSignals(false, xs, p);
    assert [] + t == t && Repeat(SkipSpace, 0) + b == b;
  }

  /** After a value: the white space, then the closing bracket or a comma. */
  lemma TailAt(data: bytes, k: nat, obj: bool, post: bytes, rest: Items, r: bytes, q: seq<Op>)
    requires ItemsOk(obj, rest)
    requires var z, p := [Close(obj)] + r, [Finish(obj)] + q;
             At(data, k, post + SpellTail(rest, z), Repeat(SkipSpace, |post|) + SignalTail(obj, rest, p))
    ensures var n := k + |post|;
            var z, p := [Close(obj)] + r, [Finish(obj)] + q;
            && RunTo(data, k, SkipSpace, n) && n < |data|
            && Ops(START, data)[n] == (if rest.Nil? then Finish(obj) else Between(obj))
            && (rest.Nil? ==> At(data, n + 1, r, q) && n + 1 == |data| - |r|)
            && (rest.Cons? ==>
                  At(data, n + 1, [] + SpellItems(rest, z), Repeat(SkipSpace, 0) + SignalItems(obj, rest, p)))
  {
    hide Ops, RunTo;
    var z, p := [Close(obj)] + r, [Finish(obj)] + q;
    AtRun(data, k, SkipSpace, post, SpellTail(rest, z), SignalTail(obj, rest, p));
    if rest.Nil? {
      Behead(Close(obj), r);
      assert p[1..] == q;
    } else {
      var s, a := SpellItems(rest, z), SignalItems(obj, rest, p);
      Behead(COMMA, s);
      assert ([Between(obj)] + a)[1..] == a;
      assert [] + s == s && Repeat(SkipSpace, 0) + a == a;
    }
  }

  lemma MemberSplit(obj: bool, xs: Items, z: bytes, p: seq<Op>)
    requires xs.Cons?
    ensures MemberText(xs, z) == Spell(xs.value, xs.post + SpellTail(xs.rest, z))
    ensures MemberSignals(obj, xs, p) == Signals(xs.value, Repeat(SkipSpace, |xs.post|) + SignalTail(obj, xs.rest, p))
  {}

  /** Just past the quote that opens a member's name. */
  lemma MemberAt(data: bytes, k: nat, xs: Items, z: bytes, p: seq<Op>)
    requires ItemsOk(true, xs) && xs.Cons? && 0 < k
    requires At(data, k - 1, LeadText(xs, z), LeadSignals(true, xs, p))
    ensures var u := xs.key.before + ([COLON] + (xs.key.after + MemberText(xs, z)));
            var b := Repeat(SkipSpace, |xs.key.after|) + MemberSignals(true, xs, p);
            var a := Repeat(SkipSpace, |xs.key.before|) + ([ObjectKey] + b);
            && data[k - 1..] == xs.key.text + u
            && At(data, k, xs.key.text[1..] + u, Repeat(Continue, |xs.key.text| - 1) + a)
            && a[0] == (if xs.key.before == [] then ObjectKey else SkipSpace)
  {
    hide Ops, LeadText, LeadSignals, MemberText, MemberSignals;
    var u := xs.key.before + ([COLON] + (xs.key.after + MemberText(xs, z)));
    var b := Repeat(SkipSpace, |xs.key.after|) + MemberSignals(true, xs, p);
    var a := Repeat(SkipSpace, |xs.key.before|) + ([ObjectKey] + b);
    LeadsWithName(xs, z, p);
    var q := Repeat(Continue, |xs.key.text| - 1) + a;
    AtNext(data, k - 1, xs.key.text + u, [BeginLiteral] + q);
    Past(xs.key.text, u);
    assert ([BeginLiteral] + q)[1..] == q;
  }

  lemma LeadsWithName(xs: Items, z: bytes, p: seq<Op>)
    requires ItemsOk(true, xs) && xs.Cons?
    ensures xs.key.text != []
    ensures LeadText(xs, z) == xs.key.text + (xs.key.before + ([COLON] + (xs.key.after + MemberText(xs, z))))
    ensures var b := Repeat(SkipSpace, |xs.key.after|) + MemberSignals(true, xs, p);
            LeadSignals(true, xs, p) ==
            [BeginLiteral] + (Repeat(Continue, |xs.key.text| - 1)
                              + (Repeat(SkipSpace, |xs.key.before|) + ([ObjectKey] + b)))
  {
    hide Spell, Signals, TreeOk;
  }

  /** What follows a value inside a container never continues a literal. */
  lemma AfterValue(obj: bool, xs: Items, r: bytes, q: seq<Op>)
    requires xs.Cons?
    ensures var a := Repeat(SkipSpace, |xs.post|) + SignalTail(obj, xs.rest, [Finish(obj)] + q);
            a != [] && a[0] != Continue
    ensures xs.post + SpellTail(xs.rest, [Close(obj)] + r) != []
  {}
}

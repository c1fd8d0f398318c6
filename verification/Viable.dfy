/**
 The scanner reports an error at the first byte after which nothing could make the input a JSON text, and
 the stream decoder tells a syntax error from a stream that merely ends too early in the same way.
 */
module Viable {
  import opened Bytes
  import opened Grammar
  import opened Parser
  import opened ScanCore
  import opened ScanGrammar
  import opened Validate
  import opened Tokens

  // From every state without an error, some bytes lead to the end of the top-level value.

  function Cost(p: ParseState): nat { if p.InKey? then 10 else 5 }

  function StackCost(stack: seq<ParseState>): nat {
    if stack == [] then 0 else StackCost(stack[..|stack| - 1]) + Cost(stack[|stack| - 1])
  }

  function StepCost(p: Step): nat {
    match p
    case EndTop => 0
    case EndValue | Int1 | Int0 | Dot0 | Exp0 | BeginValueOrEmpty | BeginStringOrEmpty => 1
    case InString | Neg | Dot | Exp | ExpSign | Tru | Fals | Nul => 2
    case BeginValue | BeginString | InStringEsc | InStringEscU123 | Tr | Fal | Nu => 3
    case InStringEscU12 | T | Fa | N => 4
    case _ => 5 + if p.InStringEscU? then 1 else 0
  }

  function Remaining(s: Core): nat { StackCost(s.stack) + StepCost(s.step) }

  /** A byte that brings the scan nearer to the end of the top-level value. */
  function Onward(s: Core): byte {
    match s.step
    case BeginValueOrEmpty => RBRACKET
    case BeginStringOrEmpty => RBRACE
    case BeginValue | BeginString | InString | InStringEsc => QUOTE
    case T => 0x72
    case Tr | N => 0x75
    case Tru | Fals => 0x65
    case F => 0x61
    case Fa | Nu | Nul => 0x6C
    case Fal => 0x73
    case EndValue | Int1 | Int0 | Dot0 | Exp0 => if s.stack == [] then SPACE else Closer(s.stack[|s.stack| - 1])
    case _ => ZERO
  }

  function Closer(top: ParseState): byte {
    match top
    case InKey => COLON
    case InValue => RBRACE
    case InArray => RBRACKET
  }

  lemma OnwardCloses(s: Core, c: byte)
    requires !s.failed && !s.endTop && s.stack != [] && c == Closer(s.stack[|s.stack| - 1])
    ensures var o := AtEndValue(s, c);
            !o.core.failed && Remaining(o.core) < StackCost(s.stack) + 1
  {
    var last := |s.stack| - 1;
    if s.stack[last].InKey? {
      var t := s.stack[..last] + [InValue];
      assert t[..last] == s.stack[..last];
    }
  }

  lemma OnwardStep(s: Core)
    requires Safe(s) && !s.failed && !s.endTop
    ensures var o := Next(s, Onward(s));
            Safe(o.core) && !o.core.failed && Remaining(o.core) < Remaining(s)
  {
    NextKept(s, Onward(s));
    if s.step.BeginStringOrEmpty? {
      OnwardFromBrace(s);
    } else if EndsValue(s.step) || s.step.BeginValueOrEmpty? {
      OnwardFromEnd(s);
    } else {
      OnwardInside(s);
    }
  }

  predicate EndsValue(p: Step) {
    p.EndValue? || p.Int1? || p.Int0? || p.Dot0? || p.Exp0?
  }

  lemma OnwardFromBrace(s: Core)
    requires Safe(s) && !s.failed && !s.endTop && s.step.BeginStringOrEmpty?
    ensures var o := Next(s, Onward(s)); !o.core.failed && Remaining(o.core) < Remaining(s)
  {
    hide AtEndValue;
    var t := SetTop(s, InValue);
    assert t.stack[..|t.stack| - 1] == s.stack[..|s.stack| - 1];
    OnwardCloses(t, RBRACE);
  }

  lemma OnwardFromEnd(s: Core)
    requires Safe(s) && !s.failed && !s.endTop && (EndsValue(s.step) || s.step.BeginValueOrEmpty?)
    ensures var o := Next(s, Onward(s)); !o.core.failed && Remaining(o.core) < Remaining(s)
  {
    hide AtEndValue;
    if s.stack == [] { EndsHere(s); } else { OnwardCloses(s, Closer(s.stack[|s.stack| - 1])); }
  }

  lemma OnwardInside(s: Core)
    requires Safe(s) && !s.failed && !s.endTop
    requires !s.step.BeginStringOrEmpty? && !EndsValue(s.step) && !s.step.BeginValueOrEmpty?
    ensures var o := Next(s, Onward(s)); !o.core.failed && Remaining(o.core) < Remaining(s)
  {
    hide AtEndValue, StackCost;
  }

  lemma EndsHere(s: Core)
    requires s.stack == [] && !s.failed
    ensures AtEndValue(s, SPACE) == Out(s.(step := EndTop, endTop := true), End)
  {}

  /** The bytes that complete the top-level value. */
  function Completion(s: Core): bytes
    requires Safe(s) && !s.failed
    decreases Remaining(s)
  {
    if s.endTop then []
    else OnwardStep(s); [Onward(s)] + Completion(Next(s, Onward(s)).core)
  }

  lemma {:induction false} Completes(s: Core)
    requires Safe(s) && !s.failed
    ensures Feed(s, Completion(s)).endTop && !Feed(s, Completion(s)).failed
    decreases Remaining(s)
  {
    hide Next, Onward, Remaining, Safe;
    if !s.endTop {
      OnwardStep(s);
      var t := Next(s, Onward(s)).core;
      Completes(t);
      Behead(Onward(s), Completion(t));
    }
  }

  /** The scan of a prefix fails exactly when no continuation makes it a JSON text. */
  lemma FailsExactly(u: bytes)
    ensures Feed(START, u).failed <==> forall v: bytes :: !IsJson(u + v)
  {
    hide Feed, IsJson, Completion;
    if Feed(START, u).failed {
      forall v: bytes ensures !IsJson(u + v) {
        FeedAppend(START, u, v);
        FeedSticky(Feed(START, u), v);
        AcceptsExactly(u + v);
      }
    } else {
      var v := Completion(Feed(START, u));
      Completes(Feed(START, u));
      FeedAppend(START, u, v);
      AcceptsExactly(u + v);
    }
  }

  // Where the first value ends.

  lemma SpaceAfterEnd(s: Core, c: byte)
    requires Safe(s) && !Next(s, c).core.failed && (s.endTop || Next(s, c).op == End)
    ensures IsSpace(c)
  {
    hide IsSpace;
    NextKept(s, c);
  }

  lemma EndedByBracket(data: bytes, i: nat)
    requires FirstValue(data).Some? && Value(data[Spaces(data)..]).value.0.Node? && FirstValue(data).value <= i < |data|
    ensures Feed(START, data[..i]).endTop
  {
    hide Feed, Ops, Next, Value, FirstValue;
    FirstNode(data);
    FlagsStay(START, data, FirstValue(data).value, i);
  }

  lemma EndedByByte(data: bytes, i: nat)
    requires FirstValue(data).Some? && Value(data[Spaces(data)..]).value.0.Leaf? && FirstValue(data).value <= i < |data|
    ensures Feed(START, data[..i]).endTop || Ops(START, data)[i] == End
  {
    hide Feed, Ops, Next, Value, FirstValue;
    var n := FirstValue(data).value;
    FirstLeaf(data, n);
    if n < i {
      FeedSnoc(START, data, n);
      NextKept(Feed(START, data[..n]), data[n]);
      FlagsStay(START, data, n + 1, i);
    }
  }

  lemma EndedBy(data: bytes, i: nat)
    requires FirstValue(data).Some? && FirstValue(data).value <= i < |data|
    ensures Feed(START, data[..i]).endTop || Ops(START, data)[i] == End
  {
    hide Feed, Ops, Next, Value, Safe;
    if Value(data[Spaces(data)..]).value.0.Node? { EndedByBracket(data, i); } else { EndedByByte(data, i); }
  }

  lemma OnlySpaceAfter(data: bytes, m: nat, i: nat)
    requires FirstValue(data).Some? && FirstValue(data).value <= i < m <= |data| && IsJson(data[..m])
    ensures IsSpace(data[i])
  {
    hide Feed, Ops, Next, IsJson, FirstValue, IsSpace;
    AcceptsExactly(data[..m]);
    FlagsStay(START, data, i + 1, m);
    EndedBy(data, i);
    FeedSnoc(START, data, i);
    SpaceAfterEnd(Feed(START, data[..i]), data[i]);
  }

  lemma SpaceMayFollow(data: bytes, m: nat)
    requires FirstValue(data).Some? && FirstValue(data).value <= m <= |data|
    requires AllSpace(data[FirstValue(data).value..m])
    ensures IsJson(data[..m])
  {
    hide Value, Spell, TreeOk, Parse, AllSpace;
    var n := FirstValue(data).value;
    FirstValueIsJson(data);
    ParseSound(data[..n]);
    var d := Parse(data[..n]).value;
    var e := Doc(d.pre, d.tree, data[n..m]);
    SpellSplit(d.tree, data[n..m]);
    Assoc(d.pre, Text(d.tree), data[n..m]);
    assert data[..m] == data[..n] + data[n..m];
    assert DocOk(e) && DocText(e) == data[..m];
  }

  /** No longer text at the front is JSON, except for white space after the first value. */
  lemma FirstIsLongest(data: bytes, m: nat)
    requires FirstValue(data).Some? && FirstValue(data).value <= m <= |data|
    ensures IsJson(data[..m]) <==> AllSpace(data[FirstValue(data).value..m])
  {
    hide IsJson, FirstValue, IsSpace;
    var n := FirstValue(data).value;
    if IsJson(data[..m]) {
      forall i | 0 <= i < m - n ensures IsSpace(data[n..m][i]) { OnlySpaceAfter(data, m, n + i); }
    }
    if AllSpace(data[n..m]) { SpaceMayFollow(data, m); }
  }

  // What the stream decoder reports.

  /** While no value is complete, a failed scan and an error answer are the same. */
  lemma FailedAnswer(u: bytes)
    requires FirstValue(u).None?
    ensures Failed in Ops(START, u) <==> Feed(START, u).failed
  {
    hide Feed, Ops, Next, FirstValue;
    if Failed in Ops(START, u) {
      var i :| 0 <= i < |u| && Ops(START, u)[i] == Failed;
      FeedSnoc(START, u, i);
      NextKept(Feed(START, u[..i]), u[i]);
      FlagsStay(START, u, i + 1, |u|);
      assert u[..|u|] == u;
    } else {
      assert u[..|u|] == u;
      NeverFailed(u, |u|);
    }
  }

  lemma {:induction false} NeverFailed(u: bytes, i: nat)
    requires FirstValue(u).None? && Failed !in Ops(START, u) && i <= |u|
    ensures !Feed(START, u[..i]).failed
    decreases i
  {
    hide Feed, Ops, FirstValue;
    if i == 0 {
      assert u[..0] == [];
      FeedNothing(START);
    } else {
      NeverFailed(u, i - 1);
      NoFirstValue(u, i);
      FeedSnoc(START, u, i - 1);
      assert Ops(START, u)[i - 1] in Ops(START, u);
      NoFailure(Feed(START, u[..i - 1]), u[i - 1]);
    }
  }

  /** A first value that ends inside `u` is there whatever follows `u`. */
  lemma InsideStays(u: bytes, v: bytes)
    requires FirstValue(u).None? && FirstValue(u + v).Some?
    ensures FirstValue(u + v).value >= |u|
  {
    hide Feed, Ops, Next, Value;
    var d := u + v;
    var n := FirstValue(d).value;
    if n < |u| {
      assert d[..n + 1] == u[..n + 1] && d[..n] == u[..n];
      if Value(d[Spaces(d)..]).value.0.Node? {
        FirstNode(d);
        NoFirstValue(u, n);
      } else {
        FirstLeaf(d, n);
        FeedSnoc(START, d, n);
        NextKept(Feed(START, d[..n]), d[n]);
        NoFirstValue(u, n + 1);
      }
    }
  }

  /** Without a value in `u`, the scan of `u` fails exactly when no continuation brings one. */
  lemma NoValueExactly(u: bytes)
    requires FirstValue(u).None?
    ensures Failed in Ops(START, u) <==> forall v: bytes :: FirstValue(u + v).None?
  {
    hide Feed, Ops, FirstValue, IsJson;
    FailedAnswer(u);
    FailsExactly(u);
    if Failed in Ops(START, u) {
      forall v: bytes ensures FirstValue(u + v).None? {
        if FirstValue(u + v).Some? {
          InsideStays(u, v);
          var n := FirstValue(u + v).value;
          assert (u + v)[..n] == u + v[..n - |u|];
          FirstValueIsJson(u + v);
        }
      }
    } else {
      var v: bytes :| IsJson(u + v);
      JsonHasValue(u + v);
    }
  }

  lemma JsonHasValue(s: bytes)
    requires IsJson(s)
    ensures FirstValue(s).Some?
  {
    hide Value;
    IsJsonParses(s);
  }

  lemma BlankHasNone(u: bytes)
    requires AllSpace(u)
    ensures FirstValue(u).None? && FirstValue(u + [ZERO]).Some?
  {
    hide Value;
    SpacesOf(u, []);
    assert u + [] == u && u[|u|..] == [];
    assert Value([]) == None by { NoValueInNothing(); }
    var d := Doc(u, Leaf([ZERO]), []);
    ZeroLiteral();
    assert Spell(d.tree, []) == [ZERO];
    assert DocOk(d) && DocText(d) == u + [ZERO];
    JsonHasValue(u + [ZERO]);
  }

  lemma NoValueInNothing()
    ensures Value([]) == None
  {}

  lemma ZeroLiteral()
    ensures IsLiteral([ZERO])
  {
    assert NumberParts([ZERO], [], [ZERO], [], []);
  }

  lemma WholeNeverFails(u: bytes)
    requires FirstValue(u) == Some(|u|)
    ensures Failed !in Ops(START, u)
  {
    hide Feed, Ops, FirstValue;
    WholeAccepted(u);
    if Failed in Ops(START, u) {
      var i :| 0 <= i < |u| && Ops(START, u)[i] == Failed;
      EarlyError(u, i);
    }
  }

  /**
   Reading a value reports a syntax error exactly when no further bytes could bring a value.  At the end of
   a stream it reports an unexpected end exactly when they could and something is there, and the end itself
   exactly when nothing but white space is there; a reader's own error is passed on whenever it could.
   */
  lemma ReadErrors(u: bytes, fault: Fault)
    ensures var o := ReadOutcome(u, fault);
            && (o == Stopped(Syntax) <==> forall v: bytes :: FirstValue(u + v).None?)
            && (fault.Eof? ==>
                  && (o == Stopped(Reading(Eof)) <==> AllSpace(u))
                  && (o == Stopped(UnexpectedEof) <==>
                      FirstValue(u).None? && !AllSpace(u) && exists v: bytes :: FirstValue(u + v).Some?))
            && (fault.Broken? ==>
                  (o == Stopped(Reading(fault)) <==>
                   && (exists v: bytes :: FirstValue(u + v).Some?)
                   && (FirstValue(u).Some? ==> OpenEnded(u))))
  {
    hide Ops, FirstValue, AllSpace, Value;
    assert u + [] == u;
    if FirstValue(u).None? { NoValueExactly(u); } else if OpenEnded(u) { WholeNeverFails(u); }
    if AllSpace(u) { BlankHasNone(u); }
  }
}

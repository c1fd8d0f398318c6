/**
 `Token` and `Decode` accept nothing but JSON: as long as no call is refused, the decoder's token state is
 the state of the scanner on the bytes consumed so far.
 */
module TokenSound {
  import opened Bytes
  import opened Grammar
  import opened Parser
  import opened ScanCore
  import opened ScanLiteral
  import opened ScanGrammar
  import opened Validate
  import opened Values
  import opened Tokens
  import opened TokenTree

  // The scanner state that a token state stands for.

  function ParseOf(s: TokenState): ParseState {
    match s
    case ArrayStart | ArrayElem | ArrayComma => InArray
    case ObjectStart | ObjectName | ObjectColon => InKey
    case TopValue | ObjectMember | ObjectComma => InValue
  }

  function StepOf(s: TokenState): Step {
    match s
    case TopValue | ArrayElem | ObjectMember => BeginValue
    case ArrayStart => BeginValueOrEmpty
    case ObjectStart => BeginStringOrEmpty
    case ObjectName => BeginString
    case ArrayComma | ObjectColon | ObjectComma => EndValue
  }

  /** One parse state for each open container. */
  function Parses(m: Machine): seq<ParseState> {
    seq(|m.stack|, i requires 0 <= i < |m.stack| => ParseOf(States(m)[i + 1]))
  }

  function Shadow(m: Machine): Core {
    Core(StepOf(m.state), Parses(m), false, false)
  }

  /** The same, once a value has been read: back at the top level, the scan is at the end of that value. */
  function ShadowAfter(m: Machine): Core {
    if m.stack == [] then START.Go(EndValue) else Shadow(m)
  }

  lemma ShadowSkips(m: Machine)
    requires Sound(m)
    ensures Skips(Shadow(m))
    ensures m.stack == [] ==> m.state.TopValue? && Shadow(m) == START
    ensures m.stack != [] ==> !m.state.TopValue? && Parses(m)[|m.stack| - 1] == ParseOf(m.state)
  {
    if m.stack == [] {
      assert States(m)[0].TopValue?;
      assert Parses(m) == [];
    } else {
      var n := |m.stack|;
      assert States(m)[n].TopValue? <==> n == 0;
      assert States(m)[n] == m.state;
      ParsesAt(m, n - 1);
    }
  }

  lemma ParsesAt(m: Machine, i: nat)
    requires i < |m.stack|
    ensures Parses(m)[i] == ParseOf(if i + 1 < |m.stack| then m.stack[i + 1] else m.state)
  {
    assert States(m)[i + 1] == if i + 1 < |m.stack| then m.stack[i + 1] else m.state;
  }

  lemma ParsesPush(m: Machine, s: TokenState, u: bytes)
    ensures Parses(Inner(m, s, u)) == Parses(m) + [ParseOf(s)]
  {
    var p := Inner(m, s, u);
    forall i: nat | i < |p.stack| ensures Parses(p)[i] == (Parses(m) + [ParseOf(s)])[i] {
      ParsesAt(p, i);
      if i < |m.stack| { ParsesAt(m, i); }
    }
  }

  lemma ParsesSame(m: Machine, p: Machine)
    requires p.stack == m.stack && m.stack != []
    ensures Parses(p) == Parses(m)[..|m.stack| - 1] + [ParseOf(p.state)]
  {
    forall i: nat | i < |p.stack| ensures Parses(p)[i] == (Parses(m)[..|m.stack| - 1] + [ParseOf(p.state)])[i] {
      ParsesAt(p, i);
      ParsesAt(m, i);
    }
  }

  lemma ParsesPop(m: Machine, p: Machine)
    requires Sound(m) && m.stack != [] && p.stack == m.stack[..|m.stack| - 1]
    requires p.state == ValueEnd(m.stack[|m.stack| - 1])
    ensures Parses(p) == Parses(m)[..|m.stack| - 1]
  {
    var top := |m.stack| - 1;
    forall i: nat | i < top ensures Parses(p)[i] == Parses(m)[i] {
      ParsesAt(p, i);
      ParsesAt(m, i);
    }
  }

  // Calls.

  /** Scanning on from `m` is scanning on from `p`, where a value has been read or a container entered. */
  ghost predicate Follows(m: Machine, p: Machine) {
    Safe(Shadow(m)) && Safe(ShadowAfter(p)) &&
    Agree(Feed(Shadow(m), m.unread), Feed(ShadowAfter(p), p.unread), p.unread)
  }

  lemma OpenFollows(m: Machine, obj: bool)
    requires Sound(m) && m.unread != [] && m.unread[0] == Open(obj) && Allowed(m.state)
    ensures Follows(m, OpenUp(m, obj).0)
  {
    hide Feed, Ops, Sound;
    var p := Inner(m, Start(obj), m.unread[1..]);
    assert OpenUp(m, obj).0 == p;
    ShadowSkips(m);
    InnerSound(m, Start(obj), m.unread[1..]);
    ShadowSkips(p);
    ParsesPush(m, Start(obj), m.unread[1..]);
    TakeNext(Shadow(m), m.unread, Shadow(p), Begin(obj));
  }

  /** Both ways in which the scanner leaves a top-level value go on alike. */
  lemma EndedAgrees(r: bytes)
    ensures Agree(Feed(ENDED, r), Feed(START.Go(EndValue), r), r)
  {
    hide Feed, Ops;
    if r == [] {
      FeedNothing(ENDED);
      FeedNothing(START.Go(EndValue));
      ProbeEnded(START.Go(EndValue));
    } else {
      SameAsEnded(r);
    }
  }

  lemma CloseFollows(m: Machine, obj: bool)
    requires Sound(m) && m.unread != [] && m.unread[0] == Close(obj) && !CloseUp(m, obj).1.Refused?
    ensures Follows(m, CloseUp(m, obj).0)
  {
    hide Feed, Ops, Sound;
    var p := CloseUp(m, obj).0;
    HasStack(m);
    ShadowSkips(m);
    CloseSteps(m, obj);
    ShadowSkips(p);
    ParsesPop(m, p);
    var c, r := Shadow(m), m.unread[1..];
    CloseNext(c, obj);
    if p.stack == [] {
      TakeNext(c, m.unread, ENDED, Finish(obj));
      EndedAgrees(r);
    } else {
      ClosedState(m, p);
      TakeNext(c, m.unread, Shadow(p), Finish(obj));
    }
  }

  lemma ClosedState(m: Machine, p: Machine)
    requires Sound(m) && m.stack != [] && p.stack == m.stack[..|m.stack| - 1] && p.stack != []
    requires p.state == ValueEnd(m.stack[|m.stack| - 1])
    ensures p.state.ArrayComma? || p.state.ObjectComma?
  {
    var top := |m.stack| - 1;
    assert States(m)[top] == m.stack[top];
  }

  /** A closing bracket pops the container, however its last item ended. */
  lemma CloseNext(c: Core, obj: bool)
    requires Skips(c) && !c.failed && c.stack != []
    requires if obj then c.step.BeginStringOrEmpty? || (c.step.EndValue? && c.stack[|c.stack| - 1].InValue?)
             else c.step.BeginValueOrEmpty? || (c.step.EndValue? && c.stack[|c.stack| - 1].InArray?)
    ensures var rest := c.stack[..|c.stack| - 1];
            Next(c, Close(obj))
            == Out(if rest == [] then ENDED else Core(EndValue, rest, false, false), Finish(obj))
  {
    var rest := c.stack[..|c.stack| - 1];
    assert (rest + [InValue])[..|rest|] == rest;
  }

  /** A comma or colon that is due. */
  lemma SeparatorFollows(m: Machine, c: byte)
    requires Sound(m) && m.unread != [] && m.unread[0] == c && (c == COMMA || c == COLON)
    requires Separated(m.state, c).Some?
    ensures var q := m.(unread := m.unread[1..], state := Separated(m.state, c).value);
            && Sound(q) && q.stack != [] && Safe(Shadow(m)) && Safe(Shadow(q))
            && Feed(Shadow(m), m.unread) == Feed(Shadow(q), q.unread)
  {
    hide Feed, Ops, Sound;
    var q := m.(unread := m.unread[1..], state := Separated(m.state, c).value);
    SoundAlike(m, q);
    HasStack(m);
    ShadowSkips(m);
    ShadowSkips(q);
    ParsesSame(m, q);
    ParsesSame(m, m);
    TakeNext(Shadow(m), m.unread, Shadow(q), if c == COLON then ObjectKey else Between(InObject(m.state)));
  }

  /** White space changes nothing. */
  lemma TrimFollows(m: Machine)
    requires Sound(m)
    ensures Skips(Shadow(m)) && Feed(Shadow(m), m.unread) == Feed(Shadow(m), Trim(m.unread))
  {
    hide Feed, Ops, Sound, Skips;
    ShadowSkips(m);
    ScanSpacesIn(Shadow(m), m.unread);
  }

  lemma AfterValue(m: Machine, r: bytes)
    requires Sound(m) && Allowed(m.state)
    ensures var p := m.(unread := r, state := ValueEnd(m.state));
            Sound(p) && ShadowAfter(p) == Shadow(m).Go(EndValue)
  {
    hide Sound;
    var p := m.(unread := r, state := ValueEnd(m.state));
    SoundAlike(m, p);
    ShadowSkips(m);
    ShadowSkips(p);
    if m.stack != [] {
      ParsesSame(m, p);
      ParsesSame(m, m);
    }
  }

  /** Where a value may begin, one that is read leads to the state after it. */
  lemma ValueFollows(m: Machine)
    requires Sound(m) && Allowed(m.state) && !DecodeValue(m).1.Refused?
    ensures Follows(m, DecodeValue(m).0) && Sound(DecodeValue(m).0)
  {
    hide Feed, Ops, Sound, Value, Parse, Skips, Meaning, AllSpace;
    var u := m.unread;
    var s := Trim(u);
    var n := ReadOutcome(u, m.fault).n;
    assert FirstValue(u) == Some(n);
    var (t, r) := Value(s).value;
    TrimFollows(m);
    AfterValue(m, u[n..]);
    assert u[n..] == r by { RestOf(u); }
    ValueBegins(u);
    BeginsAt(m);
    ScanValueAt(Shadow(m), s);
  }

  lemma BeginsAt(m: Machine)
    requires Sound(m) && Allowed(m.state)
    ensures Safe(Shadow(m)) && (Shadow(m).step.BeginValue? || Shadow(m).step.BeginValueOrEmpty?)
  {
    hide Sound;
    ShadowSkips(m);
  }

  lemma ValueBegins(u: bytes)
    requires FirstValue(u).Some?
    ensures Trim(u) != [] && !IsSpace(Trim(u)[0]) && Trim(u)[0] != RBRACKET
  {
    hide Container;
    SpacesRun(u);
    if Trim(u) != [] && Trim(u)[0] == RBRACKET { NoBracketLiteral(Trim(u)); }
  }

  lemma NoBracketLiteral(s: bytes)
    requires s != [] && s[0] == RBRACKET
    ensures LiteralLen(s) == None
  {}

  lemma RestOf(u: bytes)
    requires FirstValue(u).Some?
    ensures u[FirstValue(u).value..] == Value(Trim(u)).value.1
  {
    hide Value;
    var s := Trim(u);
    ValueSuffix(s);
    var r := Value(s).value.1;
    assert s[|s| - |r|..] == u[|u| - |r|..];
  }

  lemma TrimmedSame(m: Machine, u: bytes)
    ensures Shadow(m.(unread := u)) == Shadow(m)
  {
    var p := m.(unread := u);
    forall i: nat | i < |m.stack| ensures Parses(p)[i] == Parses(m)[i] {
      ParsesAt(p, i);
      ParsesAt(m, i);
    }
  }

  lemma DecodeFollows(m: Machine)
    requires Sound(m) && !DecodeCall(m).1.Refused?
    ensures Follows(m, DecodeCall(m).0) && Sound(DecodeCall(m).0)
  {
    hide Feed, Sound, DecodeValue, Shadow, Trim;
    var (p, e) := Prepare(m);
    if m.state.ArrayComma? || m.state.ObjectColon? {
      var t := m.(unread := Trim(m.unread));
      SoundAlike(m, t);
      TrimFollows(m);
      TrimmedSame(m, t.unread);
      SeparatorFollows(t, t.unread[0]);
    }
    ValueFollows(p);
  }

  /** A name, just peeked. */
  lemma NameFollows(m: Machine)
    requires Sound(m) && m.unread != [] && m.unread[0] == QUOTE && (m.state.ObjectStart? || m.state.ObjectName?)
    requires !NameToken(m).1.Refused?
    ensures Follows(m, NameToken(m).0) && Sound(NameToken(m).0)
  {
    hide Feed, Ops, Sound, Parse, Meaning, AllSpace, Agree, Settles;
    var u, c := m.unread, Shadow(m);
    var p := NameToken(m).0;
    assert Spaces(u) == 0 && u[0..] == u;
    var n := LiteralLen(u).value;
    assert p == m.(unread := u[n..], state := ObjectColon);
    SoundAlike(m, p);
    ShadowSkips(m);
    ShadowSkips(p);
    HasStack(m);
    ParsesSame(m, p);
    ParsesSame(m, m);
    assert Shadow(p) == c.Go(EndValue);
    ScanLiteralAt(c, u);
    SettlesAgrees(c, u, n);
  }

  lemma SettlesAgrees(c: Core, u: bytes, n: nat)
    requires Safe(c) && Safe(c.Go(EndValue)) && 0 < n <= |u|
    requires Settles(c, u, [BeginLiteral] + Repeat(Continue, n - 1), c.Go(EndValue), u[n..])
    ensures Agree(Feed(c, u), Feed(c.Go(EndValue), u[n..]), u[n..])
  {
    hide Feed, Ops;
  }

  lemma {:induction false} TokenFollows(m: Machine)
    requires Sound(m) && !TokenCall(m).1.Refused?
    ensures Follows(m, TokenCall(m).0) && Sound(TokenCall(m).0)
    decreases |m.unread|
  {
    hide Feed, Sound, DecodeCall, NameToken, OpenUp, CloseUp, Shadow, Separated;
    TokenSteps(m);
    var u := Trim(m.unread);
    var p := m.(unread := u);
    SoundAlike(m, p);
    TrimFollows(m);
    TrimmedSame(m, u);
    var c := u[0];
    if c == LBRACKET || c == LBRACE {
      OpenAllowed(p, c == LBRACE);
      OpenFollows(p, c == LBRACE);
    } else if c == RBRACKET || c == RBRACE {
      CloseFollows(p, c == RBRACE);
    } else if c == COLON || c == COMMA {
      SeparatorFollows(p, c);
      TokenFollows(p.(unread := u[1..], state := Separated(p.state, c).value));
    } else if c == QUOTE && (m.state.ObjectStart? || m.state.ObjectName?) {
      NameFollows(p);
    } else {
      DecodeFollows(p);
    }
  }

  lemma OpenAllowed(m: Machine, obj: bool)
    requires m.unread != [] && !OpenUp(m, obj).1.Refused?
    ensures Allowed(m.state)
  {}

  // Runs.

  ghost predicate Unrefused(replies: seq<Reply>) {
    forall i | 0 <= i < |replies| :: !replies[i].Refused?
  }

  /** Calls that return to the top level without a refusal leave the scanner able to end a value. */
  lemma {:induction false} Finishes(m: Machine, calls: seq<Call>)
    requires Sound(m) && calls != [] && Unrefused(Run(m, calls).1) && Run(m, calls).0.stack == []
    ensures Safe(Shadow(m)) && !Dead(Shadow(m), m.unread)
    decreases |calls|
  {
    hide Sound, TokenCall, DecodeCall, Feed, Shadow, Agree;
    var out := CallOf(m, calls[0]);
    CallSteps(m, calls[0]);
    var rest := Run(out.0, calls[1..]).1;
    assert Run(m, calls).1 == [out.1] + rest;
    assert ([out.1] + rest)[0] == out.1 && ([out.1] + rest)[1..] == rest;
    if calls[0].Token? { TokenFollows(m); } else { DecodeFollows(m); }
    if out.0.stack == [] {
      AfterTop(Feed(Shadow(m), m.unread), out.0.unread);
    } else {
      assert calls[1..] != [];
      UnrefusedTail(out.1, rest);
      Finishes(out.0, calls[1..]);
      DeadAgree(Shadow(m), m.unread, Shadow(out.0), out.0.unread);
    }
  }

  lemma UnrefusedTail(r: Reply, rest: seq<Reply>)
    requires Unrefused([r] + rest)
    ensures Unrefused(rest)
  {
    forall i | 0 <= i < |rest| ensures !rest[i].Refused? { assert ([r] + rest)[i + 1] == rest[i]; }
  }

  lemma NoneDead(u: bytes)
    requires FirstValue(u).None?
    ensures Dead(START, u)
  {
    hide Feed, Ops, Next, Value, Dead;
    ScanLeading(u);
    DeadFeed(START, u, START, u[Spaces(u)..]);
  }

  /** A value at the front of the stream is read by every plan, whatever follows it. */
  lemma ValuePlanned(u: bytes, p: Plan)
    requires FirstValue(u).Some?
    ensures var (t, r) := Value(Trim(u)).value;
            var m := NewMachine(u, Eof);
            Sound(m) && Run(m, PlanCalls(t, p, [])) == (NewMachine(r, Eof), PlanReplies(t, p, []))
  {
    hide Sound, TokenCall, DecodeCall, Value, TreeOk, Spell, WholeReply;
    var (t, r) := Value(Trim(u)).value;
    var m, q := NewMachine(u, Eof), NewMachine(r, Eof);
    assert Sound(m) && Sound(q) by { NewSound(u); NewSound(r); }
    AnswersNone(q);
    WholeFirst(u);
    if p.Whole? {
      AnswersMore(m, Decode, WholeReply(t), q, [], [], q);
    } else if t.Leaf? {
      LeafFirst(u);
      AnswersMore(m, Token, LeafReply(t.text), q, [], [], q);
    } else {
      FirstSpelled(u);
      NodeAnswers(m, u[..Spaces(u)], t, p, r, [], [], q);
    }
  }

  lemma FirstSpelled(u: bytes)
    requires FirstValue(u).Some?
    ensures var (t, r) := Value(Trim(u)).value;
            TreeOk(t) && AllSpace(u[..Spaces(u)]) && u == u[..Spaces(u)] + Spell(t, r)
  {
    hide Value, TreeOk, Spell;
    SpacesRun(u);
    ValueSound(Trim(u));
    Rejoin(u, Spaces(u));
  }

  lemma WholeFirst(u: bytes)
    requires FirstValue(u).Some?
    ensures var (t, r) := Value(Trim(u)).value;
            DecodeCall(NewMachine(u, Eof)) == (NewMachine(r, Eof), WholeReply(t))
  {
    hide Value, Parse, Meaning, Ops;
    RestOf(u);
    FirstValueIsJson(u);
  }

  lemma LeafFirst(u: bytes)
    requires FirstValue(u).Some? && Value(Trim(u)).value.0.Leaf?
    ensures var (t, r) := Value(Trim(u)).value;
            && Sound(NewMachine(u, Eof))
            && TokenCall(NewMachine(u, Eof)) == (NewMachine(r, Eof), LeafReply(t.text))
  {
    hide Sound, DecodeCall, OpenUp, CloseUp, NameToken;
    NewSound(u);
    var s := Trim(u);
    var (t, r) := Value(s).value;
    ValueBegins(u);
    LeafOpening(s);
    assert Spaces(s) == 0 && s[0..] == s;
    WholeFirst(s);
    ValueSound(s);
    LeafNonempty(t.text);
  }

  lemma LeafOpening(s: bytes)
    requires Value(s).Some? && Value(s).value.0.Leaf?
    ensures s[0] !in {LBRACE, RBRACE, LBRACKET, RBRACKET, COLON, COMMA}
  {
    hide Value;
    ValueSound(s);
    var (t, r) := Value(s).value;
    LiteralFirst(t.text, []);
    assert s == t.text + r;
  }

  ghost predicate ReadsOne(u: bytes, calls: seq<Call>) {
    && Sound(NewMachine(u, Eof)) && calls != []
    && Unrefused(Run(NewMachine(u, Eof), calls).1) && Run(NewMachine(u, Eof), calls).0.stack == []
  }

  /** Some calls come back to the top level without a refusal exactly when the stream begins with a JSON value. */
  lemma ReadsExactly(u: bytes)
    ensures FirstValue(u).Some? <==> exists calls :: ReadsOne(u, calls)
  {
    hide Sound, Run, Value, TreeTokens, PlanCalls, PlanReplies;
    if FirstValue(u).Some? {
      var t := Value(Trim(u)).value.0;
      ValuePlanned(u, TOKENS_ONLY);
      OnlyTokens(t, []);
      TokensUnrefused(t);
      FirstCall(t, TOKENS_ONLY, []);
      assert ReadsOne(u, PlanCalls(t, TOKENS_ONLY, []));
    }
    if exists calls :: ReadsOne(u, calls) {
      var calls :| ReadsOne(u, calls);
      Finishes(NewMachine(u, Eof), calls);
      ShadowSkips(NewMachine(u, Eof));
      if FirstValue(u).None? { NoneDead(u); }
    }
  }

  lemma TokensUnrefused(t: Tree)
    ensures Unrefused(TreeTokens(t, []))
  {
    NoRefusals(t, []);
  }

  lemma {:induction false} NoRefusals(t: Tree, k: seq<Reply>)
    requires Unrefused(k)
    ensures Unrefused(TreeTokens(t, k))
    decreases t, 0
  {
    if t.Node? { NoItemRefusals(t.items, [Delim(Close(t.obj))] + k); }
  }

  lemma {:induction false} NoItemRefusals(xs: Items, k: seq<Reply>)
    requires Unrefused(k)
    ensures Unrefused(ItemTokens(xs, k))
    decreases xs, 0
  {
    if xs.Cons? {
      NoItemRefusals(xs.rest, k);
      NoRefusals(xs.value, ItemTokens(xs.rest, k));
    }
  }
}

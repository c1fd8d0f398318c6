/**
 What `Token` and `Decode` answer on a JSON text: `Token` goes through the brackets, names and literals of
 its tree in order, and `Decode` takes a whole subtree in place of its tokens.
 */
module TokenTree {
  import opened Bytes
  import opened Grammar
  import opened Parser
  import opened ScanCore
  import opened Validate
  import opened Values
  import opened Tokens
  import Viable

  // The tokens of a phrase, followed by the given ones.

  function TreeTokens(t: Tree, k: seq<Reply>): seq<Reply>
    decreases t, 0
  {
    match t
    case Leaf(text) => [LeafReply(text)] + k
    case Node(obj, gap, items) => [Delim(Open(obj))] + ItemTokens(items, [Delim(Close(obj))] + k)
  }

  function ItemTokens(xs: Items, k: seq<Reply>): seq<Reply>
    decreases xs, 0
  {
    match xs
    case Nil => k
    case Cons(pre, key, value, post, rest) =>
      var tail := TreeTokens(value, ItemTokens(rest, k));
      if key.Key? then [NameReply(key)] + tail else tail
  }

  function LeafReply(text: bytes): Reply {
    Scalar(if text == [] then JNull else LiteralMeaning(text))
  }

  function NameReply(k: Key): Reply {
    Scalar(JString(KeyName(k)))
  }

  // Mixed runs.

  /** How a value is read: whole, by one `Decode`, or by `Token` with a plan for each of its items. */
  datatype Plan = Whole | ByToken(items: Plans)

  /** The plans of successive items; `Rest` is for all that remain. */
  datatype Plans = Rest(whole: bool) | Each(first: Plan, rest: Plans)

  const TOKENS_ONLY: Plan := ByToken(Rest(false))

  function FirstPlan(ps: Plans): Plan {
    match ps
    case Rest(whole) => if whole then Whole else TOKENS_ONLY
    case Each(first, _) => first
  }

  function LaterPlans(ps: Plans): Plans {
    if ps.Rest? then ps else ps.rest
  }

  /** The calls that read a phrase by a plan, followed by the given ones. */
  function PlanCalls(t: Tree, p: Plan, k: seq<Call>): seq<Call>
    decreases t, 0
  {
    if p.Whole? then [Decode] + k
    else if t.Leaf? then [Token] + k
    else [Token] + ItemCalls(t.items, p.items, [Token] + k)
  }

  function ItemCalls(xs: Items, ps: Plans, k: seq<Call>): seq<Call>
    decreases xs, 0
  {
    match xs
    case Nil => k
    case Cons(pre, key, value, post, rest) =>
      var tail := PlanCalls(value, FirstPlan(ps), ItemCalls(rest, LaterPlans(ps), k));
      if key.Key? then [Token] + tail else tail
  }

  /** The value of a whole subtree, or the duplicate-key error. */
  function WholeReply(t: Tree): Reply {
    var v := Meaning(t);
    if v.None? then Refused(Duplicate) else Scalar(v.value)
  }

  /** The answers to those calls. */
  function PlanReplies(t: Tree, p: Plan, k: seq<Reply>): seq<Reply>
    decreases t, 0
  {
    if p.Whole? then [WholeReply(t)] + k
    else if t.Leaf? then [LeafReply(t.text)] + k
    else [Delim(Open(t.obj))] + ItemReplies(t.items, p.items, [Delim(Close(t.obj))] + k)
  }

  function ItemReplies(xs: Items, ps: Plans, k: seq<Reply>): seq<Reply>
    decreases xs, 0
  {
    match xs
    case Nil => k
    case Cons(pre, key, value, post, rest) =>
      var tail := PlanReplies(value, FirstPlan(ps), ItemReplies(rest, LaterPlans(ps), k));
      if key.Key? then [NameReply(key)] + tail else tail
  }

  function Calls(n: nat): seq<Call> {
    if n == 0 then [] else [Token] + Calls(n - 1)
  }

  ghost function CallOf(m: Machine, call: Call): (Machine, Reply)
    requires Sound(m)
  {
    if call.Token? then TokenCall(m) else DecodeCall(m)
  }

  /** From `m`, the calls are answered by `replies` and end in `e`. */
  ghost predicate Answers(m: Machine, calls: seq<Call>, replies: seq<Reply>, e: Machine) {
    Sound(m) && Run(m, calls) == (e, replies)
  }

  lemma AnswersMore(m: Machine, call: Call, reply: Reply, p: Machine, calls: seq<Call>, replies: seq<Reply>, e: Machine)
    requires Sound(m) && CallOf(m, call) == (p, reply) && Answers(p, calls, replies, e)
    ensures Answers(m, [call] + calls, [reply] + replies, e)
  {
    hide TokenCall, Sound, DecodeCall;
    var all := [call] + calls;
    assert all[0] == call && all[1..] == calls;
    CallSteps(m, call);
  }

  lemma AnswersVia(m: Machine, p: Machine, calls: seq<Call>, replies: seq<Reply>, e: Machine)
    requires Sound(m) && calls != [] && Answers(p, calls, replies, e) && CallOf(m, calls[0]) == CallOf(p, calls[0])
    ensures Answers(m, calls, replies, e)
  {
    hide TokenCall, Sound, DecodeCall;
    CallSteps(m, calls[0]);
  }

  lemma AnswersNone(m: Machine)
    requires Sound(m)
    ensures Answers(m, [], [], m)
  {}

  // Single calls.

  /** A complete literal, where a value is expected. */
  lemma ReadLiteral(text: bytes, r: bytes, fault: Fault)
    requires IsLiteral(text) && Follow(r) && (r != [] || fault.Eof?)
    ensures text != [] && ReadOutcome(text + r, fault) == Length(|text|)
    ensures ItemReply(text) == Scalar(LiteralMeaning(text))
  {
    hide Ops, Value, IsLiteral;
    var u := text + r;
    LiteralFirst(text, r);
    assert u[0..] == u;
    LiteralFirst(text, []);
    assert text + [] == text && text[0..] == text;
  }

  lemma LiteralFirst(text: bytes, r: bytes)
    requires IsLiteral(text) && Follow(r)
    ensures Value(text + r) == Some((Leaf(text), r)) && text != [] && Spaces(text + r) == 0 && !IsSpace(text[0])
    ensures text[0] !in {LBRACE, RBRACE, LBRACKET, RBRACKET, COLON, COMMA}
  {
    hide Value;
    ValueComplete(Leaf(text), r);
    LiteralHead(text);
  }

  lemma LeafCall(m: Machine, w: bytes, text: bytes, r: bytes)
    requires Sound(m) && Allowed(m.state) && m.err.None? && AllSpace(w)
    requires IsLiteral(text) && Follow(r) && (r != [] || m.fault.Eof?) && m.unread == w + (text + r)
    ensures text != []
    ensures TokenCall(m) == (m.(unread := r, state := ValueEnd(m.state)), Scalar(LiteralMeaning(text)))
  {
    hide ReadOutcome, ItemReply, IsLiteral, Sound, OpenUp, CloseUp, NameToken, LiteralMeaning;
    LiteralFirst(text, r);
    TrimOf(w, text + r);
    ReadLiteral(text, r, m.fault);
    Seam(text, r);
  }

  /** A name, where one is expected. */
  lemma NameCall(m: Machine, w: bytes, text: bytes, r: bytes)
    requires Sound(m) && (m.state.ObjectStart? || m.state.ObjectName?) && m.err.None? && AllSpace(w)
    requires IsString(text) && Follow(r) && r != [] && m.unread == w + (text + r)
    ensures TokenCall(m) == (m.(unread := r, state := ObjectColon), Scalar(JString(Unquoted(text))))
  {
    hide ReadOutcome, ItemReply, IsLiteral, IsString, Sound, OpenUp, CloseUp, Unquoted, LiteralMeaning, DecodeCall;
    StringLiteral(text);
    LiteralFirst(text, r);
    TrimOf(w, text + r);
    NameDecoded(m.(unread := text + r, state := TopValue), text, r);
  }

  lemma NameDecoded(m: Machine, text: bytes, r: bytes)
    requires m.state.TopValue? && m.err.None? && IsString(text) && Follow(r) && r != [] && m.unread == text + r
    ensures DecodeCall(m) == (m.(unread := r), Scalar(JString(Unquoted(text))))
  {
    hide ReadOutcome, ItemReply, IsLiteral, IsString, Unquoted;
    StringLiteral(text);
    ReadLiteral(text, r, m.fault);
    Seam(text, r);
  }

  lemma StringLiteral(text: bytes)
    requires IsString(text)
    ensures IsLiteral(text) && text != [] && text[0] == QUOTE
  {}

  /** The machine inside a container that was opened from `m`. */
  function Inner(m: Machine, s: TokenState, u: bytes): Machine {
    m.(unread := u, stack := m.stack + [m.state], state := s)
  }

  lemma InnerSound(m: Machine, s: TokenState, u: bytes)
    requires Sound(m) && Allowed(m.state) && !s.TopValue?
    ensures Sound(Inner(m, s, u))
  {
    var p := Inner(m, s, u);
    forall i | 0 <= i <= |p.stack| ensures States(p)[i].TopValue? <==> i == 0 {
      if i <= |m.stack| { assert States(p)[i] == States(m)[i]; }
    }
  }

  function Start(obj: bool): TokenState { if obj then ObjectStart else ArrayStart }

  function Comma(obj: bool): TokenState { if obj then ObjectComma else ArrayComma }

  function Again(obj: bool): TokenState { if obj then ObjectName else ArrayElem }

  lemma OpenCall(m: Machine, w: bytes, obj: bool, u: bytes)
    requires Sound(m) && Allowed(m.state) && AllSpace(w) && m.unread == w + ([Open(obj)] + u)
    ensures TokenCall(m) == (Inner(m, Start(obj), u), Delim(Open(obj)))
  {
    hide Sound, DecodeCall, NameToken, CloseUp;
    TrimOf(w, [Open(obj)] + u);
    Behead(Open(obj), u);
  }

  lemma CloseCall(m: Machine, w: bytes, obj: bool, s: TokenState, r: bytes)
    requires Sound(m) && Allowed(m.state) && AllSpace(w) && (s == Start(obj) || s == Comma(obj))
    ensures var p := Inner(m, s, w + ([Close(obj)] + r));
            Sound(p) && TokenCall(p) == (m.(unread := r, state := ValueEnd(m.state)), Delim(Close(obj)))
  {
    hide Sound, DecodeCall, NameToken, OpenUp;
    var p := Inner(m, s, w + ([Close(obj)] + r));
    InnerSound(m, s, p.unread);
    TrimOf(w, [Close(obj)] + r);
    Behead(Close(obj), r);
    assert p.stack[..|m.stack|] == m.stack;
  }

  /** `Token` passes over a comma or colon. */
  lemma PassCall(m: Machine, w: bytes, c: byte, u: bytes)
    requires Sound(m) && AllSpace(w) && (c == COMMA || c == COLON) && m.unread == w + ([c] + u)
    requires Separated(m.state, c).Some?
    ensures var q := m.(unread := u, state := Separated(m.state, c).value);
            Sound(q) && TokenCall(m) == TokenCall(q)
  {
    hide Sound, DecodeCall, NameToken, OpenUp, CloseUp;
    TrimOf(w, [c] + u);
    Behead(c, u);
    SoundAlike(m, m.(unread := u, state := Separated(m.state, c).value));
  }

  /** So does `Decode`, between the elements of an array and after a name. */
  lemma PassDecode(m: Machine, w: bytes, c: byte, u: bytes)
    requires m.err.None? && m.unread == w + ([c] + u) && AllSpace(w)
    requires (m.state.ArrayComma? && c == COMMA) || (m.state.ObjectColon? && c == COLON)
    ensures Separated(m.state, c).Some?
    ensures DecodeCall(m) == DecodeCall(m.(unread := u, state := Separated(m.state, c).value))
  {
    hide DecodeValue;
    TrimOf(w, [c] + u);
    Behead(c, u);
  }

  lemma PassEither(m: Machine, w: bytes, c: byte, u: bytes, call: Call)
    requires Sound(m) && m.err.None? && m.unread == w + ([c] + u) && AllSpace(w)
    requires (m.state.ArrayComma? && c == COMMA) || (m.state.ObjectColon? && c == COLON)
    ensures Separated(m.state, c).Some?
    ensures var q := m.(unread := u, state := Separated(m.state, c).value);
            Sound(q) && CallOf(m, call) == CallOf(q, call)
  {
    hide Sound, DecodeCall, TokenCall;
    PassCall(m, w, c, u);
    PassDecode(m, w, c, u);
  }

  /** Reading a whole value, wherever one may begin. */
  lemma ReadWhole(w: bytes, t: Tree, r: bytes, fault: Fault)
    requires AllSpace(w) && TreeOk(t) && Follow(r) && (r != [] || fault.Eof?)
    ensures ReadOutcome(w + Spell(t, r), fault) == Length(|w + Text(t)|)
    ensures ItemReply(w + Text(t)) == WholeReply(t)
  {
    hide Ops, Value, Spell, TreeOk, Meaning;
    var u, x := w + Spell(t, r), Spell(t, r);
    assert x == Text(t) + r by { SpellSplit(t, r); }
    TreeStart(t, r);
    SpacesOf(w, x);
    Seam(w, x);
    ValueComplete(t, r);
    ParseComplete(Doc(w, t, []));
  }

  lemma TreeStart(t: Tree, r: bytes)
    requires TreeOk(t)
    ensures Spell(t, r) != [] && !IsSpace(Spell(t, r)[0])
  {
    hide IsLiteral;
    if t.Leaf? { LiteralHead(t.text); }
  }

  lemma WholeCall(m: Machine, w: bytes, t: Tree, r: bytes)
    requires Allowed(m.state) && m.err.None? && AllSpace(w)
    requires TreeOk(t) && Follow(r) && (r != [] || m.fault.Eof?) && m.unread == w + Spell(t, r)
    ensures DecodeCall(m) == (m.(unread := r, state := ValueEnd(m.state)), WholeReply(t))
  {
    hide ReadOutcome, ItemReply, Spell, TreeOk, WholeReply;
    ReadWhole(w, t, r, m.fault);
    SpellSplit(t, r);
    Assoc(w, Text(t), r);
    Seam(w + Text(t), r);
  }

  // Trees.

  /** A value read by any plan: the machine ends just past it. */
  lemma {:induction false} TreeAnswers(m: Machine, w: bytes, t: Tree, p: Plan, r: bytes,
                                       calls: seq<Call>, replies: seq<Reply>, e: Machine)
    requires Sound(m) && Allowed(m.state) && m.err.None? && AllSpace(w)
    requires TreeOk(t) && Follow(r) && (r != [] || m.fault.Eof?) && m.unread == w + Spell(t, r)
    requires Answers(m.(unread := r, state := ValueEnd(m.state)), calls, replies, e)
    ensures Answers(m, PlanCalls(t, p, calls), PlanReplies(t, p, replies), e)
    decreases t, 0
  {
    hide Sound, TokenCall, DecodeCall, Answers, IsLiteral, Follow, AllSpace, ItemsOk, WholeReply;
    var q := m.(unread := r, state := ValueEnd(m.state));
    if p.Whole? {
      WholeCall(m, w, t, r);
      AnswersMore(m, Decode, WholeReply(t), q, calls, replies, e);
    } else if t.Leaf? {
      LeafCall(m, w, t.text, r);
      AnswersMore(m, Token, LeafReply(t.text), q, calls, replies, e);
    } else {
      NodeAnswers(m, w, t, p, r, calls, replies, e);
    }
  }

  lemma {:induction false} NodeAnswers(m: Machine, w: bytes, t: Tree, p: Plan, r: bytes,
                                       calls: seq<Call>, replies: seq<Reply>, e: Machine)
    requires Sound(m) && Allowed(m.state) && m.err.None? && AllSpace(w) && t.Node? && p.ByToken?
    requires TreeOk(t) && m.unread == w + Spell(t, r)
    requires Answers(m.(unread := r, state := ValueEnd(m.state)), calls, replies, e)
    ensures Answers(m, PlanCalls(t, p, calls), PlanReplies(t, p, replies), e)
    decreases t.items, 3
  {
    hide Sound, TokenCall, DecodeCall, Answers, AllSpace, ItemsOk;
    var u := t.gap + SpellItems(t.items, [Close(t.obj)] + r);
    OpenCall(m, w, t.obj, u);
    ItemsAnswer(m, t.obj, t.gap, t.items, p.items, r, calls, replies, e);
    AnswersMore(m, Token, Delim(Open(t.obj)), Inner(m, Start(t.obj), u),
                ItemCalls(t.items, p.items, [Token] + calls),
                ItemReplies(t.items, p.items, [Delim(Close(t.obj))] + replies), e);
  }

  /** Right after the opening bracket. */
  lemma {:induction false} ItemsAnswer(m: Machine, obj: bool, gap: bytes, xs: Items, ps: Plans, r: bytes,
                                       calls: seq<Call>, replies: seq<Reply>, e: Machine)
    requires Sound(m) && Allowed(m.state) && m.err.None? && AllSpace(gap) && (xs.Cons? ==> gap == [])
    requires ItemsOk(obj, xs) && Answers(m.(unread := r, state := ValueEnd(m.state)), calls, replies, e)
    ensures Answers(Inner(m, Start(obj), gap + SpellItems(xs, [Close(obj)] + r)),
                    ItemCalls(xs, ps, [Token] + calls), ItemReplies(xs, ps, [Delim(Close(obj))] + replies), e)
    decreases xs, 2
  {
    hide Sound, TokenCall, DecodeCall, Answers, ItemsOk, AllSpace;
    var z := [Close(obj)] + r;
    if xs.Nil? {
      CloseAnswers(m, obj, Start(obj), gap, r, calls, replies, e);
    } else {
      assert gap + SpellItems(xs, z) == SpellItems(xs, z);
      ItemAnswers(m, obj, Start(obj), xs, ps, r, calls, replies, e);
    }
  }

  lemma CloseAnswers(m: Machine, obj: bool, s: TokenState, w: bytes, r: bytes,
                     calls: seq<Call>, replies: seq<Reply>, e: Machine)
    requires Sound(m) && Allowed(m.state) && AllSpace(w) && (s == Start(obj) || s == Comma(obj))
    requires Answers(m.(unread := r, state := ValueEnd(m.state)), calls, replies, e)
    ensures Answers(Inner(m, s, w + ([Close(obj)] + r)), [Token] + calls, [Delim(Close(obj))] + replies, e)
  {
    hide Sound, TokenCall, DecodeCall, Answers, AllSpace;
    CloseCall(m, w, obj, s, r);
    AnswersMore(Inner(m, s, w + ([Close(obj)] + r)), Token, Delim(Close(obj)),
                m.(unread := r, state := ValueEnd(m.state)), calls, replies, e);
  }

  /** After a value inside a container. */
  lemma {:induction false} RestAnswer(m: Machine, obj: bool, post: bytes, rest: Items, ps: Plans, r: bytes,
                                      calls: seq<Call>, replies: seq<Reply>, e: Machine)
    requires Sound(m) && Allowed(m.state) && m.err.None? && AllSpace(post)
    requires ItemsOk(obj, rest) && Answers(m.(unread := r, state := ValueEnd(m.state)), calls, replies, e)
    ensures Answers(Inner(m, Comma(obj), post + SpellTail(rest, [Close(obj)] + r)),
                    ItemCalls(rest, ps, [Token] + calls), ItemReplies(rest, ps, [Delim(Close(obj))] + replies), e)
    decreases rest, 2
  {
    hide Sound, TokenCall, DecodeCall, Answers, ItemsOk, AllSpace, SpellItems, ItemCalls;
    var z := [Close(obj)] + r;
    if rest.Nil? {
      assert ItemCalls(rest, ps, [Token] + calls) == [Token] + calls by { NoItemCalls(ps, [Token] + calls); }
      CloseAnswers(m, obj, Comma(obj), post, r, calls, replies, e);
    } else {
      var u := SpellItems(rest, z);
      var p, q := Inner(m, Comma(obj), post + ([COMMA] + u)), Inner(m, Again(obj), u);
      InnerSound(m, Comma(obj), p.unread);
      var cs := ItemCalls(rest, ps, [Token] + calls);
      FirstItemCall(obj, rest, ps, [Token] + calls);
      if obj { PassCall(p, post, COMMA, u); } else { PassEither(p, post, COMMA, u, cs[0]); }
      ItemAnswers(m, obj, Again(obj), rest, ps, r, calls, replies, e);
      AnswersVia(p, q, cs, ItemReplies(rest, ps, [Delim(Close(obj))] + replies), e);
    }
  }

  lemma NoItemCalls(ps: Plans, k: seq<Call>)
    ensures ItemCalls(Nil, ps, k) == k
  {}

  lemma FirstItemCall(obj: bool, xs: Items, ps: Plans, k: seq<Call>)
    requires ItemsOk(obj, xs) && xs.Cons?
    ensures ItemCalls(xs, ps, k) != [] && (obj ==> ItemCalls(xs, ps, k)[0] == Token)
  {}

  /** One item, and those after it. */
  lemma {:induction false} ItemAnswers(m: Machine, obj: bool, s: TokenState, xs: Items, ps: Plans, r: bytes,
                                       calls: seq<Call>, replies: seq<Reply>, e: Machine)
    requires Sound(m) && Allowed(m.state) && m.err.None? && xs.Cons? && (s == Start(obj) || s == Again(obj))
    requires ItemsOk(obj, xs) && Answers(m.(unread := r, state := ValueEnd(m.state)), calls, replies, e)
    ensures Answers(Inner(m, s, SpellItems(xs, [Close(obj)] + r)),
                    ItemCalls(xs, ps, [Token] + calls), ItemReplies(xs, ps, [Delim(Close(obj))] + replies), e)
    decreases xs, 1
  {
    hide Sound, TokenCall, DecodeCall, Answers, AllSpace, Spell, SpellTail, Follow, IsString, IsLiteral, TreeOk,
      PlanCalls, PlanReplies;
    var z := [Close(obj)] + r;
    var v := xs.post + SpellTail(xs.rest, z);
    AfterItem(obj, xs.post, xs.rest, r);
    RestAnswer(m, obj, xs.post, xs.rest, LaterPlans(ps), r, calls, replies, e);
    var calls' := ItemCalls(xs.rest, LaterPlans(ps), [Token] + calls);
    var replies' := ItemReplies(xs.rest, LaterPlans(ps), [Delim(Close(obj))] + replies);
    if obj {
      MemberAnswers(m, s, xs, FirstPlan(ps), r, calls', replies', e);
    } else {
      var p := Inner(m, s, SpellItems(xs, z));
      InnerSound(m, s, p.unread);
      TreeAnswers(p, xs.pre, xs.value, FirstPlan(ps), v, calls', replies', e);
    }
  }

  lemma {:induction false} MemberAnswers(m: Machine, s: TokenState, xs: Items, plan: Plan, r: bytes,
                                         calls: seq<Call>, replies: seq<Reply>, e: Machine)
    requires Sound(m) && Allowed(m.state) && m.err.None? && xs.Cons? && (s == ObjectStart || s == ObjectName)
    requires ItemsOk(true, xs)
    requires var v := xs.post + SpellTail(xs.rest, [RBRACE] + r);
             v != [] && Follow(v) && Answers(Inner(m, ObjectComma, v), calls, replies, e)
    ensures Answers(Inner(m, s, SpellItems(xs, [RBRACE] + r)), [Token] + PlanCalls(xs.value, plan, calls),
                    [NameReply(xs.key)] + PlanReplies(xs.value, plan, replies), e)
    decreases xs, 0
  {
    hide Sound, TokenCall, DecodeCall, Answers, AllSpace, Spell, SpellTail, IsString, IsLiteral, TreeOk, PlanCalls,
      PlanReplies, Unquoted;
    var v := xs.post + SpellTail(xs.rest, [RBRACE] + r);
    var x := xs.key.after + Spell(xs.value, v);
    var y := xs.key.before + ([COLON] + x);
    var p := Inner(m, s, SpellItems(xs, [RBRACE] + r));
    InnerSound(m, s, p.unread);
    ColonFollows(xs.key.before, x);
    NameCall(p, xs.pre, xs.key.text, y);
    var q, q' := Inner(m, ObjectColon, y), Inner(m, ObjectMember, x);
    InnerSound(m, ObjectColon, y);
    var cs, rs := PlanCalls(xs.value, plan, calls), PlanReplies(xs.value, plan, replies);
    FirstCall(xs.value, plan, calls);
    PassEither(q, xs.key.before, COLON, x, cs[0]);
    TreeAnswers(q', xs.key.after, xs.value, plan, v, calls, replies, e);
    AnswersVia(q, q', cs, rs, e);
    AnswersMore(p, Token, NameReply(xs.key), q, cs, rs, e);
  }

  lemma FirstCall(t: Tree, p: Plan, k: seq<Call>)
    ensures PlanCalls(t, p, k) != []
  {}

  lemma ColonFollows(w: bytes, x: bytes)
    requires AllSpace(w)
    ensures var y := w + ([COLON] + x); y != [] && Follow(y)
  {}

  /**
   Wherever a value may begin, every plan of reading it is answered as the tree says, and all plans leave
   the machine in the same place: one `Decode` stands for the tokens of the whole value.
   */
  lemma SamePlace(m: Machine, w: bytes, t: Tree, p: Plan, r: bytes)
    requires Sound(m) && Allowed(m.state) && m.err.None? && AllSpace(w)
    requires TreeOk(t) && Follow(r) && (r != [] || m.fault.Eof?) && m.unread == w + Spell(t, r)
    ensures Run(m, PlanCalls(t, p, [])) ==
            (m.(unread := r, state := ValueEnd(m.state)), PlanReplies(t, p, []))
  {
    hide TokenCall, DecodeCall, Spell, TreeOk, PlanCalls, PlanReplies, Run;
    var q := m.(unread := r, state := ValueEnd(m.state));
    SoundAlike(m, q);
    AnswersNone(q);
    TreeAnswers(m, w, t, p, r, [], [], q);
  }

  /** A whole JSON text read by any plan, and then the end of the stream. */
  lemma TextPlanned(d: Doc, p: Plan)
    requires DocOk(d)
    ensures var m := NewMachine(DocText(d), Eof);
            Sound(m) &&
            Run(m, PlanCalls(d.tree, p, [Token])) ==
            (m.(unread := d.post), PlanReplies(d.tree, p, [Refused(Reading(Eof))]))
  {
    hide Sound, TokenCall, DecodeCall, Spell, TreeOk, PlanCalls, PlanReplies;
    var m, q := NewMachine(DocText(d), Eof), NewMachine(d.post, Eof);
    assert Sound(m) && Sound(q) by { NewSound(DocText(d)); NewSound(d.post); }
    SpaceFollows(d.post);
    LastCall(d.post);
    AnswersNone(q);
    AnswersMore(q, Token, Refused(Reading(Eof)), q, [], [], q);
    assert [Refused(Reading(Eof))] + [] == [Refused(Reading(Eof))] && [Token] + [] == [Token];
    TreeAnswers(m, d.pre, d.tree, p, d.post, [Token], [Refused(Reading(Eof))], q);
  }

  // Several values.

  /** Values with white space before each, and the white space after the last. */
  function Texts(vs: seq<(bytes, Tree)>, post: bytes): bytes {
    if vs == [] then post else vs[0].0 + Spell(vs[0].1, Texts(vs[1..], post))
  }

  /** The values are apart: white space stands between any two. */
  ghost predicate Apart(vs: seq<(bytes, Tree)>) {
    forall i | 0 <= i < |vs| :: AllSpace(vs[i].0) && TreeOk(vs[i].1) && (i > 0 ==> vs[i].0 != [])
  }

  lemma RestApart(vs: seq<(bytes, Tree)>, post: bytes)
    requires Apart(vs) && AllSpace(post) && vs != []
    ensures Apart(vs[1..]) && Follow(Texts(vs[1..], post))
  {
    hide TreeOk, Spell;
    forall i | 0 <= i < |vs| - 1 ensures vs[1..][i] == vs[i + 1] {}
    if |vs| > 1 { assert IsSpace(vs[1].0[0]); }
  }

  /** On values one after another, each `Decode` answers the next one, and then the end of the stream. */
  lemma {:induction false} ValuesStreamed(vs: seq<(bytes, Tree)>, post: bytes)
    requires Apart(vs) && AllSpace(post)
    ensures var m := NewMachine(Texts(vs, post), Eof);
            Sound(m) &&
            Run(m, seq(|vs| + 1, _ => Decode)).1 ==
            seq(|vs|, i requires 0 <= i < |vs| => WholeReply(vs[i].1)) + [Refused(Reading(Eof))]
    decreases |vs|
  {
    hide Sound, TokenCall, DecodeCall, Spell, TreeOk, WholeReply;
    var m := NewMachine(Texts(vs, post), Eof);
    NewSound(m.unread);
    if vs == [] {
      BlankDecode(post);
      assert seq(1, _ => Decode)[1..] == [] && seq(1, _ => Decode)[0] == Decode;
    } else {
      var r := Texts(vs[1..], post);
      RestApart(vs, post);
      ValuesStreamed(vs[1..], post);
      WholeCall(m, vs[0].0, vs[0].1, r);
      var calls := seq(|vs| + 1, _ => Decode);
      assert calls[1..] == seq(|vs|, _ => Decode) && calls[0] == Decode;
      CallSteps(m, Decode);
    }
  }

  lemma BlankDecode(w: bytes)
    requires AllSpace(w)
    ensures DecodeCall(NewMachine(w, Eof)).1 == Refused(Reading(Eof))
  {
    hide ReadOutcome;
    Viable.ReadErrors(w, Eof);
  }

  // Plans of `Token` calls only.

  lemma {:induction false} OnlyTokens(t: Tree, k: seq<Reply>)
    ensures PlanReplies(t, TOKENS_ONLY, k) == TreeTokens(t, k)
    ensures PlanCalls(t, TOKENS_ONLY, Calls(|k|)) == Calls(|TreeTokens(t, k)|)
    decreases t, 0
  {
    if t.Node? { OnlyItemTokens(t.items, [Delim(Close(t.obj))] + k); }
  }

  lemma {:induction false} OnlyItemTokens(xs: Items, k: seq<Reply>)
    ensures ItemReplies(xs, Rest(false), k) == ItemTokens(xs, k)
    ensures ItemCalls(xs, Rest(false), Calls(|k|)) == Calls(|ItemTokens(xs, k)|)
    decreases xs, 0
  {
    if xs.Cons? {
      OnlyItemTokens(xs.rest, k);
      OnlyTokens(xs.value, ItemTokens(xs.rest, k));
    }
  }

  /** On a whole JSON text, `Token` answers the tokens of its tree and then the end of the stream. */
  lemma TextTokens(d: Doc)
    requires DocOk(d)
    ensures var m := NewMachine(DocText(d), Eof);
            var toks := TreeTokens(d.tree, [Refused(Reading(Eof))]);
            Sound(m) && Run(m, Calls(|toks|)) == (m.(unread := d.post), toks)
  {
    hide Sound, TokenCall, DecodeCall, Spell, TreeOk, TreeTokens, PlanCalls, PlanReplies;
    TextPlanned(d, TOKENS_ONLY);
    OnlyTokens(d.tree, [Refused(Reading(Eof))]);
    assert Calls(1) == [Token] + Calls(0) == [Token];
  }

  // One `Decode` for each element or member.

  function Elements(xs: Items): seq<Tree> {
    if xs.Nil? then [] else [xs.value] + Elements(xs.rest)
  }

  lemma {:induction false} WholeElements(xs: Items, kc: seq<Call>, kr: seq<Reply>)
    requires ItemsOk(false, xs)
    ensures var n := |Elements(xs)|;
            && ItemCalls(xs, Rest(true), kc) == seq(n, _ => Decode) + kc
            && ItemReplies(xs, Rest(true), kr) == seq(n, i requires 0 <= i < n => WholeReply(Elements(xs)[i])) + kr
    decreases xs
  {
    hide WholeReply, TreeOk;
    if xs.Cons? {
      WholeElements(xs.rest, kc, kr);
    }
  }

  /** `Token`, one `Decode` for each element, `Token`: the brackets and the elements' values in order. */
  lemma ArrayStreamed(d: Doc)
    requires DocOk(d) && d.tree.Node? && !d.tree.obj
    ensures var m, vs := NewMachine(DocText(d), Eof), Elements(d.tree.items);
            Sound(m) &&
            Run(m, [Token] + (seq(|vs|, _ => Decode) + [Token, Token])).1 ==
            [Delim(LBRACKET)] + (seq(|vs|, i requires 0 <= i < |vs| => WholeReply(vs[i]))
                                 + [Delim(RBRACKET), Refused(Reading(Eof))])
  {
    hide Sound, TokenCall, DecodeCall, Spell, ItemsOk, WholeReply;
    TextPlanned(d, ByToken(Rest(true)));
    var end := [Delim(RBRACKET)] + [Refused(Reading(Eof))];
    assert end == [Delim(RBRACKET), Refused(Reading(Eof))] && [Token] + [Token] == [Token, Token];
    WholeElements(d.tree.items, [Token, Token], end);
  }

  /** `n` times `Token` and then `Decode`. */
  function Alternating(n: nat): seq<Call> {
    if n == 0 then [] else [Token, Decode] + Alternating(n - 1)
  }

  lemma {:induction false} WholeMembers(xs: Items, kc: seq<Call>, kr: seq<Reply>)
    requires ItemsOk(true, xs)
    ensures ItemCalls(xs, Rest(true), kc) == Alternating(|Elements(xs)|) + kc
    ensures ItemReplies(xs, Rest(true), kr) == MemberReplies(xs) + kr
    decreases xs
  {
    hide WholeReply, TreeOk, NameReply;
    if xs.Cons? { WholeMembers(xs.rest, kc, kr); }
  }

  /** The name and the value of each member. */
  function MemberReplies(xs: Items): seq<Reply> {
    if xs.Nil? then [] else [NameReply(xs.key), WholeReply(xs.value)] + MemberReplies(xs.rest)
  }

  /** `Token` for each name and `Decode` for each value of an object. */
  lemma ObjectStreamed(d: Doc)
    requires DocOk(d) && d.tree.Node? && d.tree.obj
    ensures var m, n := NewMachine(DocText(d), Eof), |Elements(d.tree.items)|;
            Sound(m) &&
            Run(m, [Token] + (Alternating(n) + [Token, Token])).1 ==
            [Delim(LBRACE)] + (MemberReplies(d.tree.items) + [Delim(RBRACE), Refused(Reading(Eof))])
  {
    hide Sound, TokenCall, DecodeCall, Spell, ItemsOk, MemberReplies;
    TextPlanned(d, ByToken(Rest(true)));
    var end := [Delim(RBRACE)] + [Refused(Reading(Eof))];
    assert end == [Delim(RBRACE), Refused(Reading(Eof))] && [Token] + [Token] == [Token, Token];
    WholeMembers(d.tree.items, [Token, Token], end);
  }

  lemma NewSound(u: bytes)
    ensures Sound(NewMachine(u, Eof))
  {}

  lemma SpaceFollows(w: bytes)
    requires AllSpace(w)
    ensures Follow(w)
  {}

  lemma LastCall(w: bytes)
    requires AllSpace(w)
    ensures Sound(NewMachine(w, Eof)) && TokenCall(NewMachine(w, Eof)) == (NewMachine(w, Eof), Refused(Reading(Eof)))
  {
    SpacesOf(w, []);
    assert w + [] == w;
  }
}

/**
 The streaming decoder as a machine over the bytes not yet read: what `readValue`, `Decode` and `Token`
 answer, however the reader splits the stream.
 */
module Tokens {
  import opened Bytes
  import opened Grammar
  import opened Parser
  import opened ScanCore
  import opened Validate
  import opened Values
  import opened Decode

  /** How the reader ends: end of file, or an error of its own. */
  datatype Fault = Eof | Broken(code: int)

  datatype StreamError = Reading(fault: Fault) | UnexpectedEof | Syntax | Duplicate

  /** The decoder's nine token states; the value and key states inside containers have shortened names. */
  datatype TokenState =
    | TopValue
    | ArrayStart | ArrayElem | ArrayComma
    | ObjectStart | ObjectName | ObjectColon | ObjectMember | ObjectComma

  datatype Reply = Scalar(v: Json) | Delim(c: byte) | Refused(e: StreamError)

  datatype Machine = Machine(
    unread: bytes, fault: Fault, err: Option<StreamError>, state: TokenState, stack: seq<TokenState>)

  predicate Allowed(s: TokenState) {
    s.TopValue? || s.ArrayStart? || s.ArrayElem? || s.ObjectMember?
  }

  function ValueEnd(s: TokenState): TokenState {
    if s.ArrayStart? || s.ArrayElem? then ArrayComma
    else if s.ObjectMember? then ObjectComma
    else s
  }

  // Reading one value.

  datatype Outcome = Length(n: nat) | Stopped(e: StreamError)

  /** A literal that only the end of the stream can complete. */
  ghost predicate OpenEnded(u: bytes) {
    FirstValue(u) == Some(|u|) && Value(u[Spaces(u)..]).value.0.Leaf?
  }

  /** What reading a value from the unread bytes `u` answers: it depends on nothing else. */
  ghost function ReadOutcome(u: bytes, fault: Fault): (o: Outcome)
    ensures o.Length? ==> FirstValue(u) == Some(o.n) && o.n <= |u|
  {
    if FirstValue(u).Some? && (fault.Eof? || !OpenEnded(u)) then Length(FirstValue(u).value)
    else if Failed in Ops(START, u) then Stopped(Syntax)
    else if fault.Eof? && !AllSpace(u) then Stopped(UnexpectedEof)
    else Stopped(Reading(fault))
  }

  /** What decoding one complete value answers. */
  ghost function ItemReply(item: bytes): Reply {
    var d := Parse(item);
    var m := if d.None? then None else Meaning(d.value.tree);
    if m.None? then Refused(Duplicate) else Scalar(m.value)
  }

  // Decode and Token.

  function Trim(u: bytes): bytes { u[Spaces(u)..] }

  lemma TrimOf(w: bytes, x: bytes)
    requires AllSpace(w) && x != [] && !IsSpace(x[0])
    ensures Trim(w + x) == x
  {
    SpacesOf(w, x);
    Seam(w, x);
  }

  /** Moves past the comma or colon that `Decode` may find first. */
  function Prepare(m: Machine): (Machine, Option<StreamError>) {
    if m.state.ArrayComma? || m.state.ObjectColon? then
      var u := Trim(m.unread);
      if u == [] then (m, Some(Reading(m.fault)))
      else if m.state.ArrayComma? && u[0] == COMMA then (m.(unread := u[1..], state := ArrayElem), None)
      else if m.state.ObjectColon? && u[0] == COLON then (m.(unread := u[1..], state := ObjectMember), None)
      else (m.(unread := u), Some(Syntax))
    else (m, None)
  }

  ghost function DecodeValue(m: Machine): (Machine, Reply) {
    match ReadOutcome(m.unread, m.fault)
    case Stopped(e) => (m.(err := Some(e)), Refused(e))
    case Length(n) => (m.(unread := m.unread[n..], state := ValueEnd(m.state)), ItemReply(m.unread[..n]))
  }

  ghost function DecodeCall(m: Machine): (Machine, Reply) {
    if m.err.Some? then (m, Refused(m.err.value))
    else
      var (p, e) := Prepare(m);
      if e.Some? then (p, Refused(e.value))
      else if !Allowed(p.state) then (p, Refused(Syntax))
      else DecodeValue(p)
  }

  /** The state of every open container, outermost first, then the current one. */
  function States(m: Machine): seq<TokenState> { m.stack + [m.state] }

  /** Only the outermost state is the top-level one, and every suspended state was waiting for a value. */
  predicate Sound(m: Machine) {
    && (forall i | 0 <= i <= |m.stack| :: States(m)[i].TopValue? <==> i == 0)
    && (forall i | 0 <= i < |m.stack| :: Allowed(m.stack[i]))
  }

  predicate InObject(s: TokenState) {
    s.ObjectStart? || s.ObjectName? || s.ObjectColon? || s.ObjectMember? || s.ObjectComma?
  }

  /** The open containers, outermost first: true for an object. */
  function Kinds(m: Machine): seq<bool> {
    seq(|m.stack|, i requires 0 <= i < |m.stack| => InObject(States(m)[i + 1]))
  }

  function OpenUp(m: Machine, obj: bool): (Machine, Reply)
    requires m.unread != []
  {
    if !Allowed(m.state) then (m, Refused(Syntax))
    else
      (m.(unread := m.unread[1..], stack := m.stack + [m.state], state := if obj then ObjectStart else ArrayStart),
       Delim(Open(obj)))
  }

  /** The suspended state is read from the top of the stack, which a sound machine never finds empty here. */
  function CloseUp(m: Machine, obj: bool): (Machine, Reply)
    requires m.unread != [] && Sound(m)
  {
    if (if obj then m.state.ObjectStart? || m.state.ObjectComma? else m.state.ArrayStart? || m.state.ArrayComma?) then
      HasStack(m);
      var top := |m.stack| - 1;
      (m.(unread := m.unread[1..], state := ValueEnd(m.stack[top]), stack := m.stack[..top]), Delim(Close(obj)))
    else (m, Refused(Syntax))
  }

  lemma HasStack(m: Machine)
    requires Sound(m) && !m.state.TopValue?
    ensures m.stack != []
  {
    assert States(m)[0].TopValue?;
  }

  /** A member's name is decoded as if it were a top-level value. */
  ghost function NameToken(m: Machine): (Machine, Reply) {
    var (p, r) := DecodeCall(m.(state := TopValue));
    (p.(state := if r.Refused? then m.state else ObjectColon), r)
  }

  ghost function TokenCall(m: Machine): (Machine, Reply)
    requires Sound(m)
    decreases |m.unread|
  {
    var u := Trim(m.unread);
    if u == [] then (m, Refused(Reading(m.fault)))
    else
      var p := m.(unread := u);
      SoundAlike(m, p);
      var c := u[0];
      if c == LBRACKET || c == LBRACE then OpenUp(p, c == LBRACE)
      else if c == RBRACKET || c == RBRACE then CloseUp(p, c == RBRACE)
      else if c == COLON || c == COMMA then
        if Separated(p.state, c).None? then (p, Refused(Syntax))
        else
          var q := p.(unread := u[1..], state := Separated(p.state, c).value);
          SoundAlike(m, q);
          TokenCall(q)
      else if c == QUOTE && (m.state.ObjectStart? || m.state.ObjectName?) then NameToken(p)
      else if !Allowed(m.state) then (p, Refused(Syntax))
      else DecodeCall(p)
  }

  /** Where a comma or colon leads. */
  function Separated(s: TokenState, c: byte): Option<TokenState> {
    if c == COLON then (if s.ObjectColon? then Some(ObjectMember) else None)
    else if s.ArrayComma? then Some(ArrayElem)
    else if s.ObjectComma? then Some(ObjectName)
    else None
  }

  lemma SoundAlike(m: Machine, p: Machine)
    requires Sound(m) && p.stack == m.stack && (p.state.TopValue? <==> m.state.TopValue?)
    ensures Sound(p)
    ensures InObject(m.state) == InObject(p.state) ==> Kinds(p) == Kinds(m)
  {
    forall i | 0 <= i <= |m.stack| ensures States(p)[i].TopValue? <==> i == 0 {
      assert States(m)[i].TopValue? <==> i == 0;
    }
  }

  // Nesting.

  /** The containers left open by a bracket word, starting from `open`; None if some bracket does not match. */
  function OpenAfter(open: seq<bool>, word: bytes): Option<seq<bool>>
    decreases word
  {
    if word == [] then Some(open)
    else if word[0] == LBRACKET || word[0] == LBRACE then OpenAfter(open + [word[0] == LBRACE], word[1..])
    else if open != [] && word[0] == Close(open[|open| - 1]) then OpenAfter(open[..|open| - 1], word[1..])
    else None
  }

  predicate Matched(word: bytes) {
    OpenAfter([], word) == Some([])
  }

  /** The brackets that close everything in `open`, innermost first. */
  function Closers(open: seq<bool>): bytes {
    if open == [] then [] else [Close(open[|open| - 1])] + Closers(open[..|open| - 1])
  }

  lemma {:induction false} CloseAll(open: seq<bool>)
    ensures OpenAfter(open, Closers(open)) == Some([])
  {
    if open != [] {
      var rest := open[..|open| - 1];
      CloseAll(rest);
      Behead(Close(open[|open| - 1]), Closers(rest));
    }
  }

  lemma {:induction false} OpenAfterAppend(open: seq<bool>, w: bytes, z: bytes)
    ensures OpenAfter(open, w + z) ==
            if OpenAfter(open, w).None? then None else OpenAfter(OpenAfter(open, w).value, z)
    decreases w
  {
    if w == [] {
      assert w + z == z;
    } else {
      assert (w + z)[1..] == w[1..] + z && (w + z)[0] == w[0];
      if w[0] == LBRACKET || w[0] == LBRACE {
        OpenAfterAppend(open + [w[0] == LBRACE], w[1..], z);
      } else if open != [] && w[0] == Close(open[|open| - 1]) {
        OpenAfterAppend(open[..|open| - 1], w[1..], z);
      }
    }
  }

  function DelimOf(r: Reply): bytes { if r.Delim? then [r.c] else [] }

  /** One call keeps the machine sound, and its answer moves the open containers as its bracket says. */
  ghost predicate Steps(m: Machine, out: (Machine, Reply)) {
    && Sound(out.0) && OpenAfter(Kinds(m), DelimOf(out.1)) == Some(Kinds(out.0))
    && out.0.fault == m.fault
  }

  /** `Decode` never opens or closes a container. */
  ghost predicate Level(m: Machine, out: (Machine, Reply)) {
    && out.0.stack == m.stack && out.0.fault == m.fault && !out.1.Delim?
    && (out.0.state.TopValue? <==> m.state.TopValue?) && InObject(out.0.state) == InObject(m.state)
  }

  lemma DecodeLevel(m: Machine)
    ensures Level(m, DecodeCall(m))
  {
    hide ReadOutcome, Parse;
  }

  lemma LevelSteps(m: Machine, out: (Machine, Reply))
    requires Sound(m) && Level(m, out)
    ensures Steps(m, out)
  {
    hide Sound, Kinds;
    SoundAlike(m, out.0);
  }

  lemma OpenSteps(m: Machine, obj: bool)
    requires m.unread != [] && Sound(m)
    ensures Steps(m, OpenUp(m, obj))
  {
    var out := OpenUp(m, obj);
    if Allowed(m.state) {
      var p := out.0;
      var n := |m.stack|;
      forall i | 0 <= i <= |p.stack| ensures States(p)[i].TopValue? <==> i == 0 {
        if i <= n { assert States(p)[i] == States(m)[i]; }
      }
      KindsPush(m, p, obj);
      OneBracket(Kinds(m), Open(obj));
    }
  }

  lemma KindsPush(m: Machine, p: Machine, obj: bool)
    requires p.stack == m.stack + [m.state] && InObject(p.state) == obj
    ensures Kinds(p) == Kinds(m) + [obj]
  {
    var n := |m.stack|;
    forall i | 0 <= i <= n ensures Kinds(p)[i] == (Kinds(m) + [obj])[i] {
      assert Kinds(p)[i] == InObject(States(p)[i + 1]);
      if i < n {
        assert Kinds(m)[i] == InObject(States(m)[i + 1]);
        assert States(p)[i + 1] == States(m)[i + 1];
      }
    }
  }

  lemma OneBracket(open: seq<bool>, c: byte)
    ensures OpenAfter(open, [c]) ==
            if c == LBRACKET || c == LBRACE then Some(open + [c == LBRACE])
            else if open != [] && c == Close(open[|open| - 1]) then Some(open[..|open| - 1])
            else None
  {
    Behead(c, []);
    assert [c][1..] == [];
  }

  lemma CloseSteps(m: Machine, obj: bool)
    requires m.unread != [] && Sound(m)
    ensures Steps(m, CloseUp(m, obj))
  {
    var out := CloseUp(m, obj);
    if out.1.Delim? {
      HasStack(m);
      var p := out.0;
      var n := |m.stack| - 1;
      assert m.stack[n] == States(m)[n];
      forall i | 0 <= i <= n ensures States(p)[i].TopValue? <==> i == 0 {
        assert States(m)[i].TopValue? <==> i == 0;
        if i < n { assert States(p)[i] == States(m)[i]; }
      }
      KindsPop(m, p);
      OneBracket(Kinds(m), Close(obj));
    }
  }

  lemma KindsPop(m: Machine, p: Machine)
    requires m.stack != [] && p.stack == m.stack[..|m.stack| - 1]
    requires InObject(p.state) == InObject(m.stack[|m.stack| - 1])
    ensures Kinds(m) == Kinds(p) + [InObject(m.state)] && Kinds(m)[..|m.stack| - 1] == Kinds(p)
  {
    var n := |m.stack| - 1;
    forall i | 0 <= i <= n ensures Kinds(m)[i] == (Kinds(p) + [InObject(m.state)])[i] {
      assert Kinds(m)[i] == InObject(States(m)[i + 1]);
      if i < n {
        assert Kinds(p)[i] == InObject(States(p)[i + 1]);
        assert InObject(States(p)[i + 1]) == InObject(States(m)[i + 1]);
      }
    }
  }

  lemma StepsAlike(m: Machine, p: Machine, out: (Machine, Reply))
    requires Sound(m) && Kinds(p) == Kinds(m) && p.fault == m.fault && Steps(p, out)
    ensures Steps(m, out)
  {}

  lemma NameSteps(m: Machine)
    requires Sound(m) && (m.state.ObjectStart? || m.state.ObjectName?)
    ensures Steps(m, NameToken(m))
  {
    hide Sound, Kinds, DecodeCall, Steps;
    DecodeLevel(m.(state := TopValue));
    LevelSteps(m, NameToken(m));
  }

  lemma {:induction false} TokenSteps(m: Machine)
    requires Sound(m)
    ensures Steps(m, TokenCall(m))
    decreases |m.unread|
  {
    hide Sound, Kinds, DecodeCall, NameToken, Steps, OpenUp, CloseUp, OpenAfter;
    var u := Trim(m.unread);
    var p := m.(unread := u);
    SoundAlike(m, p);
    if u == [] {
      LevelSteps(m, (m, Refused(Reading(m.fault))));
    } else {
      var c := u[0];
      if c == LBRACKET || c == LBRACE {
        OpenSteps(p, c == LBRACE);
      } else if c == RBRACKET || c == RBRACE {
        CloseSteps(p, c == RBRACE);
      } else if (c == COLON || c == COMMA) && Separated(p.state, c).Some? {
        var q := p.(unread := u[1..], state := Separated(p.state, c).value);
        SoundAlike(m, q);
        TokenSteps(q);
        StepsAlike(m, q, TokenCall(m));
        return;
      } else if c == QUOTE && (m.state.ObjectStart? || m.state.ObjectName?) {
        NameSteps(p);
      } else if c == COLON || c == COMMA || !Allowed(m.state) {
        LevelSteps(p, (p, Refused(Syntax)));
      } else {
        DecodeLevel(p);
        LevelSteps(p, DecodeCall(p));
      }
      StepsAlike(m, p, TokenCall(m));
    }
  }

  // Whole runs.

  datatype Call = Decode | Token

  /** The answers to a list of calls. */
  ghost function Run(m: Machine, calls: seq<Call>): (Machine, seq<Reply>)
    requires Sound(m)
    decreases |calls|
  {
    if calls == [] then (m, [])
    else
      var out := if calls[0].Token? then TokenCall(m) else DecodeCall(m);
      CallSteps(m, calls[0]);
      var (p, replies) := Run(out.0, calls[1..]);
      (p, [out.1] + replies)
  }

  lemma CallSteps(m: Machine, call: Call)
    requires Sound(m)
    ensures Steps(m, if call.Token? then TokenCall(m) else DecodeCall(m))
  {
    hide Sound, Kinds, DecodeCall, TokenCall, Steps;
    if call.Token? {
      TokenSteps(m);
    } else {
      DecodeLevel(m);
      LevelSteps(m, DecodeCall(m));
    }
  }

  function Delims(replies: seq<Reply>): bytes {
    if replies == [] then [] else DelimOf(replies[0]) + Delims(replies[1..])
  }

  function NewMachine(u: bytes, fault: Fault): Machine {
    Machine(u, fault, None, TopValue, [])
  }

  lemma {:induction false} RunNests(m: Machine, calls: seq<Call>)
    requires Sound(m)
    ensures Sound(Run(m, calls).0)
    ensures OpenAfter(Kinds(m), Delims(Run(m, calls).1)) == Some(Kinds(Run(m, calls).0))
    decreases |calls|
  {
    hide Sound, Kinds, DecodeCall, TokenCall, OpenAfter;
    if calls == [] {
      assert OpenAfter(Kinds(m), []) == Some(Kinds(m)) by { NoBracket(Kinds(m)); }
    } else {
      var out := if calls[0].Token? then TokenCall(m) else DecodeCall(m);
      CallSteps(m, calls[0]);
      RunNests(out.0, calls[1..]);
      var rest := Run(out.0, calls[1..]).1;
      OpenAfterAppend(Kinds(m), DelimOf(out.1), Delims(rest));
      assert ([out.1] + rest)[1..] == rest;
    }
  }

  lemma NoBracket(open: seq<bool>)
    ensures OpenAfter(open, []) == Some(open)
  {}

  /**
   Over every run, the brackets returned are a prefix of a matched word, and the token stack is as
   high as the number of brackets left open.
   */
  lemma TokensNest(u: bytes, fault: Fault, calls: seq<Call>)
    ensures Sound(NewMachine(u, fault))
    ensures var (m, replies) := Run(NewMachine(u, fault), calls);
            var open := OpenAfter([], Delims(replies));
            open.Some? && |open.value| == |m.stack| && Matched(Delims(replies) + Closers(open.value))
  {
    hide Run, OpenAfter;
    var m0 := NewMachine(u, fault);
    assert Kinds(m0) == [];
    RunNests(m0, calls);
    var (m, replies) := Run(m0, calls);
    var open := Kinds(m);
    CloseAll(open);
    OpenAfterAppend([], Delims(replies), Closers(open));
  }
}

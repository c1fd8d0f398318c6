/**
 The scanner's transition functions as a pure machine: a step, a stack of parse states, and the
 end-of-value and error flags.  The one-byte undo lives in the `Scanner` class, on top of this.
 */
module ScanCore {
  import opened Bytes
  import opened Grammar

  /** Which transition function runs next. */
  datatype Step =
    | BeginValueOrEmpty | BeginValue | BeginStringOrEmpty | BeginString | EndValue | EndTop
    | InString | InStringEsc | InStringEscU | InStringEscU1 | InStringEscU12 | InStringEscU123
    | Neg | Int1 | Int0 | Dot | Dot0 | Exp | ExpSign | Exp0
    | T | Tr | Tru | F | Fa | Fal | Fals | N | Nu | Nul
    | Error | Redo

  /** What the scanner tells its caller about the byte it was given. */
  datatype Op =
    | Continue | BeginLiteral | BeginObject | ObjectKey | ObjectValue | EndObject
    | BeginArray | ArrayValue | EndArray | SkipSpace | End | Failed

  datatype ParseState = InKey | InValue | InArray

  datatype Core = Core(step: Step, stack: seq<ParseState>, endTop: bool, failed: bool) {
    function Go(step': Step): Core { this.(step := step') }
  }

  datatype Out = Out(core: Core, op: Op)

  const START: Core := Core(BeginValue, [], false, false)

  /** What every reachable state satisfies; it is what keeps the stack accesses in range. */
  predicate Safe(s: Core) {
    && (s.step.BeginValueOrEmpty? ==> s.stack != [] && s.stack[|s.stack| - 1] == InArray)
    && (s.step.BeginStringOrEmpty? || s.step.BeginString? ==> s.stack != [] && s.stack[|s.stack| - 1] == InKey)
    && (s.step.EndTop? ==> s.endTop)
    && (s.endTop ==> s.stack == [] && (s.step.EndTop? || s.step.Error?))
    && (s.step.Error? ==> s.failed)
    && !s.step.Redo?
  }

  function Fail(s: Core): Out {
    Out(s.(step := Error, failed := true), Failed)
  }

  function Push(s: Core, p: ParseState): Core {
    s.(stack := s.stack + [p])
  }

  function SetTop(s: Core, p: ParseState): Core
    requires s.stack != []
  {
    s.(stack := s.stack[..|s.stack| - 1] + [p])
  }

  function Pop(s: Core): Core
    requires s.stack != []
  {
    var rest := s.stack[..|s.stack| - 1];
    if rest == [] then s.(stack := rest, step := EndTop, endTop := true)
    else s.(stack := rest, step := EndValue)
  }

  function AtBeginValueOrEmpty(s: Core, c: byte): Out
    requires s.stack != []
  {
    if IsSpace(c) then Out(s, SkipSpace)
    else if c == RBRACKET then AtEndValue(s, c)
    else AtBeginValue(s, c)
  }

  function AtBeginValue(s: Core, c: byte): Out {
    if IsSpace(c) then Out(s, SkipSpace)
    else if c == LBRACE then Out(Push(s.Go(BeginStringOrEmpty), InKey), BeginObject)
    else if c == LBRACKET then Out(Push(s.Go(BeginValueOrEmpty), InArray), BeginArray)
    else if c == QUOTE then Out(s.Go(InString), BeginLiteral)
    else if c == MINUS then Out(s.Go(Neg), BeginLiteral)
    else if c == ZERO then Out(s.Go(Int0), BeginLiteral)
    else if c == 0x74 then Out(s.Go(T), BeginLiteral)
    else if c == 0x66 then Out(s.Go(F), BeginLiteral)
    else if c == 0x6E then Out(s.Go(N), BeginLiteral)
    else if IsDigit(c) then Out(s.Go(Int1), BeginLiteral)
    else Fail(s)
  }

  function AtBeginStringOrEmpty(s: Core, c: byte): Out
    requires s.stack != []
  {
    if IsSpace(c) then Out(s, SkipSpace)
    else if c == RBRACE then AtEndValue(SetTop(s, InValue), c)
    else AtBeginString(s, c)
  }

  function AtBeginString(s: Core, c: byte): Out {
    if IsSpace(c) then Out(s, SkipSpace)
    else if c == QUOTE then Out(s.Go(InString), BeginLiteral)
    else Fail(s)
  }

  function AtEndValue(s: Core, c: byte): Out {
    if s.stack == [] then AtEndTop(s.(step := EndTop, endTop := true), c)
    else if IsSpace(c) then Out(s.Go(EndValue), SkipSpace)
    else
      match s.stack[|s.stack| - 1]
      case InKey =>
        if c == COLON then Out(SetTop(s.Go(BeginValue), InValue), ObjectKey) else Fail(s)
      case InValue =>
        if c == COMMA then Out(SetTop(s.Go(BeginString), InKey), ObjectValue)
        else if c == RBRACE then Out(Pop(s), EndObject)
        else Fail(s)
      case InArray =>
        if c == COMMA then Out(s.Go(BeginValue), ArrayValue)
        else if c == RBRACKET then Out(Pop(s), EndArray)
        else Fail(s)
  }

  /** A byte after the value is only recorded as an error: this call still reports the end. */
  function AtEndTop(s: Core, c: byte): Out {
    if IsSpace(c) then Out(s, End) else Out(Fail(s).core, End)
  }

  function AtInString(s: Core, c: byte): Out {
    if c == QUOTE then Out(s.Go(EndValue), Continue)
    else if c == BACKSLASH then Out(s.Go(InStringEsc), Continue)
    else if c < 0x20 then Fail(s)
    else Out(s, Continue)
  }

  function AtInStringEsc(s: Core, c: byte): Out {
    if IsEscape(c) then Out(s.Go(InString), Continue)
    else if c == 0x75 then Out(s.Go(InStringEscU), Continue)
    else Fail(s)
  }

  /** The four states inside a \u escape differ only in where they go next. */
  function AtHex(s: Core, c: byte, after: Step): Out {
    if IsHex(c) then Out(s.Go(after), Continue) else Fail(s)
  }

  function AtNeg(s: Core, c: byte): Out {
    if c == ZERO then Out(s.Go(Int0), Continue)
    else if IsDigit(c) then Out(s.Go(Int1), Continue)
    else Fail(s)
  }

  function AtInt1(s: Core, c: byte): Out {
    if IsDigit(c) then Out(s.Go(Int1), Continue) else AtInt0(s, c)
  }

  function AtInt0(s: Core, c: byte): Out {
    if c == DOT then Out(s.Go(Dot), Continue)
    else if IsE(c) then Out(s.Go(Exp), Continue)
    else AtEndValue(s, c)
  }

  function AtDot(s: Core, c: byte): Out {
    if IsDigit(c) then Out(s.Go(Dot0), Continue) else Fail(s)
  }

  function AtDot0(s: Core, c: byte): Out {
    if IsDigit(c) then Out(s, Continue)
    else if IsE(c) then Out(s.Go(Exp), Continue)
    else AtEndValue(s, c)
  }

  function AtExp(s: Core, c: byte): Out {
    if IsSign(c) then Out(s.Go(ExpSign), Continue) else AtExpSign(s, c)
  }

  function AtExpSign(s: Core, c: byte): Out {
    if IsDigit(c) then Out(s.Go(Exp0), Continue) else Fail(s)
  }

  function AtExp0(s: Core, c: byte): Out {
    if IsDigit(c) then Out(s, Continue) else AtEndValue(s, c)
  }

  /** Inside `true`, `false` or `null` exactly one byte is expected. */
  function AtName(s: Core, c: byte, expected: byte, after: Step): Out {
    if c == expected then Out(s.Go(after), Continue) else Fail(s)
  }

  function NextInString(s: Core, c: byte): Out {
    match s.step
    case InStringEsc => AtInStringEsc(s, c)
    case InStringEscU => AtHex(s, c, InStringEscU1)
    case InStringEscU1 => AtHex(s, c, InStringEscU12)
    case InStringEscU12 => AtHex(s, c, InStringEscU123)
    case InStringEscU123 => AtHex(s, c, InString)
    case _ => AtInString(s, c)
  }

  function NextInNumber(s: Core, c: byte): Out {
    match s.step
    case Neg => AtNeg(s, c)
    case Int1 => AtInt1(s, c)
    case Int0 => AtInt0(s, c)
    case Dot => AtDot(s, c)
    case Dot0 => AtDot0(s, c)
    case Exp => AtExp(s, c)
    case ExpSign => AtExpSign(s, c)
    case _ => AtExp0(s, c)
  }

  function NextInName(s: Core, c: byte): Out {
    match s.step
    case T => AtName(s, c, 0x72, Tr)
    case Tr => AtName(s, c, 0x75, Tru)
    case Tru => AtName(s, c, 0x65, EndValue)
    case F => AtName(s, c, 0x61, Fa)
    case Fa => AtName(s, c, 0x6C, Fal)
    case Fal => AtName(s, c, 0x73, Fals)
    case Fals => AtName(s, c, 0x65, EndValue)
    case N => AtName(s, c, 0x75, Nu)
    case Nu => AtName(s, c, 0x6C, Nul)
    case _ => AtName(s, c, 0x6C, EndValue)
  }

  predicate InStringStep(p: Step) {
    p.InString? || p.InStringEsc? || p.InStringEscU? || p.InStringEscU1? || p.InStringEscU12? || p.InStringEscU123?
  }

  predicate InNumberStep(p: Step) {
    p.Neg? || p.Int1? || p.Int0? || p.Dot? || p.Dot0? || p.Exp? || p.ExpSign? || p.Exp0?
  }

  /** One call of the scanner's current step function. */
  function Next(s: Core, c: byte): (o: Out)
    requires Safe(s)
  {
    match s.step
    case BeginValueOrEmpty => AtBeginValueOrEmpty(s, c)
    case BeginValue => AtBeginValue(s, c)
    case BeginStringOrEmpty => AtBeginStringOrEmpty(s, c)
    case BeginString => AtBeginString(s, c)
    case EndValue => AtEndValue(s, c)
    case EndTop => AtEndTop(s, c)
    case Error => Out(s, Failed)
    case p =>
      if InStringStep(p) then NextInString(s, c)
      else if InNumberStep(p) then NextInNumber(s, c)
      else NextInName(s, c)
  }

  /** End of input: the scanner probes itself with a space. */
  function Eof(s: Core): Out
    requires Safe(s)
  {
    if s.failed then Out(s, Failed)
    else if s.endTop then Out(s, End)
    else
      var t := Next(s, SPACE).core;
      if t.endTop then Out(t, End) else Out(t.(failed := true), Failed)
  }

  /** The end and error flags are never taken back, an error answer is final, and the result is safe. */
  predicate Kept(s: Core, o: Out) {
    && Safe(o.core)
    && (s.endTop ==> o.core.endTop && (o.op == End || o.op == Failed))
    && (s.failed ==> o.core.failed)
    && (o.op == Failed ==> o.core.step.Error?)
    && (o.op == End ==> o.core.endTop)
  }

  lemma EndValueKept(s: Core, c: byte)
    requires !s.endTop && !s.step.Error? && !s.step.Redo?
    ensures Kept(s, AtEndValue(s, c))
  {}

  lemma BeginKept(s: Core, c: byte)
    requires Safe(s) && (s.step.BeginValueOrEmpty? || s.step.BeginValue?)
    ensures Kept(s, Next(s, c))
  {
    hide AtEndValue;
    EndValueKept(s, c);
  }

  lemma BeginStringKept(s: Core, c: byte)
    requires Safe(s) && (s.step.BeginStringOrEmpty? || s.step.BeginString?)
    ensures Kept(s, Next(s, c))
  {
    EndValueKept(SetTop(s, InValue), c);
  }

  lemma InStringKept(s: Core, c: byte)
    requires Safe(s) && InStringStep(s.step)
    ensures Kept(s, Next(s, c))
  {}

  lemma InNumberKept(s: Core, c: byte)
    requires Safe(s) && InNumberStep(s.step)
    ensures Kept(s, Next(s, c))
  {
    hide AtEndValue;
    EndValueKept(s, c);
  }

  /** Every step from a safe state leads to a safe state: no stack access is ever out of range. */
  lemma NextKept(s: Core, c: byte)
    requires Safe(s)
    ensures Kept(s, Next(s, c))
  {
    if s.step.BeginValueOrEmpty? || s.step.BeginValue? {
      BeginKept(s, c);
    } else if s.step.BeginStringOrEmpty? || s.step.BeginString? {
      BeginStringKept(s, c);
    } else if InStringStep(s.step) {
      InStringKept(s, c);
    } else if InNumberStep(s.step) {
      InNumberKept(s, c);
    } else if s.step.EndValue? {
      EndValueKept(s, c);
    }
  }

  // Whole inputs.

  function Feed(s: Core, d: bytes): (t: Core)
    requires Safe(s)
    ensures Safe(t)
    decreases d
  {
    if d == [] then s else NextKept(s, d[0]); Feed(Next(s, d[0]).core, d[1..])
  }

  function Ops(s: Core, d: bytes): (ops: seq<Op>)
    requires Safe(s)
    ensures |ops| == |d|
    decreases d
  {
    if d == [] then [] else NextKept(s, d[0]); [Next(s, d[0]).op] + Ops(Next(s, d[0]).core, d[1..])
  }

  lemma {:induction false} FeedAppend(s: Core, a: bytes, b: bytes)
    requires Safe(s)
    ensures Feed(s, a + b) == Feed(Feed(s, a), b)
    ensures Ops(s, a + b) == Ops(s, a) + Ops(Feed(s, a), b)
    decreases a
  {
    if a == [] {
      assert a + b == b;
    } else {
      assert (a + b)[1..] == a[1..] + b;
      NextKept(s, a[0]);
      FeedAppend(Next(s, a[0]).core, a[1..], b);
    }
  }

  lemma {:induction false} FeedSticky(s: Core, d: bytes)
    requires Safe(s)
    ensures s.endTop ==> Feed(s, d).endTop
    ensures s.failed ==> Feed(s, d).failed
    decreases d
  {
    if d != [] {
      NextKept(s, d[0]);
      FeedSticky(Next(s, d[0]).core, d[1..]);
    }
  }

  /** Once one call reports an error, every later call does, and so does the end of input. */
  lemma {:induction false} ErrorIsFinal(s: Core, c: byte, d: bytes)
    requires Safe(s) && Next(s, c).op == Failed
    ensures Safe(Next(s, c).core)
    ensures forall i | 0 <= i < |d| :: Ops(Next(s, c).core, d)[i] == Failed
    ensures Eof(Feed(Next(s, c).core, d)).op == Failed
    decreases d
  {
    NextKept(s, c);
    var e := Next(s, c).core;
    if d != [] {
      assert Next(e, d[0]) == Out(e, Failed);
      ErrorIsFinal(e, d[0], d[1..]);
    }
  }

  ghost predicate Accepts(s: Core, d: bytes)
    requires Safe(s)
  {
    Eof(Feed(s, d)).op != Failed
  }

  /** However the input continues, no value is complete yet. */
  ghost predicate Dead(s: Core, d: bytes)
    requires Safe(s)
  {
    !Next(Feed(s, d), SPACE).core.endTop
  }
}

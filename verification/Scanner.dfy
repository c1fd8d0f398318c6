/** The scanner object: its step functions, end of input and one-byte undo, each doing what the machine does. */
module Scanner {
  import opened Bytes
  import opened Grammar
  import opened ScanCore

  class Scanner {
    var step: Step
    var endTop: bool
    var parseState: seq<ParseState>
    var failed: bool
    var redo: bool
    var redoCode: Op
    var redoState: Step

    /** The machine state, looking through a pending undo. */
    ghost function State(): Core
      reads this
    {
      Core(if redo then redoState else step, parseState, endTop, failed)
    }

    ghost predicate Valid()
      reads this
    {
      (redo <==> step.Redo?) && Safe(State())
    }

    /** The call did what the machine does. */
    ghost predicate Did(o: Out, op: Op)
      reads this
    {
      !redo && State() == o.core && op == o.op
    }

    constructor ()
      ensures Valid() && State() == START && !redo
    {
      step, endTop, parseState, failed := BeginValue, false, [], false;
      redo, redoCode, redoState := false, Continue, BeginValue;
    }

    method Reset()
      modifies this
      ensures Valid() && State() == START && !redo
    {
      step := BeginValue;
      parseState := [];
      failed := false;
      redo := false;
      endTop := false;
    }

    method Eof() returns (op: Op)
      requires Valid()
      modifies this
      ensures Valid() && (!old(redo) ==> !redo)
      ensures !old(redo) || old(failed) || old(endTop) ==>
                State() == ScanCore.Eof(old(State())).core && op == ScanCore.Eof(old(State())).op
      ensures old(redo) && !old(failed) && !old(endTop) ==>
                State() == old(State()).(failed := true) && op == Failed
    {
      if failed {
        return Failed;
      }
      if endTop {
        return End;
      }
      op := Step(SPACE);
      if endTop {
        return End;
      }
      if !failed {
        failed := true;
      }
      return Failed;
    }

    method PushParseState(p: ParseState)
      modifies this`parseState
      ensures parseState == old(parseState) + [p]
    {
      parseState := parseState + [p];
    }

    method PopParseState()
      requires parseState != [] && !redo
      modifies this
      ensures !redo && State() == Pop(old(State()))
    {
      var n := |parseState| - 1;
      parseState := parseState[..n];
      redo := false;
      if n == 0 {
        step := EndTop;
        endTop := true;
      } else {
        step := EndValue;
      }
    }

    method RecordError() returns (op: Op)
      requires !redo
      modifies this
      ensures Did(Fail(old(State())), op)
    {
      step := Error;
      failed := true;
      return Failed;
    }

    method StateBeginValueOrEmpty(c: byte) returns (op: Op)
      requires !redo && parseState != []
      modifies this
      ensures Did(AtBeginValueOrEmpty(old(State()), c), op)
    {
      if c <= SPACE && IsSpace(c) {
        return SkipSpace;
      }
      if c == RBRACKET {
        op := StateEndValue(c);
        return;
      }
      op := StateBeginValue(c);
    }

    method StateBeginValue(c: byte) returns (op: Op)
      requires !redo
      modifies this
      ensures Did(AtBeginValue(old(State()), c), op)
    {
      if c <= SPACE && IsSpace(c) {
        return SkipSpace;
      }
      if c == LBRACE {
        step := BeginStringOrEmpty;
        PushParseState(InKey);
        return BeginObject;
      }
      if c == LBRACKET {
        step := BeginValueOrEmpty;
        PushParseState(InArray);
        return BeginArray;
      }
      if c == QUOTE {
        step := InString;
      } else if c == MINUS {
        step := Neg;
      } else if c == ZERO {
        step := Int0;
      } else if c == 0x74 {
        step := T;
      } else if c == 0x66 {
        step := F;
      } else if c == 0x6E {
        step := N;
      } else if 0x31 <= c <= NINE {
        step := Int1;
      } else {
        op := RecordError();
        return;
      }
      return BeginLiteral;
    }

    method StateBeginStringOrEmpty(c: byte) returns (op: Op)
      requires !redo && parseState != []
      modifies this
      ensures Did(AtBeginStringOrEmpty(old(State()), c), op)
    {
      if c <= SPACE && IsSpace(c) {
        return SkipSpace;
      }
      if c == RBRACE {
        var n := |parseState|;
        parseState := parseState[n - 1 := InValue];
        assert State() == SetTop(old(State()), InValue);
        op := StateEndValue(c);
        return;
      }
      op := StateBeginString(c);
    }

    method StateBeginString(c: byte) returns (op: Op)
      requires !redo
      modifies this
      ensures Did(AtBeginString(old(State()), c), op)
    {
      if c <= SPACE && IsSpace(c) {
        return SkipSpace;
      }
      if c == QUOTE {
        step := InString;
        return BeginLiteral;
      }
      op := RecordError();
    }

    method StateEndValue(c: byte) returns (op: Op)
      requires !redo
      modifies this
      ensures Did(AtEndValue(old(State()), c), op)
    {
      var n := |parseState|;
      if n == 0 {
        step := EndTop;
        endTop := true;
        op := StateEndTop(c);
        return;
      }
      if c <= SPACE && IsSpace(c) {
        step := EndValue;
        return SkipSpace;
      }
      match parseState[n - 1] {
        case InKey =>
          if c == COLON {
            parseState := parseState[n - 1 := InValue];
            step := BeginValue;
            return ObjectKey;
          }
        case InValue =>
          if c == COMMA {
            parseState := parseState[n - 1 := InKey];
            step := BeginString;
            return ObjectValue;
          }
          if c == RBRACE {
            PopParseState();
            return EndObject;
          }
        case InArray =>
          if c == COMMA {
            step := BeginValue;
            return ArrayValue;
          }
          if c == RBRACKET {
            PopParseState();
            return EndArray;
          }
      }
      op := RecordError();
    }

    method StateEndTop(c: byte) returns (op: Op)
      requires !redo
      modifies this
      ensures Did(AtEndTop(old(State()), c), op)
    {
      if c != SPACE && c != TAB && c != CR && c != LF {
        var _ := RecordError();
      }
      return End;
    }

    method StateInString(c: byte) returns (op: Op)
      requires !redo && InStringStep(step)
      modifies this
      ensures Did(NextInString(old(State()), c), op)
    {
      if step.InString? {
        if c == QUOTE {
          step := EndValue;
          return Continue;
        }
        if c == BACKSLASH {
          step := InStringEsc;
          return Continue;
        }
        if c < 0x20 {
          op := RecordError();
          return;
        }
        return Continue;
      }
      if step.InStringEsc? {
        if IsEscape(c) {
          step := InString;
          return Continue;
        }
        if c == 0x75 {
          step := InStringEscU;
          return Continue;
        }
      } else if IsHex(c) {
        step := match step
          case InStringEscU => InStringEscU1
          case InStringEscU1 => InStringEscU12
          case InStringEscU12 => InStringEscU123
          case _ => InString;
        return Continue;
      }
      op := RecordError();
    }

    method StateInNumber(c: byte) returns (op: Op)
      requires !redo && InNumberStep(step)
      modifies this
      ensures Did(NextInNumber(old(State()), c), op)
    {
      if IsDigit(c) {
        if step.Neg? {
          step := if c == ZERO then Int0 else Int1;
          return Continue;
        }
        if step.Int0? {
          op := StateEndValue(c);
          return;
        }
        step := match step
          case Int1 => Int1
          case Dot => Dot0
          case Dot0 => Dot0
          case _ => Exp0;
        return Continue;
      }
      if (step.Int0? || step.Int1?) && c == DOT {
        step := Dot;
        return Continue;
      }
      if (step.Int0? || step.Int1? || step.Dot0?) && IsE(c) {
        step := Exp;
        return Continue;
      }
      if step.Exp? && IsSign(c) {
        step := ExpSign;
        return Continue;
      }
      if step.Int0? || step.Int1? || step.Dot0? || step.Exp0? {
        op := StateEndValue(c);
      } else {
        op := RecordError();
      }
    }

    method StateInName(c: byte) returns (op: Op)
      requires !redo
      modifies this
      ensures Did(NextInName(old(State()), c), op)
    {
      hide Safe;
      if step.T? && c == 0x72 {
        step := Tr;
      } else if step.Tr? && c == 0x75 {
        step := Tru;
      } else if step.Tru? && c == 0x65 {
        step := EndValue;
      } else if step.F? && c == 0x61 {
        step := Fa;
      } else if step.Fa? && c == 0x6C {
        step := Fal;
      } else if step.Fal? && c == 0x73 {
        step := Fals;
      } else if step.Fals? && c == 0x65 {
        step := EndValue;
      } else if step.N? && c == 0x75 {
        step := Nu;
      } else if step.Nu? && c == 0x6C {
        step := Nul;
      } else if !(step.T? || step.Tr? || step.Tru? || step.F? || step.Fa? || step.Fal? || step.Fals?)
                && !step.N? && !step.Nu? && c == 0x6C {
        step := EndValue;
      } else {
        op := RecordError();
        return;
      }
      return Continue;
    }

    method StateRedo() returns (op: Op)
      requires redo
      modifies this
      ensures !redo && State() == old(State()) && op == old(redoCode)
    {
      redo := false;
      step := redoState;
      return redoCode;
    }

    /** One byte of input: the current step function, or the undone answer once more. */
    method Step(c: byte) returns (op: Op)
      requires Valid()
      modifies this
      ensures Valid() && !redo
      ensures !old(redo) ==> Did(Next(old(State()), c), op)
      ensures old(redo) ==> State() == old(State()) && op == old(redoCode)
    {
      ghost var s := State();
      NextKept(s, c);
      if step.Redo? {
        op := StateRedo();
      } else if step.BeginValueOrEmpty? {
        op := StateBeginValueOrEmpty(c);
      } else if step.BeginValue? {
        op := StateBeginValue(c);
      } else if step.BeginStringOrEmpty? {
        op := StateBeginStringOrEmpty(c);
      } else if step.BeginString? {
        op := StateBeginString(c);
      } else if step.EndValue? {
        op := StateEndValue(c);
      } else if step.EndTop? {
        op := StateEndTop(c);
      } else if step.Error? {
        op := Failed;
      } else if InStringStep(step) {
        op := StateInString(c);
      } else if InNumberStep(step) {
        op := StateInNumber(c);
      } else {
        op := StateInName(c);
      }
    }

    /** Makes the next step repeat `code`; a second undo before that would panic, hence the precondition. */
    method Undo(code: Op)
      requires Valid() && !redo
      modifies this
      ensures Valid() && redo && redoCode == code && State() == old(State())
    {
      redoCode := code;
      redoState := step;
      step := Redo;
      redo := true;
    }
  }
}

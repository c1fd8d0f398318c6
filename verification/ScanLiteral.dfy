/** How the scanner reads one literal: strings, numbers and the three names. */
module ScanLiteral {
  import opened Bytes
  import opened Grammar
  import opened Parser
  import opened ScanCore

  function Repeat(op: Op, n: nat): (ops: seq<Op>)
    ensures |ops| == n && forall i | 0 <= i < n :: ops[i] == op
  {
    seq(n, _ => op)
  }

  lemma RepeatSum(op: Op, m: nat, n: nat)
    ensures Repeat(op, m) + Repeat(op, n) == Repeat(op, m + n)
  {}

  /** From `c`, the input `s` reports `ops` and is then where `c'` is with `s'` left. */
  ghost predicate Leads(c: Core, s: bytes, ops: seq<Op>, c': Core, s': bytes)
    requires Safe(c) && Safe(c')
  {
    Ops(c, s) == ops + Ops(c', s') && Feed(c, s) == Feed(c', s')
  }

  /**
   Like `Leads`, for the end of a value: a number ends in a state of its own, so the states are only
   required to agree once another byte (or the end of input) has been seen.
   */
  ghost predicate Settles(c: Core, s: bytes, ops: seq<Op>, c': Core, s': bytes)
    requires Safe(c) && Safe(c')
  {
    && Ops(c, s) == ops + Ops(c', s')
    && Next(Feed(c, s), SPACE) == Next(Feed(c', s'), SPACE)
    && (s' != [] ==> Feed(c, s) == Feed(c', s'))
  }

  /** The first `n` bytes are all reported as `Continue`. */
  ghost predicate Runs(c: Core, s: bytes, n: nat, c': Core) {
    Safe(c) && Safe(c') && n <= |s| && Leads(c, s, Repeat(Continue, n), c', s[n..])
  }

  ghost predicate Rests(c: Core, s: bytes, n: nat, c': Core) {
    Safe(c) && Safe(c') && n <= |s| && Settles(c, s, Repeat(Continue, n), c', s[n..])
  }

  lemma TakeOne(c: Core, s: bytes)
    requires Safe(c) && s != []
    ensures Safe(Next(c, s[0]).core)
    ensures Leads(c, s, [Next(c, s[0]).op], Next(c, s[0]).core, s[1..])
  {
    NextKept(c, s[0]);
  }

  lemma Chain(c: Core, s: bytes, x: seq<Op>, c': Core, s': bytes, y: seq<Op>, c'': Core, s'': bytes)
    requires Safe(c) && Safe(c') && Safe(c'')
    requires Leads(c, s, x, c', s')
    ensures Leads(c', s', y, c'', s'') ==> Leads(c, s, x + y, c'', s'')
    ensures Settles(c', s', y, c'', s'') ==> Settles(c, s, x + y, c'', s'')
  {
    assert x + (y + Ops(c'', s'')) == (x + y) + Ops(c'', s'');
  }

  lemma RunOne(c: Core, s: bytes, c': Core)
    requires Safe(c) && s != [] && Next(c, s[0]) == Out(c', Continue)
    ensures Runs(c, s, 1, c')
  {
    TakeOne(c, s);
    assert [Continue] == Repeat(Continue, 1);
  }

  lemma RunNone(c: Core, s: bytes)
    requires Safe(c)
    ensures Runs(c, s, 0, c)
  {
    assert s[0..] == s;
    assert Repeat(Continue, 0) == [];
  }

  lemma Join(c: Core, s: bytes, m: nat, c': Core, n: nat, c'': Core)
    requires Runs(c, s, m, c')
    ensures Runs(c', s[m..], n, c'') ==> Runs(c, s, m + n, c'')
    ensures Rests(c', s[m..], n, c'') ==> Rests(c, s, m + n, c'')
    ensures Dead(c, s) <==> Dead(c', s[m..])
  {
    if Safe(c'') && n <= |s[m..]| {
      Chain(c, s, Repeat(Continue, m), c', s[m..], Repeat(Continue, n), c'', s[m..][n..]);
      RepeatSum(Continue, m, n);
      assert s[m..][n..] == s[m + n..];
    }
  }

  /** Two states that take the first byte alike read the whole input alike. */
  lemma Twins(c: Core, e: Core, s: bytes, n: nat, c': Core)
    requires Safe(c) && s != [] && Safe(e) && Next(c, s[0]) == Next(e, s[0])
    ensures Rests(c, s, n, c') <==> Rests(e, s, n, c')
    ensures Feed(c, s) == Feed(e, s) && Ops(c, s) == Ops(e, s)
  {
    TakeOne(c, s);
    TakeOne(e, s);
  }

  /** The input ends inside a value. */
  lemma EmptyDead(c: Core)
    requires Safe(c) && !Next(c, SPACE).core.endTop
    ensures Dead(c, [])
  {}

  /** An error before the end of the value is never followed by one. */
  lemma ErrorDead(c: Core, s: bytes)
    requires Safe(c) && !c.endTop && s != [] && Next(c, s[0]) == Fail(c)
    ensures Dead(c, s)
  {
    TakeOne(c, s);
    StuckDead(Fail(c).core, s[1..]);
  }

  lemma {:induction false} StuckDead(c: Core, s: bytes)
    requires Safe(c) && !c.endTop && c.step.Error?
    ensures Dead(c, s)
    decreases s
  {
    if s != [] {
      TakeOne(c, s);
      StuckDead(c, s[1..]);
    }
  }

  // Strings.

  function HexLeft(p: Step): nat {
    match p
    case InStringEscU => 4
    case InStringEscU1 => 3
    case InStringEscU12 => 2
    case InStringEscU123 => 1
    case _ => 0
  }

  predicate HexPrefix(s: bytes, n: nat) {
    n == 0 || (s != [] && IsHex(s[0]) && HexPrefix(s[1..], n - 1))
  }

  lemma {:induction false} ScanHex(c: Core, s: bytes, n: nat)
    requires Safe(c) && !c.endTop && n == HexLeft(c.step) && (n > 0 || c.step.InString?)
    ensures HexPrefix(s, n) ==> Runs(c, s, n, c.Go(InString))
    ensures !HexPrefix(s, n) ==> Dead(c, s)
    decreases n
  {
    hide Runs, Rests, Dead;
    if n == 0 {
      RunNone(c, s);
    } else if s == [] {
      EmptyDead(c);
    } else {
      if IsHex(s[0]) {
        var c' := Next(c, s[0]).core;
        RunOne(c, s, c');
        ScanHex(c', s[1..], n - 1);
        Join(c, s, 1, c', n - 1, c.Go(InString));
      } else {
        ErrorDead(c, s);
      }
    }
  }

  lemma {:induction false} HexEach(s: bytes, n: nat)
    ensures HexPrefix(s, n) <==> |s| >= n && forall i | 0 <= i < n :: IsHex(s[i])
    decreases n
  {
    if n > 0 && s != [] {
      HexEach(s[1..], n - 1);
      assert forall i | 0 < i < n && i < |s| :: s[1..][i - 1] == s[i];
      assert forall i | 0 <= i < n - 1 && i < |s| - 1 :: s[1..][i] == s[i + 1];
    }
  }

  lemma HexFour(s: bytes)
    ensures HexPrefix(s, 4) <==> |s| >= 4 && IsHex(s[0]) && IsHex(s[1]) && IsHex(s[2]) && IsHex(s[3])
  {
    HexEach(s, 4);
  }

  lemma ScanEscape(c: Core, s: bytes)
    requires Safe(c) && !c.endTop && c.step.InStringEsc?
    ensures var k := CharLen([BACKSLASH] + s);
            (k > 0 ==> Runs(c, s, k - 1, c.Go(InString))) && (k == 0 ==> Dead(c, s))
  {
    hide Runs, Rests, Dead;
    if s == [] {
      EmptyDead(c);
    } else if s[0] == 0x75 {
      var u := c.Go(InStringEscU);
      RunOne(c, s, u);
      ScanHex(u, s[1..], 4);
      HexFour(s[1..]);
      Join(c, s, 1, u, 4, c.Go(InString));
    } else if IsEscape(s[0]) {
      RunOne(c, s, c.Go(InString));
    } else {
      ErrorDead(c, s);
    }
  }

  lemma ScanChar(c: Core, s: bytes)
    requires Safe(c) && !c.endTop && c.step.InString? && s != [] && s[0] != QUOTE
    ensures CharLen(s) > 0 ==> Runs(c, s, CharLen(s), c)
    ensures CharLen(s) == 0 ==> Dead(c, s)
  {
    hide Runs, Rests, Dead;
    if s[0] == BACKSLASH {
      var e := c.Go(InStringEsc);
      RunOne(c, s, e);
      ScanEscape(e, s[1..]);
      HeadTail(s);
      if CharLen(s) > 0 { Join(c, s, 1, e, CharLen(s) - 1, c); } else { Join(c, s, 1, e, 0, c); }
    } else if s[0] < 0x20 {
      ErrorDead(c, s);
    } else {
      RunOne(c, s, c);
    }
  }

  lemma {:induction false} ScanChars(c: Core, s: bytes)
    requires Safe(c) && !c.endTop && c.step.InString?
    ensures CharsLen(s).Some? ==> Runs(c, s, CharsLen(s).value + 1, c.Go(EndValue))
    ensures CharsLen(s).None? ==> Dead(c, s)
    decreases |s|
  {
    hide Runs, Rests, Dead;
    if s == [] {
      EmptyDead(c);
    } else if s[0] == QUOTE {
      RunOne(c, s, c.Go(EndValue));
    } else {
      var k := CharLen(s);
      ScanChar(c, s);
      if k > 0 {
        ScanChars(c, s[k..]);
        var n := CharsLen(s[k..]);
        Join(c, s, k, c, if n.Some? then n.value + 1 else 0, c.Go(EndValue));
      }
    }
  }

  // Numbers.

  lemma {:induction false} ScanDigits(c: Core, s: bytes)
    requires Safe(c) && (c.step.Int1? || c.step.Dot0? || c.step.Exp0?)
    ensures Runs(c, s, Digits(s), c)
    decreases s
  {
    hide Runs, Rests, Dead;
    if s == [] || !IsDigit(s[0]) {
      RunNone(c, s);
    } else {
      RunOne(c, s, c);
      ScanDigits(c, s[1..]);
      Join(c, s, 1, c, Digits(s[1..]), c);
    }
  }

  lemma EndValueForgets(c: Core, p: Step, b: byte)
    ensures AtEndValue(c.Go(p), b) == AtEndValue(c, b)
  {}

  /** A number state that meets a byte it does not continue with acts like `EndValue`. */
  lemma Settle(c: Core, s: bytes)
    requires Safe(c) && !c.endTop && (c.step.Int0? || c.step.Int1? || c.step.Dot0? || c.step.Exp0?)
    requires s != [] ==> Next(c, s[0]) == AtEndValue(c, s[0])
    ensures Rests(c, s, 0, c.Go(EndValue))
  {
    EndValueForgets(c, EndValue, SPACE);
    assert Next(c, SPACE) == AtEndValue(c, SPACE);
    if s != [] {
      EndValueForgets(c, EndValue, s[0]);
      TakeOne(c, s);
      TakeOne(c.Go(EndValue), s);
    }
    assert s[0..] == s;
    assert Repeat(Continue, 0) == [];
  }

  lemma ScanExpDigits(c: Core, s: bytes)
    requires Safe(c) && !c.endTop && c.step.ExpSign?
    ensures Digits(s) > 0 ==> Rests(c, s, Digits(s), c.Go(EndValue))
    ensures Digits(s) == 0 ==> Dead(c, s)
  {
    hide Runs, Rests, Dead;
    if s == [] {
      EmptyDead(c);
    } else if IsDigit(s[0]) {
      var e := c.Go(Exp0);
      RunOne(c, s, e);
      var n := Digits(s[1..]);
      ScanDigits(e, s[1..]);
      DigitsRun(s[1..]);
      Settle(e, s[1..][n..]);
      Join(e, s[1..], n, e, 0, c.Go(EndValue));
      Join(c, s, 1, e, n, c.Go(EndValue));
    } else {
      ErrorDead(c, s);
    }
  }

  /** `Exp` behaves like `ExpSign` on anything but a sign. */
  lemma ScanUnsignedExp(c: Core, s: bytes)
    requires Safe(c) && !c.endTop && c.step.Exp? && (s != [] ==> !IsSign(s[0]))
    ensures Digits(s) > 0 ==> Rests(c, s, Digits(s), c.Go(EndValue))
    ensures Digits(s) == 0 ==> Dead(c, s)
  {
    hide Runs, Rests, Dead;
    var e := c.Go(ExpSign);
    if s == [] {
      EmptyDead(c);
    } else if IsDigit(s[0]) {
      ScanExpDigits(e, s);
      Twins(c, e, s, Digits(s), c.Go(EndValue));
    } else {
      ErrorDead(c, s);
    }
  }

  lemma ScanAfterE(c: Core, s: bytes)
    requires Safe(c) && !c.endTop && c.step.Exp?
    ensures var g := if s != [] && IsSign(s[0]) then 1 else 0;
            var d := Digits(s[g..]);
            && (d > 0 ==> Rests(c, s, g + d, c.Go(EndValue)))
            && (d == 0 ==> Dead(c, s))
  {
    hide Runs, Rests, Dead;
    if s != [] && IsSign(s[0]) {
      var e := c.Go(ExpSign);
      RunOne(c, s, e);
      ScanExpDigits(e, s[1..]);
      Join(c, s, 1, e, Digits(s[1..]), c.Go(EndValue));
    } else {
      assert s[0..] == s;
      ScanUnsignedExp(c, s);
    }
  }

  /** The exponent part, after an integer or a fraction. */
  lemma ScanExp(c: Core, s: bytes)
    requires Safe(c) && !c.endTop && (c.step.Int0? || c.step.Int1? || c.step.Dot0?)
    requires s != [] ==> s[0] != DOT || c.step.Dot0?
    requires s != [] ==> !IsDigit(s[0]) || c.step.Int0?
    ensures ExpLen(s).Some? ==> Rests(c, s, ExpLen(s).value, c.Go(EndValue))
    ensures ExpLen(s).None? ==> Dead(c, s)
  {
    hide Runs, Rests, Dead;
    if s == [] || !IsE(s[0]) {
      Settle(c, s);
    } else {
      var e := c.Go(Exp);
      RunOne(c, s, e);
      var u := s[1..];
      ScanAfterE(e, u);
      var g := if u != [] && IsSign(u[0]) then 1 else 0;
      assert u[g..] == s[1 + g..];
      Join(c, s, 1, e, g + Digits(u[g..]), c.Go(EndValue));
    }
  }

  lemma ScanFrac(c: Core, s: bytes)
    requires Safe(c) && !c.endTop && c.step.Dot?
    ensures Digits(s) > 0 ==> Runs(c, s, Digits(s), c.Go(Dot0))
    ensures Digits(s) == 0 ==> Dead(c, s)
  {
    hide Runs, Rests, Dead;
    if s == [] {
      EmptyDead(c);
    } else if IsDigit(s[0]) {
      var e := c.Go(Dot0);
      RunOne(c, s, e);
      ScanDigits(e, s[1..]);
      Join(c, s, 1, e, Digits(s[1..]), e);
    } else {
      ErrorDead(c, s);
    }
  }

  /** A fraction and what follows it, after the integer part. */
  lemma ScanDotExp(c: Core, s: bytes)
    requires Safe(c) && !c.endTop && (c.step.Int0? || c.step.Int1?) && s != [] && s[0] == DOT
    ensures FracExpLen(s).Some? ==> Rests(c, s, FracExpLen(s).value, c.Go(EndValue))
    ensures FracExpLen(s).None? ==> Dead(c, s)
  {
    hide Runs, Rests, Dead, Feed, Ops, ExpLen, Digits;
    var p, q := c.Go(Dot), c.Go(Dot0);
    var d := Digits(s[1..]);
    RunOne(c, s, p);
    ScanFrac(p, s[1..]);
    Join(c, s, 1, p, d, q);
    if d > 0 {
      DigitsRun(s[1..]);
      var v := s[1 + d..];
      assert v == s[1..][d..];
      ScanExp(q, v);
      Join(c, s, 1 + d, q, if ExpLen(v).Some? then ExpLen(v).value else 0, c.Go(EndValue));
    }
  }

  lemma ScanFracExp(c: Core, s: bytes)
    requires Safe(c) && !c.endTop && (c.step.Int0? || c.step.Int1?)
    requires s != [] ==> !IsDigit(s[0]) || c.step.Int0?
    ensures FracExpLen(s).Some? ==> Rests(c, s, FracExpLen(s).value, c.Go(EndValue))
    ensures FracExpLen(s).None? ==> Dead(c, s)
  {
    hide Runs, Rests, Dead;
    if s != [] && s[0] == DOT {
      ScanDotExp(c, s);
    } else {
      assert s[0..] == s;
      ScanExp(c, s);
    }
  }

  /** The rest of an unsigned number whose first digit put the scanner into `Int0` or `Int1`. */
  lemma ScanAfterDigit(c: Core, s: bytes, d: byte)
    requires Safe(c) && !c.endTop && IsDigit(d) && c.step == (if d == ZERO then Int0 else Int1)
    ensures var n := UnsignedLen([d] + s);
            && (n.Some? ==> Rests(c, s, n.value - 1, c.Go(EndValue)))
            && (n.None? ==> Dead(c, s))
  {
    hide Runs, Rests, Dead, Feed, Ops, Next, FracExpLen;
    var t := [d] + s;
    Behead(d, s);
    var i := IntLen(t).value;
    assert t[i..] == s[i - 1..];
    var v := s[i - 1..];
    if d == ZERO {
      RunNone(c, s);
    } else {
      ScanDigits(c, s);
      DigitsRun(s);
    }
    ScanFracExp(c, v);
    var n := FracExpLen(v);
    Join(c, s, i - 1, c, if n.Some? then n.value else 0, c.Go(EndValue));
  }

  // Names.

  /** The bytes still expected in one of the three names. */
  function NameLeft(p: Step): bytes {
    match p
    case T => [0x72, 0x75, 0x65]
    case Tr => [0x75, 0x65]
    case Tru => [0x65]
    case F => [0x61, 0x6C, 0x73, 0x65]
    case Fa => [0x6C, 0x73, 0x65]
    case Fal => [0x73, 0x65]
    case Fals => [0x65]
    case N => [0x75, 0x6C, 0x6C]
    case Nu => [0x6C, 0x6C]
    case Nul => [0x6C]
    case _ => []
  }

  lemma {:induction false} ScanName(c: Core, s: bytes, w: bytes)
    requires Safe(c) && !c.endTop && w == NameLeft(c.step) && (w != [] || c.step.EndValue?)
    ensures Begins(s, w) ==> Runs(c, s, |w|, c.Go(EndValue))
    ensures !Begins(s, w) ==> Dead(c, s)
    decreases |w|
  {
    hide Runs, Rests, Dead;
    if w == [] {
      RunNone(c, s);
    } else if s == [] {
      EmptyDead(c);
    } else {
      if s[0] == w[0] {
        var c' := Next(c, s[0]).core;
        RunOne(c, s, c');
        assert NameLeft(c'.step) == w[1..];
        ScanName(c', s[1..], w[1..]);
        Join(c, s, 1, c', |w| - 1, c.Go(EndValue));
      } else {
        ErrorDead(c, s);
      }
    }
  }
}

/**
 The byte-level escaping that `compact` applies: U+2028 and U+2029 always, and <, >, & on request.
 It keeps literals literals, does not change what they stand for, and applying it twice is applying it once.
 */
module Escape {
  import opened Bytes
  import opened Grammar
  import opened Utf8
  import opened Strings

  predicate IsHtml(c: byte) {
    c == 0x3C || c == 0x3E || c == 0x26
  }

  /** `s` begins with the UTF-8 form of U+2028 or U+2029. */
  predicate LineSep(s: bytes) {
    |s| >= 3 && s[0] == 0xE2 && s[1] == 0x80 && (s[2] == 0xA8 || s[2] == 0xA9)
  }

  function Esc(s: bytes, html: bool): bytes {
    if s == [] then []
    else if LineSep(s) then EscapeLine(s[2]) + Esc(s[3..], html)
    else if html && IsHtml(s[0]) then EscapeByte(s[0]) + Esc(s[1..], html)
    else [s[0]] + Esc(s[1..], html)
  }

  /** Replaced bytes begin with a backslash; all others begin with themselves. */
  lemma EscHead(s: bytes, html: bool)
    ensures s == [] <==> Esc(s, html) == []
    ensures s != [] ==> Esc(s, html)[0] == if LineSep(s) || (html && IsHtml(s[0])) then BACKSLASH else s[0]
  {}

  /** No line separator appears where there was none. */
  lemma NoNewSep(s: bytes, html: bool)
    requires s != [] && !LineSep(s) && !(html && IsHtml(s[0]))
    ensures !LineSep([s[0]] + Esc(s[1..], html))
  {
    var z := Esc(s[1..], html);
    EscHead(s[1..], html);
    if s[0] == 0xE2 && z != [] && z[0] == 0x80 {
      assert s[1] == 0x80 && z == [s[1]] + Esc(s[1..][1..], html);
      assert s[1..][1..] == s[2..];
      EscHead(s[2..], html);
    }
  }

  lemma {:induction false} EscAscii(e: bytes, x: bytes, html: bool)
    requires Tame(e)
    ensures Esc(e + x, html) == e + Esc(x, html)
    decreases e
  {
    if e == [] {
      assert e + x == x;
      assert [] + Esc(x, html) == Esc(x, html);
    } else {
      assert (e + x)[1..] == e[1..] + x;
      EscAscii(e[1..], x, html);
      HeadTail(e);
      Assoc([e[0]], e[1..], Esc(x, html));
    }
  }

  /** Escaping is idempotent. */
  lemma {:induction false} EscTwice(s: bytes, html: bool)
    ensures Esc(Esc(s, html), html) == Esc(s, html)
    decreases |s|
  {
    if s == [] {
    } else if LineSep(s) {
      EscTwice(s[3..], html);
      EscAscii(EscapeLine(s[2]), Esc(s[3..], html), html);
    } else if html && IsHtml(s[0]) {
      EscTwice(s[1..], html);
      EscAscii(EscapeByte(s[0]), Esc(s[1..], html), html);
    } else {
      EscTwice(s[1..], html);
      NoNewSep(s, html);
      Behead(s[0], Esc(s[1..], html));
    }
  }

  /** Nothing in `s` asks to be escaped. */
  predicate Harmless(s: bytes, html: bool) {
    forall i | 0 <= i < |s| :: !LineSep(s[i..]) && !(html && IsHtml(s[i]))
  }

  lemma HarmlessStep(s: bytes, html: bool)
    requires s != []
    ensures Harmless(s, html) <==> !LineSep(s) && !(html && IsHtml(s[0])) && Harmless(s[1..], html)
  {
    assert s[0..] == s;
    if Harmless(s, html) {
      forall i | 0 <= i < |s| - 1 ensures !LineSep(s[1..][i..]) && !(html && IsHtml(s[1..][i])) {
        assert s[1..][i..] == s[i + 1..] && s[1..][i] == s[i + 1];
      }
    }
    if !LineSep(s) && !(html && IsHtml(s[0])) && Harmless(s[1..], html) {
      forall i | 0 <= i < |s| ensures !LineSep(s[i..]) && !(html && IsHtml(s[i])) {
        if i > 0 { assert s[1..][i - 1..] == s[i..] && s[1..][i - 1] == s[i]; }
      }
    }
  }

  lemma {:induction false} EscLength(s: bytes, html: bool)
    ensures |Esc(s, html)| >= |s|
    ensures !Harmless(s, html) ==> |Esc(s, html)| > |s|
    decreases |s|
  {
    if s != [] {
      HarmlessStep(s, html);
      EscLength(s[if LineSep(s) then 3 else 1..], html);
    }
  }

  /** Escaping changes a text exactly when there is something to escape. */
  lemma {:induction false} EscFixes(s: bytes, html: bool)
    ensures Esc(s, html) == s <==> Harmless(s, html)
    decreases |s|
  {
    EscLength(s, html);
    if s != [] && Harmless(s, html) {
      HarmlessStep(s, html);
      EscFixes(s[1..], html);
      HeadTail(s);
    }
  }

  /** Escaped text holds no U+2028 or U+2029 and, on request, none of the bytes <, > and &. */
  lemma EscHarmless(s: bytes, html: bool)
    ensures Harmless(Esc(s, html), html)
  {
    hide Harmless, Esc;
    EscTwice(s, html);
    EscFixes(Esc(s, html), html);
  }

  function Width(s: bytes): nat { if LineSep(s) then 3 else 1 }

  /** What the character at the front of `s` becomes. */
  function EscFront(s: bytes, html: bool): bytes
    requires s != []
  {
    if LineSep(s) then EscapeLine(s[2]) else if html && IsHtml(s[0]) then EscapeByte(s[0]) else [s[0]]
  }

  lemma EscUnfold(s: bytes, html: bool)
    requires s != []
    ensures Width(s) <= |s| && Esc(s, html) == EscFront(s, html) + Esc(s[Width(s)..], html)
  {}

  lemma FrontSame(a: bytes, b: bytes, html: bool)
    requires a != [] && (LineSep(a + b) ==> |a| >= 3)
    ensures Width(a + b) == Width(a) <= |a| && EscFront(a + b, html) == EscFront(a, html)
  {
    assert forall i | 0 <= i < |a| :: (a + b)[i] == a[i];
  }

  /** Text is escaped piece by piece, wherever it is not cut inside U+2028 or U+2029. */
  lemma {:induction false} EscPieces(a: bytes, b: bytes, html: bool)
    requires forall i | 0 <= i < |a| && LineSep((a + b)[i..]) :: i + 3 <= |a|
    ensures Esc(a + b, html) == Esc(a, html) + Esc(b, html)
    decreases |a|
  {
    hide Esc, LineSep, EscFront;
    if a == [] {
      assert Esc(a, html) == [] by { EscHead(a, html); }
      assert a + b == b && [] + Esc(b, html) == Esc(b, html);
    } else {
      var n := Width(a);
      assert (a + b)[0..] == a + b;
      FrontSame(a, b, html);
      EscUnfold(a + b, html);
      EscUnfold(a, html);
      assert (a + b)[n..] == a[n..] + b;
      forall i | 0 <= i < |a[n..]| && LineSep((a[n..] + b)[i..]) ensures i + 3 <= |a[n..]| {
        assert (a + b)[i + n..] == (a[n..] + b)[i..];
      }
      EscPieces(a[n..], b, html);
      Assoc(EscFront(a, html), Esc(a[n..], html), Esc(b, html));
    }
  }

  /** What each escaped character becomes. */
  lemma EscEach(html: bool)
    ensures Esc([0x3C], true) == [BACKSLASH, 0x75, 0x30, 0x30, 0x33, 0x63]
    ensures Esc([0x3E], true) == [BACKSLASH, 0x75, 0x30, 0x30, 0x33, 0x65]
    ensures Esc([0x26], true) == [BACKSLASH, 0x75, 0x30, 0x30, 0x32, 0x36]
    ensures Esc([0xE2, 0x80, 0xA8], html) == [BACKSLASH, 0x75, 0x32, 0x30, 0x32, 0x38]
    ensures Esc([0xE2, 0x80, 0xA9], html) == [BACKSLASH, 0x75, 0x32, 0x30, 0x32, 0x39]
  {}

  // Literals stay literals.

  /** The length of an escape at the front of a string's characters. */
  function EscapeSize(s: bytes): nat
    requires |s| >= 2
  {
    if s[1] == 0x75 then 6 else 2
  }

  /** An escape sequence is copied unchanged. */
  lemma EscOfSequence(s: bytes, html: bool)
    requires IsChars(s) && s != [] && s[0] == BACKSLASH
    ensures |s| >= EscapeSize(s) && IsChars(s[EscapeSize(s)..])
    ensures Esc(s, html) == s[..EscapeSize(s)] + Esc(s[EscapeSize(s)..], html)
    ensures forall x :: IsChars(x) ==> IsChars(s[..EscapeSize(s)] + x)
  {
    var k := EscapeSize(s);
    Rejoin(s, k);
    EscAscii(s[..k], s[k..], html);
    forall x | IsChars(x)
      ensures IsChars(s[..k] + x)
    {
      Seam(s[..k], x);
    }
  }

  lemma {:induction false} EscIsChars(s: bytes, html: bool)
    requires IsChars(s)
    ensures IsChars(Esc(s, html))
    decreases |s|
  {
    if s == [] {
    } else if LineSep(s) {
      CharsSkip(s, 3);
      EscIsChars(s[3..], html);
      HexRoundTrip(s[2] % 16);
      EscapeChars(EscapeLine(s[2]), Esc(s[3..], html));
    } else if s[0] == BACKSLASH {
      EscOfSequence(s, html);
      EscIsChars(s[EscapeSize(s)..], html);
    } else {
      EscIsChars(s[1..], html);
      EscOneIsChars(s, html);
    }
  }

  lemma EscOneIsChars(s: bytes, html: bool)
    requires IsChars(s) && s != [] && s[0] != BACKSLASH && !LineSep(s) && IsChars(Esc(s[1..], html))
    ensures IsChars(Esc(s, html))
  {
    if html && IsHtml(s[0]) {
      HexRoundTrip(s[0] / 16);
      HexRoundTrip(s[0] % 16);
      EscapeChars(EscapeByte(s[0]), Esc(s[1..], html));
    } else {
      Behead(s[0], Esc(s[1..], html));
    }
  }

  lemma EscString(t: bytes, html: bool)
    requires IsString(t)
    ensures IsString(Esc(t, html))
    ensures Esc(t, html) == [QUOTE] + Esc(t[1..|t| - 1], html) + [QUOTE]
  {
    var m := t[1..|t| - 1];
    assert t == [QUOTE] + (m + [QUOTE]);
    EscAscii([QUOTE], m + [QUOTE], html);
    EscBeforeAscii(m, [QUOTE], html);
    EscAscii([QUOTE], [], html);
    assert [QUOTE] + [] == [QUOTE];
    Assoc([QUOTE], Esc(m, html), [QUOTE]);
    EscIsChars(m, html);
    var e := Esc(t, html);
    assert e[1..|e| - 1] == Esc(m, html);
  }

  /** A separator cannot straddle an ASCII byte, so escaping distributes over what precedes one. */
  lemma {:induction false} EscBeforeAscii(m: bytes, x: bytes, html: bool)
    requires x != [] ==> x[0] < 0x80
    ensures Esc(m + x, html) == Esc(m, html) + Esc(x, html)
    decreases |m|
  {
    if m == [] {
      assert m + x == x;
      assert [] + Esc(x, html) == Esc(x, html);
    } else {
      var k := if LineSep(m) then 3 else 1;
      assert LineSep(m + x) <==> LineSep(m);
      assert (m + x)[k..] == m[k..] + x;
      EscBeforeAscii(m[k..], x, html);
      var e := if LineSep(m) then EscapeLine(m[2]) else if html && IsHtml(m[0]) then EscapeByte(m[0]) else [m[0]];
      Assoc(e, Esc(m[k..], html), Esc(x, html));
    }
  }

  /** ASCII without <, > and &: nothing to escape. */
  predicate Tame(t: bytes) {
    forall i | 0 <= i < |t| :: t[i] < 0x80 && !IsHtml(t[i])
  }

  lemma EscPlain(t: bytes, html: bool)
    requires Tame(t)
    ensures Esc(t, html) == t
  {
    EscAscii(t, [], html);
    assert t + [] == t;
  }

  lemma TameSum(a: bytes, b: bytes)
    requires Tame(a) && Tame(b)
    ensures Tame(a + b)
  {}

  lemma NumberTame(t: bytes)
    requires IsNumber(t)
    ensures Tame(t)
  {
    hide IsExp, IsFrac, IsInt;
    var m, i, f, e :| NumberParts(t, m, i, f, e);
    PartsTame(i, f);
    ExpTame(e);
    TameSum(f, e);
    TameSum(i, f + e);
    TameSum(m, i + (f + e));
  }

  lemma PartsTame(i: bytes, f: bytes)
    requires IsInt(i) && IsFrac(f)
    ensures Tame(i) && Tame(f)
  {
    if f != [] {
      HeadTail(f);
      TameSum([f[0]], f[1..]);
    }
  }

  lemma ExpTame(e: bytes)
    requires IsExp(e)
    ensures Tame(e)
  {
    if e != [] {
      HeadTail(e);
      if AllDigits(e[1..]) {
        TameSum([e[0]], e[1..]);
      } else {
        assert e == [e[0], e[1]] + e[2..];
        TameSum([e[0], e[1]], e[2..]);
      }
    }
  }

  /** Escaping keeps every kind of literal, and changes only strings. */
  lemma EscLiteral(t: bytes, html: bool)
    requires IsLiteral(t)
    ensures IsLiteral(Esc(t, html))
    ensures !IsString(t) ==> Esc(t, html) == t
  {
    if IsString(t) {
      EscString(t, html);
    } else if IsNumber(t) {
      NumberTame(t);
      EscPlain(t, html);
    } else {
      EscPlain(t, html);
    }
  }

  // Meaning is kept.

  /** A high byte that begins no rune still begins none after escaping what follows it. */
  lemma BadStaysBad(s: bytes, html: bool)
    requires s != [] && s[0] >= 0x80 && BadRune(s) && !LineSep(s)
    ensures BadRune([s[0]] + Esc(s[1..], html))
  {
    var z := Esc(s[1..], html);
    var y := [s[0]] + z;
    EscHead(s[1..], html);
    if |s| >= 2 && Cont(s[1]) {
      assert s[1..][1..] == s[2..];
      assert z == [s[1]] + Esc(s[2..], html);
      EscHead(s[2..], html);
      if |s| >= 3 && Cont(s[2]) {
        assert s[2..][1..] == s[3..];
        assert Esc(s[2..], html) == [s[2]] + Esc(s[3..], html);
        EscHead(s[3..], html);
      }
    }
  }

  lemma {:induction false} EscHigh(s: bytes, n: nat, html: bool)
    requires n <= |s| && forall i | 0 <= i < n :: Cont(s[i])
    ensures Esc(s, html) == s[..n] + Esc(s[n..], html)
    decreases n
  {
    if n == 0 {
      assert s[0..] == s;
      assert [] + Esc(s, html) == Esc(s, html);
    } else {
      EscHigh(s[1..], n - 1, html);
      assert s[1..][n - 1..] == s[n..];
      assert s[..n] == [s[0]] + s[1..][..n - 1];
      Assoc([s[0]], s[1..][..n - 1], Esc(s[n..], html));
    }
  }

  /** A character of several bytes other than the two separators is copied unchanged. */
  lemma EscOfRune(s: bytes, html: bool)
    requires s != [] && s[0] >= 0x80 && !LineSep(s)
    ensures var n := DecodeRune(s).size;
            && Esc(s, html) == s[..n] + Esc(s[n..], html)
            && DecodeRune(Esc(s, html)) == DecodeRune(s)
  {
    var n := DecodeRune(s).size;
    if BadRune(s) {
      BadStaysBad(s, html);
      assert s[..1] == [s[0]];
    } else {
      EscHigh(s[1..], n - 1, html);
      assert s[1..][n - 1..] == s[n..];
      assert s[..n] == [s[0]] + s[1..][..n - 1];
      Assoc([s[0]], s[1..][..n - 1], Esc(s[n..], html));
      DecodePrefix(s, Esc(s[n..], html));
    }
  }

  lemma LineSepUnit(s: bytes, x: bytes)
    requires LineSep(s)
    ensures UnquoteOne(s) == Some(Unit(s[..3], 3))
    ensures UnquoteOne(EscapeLine(s[2]) + x) == Some(Unit(s[..3], 6))
  {
    var r := DecodeRune(s).rune;
    EncodeDecode(s);
    assert r == 0x2028 || r == 0x2029;
    assert EscapeLine(s[2]) == EscapeLine(r);
    LineUnit(r, x);
  }

  /** A code unit after a lone surrogate: escaping never creates a second half. */
  lemma SecondHalf(s: bytes, html: bool, r: int)
    requires IsChars(s)
    ensures DecodePair(r, GetU4(Esc(s, html))) == DecodePair(r, GetU4(s))
  {
    if s == [] {
    } else if s[0] == BACKSLASH {
      EscOfSequence(s, html);
    } else if LineSep(s) {
      assert GetU4(EscapeLine(s[2]) + Esc(s[3..], html)) < 0xD800;
    } else if html && IsHtml(s[0]) {
      assert GetU4(EscapeByte(s[0]) + Esc(s[1..], html)) < 0xD800;
    }
  }

  /** The unit an escape sequence stands for does not depend on escaping what follows. */
  lemma SequenceUnit(s: bytes, html: bool)
    requires IsChars(s) && s != [] && s[0] == BACKSLASH
    ensures UnquoteOne(Esc(s, html)) == UnquoteOne(s)
  {
    EscOfSequence(s, html);
    var k := EscapeSize(s);
    var z := Esc(s[k..], html);
    Seam(s[..k], z);
    if s[1] == 0x75 {
      assert GetU4(s[..k] + z) == GetU4(s);
      SecondHalf(s[6..], html, GetU4(s));
    }
  }

  lemma {:induction false} EscKeepsMeaning(s: bytes, html: bool)
    requires IsChars(s)
    ensures UnquoteChars(Esc(s, html)) == UnquoteChars(s)
    decreases |s|
  {
    if s == [] {
    } else if LineSep(s) {
      var x := Esc(s[3..], html);
      CharsSkip(s, 3);
      EscKeepsMeaning(s[3..], html);
      LineSepUnit(s, x);
      Seam(EscapeLine(s[2]), x);
    } else if s[0] == BACKSLASH {
      SequenceMeaning(s, html);
    } else if s[0] < 0x80 {
      var x := Esc(s[1..], html);
      EscKeepsMeaning(s[1..], html);
      AsciiMeaning(s, html);
    } else {
      UnitOfChars(s);
      var n := DecodeRune(s).size;
      EscOfRune(s, html);
      Seam(s[..n], Esc(s[n..], html));
      EscKeepsMeaning(s[n..], html);
    }
  }

  lemma AsciiMeaning(s: bytes, html: bool)
    requires IsChars(s) && s != [] && s[0] < 0x80 && s[0] != BACKSLASH
    requires UnquoteChars(Esc(s[1..], html)) == UnquoteChars(s[1..])
    ensures UnquoteChars(Esc(s, html)) == UnquoteChars(s)
  {
    var x := Esc(s[1..], html);
    if html && IsHtml(s[0]) {
      AsciiUnit(s[0], x);
      Seam(EscapeByte(s[0]), x);
    } else {
      Behead(s[0], x);
    }
  }

  /** An escape sequence, or two when they form a surrogate pair. */
  lemma {:induction false} SequenceMeaning(s: bytes, html: bool)
    requires IsChars(s) && s != [] && s[0] == BACKSLASH
    ensures UnquoteChars(Esc(s, html)) == UnquoteChars(s)
    decreases |s|, 0
  {
    UnitOfChars(s);
    SequenceUnit(s, html);
    EscOfSequence(s, html);
    var n := UnquoteOne(s).value.size;
    var k := EscapeSize(s);
    EscKeepsMeaning(s[n..], html);
    if n == k {
      Seam(s[..k], Esc(s[k..], html));
    } else {
      EscOfSequence(s[6..], html);
      assert s[6..][6..] == s[12..];
      var z := Esc(s[12..], html);
      Assoc(s[..6], s[6..][..6], z);
      Seam(s[..6] + s[6..][..6], z);
    }
  }

  /** Escaping does not change what a string literal stands for. */
  lemma EscUnquote(t: bytes, html: bool)
    requires IsString(t)
    ensures Unquote(Esc(t, html)) == Unquote(t)
  {
    EscString(t, html);
    var m := t[1..|t| - 1];
    EscKeepsMeaning(m, html);
    var e := Esc(t, html);
    assert e[1..|e| - 1] == Esc(m, html);
  }

  // What `encodeState.string` writes needs no escaping.

  lemma {:induction false} QuoteNeedsNone(s: bytes, x: bytes)
    requires Esc(x, true) == x && (x != [] ==> x[0] < 0x80)
    ensures Esc(QuoteChars(s) + x, true) == QuoteChars(s) + x
    decreases |s|
  {
    if s == [] {
      assert [] + x == x;
    } else {
      var d := DecodeRune(s);
      var y := QuoteChars(s[d.size..]) + x;
      QuoteNeedsNone(s[d.size..], x);
      Assoc(QuoteOne(s), QuoteChars(s[d.size..]), x);
      QuoteOneNeedsNone(s, y);
    }
  }

  lemma QuoteOneNeedsNone(s: bytes, y: bytes)
    requires s != [] && Esc(y, true) == y
    ensures Esc(QuoteOne(s) + y, true) == QuoteOne(s) + y
  {
    var d := DecodeRune(s);
    if s[0] < 0x80 {
      HexRoundTrip(s[0] / 16);
      HexRoundTrip(s[0] % 16);
      EscAscii(QuoteAscii(s[0]), y, true);
    } else if BadRune(s) || d.rune == 0x2028 || d.rune == 0x2029 {
      EscAscii(QuoteOne(s), y, true);
    } else {
      DecodePrefix(s, y);
      var z := s[..d.size] + y;
      assert !LineSep(z);
      EscOfRune(z, true);
      Seam(s[..d.size], y);
    }
  }

  /** A written literal is a fixed point of escaping. */
  lemma QuoteIsEscaped(s: bytes)
    ensures Esc(Quote(s), true) == Quote(s)
  {
    EscPlain([QUOTE], true);
    QuoteNeedsNone(s, [QUOTE]);
    Assoc([QUOTE], QuoteChars(s), [QUOTE]);
    EscAscii([QUOTE], QuoteChars(s) + [QUOTE], true);
  }
}

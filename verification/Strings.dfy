/** String literals: `encodeState.string`, which writes them, and `unquoteBytes`, which reads them. */
module Strings {
  import opened Bytes
  import opened Grammar
  import opened Utf8

  // Reading.

  function HexValue(c: byte): (v: int)
    requires IsHex(c)
    ensures 0 <= v < 16
  {
    if IsDigit(c) then c - 0x30 else if c >= 0x61 then c - 0x61 + 10 else c - 0x41 + 10
  }

  /** The value of a \uXXXX escape at the front of `s`, or -1. */
  function GetU4(s: bytes): (r: int)
    ensures -1 <= r < 0x10000
    ensures r >= 0 ==> |s| >= 6
  {
    if |s| < 6 || s[0] != BACKSLASH || s[1] != 0x75 then -1
    else if !(IsHex(s[2]) && IsHex(s[3]) && IsHex(s[4]) && IsHex(s[5])) then -1
    else HexValue(s[2]) * 0x1000 + HexValue(s[3]) * 0x100 + HexValue(s[4]) * 0x10 + HexValue(s[5])
  }

  /** What one character of a literal stands for, and how many bytes it takes. */
  datatype Unit = Unit(out: bytes, size: nat)

  function UnquoteHex(s: bytes): (u: Option<Unit>)
    ensures u.Some? ==> 1 <= u.value.size <= |s| && |u.value.out| <= 4
  {
    var r := GetU4(s);
    if r < 0 then None
    else if IsSurrogate(r) then
      var pair := DecodePair(r, GetU4(s[6..]));
      if pair != RUNE_ERROR then Some(Unit(EncodeRune(pair), 12)) else Some(Unit(EncodeRune(RUNE_ERROR), 6))
    else Some(Unit(EncodeRune(r), 6))
  }

  function UnquoteEscape(s: bytes): (u: Option<Unit>)
    ensures u.Some? ==> 1 <= u.value.size <= |s| && |u.value.out| <= 4
  {
    if |s| < 2 then None
    else
      var c := s[1];
      if c == QUOTE || c == BACKSLASH || c == SLASH || c == 0x27 then Some(Unit([c], 2))
      else if c == 0x62 then Some(Unit([0x08], 2))
      else if c == 0x66 then Some(Unit([0x0C], 2))
      else if c == 0x6E then Some(Unit([LF], 2))
      else if c == 0x72 then Some(Unit([CR], 2))
      else if c == 0x74 then Some(Unit([TAB], 2))
      else if c == 0x75 then UnquoteHex(s)
      else None
  }

  function UnquoteOne(s: bytes): (u: Option<Unit>)
    requires s != []
    ensures u.Some? ==> 1 <= u.value.size <= |s| && |u.value.out| <= 4
  {
    if s[0] == BACKSLASH then UnquoteEscape(s)
    else if s[0] == QUOTE || s[0] < 0x20 then None
    else if s[0] < 0x80 then Some(Unit([s[0]], 1))
    else Some(Unit(EncodeRune(DecodeRune(s).rune), DecodeRune(s).size))
  }

  function Prepend(a: bytes, o: Option<bytes>): Option<bytes> {
    if o.None? then None else Some(a + o.value)
  }

  lemma PrependTwice(a: bytes, b: bytes, o: Option<bytes>)
    ensures Prepend(a, Prepend(b, o)) == Prepend(a + b, o)
  {
    if o.Some? { Assoc(a, b, o.value); }
  }

  /** The characters between the quotes. */
  function UnquoteChars(s: bytes): Option<bytes> {
    if s == [] then Some([])
    else
      var u := UnquoteOne(s);
      if u.None? then None else Prepend(u.value.out, UnquoteChars(s[u.value.size..]))
  }

  function Unquote(t: bytes): Option<bytes> {
    if |t| < 2 || t[0] != QUOTE || t[|t| - 1] != QUOTE then None
    else UnquoteChars(t[1..|t| - 1])
  }

  lemma {:induction false} CharsSkip(s: bytes, n: nat)
    requires IsChars(s) && n <= |s| && forall i | 0 <= i < n :: s[i] >= 0x80
    ensures IsChars(s[n..])
    decreases n
  {
    if n > 0 {
      CharsSkip(s[1..], n - 1);
      assert s[1..][n - 1..] == s[n..];
    } else {
      assert s[0..] == s;
    }
  }

  lemma CharsAfterHex(s: bytes)
    requires IsChars(s) && GetU4(s) >= 0
    ensures IsChars(s[6..])
  {}

  lemma UnitOfChars(s: bytes)
    requires s != [] && IsChars(s)
    ensures UnquoteOne(s).Some? && IsChars(s[UnquoteOne(s).value.size..])
  {
    if s[0] == BACKSLASH {
      if s[1] == 0x75 {
        CharsAfterHex(s);
        if GetU4(s[6..]) >= 0 {
          CharsAfterHex(s[6..]);
          assert s[6..][6..] == s[12..];
        }
      }
    } else if s[0] >= 0x80 {
      HighBytes(s);
      CharsSkip(s, DecodeRune(s).size);
    }
  }

  /** Unquoting succeeds on every string literal of the grammar. */
  lemma {:induction false} UnquotesChars(s: bytes)
    requires IsChars(s)
    ensures UnquoteChars(s).Some?
    decreases |s|
  {
    if s != [] {
      UnitOfChars(s);
      UnquotesChars(s[UnquoteOne(s).value.size..]);
    }
  }

  lemma UnquotesString(t: bytes)
    requires IsString(t)
    ensures Unquote(t).Some?
  {
    UnquotesChars(t[1..|t| - 1]);
  }

  // Writing.

  function HexDigit(n: int): byte
    requires 0 <= n < 16
  {
    if n < 10 then 0x30 + n else 0x61 + n - 10
  }

  /** \u00XX */
  function EscapeByte(b: byte): bytes {
    [BACKSLASH, 0x75, 0x30, 0x30, HexDigit(b / 16), HexDigit(b % 16)]
  }

  /** The escape of U+2028 or U+2029. */
  function EscapeLine(r: int): bytes {
    [BACKSLASH, 0x75, 0x32, 0x30, 0x32, HexDigit(r % 16)]
  }

  /** The escape of U+FFFD. */
  const ESCAPED_ERROR: bytes := [BACKSLASH, 0x75, 0x66, 0x66, 0x66, 0x64]

  predicate Plain(b: byte) {
    0x20 <= b < 0x80 && b != BACKSLASH && b != QUOTE && b != 0x3C && b != 0x3E && b != 0x26
  }

  function QuoteAscii(b: byte): bytes {
    if Plain(b) then [b]
    else if b == BACKSLASH || b == QUOTE then [BACKSLASH, b]
    else if b == LF then [BACKSLASH, 0x6E]
    else if b == CR then [BACKSLASH, 0x72]
    else if b == TAB then [BACKSLASH, 0x74]
    else EscapeByte(b)
  }

  function QuoteOne(s: bytes): bytes
    requires s != []
  {
    var d := DecodeRune(s);
    if s[0] < 0x80 then QuoteAscii(s[0])
    else if BadRune(s) then ESCAPED_ERROR
    else if d.rune == 0x2028 || d.rune == 0x2029 then EscapeLine(d.rune)
    else s[..d.size]
  }

  function QuoteChars(s: bytes): bytes {
    if s == [] then [] else QuoteOne(s) + QuoteChars(s[DecodeRune(s).size..])
  }

  /** The literal that `encodeState.string` writes for `s`. */
  function Quote(s: bytes): bytes {
    [QUOTE] + QuoteChars(s) + [QUOTE]
  }

  function CoerceOne(s: bytes): bytes
    requires s != []
  {
    if BadRune(s) then [0xEF, 0xBF, 0xBD] else s[..DecodeRune(s).size]
  }

  lemma HexRoundTrip(n: int)
    requires 0 <= n < 16
    ensures IsHex(HexDigit(n)) && HexValue(HexDigit(n)) == n
  {}

  lemma AsciiUnit(b: byte, x: bytes)
    requires b < 0x80
    ensures UnquoteOne(QuoteAscii(b) + x) == Some(Unit([b], |QuoteAscii(b)|))
  {
    HexRoundTrip(b / 16);
    HexRoundTrip(b % 16);
  }

  lemma LineUnit(r: int, x: bytes)
    requires r == 0x2028 || r == 0x2029
    ensures UnquoteOne(EscapeLine(r) + x) == Some(Unit(EncodeRune(r), 6))
  {
    HexRoundTrip(r % 16);
  }

  lemma ErrorUnit(x: bytes)
    ensures UnquoteOne(ESCAPED_ERROR + x) == Some(Unit([0xEF, 0xBF, 0xBD], 6))
  {}

  /** Reading back one written character gives the rune, or U+FFFD for an ill-formed byte. */
  lemma QuoteUnit(s: bytes, x: bytes)
    requires s != []
    ensures UnquoteOne(QuoteOne(s) + x) == Some(Unit(CoerceOne(s), |QuoteOne(s)|))
  {
    var d := DecodeRune(s);
    if s[0] < 0x80 {
      AsciiUnit(s[0], x);
      assert s[..1] == [s[0]];
    } else if BadRune(s) {
      ErrorUnit(x);
    } else {
      EncodeDecode(s);
      if d.rune == 0x2028 || d.rune == 0x2029 {
        LineUnit(d.rune, x);
      } else {
        DecodePrefix(s, x);
      }
    }
  }

  lemma {:induction false} QuoteCharsRoundTrip(s: bytes)
    ensures UnquoteChars(QuoteChars(s)) == Some(Coerce(s))
    decreases |s|
  {
    if s != [] {
      var n := DecodeRune(s).size;
      var x := QuoteChars(s[n..]);
      QuoteUnit(s, x);
      Seam(QuoteOne(s), x);
      QuoteCharsRoundTrip(s[n..]);
    }
  }

  /** Unquoting what was quoted gives the string with each ill-formed byte replaced by U+FFFD. */
  lemma QuoteRoundTrip(s: bytes)
    ensures Unquote(Quote(s)) == Some(Coerce(s))
  {
    QuoteCharsRoundTrip(s);
    assert Quote(s)[1..|Quote(s)| - 1] == QuoteChars(s);
  }

  lemma AsciiChars(b: byte, x: bytes)
    requires b < 0x80 && IsChars(x)
    ensures IsChars(QuoteAscii(b) + x)
  {
    HexRoundTrip(b / 16);
    HexRoundTrip(b % 16);
    Seam(QuoteAscii(b), x);
  }

  lemma EscapeChars(h: bytes, x: bytes)
    requires |h| == 6 && h[0] == BACKSLASH && h[1] == 0x75 && IsChars(x)
    requires IsHex(h[2]) && IsHex(h[3]) && IsHex(h[4]) && IsHex(h[5])
    ensures IsChars(h + x)
  {
    Seam(h, x);
  }

  lemma {:induction false} HighChars(h: bytes, x: bytes)
    requires IsChars(x) && forall i | 0 <= i < |h| :: h[i] >= 0x80
    ensures IsChars(h + x)
    decreases h
  {
    if h == [] {
      assert h + x == x;
    } else {
      HighChars(h[1..], x);
      assert (h + x)[1..] == h[1..] + x;
    }
  }

  lemma {:induction false} QuoteIsChars(s: bytes)
    ensures IsChars(QuoteChars(s))
    decreases |s|
  {
    if s != [] {
      var d := DecodeRune(s);
      var x := QuoteChars(s[d.size..]);
      QuoteIsChars(s[d.size..]);
      if s[0] < 0x80 {
        AsciiChars(s[0], x);
      } else if BadRune(s) {
        EscapeChars(ESCAPED_ERROR, x);
      } else if d.rune == 0x2028 || d.rune == 0x2029 {
        HexRoundTrip(d.rune % 16);
        EscapeChars(EscapeLine(d.rune), x);
      } else {
        HighBytes(s);
        HighChars(s[..d.size], x);
      }
    }
  }

  /** What is written is one string literal of the grammar. */
  lemma QuoteIsString(s: bytes)
    ensures IsString(Quote(s))
  {
    QuoteIsChars(s);
    assert Quote(s)[1..|Quote(s)| - 1] == QuoteChars(s);
  }

  // The decoding loop.

  /** A character that stands for itself. */
  predicate Verbatim(s: bytes)
    requires s != []
  {
    s[0] != BACKSLASH && s[0] != QUOTE && s[0] >= 0x20 && (s[0] >= 0x80 ==> !BadRune(s))
  }

  lemma VerbatimUnit(s: bytes)
    requires s != [] && Verbatim(s)
    ensures UnquoteOne(s) == Some(Unit(s[..DecodeRune(s).size], DecodeRune(s).size))
  {
    if s[0] < 0x80 { assert s[..1] == [s[0]]; } else { EncodeDecode(s); }
  }

  /** Having read `r` bytes of `s` and produced `done`, the rest of the answer comes from the rest of `s`. */
  ghost predicate Progress(s: bytes, r: nat, done: bytes) {
    r <= |s| && UnquoteChars(s) == Prepend(done, UnquoteChars(s[r..]))
  }

  lemma ProgressStep(s: bytes, r: nat, done: bytes)
    requires Progress(s, r, done) && r < |s|
    ensures UnquoteOne(s[r..]).None? ==> UnquoteChars(s) == None
    ensures UnquoteOne(s[r..]).Some? ==>
              var u := UnquoteOne(s[r..]).value; Progress(s, r + u.size, done + u.out)
  {
    var u := UnquoteOne(s[r..]);
    if u.Some? {
      var n := u.value.size;
      assert s[r..][n..] == s[r + n..];
      PrependTwice(done, u.value.out, UnquoteChars(s[r + n..]));
    }
  }

  /** Writes the bytes of a rune at `b[w..]`, as `utf8.EncodeRune` does. */
  method PutBytes(b: array<byte>, w: nat, out: bytes)
    requires w + |out| <= b.Length
    modifies b
    ensures b[..w] == old(b[..w]) && b[..w + |out|] == old(b[..w]) + out
  {
    for i := 0 to |out|
      invariant b[..w] == old(b[..w])
      invariant forall j | 0 <= j < i :: b[w + j] == out[j]
    {
      b[w + i] := out[i];
    }
  }

  lemma ProgressStart(s: bytes)
    ensures Progress(s, 0, s[..0])
  {
    assert s[0..] == s && s[..0] == [];
    if UnquoteChars(s).Some? { assert [] + UnquoteChars(s).value == UnquoteChars(s).value; }
  }

  lemma AsciiSize(s: bytes)
    requires s != []
    ensures s[0] < 0x80 ==> DecodeRune(s).size == 1
  {}

  /** The prefix that needs no unquoting; when it is everything, the slice itself is the answer. */
  method PlainPrefix(s: bytes) returns (r: nat)
    ensures r <= |s| && Progress(s, r, s[..r])
  {
    hide UnquoteOne, UnquoteChars, Progress, DecodeRune;
    r := 0;
    ProgressStart(s);
    while r < |s|
      invariant r <= |s| && Progress(s, r, s[..r])
    {
      AsciiSize(s[r..]);
      var c := s[r];
      if c == BACKSLASH || c == QUOTE || c < 0x20 {
        break;
      }
      var size := 1;
      if c >= 0x80 {
        var d := DecodeRune(s[r..]);
        if d.rune == RUNE_ERROR && d.size == 1 {
          break;
        }
        size := d.size;
      }
      VerbatimUnit(s[r..]);
      ProgressStep(s, r, s[..r]);
      TakeSum(s, r, size);
      r := r + size;
    }
  }

  /**
   Unquotes `s` from position `r0` on.  The buffer starts with room for the input and is doubled when
   eight or fewer bytes are left, so no write is ever out of range.
   */
  method UnquoteRest(s: bytes, r0: nat) returns (v: Option<bytes>)
    requires r0 <= |s| && Progress(s, r0, s[..r0])
    ensures v == UnquoteChars(s)
  {
    hide UnquoteOne, UnquoteChars, Progress;
    var b := new byte[|s| + 8](i => 0);
    var r, w: nat := r0, r0;
    PutBytes(b, 0, s[..r]);
    assert b[..w] == s[..r];
    while r < |s|
      invariant fresh(b) && r <= |s| && w + 4 <= b.Length
      invariant Progress(s, r, b[..w])
      decreases |s| - r
    {
      if w + 8 >= b.Length {
        b := Grow(b, w);
      }
      ProgressStep(s, r, b[..w]);
      var u := UnquoteOne(s[r..]);
      if u.None? {
        return None;
      }
      PutBytes(b, w, u.value.out);
      w := w + |u.value.out|;
      r := r + u.value.size;
    }
    assert s[r..] == [];
    return Finished(s, b[..w]);
  }

  /** A buffer of more than twice the size with the first `w` bytes copied. */
  method Grow(b: array<byte>, w: nat) returns (nb: array<byte>)
    requires w <= b.Length
    ensures fresh(nb) && nb.Length == (b.Length + 4) * 2 && nb[..w] == b[..w]
  {
    nb := new byte[(b.Length + 4) * 2](i => 0);
    PutBytes(nb, 0, b[..w]);
    assert nb[..0] == [];
  }

  function Finished(s: bytes, done: bytes): (v: Option<bytes>)
    ensures Progress(s, |s|, done) ==> UnquoteChars(s) == v
  {
    assert s[|s|..] == [] && done + [] == done;
    Some(done)
  }

  /** The value of a string literal, or None when it is not one. */
  method UnquoteBytes(t: bytes) returns (v: Option<bytes>)
    ensures v == Unquote(t)
  {
    if |t| < 2 || t[0] != QUOTE || t[|t| - 1] != QUOTE {
      return None;
    }
    var s := t[1..|t| - 1];
    var r := PlainPrefix(s);
    if r == |s| {
      assert s[..r] == s;
      return Finished(s, s);
    }
    v := UnquoteRest(s, r);
  }
}

/**
 What string literals stand for, stated without the decoder: the encoding forms of section 3 of RFC 3629
 and the spellings of section 7 of RFC 7159.
 */
module Spelling {
  import opened Bytes
  import opened Utf8
  import opened Grammar
  import opened Strings

  // Section 3 of RFC 3629.

  /** `c` is the UTF-8 form of the code point `r`. */
  predicate Utf8Form(c: bytes, r: int) {
    && !(0xD800 <= r < 0xE000)
    && match |c|
       case 1 => c[0] == r && r < 0x80
       case 2 => 0x80 <= r < 0x800 && r == (c[0] - 0xC0) * 0x40 + Low(c[1]) && Tail(c)
       case 3 => 0x800 <= r < 0x10000 && r == (c[0] - 0xE0) * 0x1000 + Low(c[1]) * 0x40 + Low(c[2]) && Tail(c)
       case 4 =>
         && 0x10000 <= r < 0x110000 && Tail(c)
         && r == (c[0] - 0xF0) * 0x40000 + Low(c[1]) * 0x1000 + Low(c[2]) * 0x40 + Low(c[3])
       case _ => false
  }

  function Low(b: byte): int { b - 0x80 }

  /** All bytes but the first are 10xxxxxx. */
  predicate Tail(c: bytes) {
    forall i | 1 <= i < |c| :: 0x80 <= c[i] < 0xC0
  }

  lemma FormEncodes(c: bytes, r: int)
    requires Utf8Form(c, r)
    ensures EncodeRune(r) == c
  {
    if |c| == 2 {
      Digit64(c[0] - 0xC0, Low(c[1]));
    } else if |c| == 3 {
      ThreeEncodes(c, r);
    } else if |c| == 4 {
      FourEncodes(c, r);
    }
  }

  lemma ThreeEncodes(c: bytes, r: int)
    requires Utf8Form(c, r) && |c| == 3
    ensures EncodeRune(r) == c
  {
    Split3(c[0] - 0xE0, Low(c[1]), Low(c[2]));
  }

  lemma FourEncodes(c: bytes, r: int)
    requires Utf8Form(c, r) && |c| == 4
    ensures EncodeRune(r) == c
  {
    Split4(c[0] - 0xF0, Low(c[1]), Low(c[2]), Low(c[3]));
  }

  /** The form of a code point decodes to it, whatever follows. */
  lemma FormDecodes(c: bytes, r: int, x: bytes)
    requires Utf8Form(c, r)
    ensures DecodeRune(c + x) == Decoded(r, |c|)
  {
    var s := c + x;
    assert forall i | 0 <= i < |c| :: s[i] == c[i];
  }

  /** What decodes is the form of a code point. */
  lemma DecodedForm(s: bytes)
    requires s != [] && !BadRune(s)
    ensures Utf8Form(s[..DecodeRune(s).size], DecodeRune(s).rune)
  {}

  /** A byte is ill-formed exactly when no form of a code point begins there. */
  lemma BadExactly(s: bytes)
    requires s != []
    ensures BadRune(s) <==> forall n, r | 0 <= n <= |s| :: !Utf8Form(s[..n], r)
  {
    hide DecodeRune, Utf8Form;
    if BadRune(s) {
      forall n, r | 0 <= n <= |s| ensures !Utf8Form(s[..n], r) {
        if Utf8Form(s[..n], r) {
          FormDecodes(s[..n], r, s[n..]);
          Rejoin(s, n);
          NotOne(s[..n], r);
        }
      }
    } else {
      DecodedForm(s);
    }
  }

  lemma NotOne(c: bytes, r: int)
    requires Utf8Form(c, r)
    ensures c != [] && (|c| == 1 ==> r != RUNE_ERROR)
  {}

  // Section 7 of RFC 7159.

  const LOWER_HEX: string := "0123456789abcdef"
  const UPPER_HEX: string := "0123456789ABCDEF"

  predicate HexFor(c: byte, d: int) {
    0 <= d < 16 && (c == LOWER_HEX[d] as int || c == UPPER_HEX[d] as int)
  }

  /** `c` is the escape of the 16-bit unit `v`. */
  predicate UnitEscape(c: bytes, v: int) {
    && |c| == 6 && c[0] == '\\' as int && c[1] == 'u' as int && 0 <= v < 0x10000
    && HexFor(c[2], v / 0x1000) && HexFor(c[3], v / 0x100 % 16) && HexFor(c[4], v / 0x10 % 16) && HexFor(c[5], v % 16)
  }

  /** The characters with an escape of two characters. */
  const SHORT: map<char, int> :=
    map['"' := 0x22, '\\' := 0x5C, '/' := 0x2F, 'b' := 0x08, 'f' := 0x0C, 'n' := 0x0A, 'r' := 0x0D, 't' := 0x09]

  predicate Unescaped(c: bytes, r: int) {
    Utf8Form(c, r) && r >= 0x20 && r != 0x22 && r != 0x5C
  }

  predicate ShortEscape(c: bytes, r: int) {
    |c| == 2 && c[0] == '\\' as int && c[1] as char in SHORT && SHORT[c[1] as char] == r
  }

  /** The two units of a code point outside the basic multilingual plane. */
  predicate PairEscape(c: bytes, r: int) {
    && 0x10000 <= r < 0x110000 && |c| == 12
    && UnitEscape(c[..6], 0xD800 + (r - 0x10000) / 0x400) && UnitEscape(c[6..], 0xDC00 + (r - 0x10000) % 0x400)
  }

  /** `c` is a spelling of the code point `r` inside a string literal. */
  predicate SpellsRune(c: bytes, r: int) {
    Unescaped(c, r) || ShortEscape(c, r) || UnitEscape(c, r) || PairEscape(c, r)
  }

  lemma HexIs(c: byte, d: int)
    requires HexFor(c, d)
    ensures IsHex(c) && HexValue(c) == d
  {}

  lemma UnitIs(c: bytes, v: int, x: bytes)
    requires UnitEscape(c, v)
    ensures GetU4(c + x) == v
  {
    hide HexFor, HexValue, IsHex;
    HexIs(c[2], v / 0x1000);
    HexIs(c[3], v / 0x100 % 16);
    HexIs(c[4], v / 0x10 % 16);
    HexIs(c[5], v % 16);
    FourHex(v);
    assert (c + x)[..6] == c;
  }

  lemma FourHex(v: int)
    requires 0 <= v < 0x10000
    ensures v / 0x1000 * 0x1000 + v / 0x100 % 16 * 0x100 + v / 0x10 % 16 * 0x10 + v % 16 == v
  {
    var p := v / 16;
    var q := p / 16;
    assert v == q / 16 * 0x1000 + q % 16 * 0x100 + p % 16 * 0x10 + v % 16;
    HexParts(q / 16, q % 16, p % 16, v % 16);
  }

  lemma PairIs(c: bytes, r: int, x: bytes)
    requires PairEscape(c, r)
    ensures UnquoteHex(c + x) == Some(Unit(EncodeRune(r), 12))
  {
    hide UnitEscape, GetU4, EncodeRune;
    UnitIs(c[..6], 0xD800 + (r - 0x10000) / 0x400, c[6..] + x);
    UnitIs(c[6..], 0xDC00 + (r - 0x10000) % 0x400, x);
    assert c + x == c[..6] + (c[6..] + x) && (c + x)[6..] == c[6..] + x;
  }

  lemma RuneUnit(c: bytes, r: int, f: bytes, x: bytes)
    requires SpellsRune(c, r) && Utf8Form(f, r)
    ensures c != [] && UnquoteOne(c + x) == Some(Unit(f, |c|))
  {
    hide Utf8Form, UnquoteOne, Unescaped, UnitEscape, ShortEscape, PairEscape;
    FormEncodes(f, r);
    if Unescaped(c, r) {
      UnescapedUnit(c, r, x);
    } else if ShortEscape(c, r) {
      ShortUnit(c, r, f, x);
    } else if UnitEscape(c, r) {
      NotSurrogate(f, r);
      HexUnit(c, r, x);
    } else {
      PairUnit(c, r, x);
    }
  }

  lemma UnescapedUnit(c: bytes, r: int, x: bytes)
    requires Unescaped(c, r)
    ensures c != [] && UnquoteOne(c + x) == Some(Unit(EncodeRune(r), |c|))
  {
    hide UnquoteEscape, DecodeRune, EncodeRune;
    FormDecodes(c, r, x);
    FormEncodes(c, r);
    assert (c + x)[0] == c[0];
    FormHead(c, r);
  }

  lemma FormHead(c: bytes, r: int)
    requires Utf8Form(c, r)
    ensures c[0] < 0x80 ==> c == [r]
    ensures r >= 0 && (c[0] >= 0x80 ==> r >= 0x80)
  {}

  lemma ShortUnit(c: bytes, r: int, f: bytes, x: bytes)
    requires ShortEscape(c, r) && Utf8Form(f, r)
    ensures UnquoteOne(c + x) == Some(Unit(f, 2)) && |c| == 2
  {
    hide UnquoteHex, Utf8Form;
    assert (c + x)[0] == c[0] && (c + x)[1] == c[1];
    OneByte(f, r);
  }

  lemma OneByte(f: bytes, r: int)
    requires Utf8Form(f, r)
    ensures 0 <= r < 0x80 ==> f == [r]
  {}

  lemma NotSurrogate(f: bytes, r: int)
    requires Utf8Form(f, r)
    ensures !IsSurrogate(r)
  {}

  lemma HexUnit(c: bytes, r: int, x: bytes)
    requires UnitEscape(c, r) && !IsSurrogate(r)
    ensures UnquoteOne(c + x) == Some(Unit(EncodeRune(r), 6)) && |c| == 6
  {
    hide UnquoteHex, GetU4, EncodeRune, HexFor;
    assert (c + x)[0] == c[0] && (c + x)[1] == c[1];
    UnitIs(c, r, x);
    PlainUnit(c + x, r);
  }

  lemma PairUnit(c: bytes, r: int, x: bytes)
    requires PairEscape(c, r)
    ensures UnquoteOne(c + x) == Some(Unit(EncodeRune(r), 12)) && |c| == 12
  {
    hide UnquoteHex, EncodeRune, HexFor;
    assert (c + x)[0] == c[..6][0] && (c + x)[1] == c[..6][1];
    PairIs(c, r, x);
  }

  lemma PlainUnit(s: bytes, r: int)
    requires GetU4(s) == r && 0 <= r && !IsSurrogate(r)
    ensures UnquoteHex(s) == Some(Unit(EncodeRune(r), 6))
  {}

  /** A unit that is half of a pair, where the other half does not follow, stands for U+FFFD. */
  lemma LoneHalf(c: bytes, v: int, x: bytes)
    requires UnitEscape(c, v) && 0xD800 <= v < 0xE000
    requires v < 0xDC00 ==> forall d, w | UnitEscape(d, w) && 0xDC00 <= w < 0xE000 :: !(d <= x)
    ensures UnquoteOne(c + x) == Some(Unit([0xEF, 0xBF, 0xBD], 6)) && |c| == 6
  {
    hide GetU4, HexFor, UnitEscape;
    assert |c| == 6 && c[0] == BACKSLASH && c[1] == 0x75 by { UnitHead(c, v); }
    assert (c + x)[0] == c[0] && (c + x)[1] == c[1];
    UnitIs(c, v, x);
    Seam(c, x);
    var w := GetU4(x);
    if w >= 0 {
      UnitFound(x);
      assert x[..6] <= x;
    }
  }

  lemma UnitHead(c: bytes, v: int)
    requires UnitEscape(c, v)
    ensures |c| == 6 && c[0] == BACKSLASH && c[1] == 0x75
  {}

  /** Whatever reads as a unit is the escape of one. */
  lemma UnitFound(x: bytes)
    requires GetU4(x) >= 0
    ensures UnitEscape(x[..6], GetU4(x))
  {
    hide HexFor, HexValue, IsHex;
    var a, b, c, d := HexValue(x[2]), HexValue(x[3]), HexValue(x[4]), HexValue(x[5]);
    HexFound(x[2]);
    HexFound(x[3]);
    HexFound(x[4]);
    HexFound(x[5]);
    HexParts(a, b, c, d);
  }

  lemma HexFound(c: byte)
    requires IsHex(c)
    ensures HexFor(c, HexValue(c))
  {}

  lemma HexParts(a: int, b: int, c: int, d: int)
    requires 0 <= a < 16 && 0 <= b < 16 && 0 <= c < 16 && 0 <= d < 16
    ensures var v := a * 0x1000 + b * 0x100 + c * 0x10 + d;
            v / 0x1000 == a && v / 0x100 % 16 == b && v / 0x10 % 16 == c && v % 16 == d
  {
    var v := a * 0x1000 + b * 0x100 + c * 0x10 + d;
    assert v / 0x10 == a * 0x100 + b * 0x10 + c;
    assert v / 0x100 == a * 0x10 + b;
  }

  /** A byte at which no code point is encoded stands for U+FFFD. */
  lemma IllFormed(s: bytes)
    requires s != [] && s[0] >= 0x80 && forall n, r | 0 <= n <= |s| :: !Utf8Form(s[..n], r)
    ensures UnquoteOne(s) == Some(Unit([0xEF, 0xBF, 0xBD], 1))
  {
    hide Utf8Form;
    BadExactly(s);
  }

  /** The runes of a string: how each is spelled, and its UTF-8 form. */
  predicate Spelled(pieces: seq<bytes>, forms: seq<bytes>, runes: seq<int>) {
    && |pieces| == |forms| == |runes|
    && forall i | 0 <= i < |runes| :: SpellsRune(pieces[i], runes[i]) && Utf8Form(forms[i], runes[i])
  }

  /** Every spelling of every well-formed string unquotes to that string. */
  lemma {:induction false} UnquoteSpelled(pieces: seq<bytes>, forms: seq<bytes>, runes: seq<int>)
    requires Spelled(pieces, forms, runes)
    ensures UnquoteChars(Flatten(pieces)) == Some(Flatten(forms))
    decreases |runes|
  {
    hide SpellsRune, Utf8Form, UnquoteOne;
    if runes != [] {
      var x := Flatten(pieces[1..]);
      RuneUnit(pieces[0], runes[0], forms[0], x);
      Seam(pieces[0], x);
      UnquoteSpelled(pieces[1..], forms[1..], runes[1..]);
    }
  }

  /** So does the literal, with its quotation marks. */
  lemma UnquoteLiteral(pieces: seq<bytes>, forms: seq<bytes>, runes: seq<int>)
    requires Spelled(pieces, forms, runes)
    ensures Unquote([QUOTE] + Flatten(pieces) + [QUOTE]) == Some(Flatten(forms))
  {
    hide SpellsRune, Utf8Form, UnquoteChars;
    var x := Flatten(pieces);
    UnquoteSpelled(pieces, forms, runes);
    assert ([QUOTE] + x + [QUOTE])[1..|x| + 1] == x;
  }

  // What is written.

  /** The spelling that is written for `r`: escapes for what JSON, JavaScript or HTML would misread. */
  predicate WrittenAs(c: bytes, r: int) {
    if r in {0x22, 0x5C, 0x0A, 0x0D, 0x09} then ShortEscape(c, r)
    else if r < 0x20 || r in {0x3C, 0x3E, 0x26, 0x2028, 0x2029} then UnitEscape(c, r) && LowerCase(c)
    else Unescaped(c, r)
  }

  predicate LowerCase(c: bytes) {
    forall i | 0 <= i < |c| :: !('A' as int <= c[i] <= 'F' as int)
  }

  lemma HexWritten(c: byte, d: int)
    requires HexFor(c, d) && !('A' as int <= c <= 'F' as int)
    ensures c == HexDigit(d)
  {}

  lemma UnitWritten(c: bytes, r: int)
    requires UnitEscape(c, r) && LowerCase(c)
    ensures r < 0x80 ==> EscapeByte(r) == c
    ensures r == 0x2028 || r == 0x2029 ==> EscapeLine(r) == c
  {
    hide HexFor, HexDigit;
    HexWritten(c[2], r / 0x1000);
    HexWritten(c[3], r / 0x100 % 16);
    HexWritten(c[4], r / 0x10 % 16);
    HexWritten(c[5], r % 16);
    HexDigits();
    assert c == [c[0], c[1], c[2], c[3], c[4], c[5]];
  }

  lemma HexDigits()
    ensures HexDigit(0) == 0x30 && HexDigit(2) == 0x32
  {}

  lemma ShortWritten(c: bytes, r: int)
    requires ShortEscape(c, r) && r in {0x22, 0x5C, 0x0A, 0x0D, 0x09}
    ensures QuoteAscii(r) == c
  {
    assert c == [c[0], c[1]];
  }

  lemma RuneWritten(c: bytes, r: int, f: bytes, x: bytes)
    requires WrittenAs(c, r) && Utf8Form(f, r)
    ensures f != [] && QuoteOne(f + x) == c && DecodeRune(f + x).size == |f|
  {
    hide Utf8Form, EscapeByte, EscapeLine, DecodeRune, UnitEscape, ShortEscape, LowerCase, QuoteAscii;
    FormDecodes(f, r, x);
    NotOne(f, r);
    FormHead(f, r);
    assert (f + x)[0] == f[0] && (f + x)[..|f|] == f;
    if r in {0x22, 0x5C, 0x0A, 0x0D, 0x09} {
      ShortWritten(c, r);
    } else if r < 0x20 || r in {0x3C, 0x3E, 0x26, 0x2028, 0x2029} {
      UnitWritten(c, r);
      if r < 0x80 { EscapedAscii(r); }
    } else {
      FormEncodes(c, r);
      FormEncodes(f, r);
      if r < 0x80 { PlainAscii(r); }
    }
    OneByte(f, r);
  }

  lemma EscapedAscii(b: byte)
    requires b < 0x80 && (b < 0x20 || b in {0x3C, 0x3E, 0x26}) && b !in {0x22, 0x5C, 0x0A, 0x0D, 0x09}
    ensures QuoteAscii(b) == EscapeByte(b)
  {}

  lemma PlainAscii(b: byte)
    requires 0x20 <= b < 0x80 && b !in {0x22, 0x5C, 0x3C, 0x3E, 0x26}
    ensures QuoteAscii(b) == [b]
  {}

  /** Every well-formed string is written rune by rune in that spelling. */
  lemma {:induction false} QuoteWritten(pieces: seq<bytes>, forms: seq<bytes>, runes: seq<int>)
    requires |pieces| == |forms| == |runes|
    requires forall i | 0 <= i < |runes| :: WrittenAs(pieces[i], runes[i]) && Utf8Form(forms[i], runes[i])
    ensures QuoteChars(Flatten(forms)) == Flatten(pieces)
    decreases |runes|
  {
    hide WrittenAs, Utf8Form, QuoteOne;
    if runes != [] {
      var x := Flatten(forms[1..]);
      RuneWritten(pieces[0], runes[0], forms[0], x);
      Seam(forms[0], x);
      QuoteWritten(pieces[1..], forms[1..], runes[1..]);
    }
  }
}

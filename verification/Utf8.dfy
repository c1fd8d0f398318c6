/** UTF-8 (sections 3 and 4 of RFC 3629) and UTF-16 surrogate pairs, as the string code uses them. */
module Utf8 {
  import opened Bytes

  const RUNE_ERROR: int := 0xFFFD

  /** A rune and the number of bytes it was read from; an ill-formed byte reads as `RUNE_ERROR` of size 1. */
  datatype Decoded = Decoded(rune: int, size: nat)

  predicate Cont(b: byte) { 0x80 <= b < 0xC0 }

  /** The second byte is in the range the first byte allows. */
  predicate Second(b0: byte, b1: byte) {
    if b0 == 0xE0 then 0xA0 <= b1 < 0xC0
    else if b0 == 0xED then 0x80 <= b1 < 0xA0
    else if b0 == 0xF0 then 0x90 <= b1 < 0xC0
    else if b0 == 0xF4 then 0x80 <= b1 < 0x90
    else Cont(b1)
  }

  /** The payload of a byte whose marker bits make up `marker`. */
  function Bits(b: int, marker: int): int { b - marker }

  function DecodeRune(s: bytes): (d: Decoded)
    requires s != []
    ensures 1 <= d.size <= |s|
  {
    var b0 := s[0];
    if b0 < 0x80 then Decoded(b0, 1)
    else if 0xC2 <= b0 < 0xE0 && |s| >= 2 && Second(b0, s[1])
    then Decoded(Bits(b0, 0xC0) * 0x40 + Bits(s[1], 0x80), 2)
    else if 0xE0 <= b0 < 0xF0 && |s| >= 3 && Second(b0, s[1]) && Cont(s[2])
    then Decoded(Bits(b0, 0xE0) * 0x1000 + Bits(s[1], 0x80) * 0x40 + Bits(s[2], 0x80), 3)
    else if 0xF0 <= b0 < 0xF5 && |s| >= 4 && Second(b0, s[1]) && Cont(s[2]) && Cont(s[3])
    then Decoded(Bits(b0, 0xF0) * 0x40000 + Bits(s[1], 0x80) * 0x1000 + Bits(s[2], 0x80) * 0x40 + Bits(s[3], 0x80), 4)
    else Decoded(RUNE_ERROR, 1)
  }

  /** The bytes at the front of `s` are not the encoding of any rune. */
  predicate BadRune(s: bytes)
    requires s != []
  {
    DecodeRune(s) == Decoded(RUNE_ERROR, 1)
  }

  predicate IsSurrogate(r: int) { 0xD800 <= r < 0xE000 }

  function EncodeRune(r: int): (e: bytes)
    ensures 1 <= |e| <= 4
  {
    if 0 <= r < 0x80 then [r]
    else if 0x80 <= r < 0x800 then [0xC0 + r / 0x40, 0x80 + r % 0x40]
    else if r < 0 || r > 0x10FFFF || IsSurrogate(r) then [0xEF, 0xBF, 0xBD]
    else if r < 0x10000 then [0xE0 + r / 0x1000, 0x80 + r / 0x40 % 0x40, 0x80 + r % 0x40]
    else [0xF0 + r / 0x40000, 0x80 + r / 0x1000 % 0x40, 0x80 + r / 0x40 % 0x40, 0x80 + r % 0x40]
  }

  /** A surrogate pair, or `RUNE_ERROR`. */
  function DecodePair(r1: int, r2: int): int {
    if 0xD800 <= r1 < 0xDC00 && 0xDC00 <= r2 < 0xE000
    then (r1 - 0xD800) * 0x400 + (r2 - 0xDC00) + 0x10000
    else RUNE_ERROR
  }

  lemma Digit64(x: int, y: int)
    requires 0 <= y < 0x40
    ensures (x * 0x40 + y) / 0x40 == x && (x * 0x40 + y) % 0x40 == y
  {}

  lemma Split3(x: int, y: int, z: int)
    requires 0 <= y < 0x40 && 0 <= z < 0x40
    ensures var r := x * 0x1000 + y * 0x40 + z;
            r / 0x1000 == x && r / 0x40 % 0x40 == y && r % 0x40 == z
  {
    var r := x * 0x1000 + y * 0x40 + z;
    Digit64(x * 0x40 + y, z);
    Digit64(x, y);
    assert r / 0x40 == x * 0x40 + y;
  }

  lemma Split4(w: int, x: int, y: int, z: int)
    requires 0 <= x < 0x40 && 0 <= y < 0x40 && 0 <= z < 0x40
    ensures var r := w * 0x40000 + x * 0x1000 + y * 0x40 + z;
            r / 0x40000 == w && r / 0x1000 % 0x40 == x && r / 0x40 % 0x40 == y && r % 0x40 == z
  {
    var r := w * 0x40000 + x * 0x1000 + y * 0x40 + z;
    assert r == (w * 0x40 + x) * 0x1000 + y * 0x40 + z;
    Split3(w * 0x40 + x, y, z);
    Digit64(w, x);
  }

  /** Encoding what was decoded gives the bytes back. */
  lemma EncodeDecode(s: bytes)
    requires s != [] && !BadRune(s)
    ensures EncodeRune(DecodeRune(s).rune) == s[..DecodeRune(s).size]
  {
    var d := DecodeRune(s);
    if d.size == 2 {
      Digit64(s[0] - 0xC0, s[1] - 0x80);
    } else if d.size == 3 {
      Encode3(s);
    } else if d.size == 4 {
      Split4(s[0] - 0xF0, s[1] - 0x80, s[2] - 0x80, s[3] - 0x80);
    }
  }

  lemma Encode3(s: bytes)
    requires |s| >= 3 && DecodeRune(s).size == 3
    ensures EncodeRune(DecodeRune(s).rune) == s[..3]
  {
    Split3(s[0] - 0xE0, s[1] - 0x80, s[2] - 0x80);
  }

  /** Only the bytes that are read matter. */
  lemma DecodePrefix(s: bytes, q: bytes)
    requires s != [] && !BadRune(s)
    ensures DecodeRune(s[..DecodeRune(s).size] + q) == DecodeRune(s)
  {}

  /** Every byte of a rune of more than one byte is at least 0x80. */
  lemma HighBytes(s: bytes)
    requires s != [] && s[0] >= 0x80
    ensures forall i | 0 <= i < DecodeRune(s).size :: s[i] >= 0x80
  {}

  // Whole strings.

  /** `s` with each ill-formed byte replaced by U+FFFD. */
  function Coerce(s: bytes): bytes {
    if s == [] then []
    else if BadRune(s) then [0xEF, 0xBF, 0xBD] + Coerce(s[1..])
    else s[..DecodeRune(s).size] + Coerce(s[DecodeRune(s).size..])
  }

  predicate IsUtf8(s: bytes) {
    s == [] || (!BadRune(s) && IsUtf8(s[DecodeRune(s).size..]))
  }

  lemma {:induction false} CoerceLength(s: bytes)
    ensures |Coerce(s)| >= |s|
    ensures !IsUtf8(s) ==> |Coerce(s)| > |s|
    decreases |s|
  {
    if s != [] { CoerceLength(s[if BadRune(s) then 1 else DecodeRune(s).size..]); }
  }

  /** Well-formed strings are exactly those coercion leaves alone. */
  lemma {:induction false} CoerceFixes(s: bytes)
    ensures Coerce(s) == s <==> IsUtf8(s)
    decreases |s|
  {
    CoerceLength(s);
    if IsUtf8(s) && s != [] {
      var n := DecodeRune(s).size;
      CoerceFixes(s[n..]);
      Rejoin(s, n);
    }
  }
}

/** Unpadded URL-safe base64 (section 5 of RFC 4648), with the decoder's tolerance for line breaks and stray bits. */
module Base64 {
  import opened Bytes

  function Char(n: int): byte
    requires 0 <= n < 64
  {
    if n < 26 then 0x41 + n
    else if n < 52 then 0x61 + n - 26
    else if n < 62 then 0x30 + n - 52
    else if n == 62 then 0x2D
    else 0x5F
  }

  /** The six bits a character stands for, or -1. */
  function Sextet(c: byte): int {
    if 0x41 <= c <= 0x5A then c - 0x41
    else if 0x61 <= c <= 0x7A then c - 0x61 + 26
    else if 0x30 <= c <= 0x39 then c - 0x30 + 52
    else if c == 0x2D then 62
    else if c == 0x5F then 63
    else -1
  }

  lemma SextetChar(n: int)
    requires 0 <= n < 64
    ensures Sextet(Char(n)) == n && Char(n) != DOT && Char(n) != LF && Char(n) != CR
  {}

  function Quad(b0: int, b1: int, b2: int): (q: bytes)
    requires 0 <= b0 < 256 && 0 <= b1 < 256 && 0 <= b2 < 256
    ensures |q| == 4
  {
    [Char(b0 / 4), Char(b0 % 4 * 16 + b1 / 16), Char(b1 % 16 * 4 + b2 / 64), Char(b2 % 64)]
  }

  function Encode(s: bytes): bytes {
    if s == [] then []
    else if |s| == 1 then Quad(s[0], 0, 0)[..2]
    else if |s| == 2 then Quad(s[0], s[1], 0)[..3]
    else Quad(s[0], s[1], s[2]) + Encode(s[3..])
  }

  function EncodedLen(n: nat): nat {
    n / 3 * 4 + (n % 3 * 8 + 5) / 6
  }

  lemma {:induction false} EncodeLength(s: bytes)
    ensures |Encode(s)| == EncodedLen(|s|)
    decreases |s|
  {
    if |s| >= 3 { EncodeLength(s[3..]); }
  }

  /** The URL-safe alphabet: table 2 of RFC 4648. */
  const ALPHABET: string := UPPER + LOWER + OTHER
  const UPPER: string := "ABCDEFGHIJKLM" + "NOPQRSTUVWXYZ"
  const LOWER: string := "abcdefghijklm" + "nopqrstuvwxyz"
  const OTHER: string := "0123456789-_"

  lemma CharIs(n: int)
    requires 0 <= n < 64
    ensures |ALPHABET| == 64 && Char(n) == ALPHABET[n] as int
  {
    hide UPPER, LOWER, OTHER;
    Letters(if n < 26 then n else if n < 52 then n - 26 else 0);
    if n >= 52 { Others(n - 52); } else { Others(0); }
  }

  lemma Letters(n: int)
    requires 0 <= n < 26
    ensures |UPPER| == 26 && |LOWER| == 26 && UPPER[n] as int == Char(n) && LOWER[n] as int == Char(26 + n)
  {}

  lemma Others(n: int)
    requires 0 <= n < 12
    ensures |OTHER| == 12 && OTHER[n] as int == Char(52 + n)
  {}

  function GroupOf(b0: int, b1: int, b2: int): int { b0 * 0x10000 + b1 * 0x100 + b2 }

  /** The 24-bit group that begins at byte `i`, with zero bits where the input has ended. */
  function Group(s: bytes, i: nat): int
    requires i < |s|
  {
    GroupOf(s[i], if i + 1 < |s| then s[i + 1] else 0, if i + 2 < |s| then s[i + 2] else 0)
  }

  /** The `k`-th six bits of a 24-bit group, from the left. */
  function SixBits(group: int, k: nat): (n: nat)
    requires k < 4
    ensures n < 64
  {
    if k == 0 then group / 0x40000 % 64
    else if k == 1 then group / 0x1000 % 64
    else if k == 2 then group / 0x40 % 64
    else group % 64
  }

  lemma FourDigits(w: int, x: int, y: int, z: int)
    requires 0 <= w < 64 && 0 <= x < 64 && 0 <= y < 64 && 0 <= z < 64
    ensures var g := w * 0x40000 + x * 0x1000 + y * 0x40 + z;
            SixBits(g, 0) == w && SixBits(g, 1) == x && SixBits(g, 2) == y && SixBits(g, 3) == z
  {
    var g := w * 0x40000 + x * 0x1000 + y * 0x40 + z;
    assert g / 0x40000 == w;
    assert g / 0x1000 == w * 0x40 + x;
    assert g / 0x40 == (w * 0x40 + x) * 0x40 + y;
  }

  lemma QuadBits(b0: byte, b1: byte, b2: byte, k: nat)
    requires k < 4
    ensures Quad(b0, b1, b2)[k] == Char(SixBits(GroupOf(b0, b1, b2), k))
  {
    hide Char, SixBits;
    FourDigits(b0 / 4, b0 % 4 * 16 + b1 / 16, b1 % 16 * 4 + b2 / 64, b2 % 64);
  }

  lemma FirstGroup(s: bytes, j: nat)
    requires j < 4 && j < |Encode(s)|
    ensures s != [] && Encode(s)[j] == Char(SixBits(Group(s, 0), j))
  {
    hide Char, Quad, SixBits, GroupOf;
    QuadBits(s[0], if |s| > 1 then s[1] else 0, if |s| > 2 then s[2] else 0, j);
  }

  lemma LaterGroup(s: bytes, j: nat)
    requires 4 <= j < |Encode(s)|
    ensures |s| >= 3 && j - 4 < |Encode(s[3..])| && Encode(s)[j] == Encode(s[3..])[j - 4]
    ensures var i := (j - 4) / 4 * 3;
            && (j - 4) % 4 == j % 4 && j / 4 * 3 == i + 3
            && (i < |s[3..]| ==> Group(s[3..], i) == Group(s, i + 3))
  {
    hide Char, Quad, GroupOf;
  }

  /**
   As section 4 of RFC 4648 has it: each character is the letter of the alphabet for six bits of the
   input, taken in order from 24-bit groups that are filled up with zeros.
   */
  lemma {:induction false} EncodeAt(s: bytes, j: nat)
    requires j < |Encode(s)|
    ensures j / 4 * 3 < |s|
    ensures Encode(s)[j] == ALPHABET[SixBits(Group(s, j / 4 * 3), j % 4)] as int
    decreases |s|
  {
    hide Encode, Char, SixBits, ALPHABET;
    CharIs(0);
    if j >= 4 {
      LaterGroup(s, j);
      EncodeAt(s[3..], j - 4);
    } else {
      FirstGroup(s, j);
      CharIs(SixBits(Group(s, 0), j));
    }
  }

  /** Encoded text has no dot and no line break. */
  lemma {:induction false} EncodeChars(s: bytes, i: nat)
    requires i < |Encode(s)|
    ensures Encode(s)[i] != DOT && Encode(s)[i] != LF && Encode(s)[i] != CR
    decreases |s|
  {
    if |s| >= 3 && i >= 4 {
      EncodeChars(s[3..], i - 4);
    }
  }

  /** Drops line breaks. */
  function Strip(s: bytes): bytes {
    if s == [] then [] else (if s[0] == LF || s[0] == CR then [] else [s[0]]) + Strip(s[1..])
  }

  function Byte(n: int): byte { n % 256 }

  function Triple(a: int, b: int, c: int, d: int): (t: bytes)
    requires 0 <= a < 64 && 0 <= b < 64 && 0 <= c < 64 && 0 <= d < 64
    ensures |t| == 3
  {
    [Byte(a * 4 + b / 16), Byte(b % 16 * 16 + c / 4), Byte(c % 4 * 64 + d)]
  }

  predicate Digits64(s: bytes, n: nat)
    requires n <= |s|
  {
    forall i | 0 <= i < n :: Sextet(s[i]) >= 0
  }

  /** Groups of four characters; a last group of two or three is complete, its surplus bits are ignored. */
  function DecodeGroups(s: bytes): Option<bytes> {
    if s == [] then Some([])
    else if |s| == 1 then None
    else if |s| == 2 then
      if !Digits64(s, 2) then None else Some(Triple(Sextet(s[0]), Sextet(s[1]), 0, 0)[..1])
    else if |s| == 3 then
      if !Digits64(s, 3) then None else Some(Triple(Sextet(s[0]), Sextet(s[1]), Sextet(s[2]), 0)[..2])
    else if !Digits64(s, 4) then None
    else
      var rest := DecodeGroups(s[4..]);
      if rest.None? then None
      else Some(Triple(Sextet(s[0]), Sextet(s[1]), Sextet(s[2]), Sextet(s[3])) + rest.value)
  }

  function Decode(s: bytes): Option<bytes> {
    DecodeGroups(Strip(s))
  }

  lemma QuadSextets(b0: int, b1: int, b2: int)
    requires 0 <= b0 < 256 && 0 <= b1 < 256 && 0 <= b2 < 256
    ensures var q := Quad(b0, b1, b2);
            && Sextet(q[0]) == b0 / 4 && Sextet(q[1]) == b0 % 4 * 16 + b1 / 16
            && Sextet(q[2]) == b1 % 16 * 4 + b2 / 64 && Sextet(q[3]) == b2 % 64
  {
    hide Sextet, Char;
    SextetChar(b0 / 4);
    SextetChar(b0 % 4 * 16 + b1 / 16);
    SextetChar(b1 % 16 * 4 + b2 / 64);
    SextetChar(b2 % 64);
  }

  lemma TripleQuad(b0: byte, b1: byte, b2: byte)
    ensures var q := Quad(b0, b1, b2);
            && Digits64(q, 4)
            && Triple(Sextet(q[0]), Sextet(q[1]), Sextet(q[2]), Sextet(q[3])) == [b0, b1, b2]
  {
    hide Sextet, Quad, Triple;
    QuadSextets(b0, b1, b2);
    TripleBits(b0, b1, b2);
    TripleOf(b0 / 4, b0 % 4 * 16 + b1 / 16, b1 % 16 * 4 + b2 / 64, b2 % 64, b0, b1, b2);
  }

  lemma TripleOf(a: int, b: int, c: int, d: int, b0: byte, b1: byte, b2: byte)
    requires 0 <= a < 64 && 0 <= b < 64 && 0 <= c < 64 && 0 <= d < 64
    requires a * 4 + b / 16 == b0 && b % 16 * 16 + c / 4 == b1 && c % 4 * 64 + d == b2
    ensures Triple(a, b, c, d) == [b0, b1, b2]
  {
    hide Byte;
    ByteOf(b0);
    ByteOf(b1);
    ByteOf(b2);
  }

  lemma ByteOf(n: byte)
    ensures Byte(n) == n
  {}

  /** Two or three characters carry one or two bytes. */
  lemma TripleShort(b0: byte, b1: byte)
    ensures var q := Quad(b0, b1, 0);
            && Digits64(q, 4)
            && Triple(Sextet(q[0]), Sextet(q[1]), Sextet(q[2]), 0)[..2] == [b0, b1]
            && (b1 == 0 ==> Triple(Sextet(q[0]), Sextet(q[1]), 0, 0)[..1] == [b0])
  {
    hide Sextet, Quad, Triple;
    QuadSextets(b0, b1, 0);
    TripleBits(b0, b1, 0);
    TripleOf(b0 / 4, b0 % 4 * 16 + b1 / 16, b1 % 16 * 4, 0, b0, b1, 0);
  }

  lemma TripleBits(b0: int, b1: int, b2: int)
    requires 0 <= b0 < 256 && 0 <= b1 < 256 && 0 <= b2 < 256
    ensures var a, b, c, d := b0 / 4, b0 % 4 * 16 + b1 / 16, b1 % 16 * 4 + b2 / 64, b2 % 64;
            a * 4 + b / 16 == b0 && b % 16 * 16 + c / 4 == b1 && c % 4 * 64 + d == b2
  {}

  lemma {:induction false} DecodeGroupsEncode(s: bytes)
    ensures DecodeGroups(Encode(s)) == Some(s)
    decreases |s|
  {
    hide Quad, Triple, Sextet;
    if |s| == 1 {
      TripleShort(s[0], 0);
      assert s == [s[0]];
    } else if |s| == 2 {
      TripleShort(s[0], s[1]);
      assert s == [s[0], s[1]];
    } else if |s| >= 3 {
      DecodeGroupsEncode(s[3..]);
      TripleQuad(s[0], s[1], s[2]);
      Seam(Quad(s[0], s[1], s[2]), Encode(s[3..]));
      assert [s[0], s[1], s[2]] + s[3..] == s;
    }
  }

  lemma {:induction false} StripNothing(s: bytes)
    requires forall i | 0 <= i < |s| :: s[i] != LF && s[i] != CR
    ensures Strip(s) == s
  {
    if s != [] {
      StripNothing(s[1..]);
      HeadTail(s);
    }
  }

  /** Decoding undoes encoding. */
  lemma DecodeEncode(s: bytes)
    ensures Decode(Encode(s)) == Some(s)
  {
    forall i | 0 <= i < |Encode(s)| ensures Encode(s)[i] != LF && Encode(s)[i] != CR { EncodeChars(s, i); }
    StripNothing(Encode(s));
    DecodeGroupsEncode(s);
  }
}

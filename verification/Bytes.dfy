/** Bytes, the ASCII codes the sources spell as character literals, and small sequence facts. */
module Bytes {
  type byte = b: int | 0 <= b < 256
  type bytes = seq<byte>

  datatype Option<+T> = None | Some(value: T)

  const SPACE: byte := 0x20
  const TAB: byte := 0x09
  const LF: byte := 0x0A
  const CR: byte := 0x0D
  const QUOTE: byte := 0x22
  const BACKSLASH: byte := 0x5C
  const SLASH: byte := 0x2F
  const LBRACE: byte := 0x7B
  const RBRACE: byte := 0x7D
  const LBRACKET: byte := 0x5B
  const RBRACKET: byte := 0x5D
  const COLON: byte := 0x3A
  const COMMA: byte := 0x2C
  const MINUS: byte := 0x2D
  const PLUS: byte := 0x2B
  const DOT: byte := 0x2E
  const ZERO: byte := 0x30
  const NINE: byte := 0x39

  /** Concatenation of a list of chunks. */
  function Flatten(chunks: seq<bytes>): bytes {
    if chunks == [] then [] else chunks[0] + Flatten(chunks[1..])
  }

  lemma {:induction false} FlattenAppend(a: seq<bytes>, b: seq<bytes>)
    ensures Flatten(a + b) == Flatten(a) + Flatten(b)
  {
    if a == [] {
      assert a + b == b;
    } else {
      assert (a + b)[1..] == a[1..] + b;
      FlattenAppend(a[1..], b);
    }
  }

  lemma Assoc(a: bytes, b: bytes, c: bytes)
    ensures (a + b) + c == a + (b + c)
  {}

  /** Cutting a concatenation at its seam gives the two parts back. */
  lemma Seam(a: bytes, b: bytes)
    ensures (a + b)[..|a|] == a && (a + b)[|a|..] == b
  {}

  lemma Rejoin(s: bytes, i: nat)
    requires i <= |s|
    ensures s[..i] + s[i..] == s
  {}

  lemma TakeSum(s: bytes, i: nat, j: nat)
    requires i + j <= |s|
    ensures s[..i + j] == s[..i] + s[i..][..j]
  {}

  lemma RejoinAt(s: bytes, i: nat)
    requires i < |s|
    ensures s[..i] + ([s[i]] + s[i + 1..]) == s
  {}

  lemma HeadTail(s: bytes)
    requires s != []
    ensures s == [s[0]] + s[1..]
  {}

  lemma Behead(c: byte, u: bytes)
    ensures ([c] + u)[0] == c && ([c] + u)[1..] == u
  {}

  lemma Past(a: bytes, b: bytes)
    requires a != []
    ensures (a + b)[0] == a[0] && (a + b)[1..] == a[1..] + b
  {}

  predicate Begins(s: bytes, w: bytes) {
    w == [] || (s != [] && s[0] == w[0] && Begins(s[1..], w[1..]))
  }

  lemma {:induction false} BeginsWith(s: bytes, w: bytes)
    ensures Begins(s, w) <==> |s| >= |w| && s[..|w|] == w
    decreases w
  {
    if w != [] && s != [] {
      BeginsWith(s[1..], w[1..]);
      HeadTail(w);
      if |s| >= |w| {
        assert s[..|w|] == [s[0]] + s[1..][..|w| - 1];
      }
    }
  }
}

/** Compact serialization: encoded parts joined with dots, and cut apart again. */
module Dots {
  import opened Bytes
  import opened Words
  import opened Base64

  function Join(parts: seq<bytes>): bytes {
    if parts == [] then [] else if |parts| == 1 then parts[0] else parts[0] + ([DOT] + Join(parts[1..]))
  }

  function Encoded(parts: seq<bytes>): (e: seq<bytes>)
    ensures |e| == |parts|
  {
    if parts == [] then [] else [Encode(parts[0])] + Encoded(parts[1..])
  }

  function DotCount(s: bytes): nat {
    if s == [] then 0 else (if s[0] == DOT then 1 else 0) + DotCount(s[1..])
  }

  lemma {:induction false} DotCountAppend(a: bytes, b: bytes)
    ensures DotCount(a + b) == DotCount(a) + DotCount(b)
    decreases a
  {
    if a == [] {
      assert a + b == b;
    } else {
      assert (a + b)[1..] == a[1..] + b;
      DotCountAppend(a[1..], b);
    }
  }

  predicate Dotless(parts: seq<bytes>) {
    forall i | 0 <= i < |parts| :: DotCount(parts[i]) == 0
  }

  lemma {:induction false} EncodeDotless(s: bytes)
    ensures DotCount(Encode(s)) == 0
  {
    forall i | 0 <= i < |Encode(s)| ensures Encode(s)[i] != DOT { EncodeChars(s, i); }
    NoDots(Encode(s));
  }

  lemma {:induction false} NoDots(s: bytes)
    requires forall i | 0 <= i < |s| :: s[i] != DOT
    ensures DotCount(s) == 0
  {
    if s != [] { NoDots(s[1..]); }
  }

  lemma {:induction false} EncodedDotless(parts: seq<bytes>)
    ensures Dotless(Encoded(parts))
  {
    if parts != [] {
      EncodeDotless(parts[0]);
      EncodedDotless(parts[1..]);
    }
  }

  lemma {:induction false} JoinDots(parts: seq<bytes>)
    requires Dotless(parts) && parts != []
    ensures DotCount(Join(parts)) == |parts| - 1
  {
    if |parts| > 1 {
      JoinDots(parts[1..]);
      DotCountAppend([DOT], Join(parts[1..]));
      DotCountAppend(parts[0], [DOT] + Join(parts[1..]));
    }
  }

  // Cutting at the first dot.

  function Cut(s: bytes): (c: Option<(bytes, bytes)>)
    ensures c.Some? <==> DotCount(s) > 0
  {
    if s == [] then None
    else if s[0] == DOT then Some(([], s[1..]))
    else
      var c := Cut(s[1..]);
      if c.None? then None else Some(([s[0]] + c.value.0, c.value.1))
  }

  lemma {:induction false} CutParts(s: bytes)
    requires Cut(s).Some?
    ensures var (a, b) := Cut(s).value;
            s == a + ([DOT] + b) && DotCount(a) == 0 && DotCount(b) == DotCount(s) - 1
  {
    if s[0] == DOT {
      HeadTail(s);
      assert [] + s == s;
    } else {
      CutParts(s[1..]);
      var (a, b) := Cut(s[1..]).value;
      HeadTail(s);
      Assoc([s[0]], a, [DOT] + b);
      Behead(s[0], a);
    }
  }

  /** `parts` are the dot-separated parts of `s`. */
  predicate PartsOf(s: bytes, parts: seq<bytes>) {
    parts != [] && Dotless(parts) && Join(parts) == s
  }

  lemma OnePart(s: bytes)
    requires DotCount(s) == 0
    ensures PartsOf(s, [s])
  {}

  lemma PartsMore(s: bytes, parts: seq<bytes>)
    requires Cut(s).Some? && PartsOf(Cut(s).value.1, parts)
    ensures PartsOf(s, [Cut(s).value.0] + parts)
  {
    CutParts(s);
    var a := Cut(s).value.0;
    assert ([a] + parts)[1..] == parts;
  }

  lemma {:induction false} CutJoin(a: bytes, x: bytes)
    requires DotCount(a) == 0
    ensures Cut(a + ([DOT] + x)) == Some((a, x))
    decreases a
  {
    var s := a + ([DOT] + x);
    if a == [] {
      assert s == [DOT] + x;
      Behead(DOT, x);
    } else {
      assert s[1..] == a[1..] + ([DOT] + x);
      CutJoin(a[1..], x);
      HeadTail(a);
    }
  }

  /** A text has at most one list of parts, with one part more than it has dots. */
  lemma {:induction false} PartsUnique(s: bytes, p: seq<bytes>, q: seq<bytes>)
    requires PartsOf(s, p) && PartsOf(s, q)
    ensures p == q && |p| == DotCount(s) + 1
    decreases |p|
  {
    JoinDots(p);
    JoinDots(q);
    if |p| > 1 {
      CutJoin(p[0], Join(p[1..]));
      CutJoin(q[0], Join(q[1..]));
      PartsUnique(Join(p[1..]), p[1..], q[1..]);
      assert p == [p[0]] + p[1..] && q == [q[0]] + q[1..];
    }
  }

  function Parts(s: bytes): (p: seq<bytes>)
    ensures |p| == DotCount(s) + 1
    decreases DotCount(s)
  {
    var c := Cut(s);
    if c.None? then [s] else CutParts(s); [c.value.0] + Parts(c.value.1)
  }

  lemma {:induction false} PartsAre(s: bytes)
    ensures PartsOf(s, Parts(s))
    decreases DotCount(s)
  {
    if Cut(s).Some? {
      CutParts(s);
      PartsAre(Cut(s).value.1);
      PartsMore(s, Parts(Cut(s).value.1));
    } else {
      OnePart(s);
    }
  }

  /** The three parts of a compact JWS. */
  method SplitThree(input: bytes) returns (parts: Option<seq<bytes>>)
    ensures parts.Some? <==> DotCount(input) == 2
    ensures parts.Some? ==> |parts.value| == 3 && PartsOf(input, parts.value)
  {
    if |input| == 0 {
      return None;
    }
    var c1 := Cut(input);
    if c1.None? {
      return None;
    }
    CutParts(input);
    var c2 := Cut(c1.value.1);
    if c2.None? {
      return None;
    }
    CutParts(c1.value.1);
    if Cut(c2.value.1).Some? {
      return None;
    }
    OnePart(c2.value.1);
    PartsMore(c1.value.1, [c2.value.1]);
    PartsMore(input, [c2.value.0] + [c2.value.1]);
    assert [c1.value.0] + ([c2.value.0] + [c2.value.1]) == [c1.value.0, c2.value.0, c2.value.1];
    return Some([c1.value.0, c2.value.0, c2.value.1]);
  }

  /** The five parts of a compact JWE. */
  method SplitFive(input0: bytes) returns (parts: Option<seq<bytes>>)
    ensures parts.Some? <==> DotCount(input0) == 4
    ensures parts.Some? ==> |parts.value| == 5 && PartsOf(input0, parts.value)
  {
    if |input0| == 0 {
      return None;
    }
    var found: seq<bytes> := [];
    var input := input0;
    var i := 0;
    forall p | PartsOf(input, p) ensures PartsOf(input0, found + p) {
      assert found + p == p;
    }
    while i < 4
      invariant 0 <= i <= 4 && |found| == i && DotCount(input0) == DotCount(input) + i
      invariant forall p | PartsOf(input, p) :: PartsOf(input0, found + p)
    {
      var c := Cut(input);
      if c.None? {
        return None;
      }
      CutParts(input);
      forall p | PartsOf(c.value.1, p) ensures PartsOf(input0, found + [c.value.0] + p) {
        PartsMore(input, p);
        assert found + ([c.value.0] + p) == found + [c.value.0] + p;
      }
      found := found + [c.value.0];
      input := c.value.1;
      i := i + 1;
    }
    if Cut(input).Some? {
      return None;
    }
    OnePart(input);
    return Some(found + [input]);
  }

  // Joining.

  function Lengths(inputs: seq<bytes>): nat {
    if inputs == [] then 0 else EncodedLen(|inputs[0]|) + Lengths(inputs[1..])
  }

  lemma {:induction false} JoinLength(inputs: seq<bytes>)
    requires inputs != []
    ensures |Join(Encoded(inputs))| == |inputs| - 1 + Lengths(inputs)
  {
    EncodeLength(inputs[0]);
    if |inputs| > 1 { JoinLength(inputs[1..]); }
  }

  lemma JoinFirst(inputs: seq<bytes>)
    requires inputs != []
    ensures Join(Encoded(inputs)) ==
            if |inputs| == 1 then Encode(inputs[0]) else Encode(inputs[0]) + ([DOT] + Join(Encoded(inputs[1..])))
    ensures |Encode(inputs[0])| == EncodedLen(|inputs[0]|)
  {
    EncodeLength(inputs[0]);
  }

  method TotalCount(inputs: seq<bytes>) returns (n: nat)
    requires inputs != []
    ensures n == |Join(Encoded(inputs))|
  {
    n := |inputs| - 1;
    var i := 0;
    assert inputs[0..] == inputs;
    while i < |inputs|
      invariant i <= |inputs| && n + Lengths(inputs[i..]) == |inputs| - 1 + Lengths(inputs)
    {
      assert inputs[i..][1..] == inputs[i + 1..];
      n := n + EncodedLen(|inputs[i]|);
      i := i + 1;
    }
    assert inputs[i..] == [];
    JoinLength(inputs);
  }

  /** What is in the buffer and the joined rest make up the whole. */
  ghost predicate Joining(inputs: seq<bytes>, done: bytes, i: nat) {
    i < |inputs| && done + Join(Encoded(inputs[i..])) == Join(Encoded(inputs))
  }

  lemma JoiningMore(inputs: seq<bytes>, done: bytes, i: nat)
    requires Joining(inputs, done, i) && i + 1 < |inputs|
    ensures Joining(inputs, done + Encode(inputs[i]) + [DOT], i + 1)
    ensures |done| + EncodedLen(|inputs[i]|) + 1 <= |Join(Encoded(inputs))|
    ensures |Encode(inputs[i])| == EncodedLen(|inputs[i]|)
  {
    hide Encode, Join, Encoded, EncodedLen;
    JoinFirst(inputs[i..]);
    assert inputs[i..][1..] == inputs[i + 1..];
    var e, x := Encode(inputs[i]), Join(Encoded(inputs[i + 1..]));
    assert done + (e + ([DOT] + x)) == (done + e + [DOT]) + x;
  }

  /** Encodes and joins in one buffer of exactly the right size. */
  method Base64JoinWithDots(inputs: seq<bytes>) returns (s: bytes)
    ensures s == Join(Encoded(inputs))
  {
    hide Encode, Join, Encoded, EncodedLen;
    if |inputs| == 0 {
      NothingJoined();
      return [];
    }
    var totalCount := TotalCount(inputs);
    var out := new byte[totalCount](i => 0);
    var startEncode: nat := 0;
    var i := 0;
    JoiningStart(inputs);
    assert out[..0] == [];
    while i < |inputs| - 1
      invariant 0 <= i < |inputs| && startEncode <= out.Length == |Join(Encoded(inputs))|
      invariant Joining(inputs, out[..startEncode], i)
    {
      JoiningMore(inputs, out[..startEncode], i);
      var n := CopyNext(out, startEncode, Encode(inputs[i]));
      startEncode := startEncode + EncodedLen(|inputs[i]|);
      startEncode := CopyNext(out, startEncode, [DOT]);
      i := i + 1;
    }
    JoiningLast(inputs, out[..startEncode], i);
    var n := CopyNext(out, startEncode, Encode(inputs[i]));
    assert out[..n] == out[..];
    return out[..];
  }

  lemma NothingJoined()
    ensures Join(Encoded([])) == []
  {}

  lemma JoiningStart(inputs: seq<bytes>)
    requires inputs != []
    ensures Joining(inputs, [], 0)
  {
    assert inputs[0..] == inputs;
    var x := Join(Encoded(inputs));
    assert [] + x == x;
  }

  lemma JoiningLast(inputs: seq<bytes>, done: bytes, i: nat)
    requires Joining(inputs, done, i) && i + 1 == |inputs|
    ensures done + Encode(inputs[i]) == Join(Encoded(inputs))
  {
    JoinFirst(inputs[i..]);
  }

  // Together.

  function DecodedParts(parts: seq<bytes>): Option<seq<bytes>> {
    if parts == [] then Some([])
    else
      var d, r := Decode(parts[0]), DecodedParts(parts[1..]);
      if d.None? || r.None? then None else Some([d.value] + r.value)
  }

  lemma {:induction false} DecodeAll(inputs: seq<bytes>)
    ensures DecodedParts(Encoded(inputs)) == Some(inputs)
  {
    hide Encode, Decode;
    if inputs != [] {
      DecodeEncode(inputs[0]);
      DecodeAll(inputs[1..]);
      assert Encoded(inputs)[1..] == Encoded(inputs[1..]);
      assert [inputs[0]] + inputs[1..] == inputs;
    }
  }

  /** Joining byte strings and cutting at the dots gives their encodings back, and decoding gives the byte strings. */
  lemma SplitJoined(inputs: seq<bytes>)
    requires inputs != []
    ensures Parts(Join(Encoded(inputs))) == Encoded(inputs) && DecodedParts(Encoded(inputs)) == Some(inputs)
    ensures DotCount(Join(Encoded(inputs))) == |inputs| - 1
  {
    EncodedDotless(inputs);
    JoinDots(Encoded(inputs));
    PartsAre(Join(Encoded(inputs)));
    PartsUnique(Join(Encoded(inputs)), Parts(Join(Encoded(inputs))), Encoded(inputs));
    DecodeAll(inputs);
  }
}

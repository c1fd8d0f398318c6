/** AES key wrap (section 2.2 of RFC 3394) over any block cipher. */
module KeyWrap {
  import opened Bytes
  import opened Words

  const DEFAULT_IV: bytes := [0xA6, 0xA6, 0xA6, 0xA6, 0xA6, 0xA6, 0xA6, 0xA6]

  /** The register A and the blocks R of section 2.2.1. */
  datatype Regs = Regs(a: bytes, r: seq<bytes>)

  predicate Fits(g: Regs, n: nat) {
    |g.a| == 8 && |g.r| == n && forall i | 0 <= i < n :: |g.r[i]| == 8
  }

  /** One step of wrapping: block `i` with counter `t`. */
  ghost function WrapStep(enc: bytes -> bytes, g: Regs, i: nat, t: nat): (h: Regs)
    requires BlockSized(enc) && Fits(g, |g.r|) && i < |g.r|
    ensures Fits(h, |g.r|)
  {
    var b := enc(g.a + g.r[i]);
    Regs(XorBytes(b[..8], BigEndian(t, 8)), g.r[i := b[8..]])
  }

  /** One step of unwrapping. */
  ghost function UnwrapStep(dec: bytes -> bytes, g: Regs, i: nat, t: nat): (h: Regs)
    requires BlockSized(dec) && Fits(g, |g.r|) && i < |g.r|
    ensures Fits(h, |g.r|)
  {
    var b := dec(XorBytes(g.a, BigEndian(t, 8)) + g.r[i]);
    Regs(b[..8], g.r[i := b[8..]])
  }

  lemma StepBack(enc: bytes -> bytes, dec: bytes -> bytes, g: Regs, i: nat, t: nat)
    requires Permutation(enc, dec) && Fits(g, |g.r|) && i < |g.r|
    ensures UnwrapStep(dec, WrapStep(enc, g, i, t), i, t) == g
  {
    hide Permutation, BlockSized, XorBytes, BigEndian;
    BothSized(enc, dec);
    var x := g.a + g.r[i];
    var b := enc(x);
    Inverse(enc, dec, x);
    XorBytesTwice(b[..8], BigEndian(t, 8));
    assert b[..8] + b[8..] == b;
    Seam(g.a, g.r[i]);
    assert g.r[i := b[8..]][i := g.r[i]] == g.r;
  }

  lemma StepForth(enc: bytes -> bytes, dec: bytes -> bytes, g: Regs, i: nat, t: nat)
    requires Permutation(enc, dec) && Fits(g, |g.r|) && i < |g.r|
    ensures WrapStep(enc, UnwrapStep(dec, g, i, t), i, t) == g
  {
    hide Permutation, BlockSized, XorBytes, BigEndian;
    BothSized(enc, dec);
    var x := XorBytes(g.a, BigEndian(t, 8)) + g.r[i];
    var b := dec(x);
    Inverse(enc, dec, x);
    assert b[..8] + b[8..] == b;
    Seam(XorBytes(g.a, BigEndian(t, 8)), g.r[i]);
    XorBytesTwice(g.a, BigEndian(t, 8));
    assert g.r[i := b[8..]][i := g.r[i]] == g.r;
  }

  // The two nested loops of section 2.2.1, and the single loop of the program.

  /** Pass `j`, from block `i` on. */
  ghost function Pass(enc: bytes -> bytes, g: Regs, j: nat, i: nat): (h: Regs)
    requires BlockSized(enc) && Fits(g, |g.r|) && i <= |g.r|
    ensures Fits(h, |g.r|)
    decreases |g.r| - i
  {
    if i == |g.r| then g else Pass(enc, WrapStep(enc, g, i, |g.r| * j + (i + 1)), j, i + 1)
  }

  ghost function Passes(enc: bytes -> bytes, g: Regs, j: nat): (h: Regs)
    requires BlockSized(enc) && Fits(g, |g.r|) && j <= 6
    ensures Fits(h, |g.r|)
    decreases 6 - j
  {
    if j == 6 then g else Passes(enc, Pass(enc, g, j, 0), j + 1)
  }

  /** Steps `t` to `end`, counted through all passes. */
  ghost function Forward(enc: bytes -> bytes, g: Regs, t: nat, end: nat): (h: Regs)
    requires BlockSized(enc) && Fits(g, |g.r|) && g.r != [] && t <= end
    ensures Fits(h, |g.r|)
    decreases end - t
  {
    if t == end then g else Forward(enc, WrapStep(enc, g, t % |g.r|, t + 1), t + 1, end)
  }

  ghost function Backward(dec: bytes -> bytes, g: Regs, t: nat): (h: Regs)
    requires BlockSized(dec) && Fits(g, |g.r|) && g.r != []
    ensures Fits(h, |g.r|)
    decreases t
  {
    if t == 0 then g else Backward(dec, UnwrapStep(dec, g, (t - 1) % |g.r|, t), t - 1)
  }

  lemma {:induction false} ForwardJoin(enc: bytes -> bytes, g: Regs, t: nat, mid: nat, end: nat)
    requires BlockSized(enc) && Fits(g, |g.r|) && g.r != [] && t <= mid <= end
    ensures Forward(enc, Forward(enc, g, t, mid), mid, end) == Forward(enc, g, t, end)
    decreases mid - t
  {
    hide WrapStep;
    if t < mid { ForwardJoin(enc, WrapStep(enc, g, t % |g.r|, t + 1), t + 1, mid, end); }
  }

  /** The counter of block `i` in pass `j` leads back to block `i`. */
  lemma CounterIndex(n: nat, j: nat, i: nat)
    requires i < n
    ensures (n * j + i) % n == i
  {
    ModUnique(n * j + i, n, j, i);
  }

  lemma {:induction false} PassIsForward(enc: bytes -> bytes, g: Regs, j: nat, i: nat)
    requires BlockSized(enc) && Fits(g, |g.r|) && g.r != [] && i <= |g.r|
    ensures |g.r| * j + i <= |g.r| * j + |g.r|
    ensures Pass(enc, g, j, i) == Forward(enc, g, |g.r| * j + i, |g.r| * j + |g.r|)
    decreases |g.r| - i
  {
    hide WrapStep, BlockSized;
    if i < |g.r| {
      CounterIndex(|g.r|, j, i);
      PassIsForward(enc, WrapStep(enc, g, i, |g.r| * j + (i + 1)), j, i + 1);
    }
  }

  lemma NextPass(n: nat, j: nat)
    requires j < 6
    ensures n * j + n == n * (j + 1) <= n * 6 && n * 0 == 0
  {
    Distribute(n, 6, j + 1);
  }

  lemma {:induction false} PassesAreForward(enc: bytes -> bytes, g: Regs, j: nat)
    requires BlockSized(enc) && Fits(g, |g.r|) && g.r != [] && j <= 6
    ensures |g.r| * j <= |g.r| * 6 && Passes(enc, g, j) == Forward(enc, g, |g.r| * j, |g.r| * 6)
    decreases 6 - j
  {
    hide WrapStep, BlockSized, Pass, Forward;
    var n := |g.r|;
    if j < 6 {
      NextPass(n, j);
      PassIsForward(enc, g, j, 0);
      PassesAreForward(enc, Pass(enc, g, j, 0), j + 1);
      ForwardJoin(enc, g, n * j, n * (j + 1), n * 6);
    } else {
      NoSteps(enc, g, n * 6);
    }
  }

  lemma NoSteps(enc: bytes -> bytes, g: Regs, t: nat)
    requires BlockSized(enc) && Fits(g, |g.r|) && g.r != []
    ensures Forward(enc, g, t, t) == g
  {}

  /** The program's single loop over t does what the two nested loops of the standard do. */
  lemma SingleLoop(enc: bytes -> bytes, g: Regs)
    requires BlockSized(enc) && Fits(g, |g.r|) && g.r != []
    ensures Forward(enc, g, 0, 6 * |g.r|) == Passes(enc, g, 0)
  {
    hide Forward, Passes, BlockSized;
    NextPass(|g.r|, 0);
    PassesAreForward(enc, g, 0);
  }

  lemma {:induction false} BackwardUndoes(enc: bytes -> bytes, dec: bytes -> bytes, g: Regs, t: nat)
    requires Permutation(enc, dec) && Fits(g, |g.r|) && g.r != []
    ensures Backward(dec, Forward(enc, g, 0, t), t) == g
    decreases t
  {
    hide WrapStep, UnwrapStep, Permutation, BlockSized;
    BothSized(enc, dec);
    if t > 0 {
      var h := Forward(enc, g, 0, t - 1);
      LastStep(enc, g, t);
      StepBack(enc, dec, h, (t - 1) % |g.r|, t);
      BackwardUndoes(enc, dec, g, t - 1);
    }
  }

  lemma LastStep(enc: bytes -> bytes, g: Regs, t: nat)
    requires BlockSized(enc) && Fits(g, |g.r|) && g.r != [] && t > 0
    ensures Forward(enc, g, 0, t) == WrapStep(enc, Forward(enc, g, 0, t - 1), (t - 1) % |g.r|, t)
  {
    hide WrapStep, BlockSized;
    ForwardJoin(enc, g, 0, t - 1, t);
  }

  lemma {:induction false} ForwardUndoes(enc: bytes -> bytes, dec: bytes -> bytes, g: Regs, t: nat)
    requires Permutation(enc, dec) && Fits(g, |g.r|) && g.r != []
    ensures Forward(enc, Backward(dec, g, t), 0, t) == g
    decreases t
  {
    hide WrapStep, UnwrapStep, Permutation, BlockSized;
    BothSized(enc, dec);
    if t > 0 {
      var h := UnwrapStep(dec, g, (t - 1) % |g.r|, t);
      ForwardUndoes(enc, dec, h, t - 1);
      LastStep(enc, Backward(dec, g, t), t);
      StepForth(enc, dec, g, (t - 1) % |g.r|, t);
    }
  }

  // The shift-register form of section 2.2.1: always the first block, which then goes to the end.

  /** The registers after steps `t + 1` to `end` of the shift-register form. */
  ghost function Shifted(enc: bytes -> bytes, a: bytes, r: seq<bytes>, t: nat, end: nat): Regs
    requires BlockSized(enc) && Fits(Regs(a, r), |r|) && r != [] && t <= end
    decreases end - t
  {
    if t == end then Regs(a, r)
    else
      var aes := enc(a + r[0]);
      var msb, lsb := aes[..8], aes[8..];
      Shifted(enc, XorBytes(msb, BigEndian(t + 1, 8)), r[1..] + [lsb], t + 1, end)
  }

  /** The blocks from `i` on, then those before. */
  function Rotated(r: seq<bytes>, i: nat): seq<bytes>
    requires i <= |r|
  {
    r[i..] + r[..i]
  }

  lemma RotatedNext(r: seq<bytes>, i: nat, b: bytes)
    requires i < |r|
    ensures Rotated(r, i)[0] == r[i]
    ensures Rotated(r, i)[1..] + [b] == Rotated(r[i := b], if i + 1 == |r| then 0 else i + 1)
  {
    if i + 1 == |r| { assert r[i := b] == r[..i] + [b]; }
  }

  lemma NextIndex(t: nat, n: nat)
    requires n > 0
    ensures (t + 1) % n == if t % n + 1 == n then 0 else t % n + 1
  {
    var q, i := t / n, t % n;
    assert t == n * q + i;
    if i + 1 == n {
      assert t + 1 == n * (q + 1) + 0;
      ModUnique(t + 1, n, q + 1, 0);
    } else {
      ModUnique(t + 1, n, q, i + 1);
    }
  }

  lemma {:induction false} ShiftedIsForward(enc: bytes -> bytes, g: Regs, t: nat, end: nat)
    requires BlockSized(enc) && Fits(g, |g.r|) && g.r != [] && t <= end
    ensures var h := Forward(enc, g, t, end);
            Shifted(enc, g.a, Rotated(g.r, t % |g.r|), t, end) == Regs(h.a, Rotated(h.r, end % |g.r|))
    decreases end - t
  {
    hide XorBytes, BigEndian;
    if t < end {
      var i := t % |g.r|;
      RotatedNext(g.r, i, enc(g.a + g.r[i])[8..]);
      NextIndex(t, |g.r|);
      ShiftedIsForward(enc, WrapStep(enc, g, i, t + 1), t + 1, end);
    }
  }

  /** After six passes every block is back in its place: both forms of the standard give the same result. */
  lemma PassesShift(enc: bytes -> bytes, g: Regs)
    requires BlockSized(enc) && Fits(g, |g.r|) && g.r != []
    ensures Passes(enc, g, 0) == Shifted(enc, g.a, g.r, 0, 6 * |g.r|)
  {
    hide Forward, Passes, Shifted, BlockSized;
    var n := |g.r|;
    SingleLoop(enc, g);
    ShiftedIsForward(enc, g, 0, 6 * n);
    ModUnique(6 * n, n, 6, 0);
    ModUnique(0, n, 0, 0);
    var h := Forward(enc, g, 0, 6 * n);
    assert Rotated(g.r, 0) == g.r && Rotated(h.r, 0) == h.r;
  }

  // Whole keys.

  /** The wrapped key of section 2.2.1, or None for an input that is not a multiple of 8 bytes long. */
  ghost function Wrapped(enc: bytes -> bytes, key: bytes): Option<bytes>
    requires BlockSized(enc)
  {
    if |key| % 8 != 0 then None
    else var g := Passes(enc, Regs(DEFAULT_IV, Blocks(key)), 0); Some(g.a + Flatten(g.r))
  }

  ghost function Unwrapped(dec: bytes -> bytes, c: bytes): Option<bytes>
    requires BlockSized(dec)
  {
    if |c| < 16 || |c| % 8 != 0 then None
    else
      var n := |c| / 8 - 1;
      var g := Backward(dec, Regs(c[..8], Blocks(c[8..])), 6 * n);
      if g.a != DEFAULT_IV then None else Some(Flatten(g.r))
  }

  lemma RegsOf(g: Regs)
    requires Fits(g, |g.r|)
    ensures var c := g.a + Flatten(g.r);
            |c| == 8 * |g.r| + 8 && c[..8] == g.a && Blocks(c[8..]) == g.r
  {
    SplitBlocks(g.r);
    Seam(g.a, Flatten(g.r));
  }

  /** The wrapped key is what the shift-register form leaves, for keys of one block or more. */
  lemma WrappedShift(enc: bytes -> bytes, key: bytes)
    requires BlockSized(enc) && |key| % 8 == 0 && key != []
    ensures var g := Shifted(enc, DEFAULT_IV, Blocks(key), 0, 6 * (|key| / 8));
            Wrapped(enc, key) == Some(g.a + Flatten(g.r))
  {
    hide Passes, Shifted, BlockSized, Flatten;
    PassesShift(enc, Regs(DEFAULT_IV, Blocks(key)));
  }

  /** Wrapping a non-empty key, which takes exactly one block more, and unwrapping gives the key back. */
  lemma UnwrapWrapped(enc: bytes -> bytes, dec: bytes -> bytes, key: bytes)
    requires Permutation(enc, dec) && |key| % 8 == 0 && key != []
    ensures Wrapped(enc, key).Some? && |Wrapped(enc, key).value| == |key| + 8
    ensures Unwrapped(dec, Wrapped(enc, key).value) == Some(key)
  {
    hide Passes, Forward, Backward, Blocks, Permutation, BlockSized, Flatten;
    BothSized(enc, dec);
    var g := Regs(DEFAULT_IV, Blocks(key));
    JoinBlocks(key);
    SingleLoop(enc, g);
    var h := Passes(enc, g, 0);
    RegsOf(h);
    BackwardUndoes(enc, dec, g, 6 * |g.r|);
  }

  /** Unwrapping accepts exactly the wrapped forms of non-empty keys. */
  lemma UnwrapExactly(enc: bytes -> bytes, dec: bytes -> bytes, c: bytes, key: bytes)
    requires Permutation(enc, dec)
    ensures Unwrapped(dec, c) == Some(key) <==> key != [] && Wrapped(enc, key) == Some(c)
  {
    hide Passes, Forward, Backward, Blocks, Permutation, BlockSized, Flatten;
    BothSized(enc, dec);
    if key != [] && Wrapped(enc, key) == Some(c) { UnwrapWrapped(enc, dec, key); }
    if Unwrapped(dec, c) == Some(key) {
      var g := Regs(c[..8], Blocks(c[8..]));
      var h := Backward(dec, g, 6 * |g.r|);
      RegsOf(h);
      SplitBlocks(h.r);
      assert |g.r| == |c| / 8 - 1;
      ForwardUndoes(enc, dec, g, 6 * |g.r|);
      SingleLoop(enc, h);
      JoinBlocks(c[8..]);
      Rejoin(c, 8);
    }
  }

  // The program.

  /** Exclusive or of the first half of the buffer with the counter. */
  method XorCounter(buffer: array<byte>, t: nat)
    requires buffer.Length == 16
    modifies buffer
    ensures buffer[..] == XorBytes(old(buffer[..8]), BigEndian(t, 8)) + old(buffer[8..])
  {
    var tBytes := BigEndian(t, 8);
    var i := 0;
    while i < 8
      invariant 0 <= i <= 8
      invariant forall k | 0 <= k < i :: buffer[k] == Xor(old(buffer[k]), tBytes[k])
      invariant forall k | i <= k < 16 :: buffer[k] == old(buffer[k])
    {
      buffer[i] := Xor(buffer[i], tBytes[i]);
      i := i + 1;
    }
  }

  ghost function Held(buffer: array<byte>, r: array<bytes>): Regs
    requires buffer.Length >= 8
    reads buffer, r
  {
    Regs(buffer[..8], r[..])
  }

  method WrapBlock(enc: bytes -> bytes, buffer: array<byte>, r: array<bytes>, i: nat, t: nat)
    requires BlockSized(enc) && buffer.Length == 16 && i < r.Length && Fits(Held(buffer, r), r.Length)
    modifies buffer, r
    ensures Held(buffer, r) == WrapStep(enc, old(Held(buffer, r)), i, t)
  {
    CopyAt(buffer, 8, r[i]);
    assert buffer[..] == old(buffer[..8]) + r[i];
    CopyAt(buffer, 0, enc(buffer[..]));
    ghost var b := enc(old(buffer[..8]) + r[i]);
    assert buffer[..] == b;
    XorCounter(buffer, t);
    r[i] := buffer[8..];
    assert buffer[8..] == b[8..] && buffer[..8] == XorBytes(b[..8], BigEndian(t, 8));
  }

  method UnwrapBlock(dec: bytes -> bytes, buffer: array<byte>, r: array<bytes>, i: nat, t: nat)
    requires BlockSized(dec) && buffer.Length == 16 && i < r.Length && Fits(Held(buffer, r), r.Length)
    modifies buffer, r
    ensures Held(buffer, r) == UnwrapStep(dec, old(Held(buffer, r)), i, t)
  {
    XorCounter(buffer, t);
    ghost var a := XorBytes(old(buffer[..8]), BigEndian(t, 8));
    assert buffer[..8] == a;
    CopyAt(buffer, 8, r[i]);
    assert buffer[..] == a + r[i];
    CopyAt(buffer, 0, dec(buffer[..]));
    assert buffer[..] == dec(a + old(r[i]));
    r[i] := buffer[8..];
  }

  /** Cuts `s` into `r.Length` blocks of 8 bytes. */
  method Cut(s: bytes, r: array<bytes>)
    requires |s| == 8 * r.Length
    modifies r
    ensures r[..] == Blocks(s)
  {
    var i := 0;
    while i < r.Length
      invariant i <= r.Length && r[..i] == Blocks(s)[..i]
    {
      BlockAt(s, i);
      r[i] := s[8 * i..8 * i + 8];
      i := i + 1;
    }
    assert r[..i] == r[..];
  }

  /** Writes the blocks one after another from `base` on. */
  method PutBlocks(out: array<byte>, base: nat, r: array<bytes>)
    requires out.Length == base + 8 * r.Length && forall i | 0 <= i < r.Length :: |r[i]| == 8
    modifies out
    ensures out[..] == old(out[..base]) + Flatten(r[..])
  {
    var i := 0;
    while i < r.Length
      invariant i <= r.Length && |Flatten(r[..i])| == 8 * i
      invariant out[..base + 8 * i] == old(out[..base]) + Flatten(r[..i])
    {
      ghost var before := out[..base + 8 * i];
      CopyAt(out, base + 8 * i, r[i]);
      OneMore(r[..], i);
      Assoc(old(out[..base]), Flatten(r[..i]), r[i]);
      assert out[..base + 8 * i + 8] == before + r[i];
      i := i + 1;
    }
    assert out[..] == out[..base + 8 * i] && r[..] == r[..i];
  }

  lemma OneMore(r: seq<bytes>, i: nat)
    requires i < |r|
    ensures Flatten(r[..i + 1]) == Flatten(r[..i]) + r[i]
  {
    assert r[..i + 1] == r[..i] + [r[i]];
    FlattenAppend(r[..i], [r[i]]);
    assert r[i] + [] == r[i] && Flatten([r[i]]) == r[i] + Flatten([]);
  }

  lemma ForwardMore(enc: bytes -> bytes, g: Regs, t: nat, end: nat)
    requires BlockSized(enc) && Fits(g, |g.r|) && g.r != [] && t < end
    ensures Forward(enc, g, t, end) == Forward(enc, WrapStep(enc, g, t % |g.r|, t + 1), t + 1, end)
  {
    hide WrapStep;
  }

  lemma BackwardMore(dec: bytes -> bytes, g: Regs, t: nat)
    requires BlockSized(dec) && Fits(g, |g.r|) && g.r != [] && t > 0
    ensures Backward(dec, g, t) == Backward(dec, UnwrapStep(dec, g, (t - 1) % |g.r|, t), t - 1)
  {
    hide UnwrapStep;
  }

  /** An empty key goes through no step at all. */
  lemma {:induction false} NoBlocks(enc: bytes -> bytes, g: Regs, j: nat)
    requires BlockSized(enc) && Fits(g, 0) && j <= 6
    ensures Passes(enc, g, j) == g
    decreases 6 - j
  {
    if j < 6 { NoBlocks(enc, g, j + 1); }
  }

  /** The output buffer: the register, then the blocks. */
  method Assemble(buffer: array<byte>, r: array<bytes>) returns (out: bytes)
    requires buffer.Length == 16 && Fits(Held(buffer, r), r.Length)
    ensures out == buffer[..8] + Flatten(r[..])
  {
    var o := new byte[(r.Length + 1) * 8](i => 0);
    CopyAt(o, 0, buffer[..8]);
    assert o[..8] == buffer[..8];
    PutBlocks(o, 8, r);
    out := o[..];
  }

  /** The working buffer with the register in its first half, and the blocks. */
  method Load(a: bytes, s: bytes) returns (buffer: array<byte>, r: array<bytes>)
    requires |a| == 8 && |s| % 8 == 0
    ensures fresh(buffer) && fresh(r) && buffer.Length == 16 && r.Length == |s| / 8
    ensures Held(buffer, r) == Regs(a, Blocks(s))
  {
    hide Blocks;
    r := new bytes[|s| / 8](i => []);
    Cut(s, r);
    buffer := new byte[16](i => 0);
    CopyAt(buffer, 0, a);
    assert buffer[..8] == a;
  }

  method Wrap(enc: bytes -> bytes, cek: bytes) returns (out: Option<bytes>)
    requires BlockSized(enc)
    ensures out == Wrapped(enc, cek)
  {
    hide WrapStep, Forward, Passes, Blocks, BlockSized, Flatten;
    if |cek| % 8 != 0 {
      return None;
    }
    var n := |cek| / 8;
    var buffer, r := Load(DEFAULT_IV, cek);
    ghost var g := Regs(DEFAULT_IV, Blocks(cek));
    if n > 0 {
      SingleLoop(enc, g);
      WrapLoop(enc, buffer, r);
    } else {
      NoBlocks(enc, g, 0);
    }
    var o := Assemble(buffer, r);
    return Some(o);
  }

  /** The single loop over t. */
  method WrapLoop(enc: bytes -> bytes, buffer: array<byte>, r: array<bytes>)
    requires BlockSized(enc) && buffer.Length == 16 && r.Length > 0 && Fits(Held(buffer, r), r.Length)
    modifies buffer, r
    ensures Held(buffer, r) == Forward(enc, old(Held(buffer, r)), 0, 6 * r.Length)
  {
    hide WrapStep, Forward, BlockSized, Held;
    var n := r.Length;
    var t := 0;
    while t < 6 * n
      invariant 0 <= t <= 6 * n && Fits(Held(buffer, r), n)
      invariant Forward(enc, Held(buffer, r), t, 6 * n) == Forward(enc, old(Held(buffer, r)), 0, 6 * n)
    {
      ForwardMore(enc, Held(buffer, r), t, 6 * n);
      WrapBlock(enc, buffer, r, t % n, t + 1);
      t := t + 1;
    }
    NoSteps(enc, Held(buffer, r), t);
  }

  method UnwrapLoop(dec: bytes -> bytes, buffer: array<byte>, r: array<bytes>)
    requires BlockSized(dec) && buffer.Length == 16 && r.Length > 0 && Fits(Held(buffer, r), r.Length)
    modifies buffer, r
    ensures Held(buffer, r) == Backward(dec, old(Held(buffer, r)), 6 * r.Length)
  {
    hide UnwrapStep, Backward, BlockSized, Held;
    var n := r.Length;
    var t := 6 * n - 1;
    while t >= 0
      invariant -1 <= t < 6 * n && Fits(Held(buffer, r), n)
      invariant Backward(dec, Held(buffer, r), t + 1) == Backward(dec, old(Held(buffer, r)), 6 * n)
    {
      BackwardMore(dec, Held(buffer, r), t + 1);
      UnwrapBlock(dec, buffer, r, t % n, t + 1);
      t := t - 1;
    }
    NothingBack(dec, Held(buffer, r));
  }

  lemma NothingBack(dec: bytes -> bytes, g: Regs)
    requires BlockSized(dec) && Fits(g, |g.r|) && g.r != []
    ensures Backward(dec, g, 0) == g
  {}

  method Unwrap(dec: bytes -> bytes, ciphertext: bytes) returns (out: Option<bytes>)
    requires BlockSized(dec)
    ensures out == Unwrapped(dec, ciphertext)
  {
    hide UnwrapStep, Backward, Blocks, BlockSized, Flatten;
    var n := |ciphertext| / 8 - 1;
    if n <= 0 {
      return None;
    }
    if |ciphertext| % 8 != 0 {
      return None;
    }
    var buffer, r := Load(ciphertext[..8], ciphertext[8..]);
    UnwrapLoop(dec, buffer, r);
    if buffer[..8] != DEFAULT_IV {
      return None;
    }
    var o := new byte[n * 8](i => 0);
    PutBlocks(o, 0, r);
    assert o[..0] + Flatten(r[..]) == Flatten(r[..]);
    return Some(o[..]);
  }
}

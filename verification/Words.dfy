/** Byte-level arithmetic of the symmetric constructions: exclusive or, big-endian numbers, 8-byte blocks. */
module Words {
  import opened Bytes

  /** `enc` and `dec` are inverse permutations of the 16-byte blocks. */
  ghost predicate Permutation(enc: bytes -> bytes, dec: bytes -> bytes) {
    forall b: bytes | |b| == 16 :: |enc(b)| == 16 && |dec(b)| == 16 && dec(enc(b)) == b && enc(dec(b)) == b
  }

  /** The cipher maps 16-byte blocks to 16-byte blocks. */
  ghost predicate BlockSized(f: bytes -> bytes) {
    forall b: bytes | |b| == 16 :: |f(b)| == 16
  }

  lemma Inverse(enc: bytes -> bytes, dec: bytes -> bytes, b: bytes)
    requires Permutation(enc, dec) && |b| == 16
    ensures |enc(b)| == 16 && |dec(b)| == 16 && dec(enc(b)) == b && enc(dec(b)) == b
  {}

  lemma BothSized(enc: bytes -> bytes, dec: bytes -> bytes)
    requires Permutation(enc, dec)
    ensures BlockSized(enc) && BlockSized(dec)
  {}

  function Pow2(k: nat): nat {
    if k == 0 then 1 else 2 * Pow2(k - 1)
  }

  /** Exclusive or of the low `k` bits. */
  function XorBits(a: nat, b: nat, k: nat): (x: nat)
    ensures x < Pow2(k)
  {
    if k == 0 then 0 else (a % 2 + b % 2) % 2 + 2 * XorBits(a / 2, b / 2, k - 1)
  }

  lemma {:induction false} XorBitsTwice(a: nat, b: nat, k: nat)
    requires a < Pow2(k)
    ensures XorBits(XorBits(a, b, k), b, k) == a
  {
    if k > 0 {
      var y := XorBits(a / 2, b / 2, k - 1);
      XorBitsTwice(a / 2, b / 2, k - 1);
      XorLowBit(a % 2, b % 2, y);
      XorUnfold(XorBits(a, b, k), b, k, y);
    }
  }

  lemma XorUnfold(x: nat, b: nat, k: nat, y: nat)
    requires k > 0 && x / 2 == y
    ensures XorBits(x, b, k) == (x % 2 + b % 2) % 2 + 2 * XorBits(y, b / 2, k - 1)
  {}

  lemma XorLowBit(p: nat, q: nat, y: nat)
    requires p < 2 && q < 2
    ensures var x := (p + q) % 2 + 2 * y; x / 2 == y && (x % 2 + q) % 2 == p
  {}

  function BitOf(n: nat, i: nat): nat {
    HalfTwice(n, i);
    n / Pow2(i) % 2
  }

  lemma {:induction false} HalfTwice(n: nat, i: nat)
    ensures Pow2(i) > 0 && n / 2 / Pow2(i) == n / Pow2(i + 1)
  {
    if i > 0 { HalfTwice(n, i - 1); }
    DivTwice(n, 2, Pow2(i));
  }

  lemma OneBit()
    ensures Pow2(0) == 1
  {}

  lemma BitBelow(n: nat, half: nat, i: nat)
    requires i > 0 && n / 2 == half
    ensures BitOf(n, i) == BitOf(half, i - 1)
  {
    HalfTwice(n, i - 1);
  }

  /** Dividing twice is dividing by the product. */
  lemma DivTwice(n: nat, a: nat, b: nat)
    requires a > 0 && b > 0
    ensures a * b > 0 && n / a / b == n / (a * b)
  {
    var q, r := n / a, n % a;
    var d, e := q / b, q % b;
    assert n == a * q + r && q == b * d + e;
    assert a * (b * d) == (a * b) * d;
    Distribute(a, b, e + 1);
    ScaledPositive(a, b - e);
    assert n == (a * b) * d + (a * e + r) && a * e + r < a * b;
    DivUnique(n, a * b, d, a * e + r);
  }

  lemma DivUnique(x: nat, n: nat, d: nat, e: nat)
    requires e < n && x == n * d + e
    ensures x / n == d
  {
    ModUnique(x, n, d, e);
    var q := x / n;
    assert x == n * q + x % n;
    Distribute(n, q, d);
    if q > d { ScaledPositive(n, q - d); } else if q < d { ScaledPositive(n, d - q); Distribute(n, d, q); }
  }

  /** Each low bit of an exclusive or is set exactly when it is set in one of the two numbers. */
  lemma {:induction false} XorBitsAt(a: nat, b: nat, k: nat, i: nat)
    requires i < k
    ensures BitOf(XorBits(a, b, k), i) == 1 <==> BitOf(a, i) != BitOf(b, i)
    decreases k
  {
    hide Pow2;
    assert Pow2(0) == 1 by { OneBit(); }
    var x, y := XorBits(a, b, k), XorBits(a / 2, b / 2, k - 1);
    XorLowBit(a % 2, b % 2, y);
    if i > 0 {
      XorBitsAt(a / 2, b / 2, k - 1, i - 1);
      BitBelow(a, a / 2, i);
      BitBelow(b, b / 2, i);
      BitBelow(x, y, i);
    }
  }

  lemma XorAt(a: byte, b: byte, i: nat)
    requires i < 8
    ensures BitOf(Xor(a, b), i) == 1 <==> BitOf(a, i) != BitOf(b, i)
  {
    XorBitsAt(a, b, 8, i);
  }

  function Xor(a: byte, b: byte): byte {
    assert Pow2(8) == 256 by { EightBits(); }
    XorBits(a, b, 8)
  }

  lemma EightBits()
    ensures Pow2(8) == 256
  {
    assert Pow2(4) == 16;
  }

  lemma XorTwice(a: byte, b: byte)
    ensures Xor(Xor(a, b), b) == a
  {
    EightBits();
    XorBitsTwice(a, b, 8);
  }

  function XorBytes(a: bytes, b: bytes): (x: bytes)
    requires |a| == |b|
    ensures |x| == |a|
  {
    seq(|a|, i requires 0 <= i < |a| => Xor(a[i], b[i]))
  }

  lemma XorBytesTwice(a: bytes, b: bytes)
    requires |a| == |b|
    ensures XorBytes(XorBytes(a, b), b) == a
  {
    forall i | 0 <= i < |a| ensures XorBytes(XorBytes(a, b), b)[i] == a[i] { XorTwice(a[i], b[i]); }
  }

  lemma ScaledPositive(n: nat, d: int)
    requires d >= 1
    ensures n * d >= n
  {}

  lemma Distribute(n: int, a: int, b: int)
    ensures n * (a - b) == n * a - n * b
  {}

  /** The remainder is determined by any quotient that leaves less than the divisor. */
  lemma ModUnique(x: nat, n: nat, d: nat, e: nat)
    requires e < n && x == n * d + e
    ensures x % n == e
  {
    var q, r := x / n, x % n;
    assert x == n * q + r && 0 <= r < n;
    if q > d {
      Distribute(n, q, d);
      ScaledPositive(n, q - d);
    } else if q < d {
      Distribute(n, d, q);
      ScaledPositive(n, d - q);
    }
  }

  /** The low `k` bytes of `n`, most significant first. */
  function BigEndian(n: nat, k: nat): (s: bytes)
    ensures |s| == k
  {
    if k == 0 then [] else BigEndian(n / 256, k - 1) + [n % 256]
  }

  function Pow256(k: nat): nat {
    if k == 0 then 1 else 256 * Pow256(k - 1)
  }

  lemma {:induction false} Pow256Positive(k: nat)
    ensures Pow256(k) > 0
  {
    if k > 0 { Pow256Positive(k - 1); }
  }

  /** The byte at position `i`: the most significant one comes first. */
  lemma {:induction false} BigEndianAt(n: nat, k: nat, i: nat)
    requires i < k
    ensures Pow256(k - 1 - i) > 0 && BigEndian(n, k)[i] == n / Pow256(k - 1 - i) % 256
    decreases k
  {
    Pow256Positive(k - 1 - i);
    if i < k - 1 {
      BigEndianAt(n / 256, k - 1, i);
      DivTwice(n, 256, Pow256(k - 2 - i));
    }
  }

  /** The number that a byte string stands for, read from left to right. */
  function Number(s: bytes): nat {
    if s == [] then 0 else Number(s[..|s| - 1]) * 256 + s[|s| - 1]
  }

  /** Every byte string is the big-endian form of its number. */
  lemma {:induction false} BigEndianNumber(s: bytes)
    ensures BigEndian(Number(s), |s|) == s
  {
    if s != [] {
      var last := |s| - 1;
      BigEndianNumber(s[..last]);
      assert Number(s) / 256 == Number(s[..last]) && Number(s) % 256 == s[last];
      Rejoin(s, last);
    }
  }

  /** Reading the big-endian form gives the number back, as far as it fits. */
  lemma {:induction false} NumberBigEndian(n: nat, k: nat)
    ensures Pow256(k) > 0 && Number(BigEndian(n, k)) == n % Pow256(k)
    decreases k
  {
    if k > 0 {
      NumberBigEndian(n / 256, k - 1);
      assert BigEndian(n, k)[..k - 1] == BigEndian(n / 256, k - 1);
      LowDigits(n, Pow256(k - 1));
    }
  }

  lemma LowDigits(n: nat, p: nat)
    requires p > 0
    ensures (n % (256 * p)) / 256 == (n / 256) % p && (n % (256 * p)) % 256 == n % 256
  {
    var q, r := n / 256, n % 256;
    var d, e := q / p, q % p;
    assert q == p * d + e && n == 256 * q + r;
    assert 256 * (p * d) == (256 * p) * d;
    var x := 256 * e + r;
    assert n == (256 * p) * d + x && 0 <= x < 256 * p;
    ModUnique(n, 256 * p, d, x);
  }

  /** Leading zeros do not change the number. */
  lemma {:induction false} LeadingZeros(n: nat, s: bytes)
    ensures Number(seq(n, _ => 0) + s) == Number(s)
    decreases n + |s|
  {
    var z := seq(n, _ => 0 as byte);
    if s != [] {
      var last := |s| - 1;
      assert (z + s)[..n + last] == z + s[..last];
      LeadingZeros(n, s[..last]);
    } else if n > 0 {
      assert z + s == z && z[..n - 1] == seq(n - 1, _ => 0) + s;
      LeadingZeros(n - 1, s);
    }
  }

  /** Numbers that fit are told apart by their bytes. */
  lemma {:induction false} BigEndianInjective(m: nat, n: nat, k: nat)
    requires m < Pow256(k) && n < Pow256(k) && BigEndian(m, k) == BigEndian(n, k)
    ensures m == n
  {
    if k > 0 {
      var x, y := BigEndian(m / 256, k - 1), BigEndian(n / 256, k - 1);
      assert BigEndian(m, k)[k - 1] == m % 256 && BigEndian(n, k)[k - 1] == n % 256;
      assert BigEndian(m, k)[..k - 1] == x && BigEndian(n, k)[..k - 1] == y;
      BigEndianInjective(m / 256, n / 256, k - 1);
    }
  }

  /** The 8-byte blocks of `s`. */
  function Blocks(s: bytes): (r: seq<bytes>)
    ensures |r| == |s| / 8 && forall i | 0 <= i < |r| :: |r[i]| == 8
  {
    if |s| < 8 then [] else [s[..8]] + Blocks(s[8..])
  }

  lemma {:induction false} JoinBlocks(s: bytes)
    requires |s| % 8 == 0
    ensures Flatten(Blocks(s)) == s
    decreases |s|
  {
    if |s| >= 8 {
      JoinBlocks(s[8..]);
      assert Blocks(s)[1..] == Blocks(s[8..]);
      Rejoin(s, 8);
    }
  }

  lemma {:induction false} SplitBlocks(r: seq<bytes>)
    requires forall i | 0 <= i < |r| :: |r[i]| == 8
    ensures |Flatten(r)| == 8 * |r| && Blocks(Flatten(r)) == r
    decreases |r|
  {
    if r != [] {
      SplitBlocks(r[1..]);
      Seam(r[0], Flatten(r[1..]));
    }
  }

  lemma {:induction false} BlockAt(s: bytes, i: nat)
    requires 8 * i + 8 <= |s|
    ensures i < |Blocks(s)| && Blocks(s)[i] == s[8 * i..8 * i + 8]
    decreases i
  {
    if i > 0 {
      BlockAt(s[8..], i - 1);
      assert s[8..][8 * (i - 1)..8 * (i - 1) + 8] == s[8 * i..8 * i + 8];
    }
  }

  /** Overwrites part of the buffer, as `copy` does. */
  method CopyAt(buffer: array<byte>, k: nat, p: bytes)
    requires k + |p| <= buffer.Length
    modifies buffer
    ensures buffer[..] == old(buffer[..k]) + p + old(buffer[k + |p|..])
  {
    forall i | 0 <= i < |p| {
      buffer[k + i] := p[i];
    }
  }

  /** Appends to a prefix that is already in place, and returns where the prefix ends then. */
  method CopyNext(buffer: array<byte>, n: nat, p: bytes) returns (n': nat)
    requires n + |p| <= buffer.Length
    modifies buffer
    ensures n' == n + |p| && buffer[..n'] == old(buffer[..n]) + p
  {
    CopyAt(buffer, n, p);
    n' := n + |p|;
  }
}

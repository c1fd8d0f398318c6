/** The CBC+HMAC construction (section 5.2.2 of RFC 7518) over any block cipher and any keyed hash. */
module CbcHmac {
  import opened Bytes
  import opened Words

  const BLOCK_SIZE: nat := 16
  const NONCE_BYTES: nat := 16

  // Padding.

  function Copies(c: byte, n: nat): (s: bytes)
    ensures |s| == n && forall i | 0 <= i < n :: s[i] == c
  {
    seq(n, _ => c)
  }

  function Missing(n: nat, blockSize: nat): (k: nat)
    requires 0 < blockSize < 256
    ensures 1 <= k <= blockSize && (n + k) % blockSize == 0
  {
    WholeBlocks(n, blockSize);
    blockSize - n % blockSize
  }

  lemma WholeBlocks(n: nat, b: nat)
    requires 0 < b
    ensures (n + (b - n % b)) % b == 0
  {
    var q, r := n / b, n % b;
    assert n == b * q + r;
    assert n + (b - r) == b * (q + 1) + 0;
    ModUnique(n + (b - r), b, q + 1, 0);
  }

  function Pad(s: bytes, blockSize: nat): bytes
    requires 0 < blockSize < 256
  {
    s + Copies(Missing(|s|, blockSize), Missing(|s|, blockSize))
  }

  /** The text a buffer is the padding of. */
  function Unpad(b: bytes, blockSize: nat): Option<bytes>
    requires 0 < blockSize < 256 && b != []
  {
    var count := b[|b| - 1];
    if |b| % blockSize != 0 || count == 0 || count > blockSize || count > |b| then None
    else if b[|b| - count..] != Copies(count, count) then None
    else Some(b[..|b| - count])
  }

  /** A non-empty buffer is accepted exactly when it is the padding of the result. */
  lemma UnpadExactly(b: bytes, blockSize: nat, p: bytes)
    requires 0 < blockSize < 256 && b != []
    ensures Unpad(b, blockSize) == Some(p) <==> b == Pad(p, blockSize)
  {
    if b == Pad(p, blockSize) {
      var k := Missing(|p|, blockSize);
      Seam(p, Copies(k, k));
      assert b[|b| - 1] == k;
    }
    if Unpad(b, blockSize) == Some(p) {
      var k := b[|b| - 1];
      Rejoin(b, |b| - k);
      MissingUnique(|p|, blockSize, k);
    }
  }

  lemma MissingUnique(n: nat, b: nat, k: nat)
    requires 0 < b < 256 && 1 <= k <= b && (n + k) % b == 0
    ensures Missing(n, b) == k
  {
    var m := n + k;
    var q := m / b;
    assert m == b * q;
    assert q > 0;
    if k == b {
      assert n == b * (q - 1) + 0;
      ModUnique(n, b, q - 1, 0);
    } else {
      assert n == b * (q - 1) + (b - k);
      ModUnique(n, b, q - 1, b - k);
    }
  }

  // Cipher block chaining, as the standard library runs it.

  function Chain(enc: bytes -> bytes, iv: bytes, s: bytes): (c: bytes)
    requires BlockSized(enc) && |iv| == 16 && |s| % 16 == 0
    ensures |c| == |s|
    decreases |s|
  {
    if s == [] then [] else var c := enc(XorBytes(s[..16], iv)); c + Chain(enc, c, s[16..])
  }

  function Unchain(dec: bytes -> bytes, iv: bytes, c: bytes): (s: bytes)
    requires BlockSized(dec) && |iv| == 16 && |c| % 16 == 0
    ensures |s| == |c|
    decreases |c|
  {
    if c == [] then [] else XorBytes(dec(c[..16]), iv) + Unchain(dec, c[..16], c[16..])
  }

  function BlockOf(s: bytes, i: nat): (b: bytes)
    requires 16 * i + 16 <= |s|
    ensures |b| == 16
  {
    s[16 * i..16 * i + 16]
  }

  /** Block `i` of `c` is that of `s` combined with the block of `c` before it, and encrypted. */
  ghost predicate ChainedAt(enc: bytes -> bytes, iv: bytes, s: bytes, c: bytes, i: nat)
    requires |iv| == 16 && |c| == |s| && 16 * i + 16 <= |s|
  {
    BlockOf(c, i) == enc(XorBytes(BlockOf(s, i), if i == 0 then iv else BlockOf(c, i - 1)))
  }

  ghost predicate Chained(enc: bytes -> bytes, iv: bytes, s: bytes, c: bytes)
    requires |iv| == 16
  {
    |c| == |s| && forall i: nat | 16 * i + 16 <= |s| :: ChainedAt(enc, iv, s, c, i)
  }

  lemma {:induction false} ChainAt(enc: bytes -> bytes, iv: bytes, s: bytes, i: nat)
    requires BlockSized(enc) && |iv| == 16 && |s| % 16 == 0 && 16 * i + 16 <= |s|
    ensures ChainedAt(enc, iv, s, Chain(enc, iv, s), i)
    decreases i
  {
    hide XorBytes;
    var c0 := enc(XorBytes(s[..16], iv));
    var c := Chain(enc, c0, s[16..]);
    assert BlockOf(Chain(enc, iv, s), 0) == c0;
    if i > 0 {
      ChainAt(enc, c0, s[16..], i - 1);
      assert BlockOf(s[16..], i - 1) == BlockOf(s, i);
      assert BlockOf(c, i - 1) == BlockOf(Chain(enc, iv, s), i);
      if i > 1 { assert BlockOf(c, i - 2) == BlockOf(Chain(enc, iv, s), i - 1); }
    }
  }

  lemma ChainIs(enc: bytes -> bytes, iv: bytes, s: bytes)
    requires BlockSized(enc) && |iv| == 16 && |s| % 16 == 0
    ensures Chained(enc, iv, s, Chain(enc, iv, s))
  {
    hide Chain, ChainedAt;
    forall i: nat | 16 * i + 16 <= |s| ensures ChainedAt(enc, iv, s, Chain(enc, iv, s), i) { ChainAt(enc, iv, s, i); }
  }

  lemma {:induction false} UnchainChain(enc: bytes -> bytes, dec: bytes -> bytes, iv: bytes, s: bytes)
    requires Permutation(enc, dec) && |iv| == 16 && |s| % 16 == 0
    ensures Unchain(dec, iv, Chain(enc, iv, s)) == s
    decreases |s|
  {
    hide Permutation, BlockSized, XorBytes;
    BothSized(enc, dec);
    if s != [] {
      var x := XorBytes(s[..16], iv);
      var c := enc(x);
      Inverse(enc, dec, x);
      Seam(c, Chain(enc, c, s[16..]));
      XorBytesTwice(s[..16], iv);
      UnchainChain(enc, dec, c, s[16..]);
      Rejoin(s, 16);
    }
  }

  lemma {:induction false} ChainUnchain(enc: bytes -> bytes, dec: bytes -> bytes, iv: bytes, c: bytes)
    requires Permutation(enc, dec) && |iv| == 16 && |c| % 16 == 0
    ensures Chain(enc, iv, Unchain(dec, iv, c)) == c
    decreases |c|
  {
    hide Permutation, BlockSized, XorBytes;
    BothSized(enc, dec);
    if c != [] {
      var y := dec(c[..16]);
      Inverse(enc, dec, c[..16]);
      var x := XorBytes(y, iv);
      Seam(x, Unchain(dec, c[..16], c[16..]));
      XorBytesTwice(y, iv);
      ChainUnchain(enc, dec, c[..16], c[16..]);
      Rejoin(c, 16);
    }
  }

  // The MAC input.

  function AuthInput(aad: bytes, nonce: bytes, ciphertext: bytes): bytes {
    aad + nonce + ciphertext + BigEndian(|aad| * 8, 8)
  }

  lemma EightBytes()
    ensures Pow256(8) == 0x1_0000_0000_0000_0000
  {
    assert Pow256(2) == 65536;
    assert Pow256(4) == 65536 * 65536;
    assert Pow256(6) == 65536 * 65536 * 65536;
  }

  /** As long as the length of the data in bits fits 64 bits, the MAC input tells data, nonce and ciphertext apart. */
  lemma AuthInputInjective(aad: bytes, nonce: bytes, c: bytes, aad': bytes, nonce': bytes, c': bytes)
    requires |nonce| == NONCE_BYTES && |nonce'| == NONCE_BYTES
    requires |aad| * 8 < 0x1_0000_0000_0000_0000 && |aad'| * 8 < 0x1_0000_0000_0000_0000
    requires AuthInput(aad, nonce, c) == AuthInput(aad', nonce', c')
    ensures aad == aad' && nonce == nonce' && c == c'
  {
    hide BigEndian;
    var s := AuthInput(aad, nonce, c);
    assert s[|s| - 8..] == BigEndian(|aad| * 8, 8) && s[|s| - 8..] == BigEndian(|aad'| * 8, 8);
    EightBytes();
    BigEndianInjective(|aad| * 8, |aad'| * 8, 8);
    var n := |aad|;
    assert s[..n] == aad && s[..n] == aad';
    assert s[n..n + 16] == nonce && s[n..n + 16] == nonce';
    assert s[n + 16..|s| - 8] == c && s[n + 16..|s| - 8] == c';
  }

  // Slices: a backing array and a length.

  datatype Slice = Slice(arr: array<byte>, len: nat)

  predicate Backed(s: Slice) {
    s.len <= s.arr.Length
  }

  function Contents(s: Slice): bytes
    requires Backed(s)
    reads s.arr
  {
    s.arr[..s.len]
  }

  /** Extends a slice to `n` bytes, in place when its backing array is large enough. */
  method Resize(s: Slice, n: nat) returns (head: Slice)
    requires Backed(s) && s.len <= n
    ensures head.len == n && Backed(head) && head.arr[..s.len] == Contents(s)
    ensures if s.arr.Length >= n then head.arr == s.arr else fresh(head.arr)
  {
    if s.arr.Length >= n {
      head := Slice(s.arr, n);
    } else {
      var bigger := new byte[n](i => 0);
      CopyAt(bigger, 0, s.arr[..s.len]);
      head := Slice(bigger, n);
    }
  }

  method PadBuffer(buffer: Slice, blockSize: nat) returns (ret: Slice)
    requires Backed(buffer) && 0 < blockSize < 256
    modifies buffer.arr
    ensures Backed(ret) && Contents(ret) == Pad(old(Contents(buffer)), blockSize)
    ensures if buffer.len + Missing(buffer.len, blockSize) <= buffer.arr.Length
            then ret.arr == buffer.arr else fresh(ret.arr)
  {
    var missing := Missing(buffer.len, blockSize);
    ret := Resize(buffer, buffer.len + missing);
    var padding := Copies(missing, missing);
    CopyAt(ret.arr, buffer.len, padding);
  }

  method UnpadBuffer(buffer: bytes, blockSize: nat) returns (r: Option<bytes>)
    requires 0 < blockSize < 256 && buffer != []
    ensures forall p: bytes :: r == Some(p) <==> buffer == Pad(p, blockSize)
  {
    forall p: bytes ensures Unpad(buffer, blockSize) == Some(p) <==> buffer == Pad(p, blockSize) {
      UnpadExactly(buffer, blockSize, p);
    }
    hide Pad;
    if |buffer| % blockSize != 0 {
      return None;
    }
    var last := buffer[|buffer| - 1];
    var count := last;
    if count == 0 || count > blockSize || count > |buffer| {
      return None;
    }
    if buffer[|buffer| - count..] != Copies(last, count) {
      return None;
    }
    return Some(buffer[..|buffer| - count]);
  }

  /** `OutOfRange` is the index error on a message that holds nothing but a valid tag. */
  datatype Opened = Plain(p: bytes) | Refused | OutOfRange

  class CbcAead {
    const enc: bytes -> bytes
    const dec: bytes -> bytes
    const mac: bytes -> bytes
    const authtagBytes: nat

    ghost predicate Keyed() {
      && Permutation(enc, dec) && authtagBytes in {16, 24, 32}
      && (forall s: bytes :: |mac(s)| >= authtagBytes)
    }

    constructor (e: bytes -> bytes, d: bytes -> bytes, m: bytes -> bytes, keySize: nat)
      requires Permutation(e, d) && keySize in {16, 24, 32} && forall s: bytes :: |m(s)| >= keySize
      ensures Keyed() && enc == e && dec == d && mac == m && authtagBytes == keySize
    {
      enc, dec, mac, authtagBytes := e, d, m, keySize;
    }

    function Overhead(): nat { BLOCK_SIZE + authtagBytes }

    function Tag(aad: bytes, nonce: bytes, ciphertext: bytes): (t: bytes)
      requires Keyed()
      ensures |t| == authtagBytes
    {
      mac(AuthInput(aad, nonce, ciphertext))[..authtagBytes]
    }

    ghost function Sealed(nonce: bytes, p: bytes, data: bytes): bytes
      requires Keyed() && |nonce| == NONCE_BYTES
    {
      BothSized(enc, dec);
      PadLength(p, BLOCK_SIZE);
      var c := Chain(enc, nonce, Pad(p, BLOCK_SIZE));
      c + Tag(data, nonce, c)
    }

    /**
     A sealed text, part by part: the plaintext followed by `k` bytes `k` up to the next block, chained from the
     nonce block by block, and the truncated MAC of data, nonce, ciphertext and the data length in bits.
     */
    lemma SealedParts(nonce: bytes, p: bytes, data: bytes)
      requires Keyed() && |nonce| == NONCE_BYTES
      ensures var k := 16 - |p| % 16;
              var s := Sealed(nonce, p, data);
              && |s| == |p| + k + authtagBytes
              && Chained(enc, nonce, p + seq(k, _ => k), s[..|p| + k])
              && s[|p| + k..] == mac(data + nonce + s[..|p| + k] + BigEndian(|data| * 8, 8))[..authtagBytes]
    {
      hide Permutation, BigEndian, BlockSized, Chain, Chained;
      BothSized(enc, dec);
      PadLength(p, BLOCK_SIZE);
      var k := 16 - |p| % 16;
      assert Pad(p, BLOCK_SIZE) == p + seq(k, _ => k);
      var c := Chain(enc, nonce, Pad(p, BLOCK_SIZE));
      ChainIs(enc, nonce, Pad(p, BLOCK_SIZE));
      Seam(c, Tag(data, nonce, c));
    }

    ghost function OpenOutcome(nonce: bytes, ciphertext: bytes, data: bytes): Opened
      requires Keyed() && |nonce| == NONCE_BYTES
    {
      if |ciphertext| < authtagBytes then Refused
      else
        var offset := |ciphertext| - authtagBytes;
        var c := ciphertext[..offset];
        if Tag(data, nonce, c) != ciphertext[offset..] || offset % BLOCK_SIZE != 0 then Refused
        else if offset == 0 then OutOfRange
        else
          var u := Unpad(Unchain(dec, nonce, c), BLOCK_SIZE);
          if u.None? then Refused else Plain(u.value)
    }

    /** Opening yields `p` exactly when the ciphertext is what sealing `p` produces. */
    lemma OpenExactly(nonce: bytes, ciphertext: bytes, data: bytes, p: bytes)
      requires Keyed() && |nonce| == NONCE_BYTES
      ensures OpenOutcome(nonce, ciphertext, data) == Plain(p) <==> ciphertext == Sealed(nonce, p, data)
    {
      hide Permutation, BlockSized, Unpad, AuthInput, Pad;
      BothSized(enc, dec);
      PadLength(p, BLOCK_SIZE);
      var s := Pad(p, BLOCK_SIZE);
      var c := Chain(enc, nonce, s);
      if ciphertext == Sealed(nonce, p, data) {
        Seam(c, Tag(data, nonce, c));
        UnchainChain(enc, dec, nonce, s);
        UnpadExactly(s, BLOCK_SIZE, p);
      }
      if OpenOutcome(nonce, ciphertext, data) == Plain(p) {
        var offset := |ciphertext| - authtagBytes;
        var d := Unchain(dec, nonce, ciphertext[..offset]);
        UnpadExactly(d, BLOCK_SIZE, p);
        ChainUnchain(enc, dec, nonce, ciphertext[..offset]);
        Rejoin(ciphertext, offset);
      }
    }

    /** The index error occurs exactly on the message that is the valid tag of an empty ciphertext. */
    lemma OpenPanicsExactly(nonce: bytes, ciphertext: bytes, data: bytes)
      requires Keyed() && |nonce| == NONCE_BYTES
      ensures OpenOutcome(nonce, ciphertext, data).OutOfRange? <==> ciphertext == Tag(data, nonce, [])
    {
      hide Permutation, BlockSized, Unpad, AuthInput, Unchain;
      if |ciphertext| == authtagBytes {
        assert ciphertext[..0] == [] && ciphertext[0..] == ciphertext;
      }
    }

    /** That message exists for every nonce and data, and a caller can tell it by its length. */
    lemma TagAlonePanics(nonce: bytes, data: bytes)
      requires Keyed() && |nonce| == NONCE_BYTES
      ensures OpenOutcome(nonce, Tag(data, nonce, []), data) == OutOfRange
      ensures forall c: bytes | |c| != authtagBytes :: OpenOutcome(nonce, c, data) != OutOfRange
    {
      hide Permutation, BlockSized, Unpad, AuthInput, Unchain;
      OpenPanicsExactly(nonce, Tag(data, nonce, []), data);
      forall c: bytes | |c| != authtagBytes ensures OpenOutcome(nonce, c, data) != OutOfRange {
        OpenPanicsExactly(nonce, c, data);
      }
    }

    method ComputeAuthTag(aad: bytes, nonce: bytes, ciphertext: bytes) returns (tag: bytes)
      requires Keyed()
      ensures tag == Tag(aad, nonce, ciphertext)
      ensures tag == mac(aad + nonce + ciphertext + BigEndian(8 * |aad|, 8))[..authtagBytes]
    {
      hide BigEndian, Permutation;
      var buffer := new byte[|aad| + |nonce| + |ciphertext| + 8](i => 0);
      var n := CopyNext(buffer, 0, aad);
      assert buffer[..n] == aad;
      n := CopyNext(buffer, n, nonce);
      n := CopyNext(buffer, n, ciphertext);
      n := CopyNext(buffer, n, BigEndian(|aad| * 8, 8));
      assert buffer[..n] == buffer[..];
      tag := mac(buffer[..])[..authtagBytes];
    }

    /** The plaintext, padded in a buffer allocated with room for the padding and the tag. */
    method PadPlaintext(plaintext: bytes) returns (buffer: Slice, padded: Slice)
      requires Keyed()
      ensures fresh(buffer.arr) && buffer.arr.Length == |plaintext| + Overhead()
      ensures padded.arr == buffer.arr && Backed(padded) && Contents(padded) == Pad(plaintext, BLOCK_SIZE)
    {
      var arr := new byte[|plaintext| + Overhead()](i => 0);
      buffer := Slice(arr, |plaintext|);
      CopyAt(arr, 0, plaintext);
      assert Contents(buffer) == plaintext;
      padded := PadBuffer(buffer, BLOCK_SIZE);
    }

    method CryptBlocks(nonce: bytes, s: Slice)
      requires Keyed() && |nonce| == NONCE_BYTES && Backed(s) && s.len % BLOCK_SIZE == 0
      modifies s.arr
      ensures Contents(s) == Chain(enc, nonce, old(Contents(s)))
    {
      hide Chain;
      BothSized(enc, dec);
      var c := Chain(enc, nonce, Contents(s));
      CopyAt(s.arr, 0, c);
      assert Contents(s) == c;
    }

    /** Appends the sealed plaintext to `dst`, whose contents are kept. */
    method Seal(dst: Slice, nonce: bytes, plaintext: bytes, data: bytes) returns (ret: Slice)
      requires Keyed() && |nonce| == NONCE_BYTES && Backed(dst)
      modifies dst.arr
      ensures Backed(ret) && (ret.arr == dst.arr || fresh(ret.arr))
      ensures Contents(ret) == old(Contents(dst)) + Sealed(nonce, plaintext, data)
    {
      hide Permutation, BlockSized, AuthInput, Pad, Chain;
      BothSized(enc, dec);
      PadLength(plaintext, BLOCK_SIZE);
      var buffer, padded := PadPlaintext(plaintext);
      CryptBlocks(nonce, padded);
      var ciphertext := Contents(padded);
      assert ciphertext == Chain(enc, nonce, Pad(plaintext, BLOCK_SIZE));
      var authtag := ComputeAuthTag(data, nonce, ciphertext);
      ret := Resize(dst, dst.len + |ciphertext| + |authtag|);
      var n := CopyNext(ret.arr, dst.len, ciphertext);
      n := CopyNext(ret.arr, n, authtag);
      Assoc(old(Contents(dst)), ciphertext, authtag);
    }

    /** Appends the opened ciphertext to `dst`. */
    method Open(dst: Slice, nonce: bytes, ciphertext: bytes, data: bytes) returns (r: Opened, ret: Slice)
      requires Keyed() && |nonce| == NONCE_BYTES && Backed(dst)
      modifies dst.arr
      ensures r == OpenOutcome(nonce, ciphertext, data)
      ensures r.OutOfRange? <==> ciphertext == Tag(data, nonce, [])
      ensures r.Plain? ==> Backed(ret) && Contents(ret) == old(Contents(dst)) + r.p
      ensures !r.Plain? ==> ret == dst && Contents(dst) == old(Contents(dst))
    {
      hide Permutation, BlockSized, AuthInput, Pad, Chain, Unchain;
      BothSized(enc, dec);
      OpenPanicsExactly(nonce, ciphertext, data);
      ret := dst;
      if |ciphertext| < authtagBytes {
        return Refused, ret;
      }
      var offset := |ciphertext| - authtagBytes;
      var expectedTag := ComputeAuthTag(data, nonce, ciphertext[..offset]);
      if expectedTag != ciphertext[offset..] {
        return Refused, ret;
      }
      var buffer := ciphertext[..offset];
      if |buffer| % BLOCK_SIZE > 0 {
        return Refused, ret;
      }
      buffer := Unchain(dec, nonce, buffer);
      if |buffer| == 0 {
        return OutOfRange, ret;
      }
      var plaintext := UnpadBuffer(buffer, BLOCK_SIZE);
      UnpadIs(buffer, plaintext);
      if plaintext.None? {
        return Refused, ret;
      }
      ret := Resize(dst, dst.len + |plaintext.value|);
      var _ := CopyNext(ret.arr, dst.len, plaintext.value);
      return Plain(plaintext.value), ret;
    }
  }

  lemma UnpadIs(b: bytes, r: Option<bytes>)
    requires b != [] && forall p: bytes :: r == Some(p) <==> b == Pad(p, BLOCK_SIZE)
    ensures r == Unpad(b, BLOCK_SIZE)
  {
    hide Pad, Unpad;
    var u := Unpad(b, BLOCK_SIZE);
    if u.Some? {
      UnpadExactly(b, BLOCK_SIZE, u.value);
    } else if r.Some? {
      UnpadExactly(b, BLOCK_SIZE, r.value);
    }
  }

  lemma PadLength(s: bytes, blockSize: nat)
    requires 0 < blockSize < 256
    ensures |Pad(s, blockSize)| % blockSize == 0 && Pad(s, blockSize) != []
  {}
}

/** Concat KDF and the info string that ECDH-ES feeds it (section 4.6.2 of RFC 7518). */
module ConcatKdf {
  import opened Bytes
  import opened Words

  const COUNTERS: nat := 0x1_0000_0000

  /** The hash maps every input to `h` bytes. */
  ghost predicate HashSize(hash: bytes -> bytes, h: nat) {
    h > 0 && forall s: bytes :: |hash(s)| == h
  }

  /** The hash of round `k`; the counter is the low 32 bits of the round number. */
  function Round(hash: bytes -> bytes, z: bytes, info: bytes, k: nat): bytes {
    hash(BigEndian(k, 4) + z + info)
  }

  /** The output of the first `m` rounds; rounds count from 1. */
  function Stream(hash: bytes -> bytes, z: bytes, info: bytes, m: nat): bytes {
    if m == 0 then [] else Stream(hash, z, info, m - 1) + Round(hash, z, info, m)
  }

  lemma {:induction false} StreamLength(hash: bytes -> bytes, z: bytes, info: bytes, m: nat, h: nat)
    requires HashSize(hash, h)
    ensures |Stream(hash, z, info, m)| == m * h
  {
    if m > 0 {
      StreamLength(hash, z, info, m - 1, h);
      assert m * h == (m - 1) * h + h;
    }
  }

  /** Later rounds only extend the output. */
  lemma {:induction false} StreamGrows(hash: bytes -> bytes, z: bytes, info: bytes, m: nat, n: nat)
    requires m <= n
    ensures Stream(hash, z, info, m) <= Stream(hash, z, info, n)
    decreases n
  {
    if m < n { StreamGrows(hash, z, info, m, n - 1); }
  }

  /** Byte `j` of the output comes from round `j / h + 1`. */
  lemma {:induction false} StreamAt(hash: bytes -> bytes, z: bytes, info: bytes, m: nat, h: nat, j: nat)
    requires HashSize(hash, h) && j < |Stream(hash, z, info, m)|
    ensures Stream(hash, z, info, m)[j] == hash(BigEndian(j / h + 1, 4) + z + info)[j % h]
    decreases m
  {
    hide BigEndian;
    StreamLength(hash, z, info, m - 1, h);
    if j < (m - 1) * h {
      StreamAt(hash, z, info, m - 1, h, j);
    } else {
      StreamLength(hash, z, info, m, h);
      var e := j - (m - 1) * h;
      assert m * h == (m - 1) * h + h && (m - 1) * h == h * (m - 1);
      ModUnique(j, h, m - 1, e);
      DivUnique(j, h, m - 1, e);
    }
  }

  /** How the output was split into reads does not matter, only how much was read. */
  lemma SameTotal(hash: bytes -> bytes, z: bytes, info: bytes, a: bytes, m: nat, b: bytes, n: nat)
    requires a <= Stream(hash, z, info, m) && b <= Stream(hash, z, info, n) && |a| <= |b|
    ensures a <= b
  {
    if m <= n { StreamGrows(hash, z, info, m, n); } else { StreamGrows(hash, z, info, n, m); }
  }

  /** As long as the counter does not wrap, no two rounds hash the same input. */
  lemma RoundsDiffer(z: bytes, info: bytes, k: nat, l: nat)
    requires k < COUNTERS && l < COUNTERS && BigEndian(k, 4) + z + info == BigEndian(l, 4) + z + info
    ensures k == l
  {
    assert (BigEndian(k, 4) + z + info)[..4] == BigEndian(k, 4);
    assert (BigEndian(l, 4) + z + info)[..4] == BigEndian(l, 4);
    FourBytes();
    BigEndianInjective(k, l, 4);
  }

  lemma FourBytes()
    ensures Pow256(4) == COUNTERS
  {
    assert Pow256(2) == 65536;
  }

  /** Only the low 32 bits of the round number reach the hash. */
  lemma CounterWraps(k: nat)
    ensures BigEndian(k % COUNTERS, 4) == BigEndian(k, 4)
  {
    LowBytes(k, 4);
    FourBytes();
  }

  lemma {:induction false} LowBytes(n: nat, k: nat)
    ensures Pow256(k) > 0 && BigEndian(n % Pow256(k), k) == BigEndian(n, k)
  {
    if k > 0 {
      LowBytes(n / 256, k - 1);
      LowDigits(n, Pow256(k - 1));
    }
  }

  class ConcatKdf {
    const hash: bytes -> bytes
    const z: bytes
    const info: bytes
    var i: nat
    var cache: bytes
    ghost const size: nat
    /** The number of rounds so far, and everything the caller has been given. */
    ghost var rounds: nat
    ghost var given: bytes

    ghost predicate Valid()
      reads this
    {
      && HashSize(hash, size) && i == (rounds + 1) % COUNTERS
      && given + cache == Stream(hash, z, info, rounds)
    }

    /** Joins the five parts of the info string in one buffer. */
    constructor (h: bytes -> bytes, ghost n: nat, secret: bytes,
                 algID: bytes, ptyUInfo: bytes, ptyVInfo: bytes, supPubInfo: bytes, supPrivInfo: bytes)
      requires HashSize(h, n)
      ensures hash == h && z == secret && info == algID + ptyUInfo + ptyVInfo + supPubInfo + supPrivInfo
      ensures Valid() && given == []
    {
      hash, z, size := h, secret, n;
      var buffer := new byte[|algID| + |ptyUInfo| + |ptyVInfo| + |supPubInfo| + |supPrivInfo|](i => 0);
      var k := CopyNext(buffer, 0, algID);
      assert buffer[..k] == algID;
      k := CopyNext(buffer, k, ptyUInfo);
      k := CopyNext(buffer, k, ptyVInfo);
      k := CopyNext(buffer, k, supPubInfo);
      k := CopyNext(buffer, k, supPrivInfo);
      assert buffer[..k] == buffer[..];
      info := buffer[..];
      i, cache := 1, [];
      rounds, given := 0, [];
    }

    /** Fills `out` with the next bytes of the stream: none is skipped and none comes twice. */
    method Read(out: array<byte>) returns (copied: nat)
      requires Valid()
      modifies this, out
      ensures Valid() && copied == out.Length && given == old(given) + out[..]
    {
      hide Stream, HashSize;
      copied := if out.Length < |cache| then out.Length else |cache|;
      Deliver(out, 0, cache, copied);
      while copied < out.Length
        invariant copied <= out.Length && Valid() && (copied < out.Length ==> cache == [])
        invariant given == old(given) + out[..copied]
        decreases out.Length - copied
      {
        ghost var before := out[..copied];
        NextRound();
        var chunk := if out.Length - copied < |cache| then out.Length - copied else |cache|;
        Deliver(out, copied, cache, chunk);
        Assoc(old(given), before, out[copied..copied + chunk]);
        copied := copied + chunk;
      }
      assert out[..copied] == out[..];
    }

    /** Hashes the counter, the secret and the info string. */
    method NextRound()
      requires Valid() && cache == []
      modifies this`i, this`cache, this`rounds
      ensures Valid() && |cache| == size > 0
    {
      CounterWraps(rounds + 1);
      cache := Round(hash, z, info, i);
      rounds := rounds + 1;
      i := (i + 1) % COUNTERS;
      NextCounter(rounds);
      assert given + [] == given;
    }

    /** Hands the first `n` bytes of `block` to the caller and keeps the rest in the cache. */
    method Deliver(out: array<byte>, at: nat, block: bytes, n: nat)
      requires Valid() && cache == block && n <= |block| && at + n <= out.Length
      modifies this`cache, this`given, out
      ensures Valid() && cache == block[n..] && out[at..at + n] == block[..n]
      ensures out[..at + n] == old(out[..at]) + block[..n] && given == old(given) + block[..n]
    {
      var _ := CopyNext(out, at, block[..n]);
      given := given + block[..n];
      cache := block[n..];
      Rejoin(block, n);
      Assoc(old(given), block[..n], block[n..]);
    }
  }

  lemma NextCounter(k: nat)
    ensures (k % COUNTERS + 1) % COUNTERS == (k + 1) % COUNTERS
  {}

  /** One key derivation per size, all from one reader: together they are a prefix of the stream. */
  method ReadAll(hash: bytes -> bytes, ghost h: nat, z: bytes, info: bytes, sizes: seq<nat>) returns (outs: seq<bytes>)
    requires HashSize(hash, h)
    ensures |outs| == |sizes| && forall k | 0 <= k < |sizes| :: |outs[k]| == sizes[k]
    ensures exists m :: Flatten(outs) <= Stream(hash, z, info, m)
  {
    var kdf := new ConcatKdf(hash, h, z, info, [], [], [], []);
    assert kdf.info == info;
    outs := [];
    while |outs| < |sizes|
      invariant |outs| <= |sizes| && forall k | 0 <= k < |outs| :: |outs[k]| == sizes[k]
      invariant fresh(kdf) && kdf.Valid() && kdf.given == Flatten(outs)
    {
      var out := new byte[sizes[|outs|]](i => 0);
      var _ := kdf.Read(out);
      FlattenAppend(outs, [out[..]]);
      assert Flatten([out[..]]) == out[..] + Flatten([]) == out[..];
      outs := outs + [out[..]];
    }
    assert Flatten(outs) <= Stream(hash, z, info, kdf.rounds);
  }

  // The info string of ECDH-ES.

  const MAX_SIZE: nat := 0x1_0000

  method LengthPrefixed(data: bytes) returns (out: bytes)
    ensures out == Prefixed(data)
    ensures |out| == 4 + |data| && Number(out[..4]) == |data| % COUNTERS && out[4..] == data
  {
    FourBytes();
    NumberBigEndian(|data|, 4);
    var o := new byte[|data| + 4](i => 0);
    var k := CopyNext(o, 0, BigEndian(|data|, 4));
    k := CopyNext(o, k, data);
    assert o[..k] == o[..];
    return o[..];
  }

  /** A field: its length in four bytes, then the field. */
  function Prefixed(data: bytes): bytes {
    BigEndian(|data|, 4) + data
  }

  function InfoString(alg: bytes, apu: bytes, apv: bytes, size: nat): bytes {
    Prefixed(alg) + (Prefixed(apu) + (Prefixed(apv) + BigEndian(size * 8, 4)))
  }

  /** A field in front of other bytes is told apart from every other one. */
  lemma PrefixedInjective(a: bytes, x: bytes, b: bytes, y: bytes)
    requires |a| < COUNTERS && |b| < COUNTERS && Prefixed(a) + x == Prefixed(b) + y
    ensures a == b && x == y
  {
    var s := Prefixed(a) + x;
    assert s == Prefixed(b) + y;
    assert s[..4] == BigEndian(|a|, 4) && s[..4] == BigEndian(|b|, 4);
    FourBytes();
    BigEndianInjective(|a|, |b|, 4);
    assert s[4..4 + |a|] == a && s[4..4 + |b|] == b;
    assert s[4 + |a|..] == x && s[4 + |b|..] == y;
  }

  /** Different algorithm names, party infos or output sizes never give the same info string. */
  lemma InfoInjective(alg: bytes, apu: bytes, apv: bytes, size: nat, alg': bytes, apu': bytes, apv': bytes, size': nat)
    requires |alg| < COUNTERS && |apu| < COUNTERS && |apv| < COUNTERS && size <= MAX_SIZE
    requires |alg'| < COUNTERS && |apu'| < COUNTERS && |apv'| < COUNTERS && size' <= MAX_SIZE
    requires InfoString(alg, apu, apv, size) == InfoString(alg', apu', apv', size')
    ensures alg == alg' && apu == apu' && apv == apv' && size == size'
  {
    hide BigEndian, Prefixed;
    var p, p' := Prefixed(apv) + BigEndian(size * 8, 4), Prefixed(apv') + BigEndian(size' * 8, 4);
    PrefixedInjective(alg, Prefixed(apu) + p, alg', Prefixed(apu') + p');
    PrefixedInjective(apu, p, apu', p');
    PrefixedInjective(apv, BigEndian(size * 8, 4), apv', BigEndian(size' * 8, 4));
    FourBytes();
    BigEndianInjective(size * 8, size' * 8, 4);
  }

  /** The shared secret as a coordinate of `octets` bytes. */
  function Padded(z: bytes, octets: nat): bytes {
    if |z| < octets then seq(octets - |z|, _ => 0) + z else z
  }

  /** The padded secret is the big-endian form of the coordinate, in exactly `octets` bytes. */
  lemma PaddedIs(z: bytes, octets: nat)
    requires |z| <= octets
    ensures Padded(z, octets) == BigEndian(Number(z), octets)
  {
    var p := seq(octets - |z|, _ => 0) + z;
    LeadingZeros(octets - |z|, z);
    BigEndianNumber(p);
    if |z| == octets { assert p == z; }
  }

  /** Byte `j` of a derived key, from the inputs themselves. */
  ghost predicate DerivedByte(hash: bytes -> bytes, h: nat, alg: bytes, apu: bytes, apv: bytes, x: nat, octets: nat,
                              size: nat, j: nat, b: byte)
    requires HashSize(hash, h)
  {
    var otherInfo := Prefixed(alg) + Prefixed(apu) + Prefixed(apv) + BigEndian(size * 8, 4);
    b == hash(BigEndian(j / h + 1, 4) + BigEndian(x, octets) + otherInfo)[j % h]
  }

  lemma DerivedBytes(hash: bytes -> bytes, h: nat, alg: bytes, apu: bytes, apv: bytes, z: bytes, octets: nat,
                     size: nat, m: nat, key: bytes)
    requires HashSize(hash, h) && |z| <= octets
    requires key <= Stream(hash, Padded(z, octets), InfoString(alg, apu, apv, size), m)
    ensures forall j | 0 <= j < |key| :: DerivedByte(hash, h, alg, apu, apv, Number(z), octets, size, j, key[j])
  {
    hide Stream, HashSize, BigEndian, Prefixed, Padded, Number;
    PaddedIs(z, octets);
    InfoJoined(alg, apu, apv, size);
    var p, info := Padded(z, octets), InfoString(alg, apu, apv, size);
    var otherInfo := Prefixed(alg) + Prefixed(apu) + Prefixed(apv) + BigEndian(size * 8, 4);
    assert otherInfo + [] == otherInfo;
    forall j | 0 <= j < |key| ensures DerivedByte(hash, h, alg, apu, apv, Number(z), octets, size, j, key[j]) {
      StreamAt(hash, p, info, m, h, j);
    }
  }

  /**
   Derives a key from the shared secret `z`: the first `size` bytes of the stream for the info string.
   None stands for the panic on a size that is too large.
   */
  method DeriveKey(hash: bytes -> bytes, ghost h: nat, alg: bytes, apu: bytes, apv: bytes,
                   z: bytes, octets: nat, size: nat)
    returns (key: Option<bytes>)
    requires HashSize(hash, h) && |z| <= octets
    ensures key.Some? <==> size <= MAX_SIZE
    ensures key.Some? ==>
              |key.value| == size &&
              exists m :: key.value <= Stream(hash, Padded(z, octets), InfoString(alg, apu, apv, size), m)
    ensures key.Some? ==>
              forall j | 0 <= j < size ::
                DerivedByte(hash, h, alg, apu, apv, Number(z), octets, size, j, key.value[j])
  {
    hide Stream, InfoString, Prefixed, BigEndian, Padded, HashSize, DerivedByte;
    if size > MAX_SIZE {
      return None;
    }
    var algID := LengthPrefixed(alg);
    var ptyUInfo := LengthPrefixed(apu);
    var ptyVInfo := LengthPrefixed(apv);
    var supPubInfo := BigEndian(size * 8, 4);
    var kdf := new ConcatKdf(hash, h, Padded(z, octets), algID, ptyUInfo, ptyVInfo, supPubInfo, []);
    InfoJoined(alg, apu, apv, size);
    var out := new byte[size](i => 0);
    var _ := kdf.Read(out);
    assert out[..] <= Stream(hash, Padded(z, octets), kdf.info, kdf.rounds);
    DerivedBytes(hash, h, alg, apu, apv, z, octets, size, kdf.rounds, out[..]);
    return Some(out[..]);
  }

  lemma InfoJoined(alg: bytes, apu: bytes, apv: bytes, size: nat)
    ensures Prefixed(alg) + Prefixed(apu) + Prefixed(apv) + BigEndian(size * 8, 4) + []
            == InfoString(alg, apu, apv, size)
  {
    var a, b, c, d := Prefixed(alg), Prefixed(apu), Prefixed(apv), BigEndian(size * 8, 4);
    assert a + b + c + d + [] == a + (b + (c + d));
  }
}

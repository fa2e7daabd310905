/**
 The hash and HMAC primitives, and KDFa (TPM 2.0 Library, Part 1, section
 11.4.10.2) built on them.

 The primitives are parameters: any pair of functions whose outputs have the
 digest size of the algorithm.  Every statement below holds for all of them.
 */
module CryptoCore {
  import opened Basics
  import opened Bits
  import opened Constants
  import opened Marshal

  datatype Primitives = Primitives(hash: (u16, bytes) -> bytes, hmac: (u16, bytes, bytes) -> bytes)

  predicate IsHash(alg: u16) {
    DigestSize(alg).Success?
  }

  function SizeOf(alg: u16): (n: nat)
    ensures IsHash(alg) ==> 20 <= n <= 64
  {
    if IsHash(alg) then DigestSize(alg).value else 0
  }

  ghost predicate DigestSized(p: Primitives) {
    && (forall alg, m :: |p.hash(alg, m)| == SizeOf(alg))
    && (forall alg, k, m :: |p.hmac(alg, k, m)| == SizeOf(alg))
  }

  function Zeros(n: nat): bytes {
    seq(n, i => 0)
  }

  type Crypto = p: Primitives | DigestSized(p)
    witness Primitives((alg, m) => Zeros(SizeOf(alg)), (alg, k, m) => Zeros(SizeOf(alg)))

  function Flatten(parts: seq<bytes>): bytes {
    if parts == [] then [] else Flatten(parts[..|parts| - 1]) + parts[|parts| - 1]
  }

  function Hash(c: Crypto, alg: u16, m: bytes): Result<bytes> {
    if IsHash(alg) then Success(c.hash(alg, m)) else Failure(Usage)
  }

  function Hmac(c: Crypto, alg: u16, key: bytes, m: bytes): Result<bytes> {
    if IsHash(alg) then Success(c.hmac(alg, key, m)) else Failure(Usage)
  }

  /** Feeds the parts to the hasher one by one. */
  method HashParts(c: Crypto, alg: u16, parts: seq<bytes>) returns (r: Result<bytes>)
    ensures r == Hash(c, alg, Flatten(parts))
  {
    var absorbed := Absorb(parts);
    return Hash(c, alg, absorbed);
  }

  method HmacParts(c: Crypto, alg: u16, key: bytes, parts: seq<bytes>) returns (r: Result<bytes>)
    ensures r == Hmac(c, alg, key, Flatten(parts))
  {
    var absorbed := Absorb(parts);
    return Hmac(c, alg, key, absorbed);
  }

  method Absorb(parts: seq<bytes>) returns (absorbed: bytes)
    ensures absorbed == Flatten(parts)
  {
    absorbed := [];
    for i := 0 to |parts|
      invariant absorbed == Flatten(parts[..i])
    {
      assert parts[..i + 1][..i] == parts[..i];
      absorbed := absorbed + parts[i];
    }
    assert parts[..|parts|] == parts;
  }

  // ---------- KDFa ----------

  datatype KdfInput = KdfInput(key: bytes, usage: bytes, contextU: bytes, contextV: bytes)

  /** What block i authenticates. */
  function BlockInput(k: KdfInput, bits: u32, i: u32): bytes {
    U32Bytes(i) + k.usage + [0] + k.contextU + k.contextV + U32Bytes(bits)
  }

  function Block(c: Crypto, alg: u16, k: KdfInput, bits: u32, i: u32): bytes {
    c.hmac(alg, k.key, BlockInput(k, bits, i))
  }

  /** K_1 || K_2 || ... || K_n. */
  function Stream(c: Crypto, alg: u16, k: KdfInput, bits: u32, n: u32): bytes {
    if n == 0 then [] else Stream(c, alg, k, bits, n - 1) + Block(c, alg, k, bits, n)
  }

  function BytesFor(bits: u32): nat {
    (bits + 7) / 8
  }

  /** The number of blocks that cover the output. */
  function BlocksFor(alg: u16, bits: u32): u32
    requires IsHash(alg)
  {
    (BytesFor(bits) + SizeOf(alg) - 1) / SizeOf(alg)
  }

  /** Clears the surplus high bits of the leading octet. */
  function MaskLeading(out: bytes, rem: nat): (r: bytes)
    requires rem < 8
    ensures |r| == |out|
  {
    if rem == 0 || out == [] then out else [MaskByte(out[0], rem)] + out[1..]
  }

  function MaskByte(b: byte, rem: nat): byte
    requires 0 < rem < 8
  {
    MaskIsReduction(b, rem);
    And(b, 0xFF / Pow2(8 - rem))
  }

  lemma MaskIsReduction(b: byte, rem: nat)
    requires 0 < rem < 8
    ensures And(b, 0xFF / Pow2(8 - rem)) == b % Pow2(rem) < 0x100
  {
    SmallPowers();
    assert 0xFF / Pow2(8 - rem) == Pow2(rem) - 1;
    AndLowMask(b, rem);
  }

  lemma SmallPowers()
    ensures Pow2(0) == 1 && Pow2(1) == 2 && Pow2(2) == 4 && Pow2(3) == 8 && Pow2(4) == 16
    ensures Pow2(5) == 32 && Pow2(6) == 64 && Pow2(7) == 128 && Pow2(8) == 256
  {
    assert Pow2(3) == 8;
    assert Pow2(5) == 32;
    assert Pow2(7) == 128;
  }

  /** The output before masking: the leading bytes of the block stream. */
  function Truncated(c: Crypto, alg: u16, k: KdfInput, bits: u32): (t: bytes)
    requires IsHash(alg)
    ensures |t| == BytesFor(bits)
  {
    StreamLength(c, alg, k, bits, BlocksFor(alg, bits));
    BlocksCover(alg, bits);
    Stream(c, alg, k, bits, BlocksFor(alg, bits))[..BytesFor(bits)]
  }

  /** What KDFa computes.  With no bits asked for no block is needed, so even a
      non-hash algorithm yields the empty key. */
  function KdfaValue(c: Crypto, alg: u16, k: KdfInput, bits: u32): Result<bytes> {
    if bits == 0 then Success([])
    else if !IsHash(alg) then Failure(Usage)
    else Success(MaskLeading(Truncated(c, alg, k, bits), bits % 8))
  }

  lemma OneMore(n: nat, size: nat)
    requires n > 0
    ensures n * size == (n - 1) * size + size
  {
    MulDistributes(n - 1, 1, size);
  }

  lemma {:induction false} StreamLength(c: Crypto, alg: u16, k: KdfInput, bits: u32, n: u32)
    ensures |Stream(c, alg, k, bits, n)| == n * SizeOf(alg)
  {
    if n > 0 {
      StreamLength(c, alg, k, bits, n - 1);
      OneMore(n, SizeOf(alg));
    }
  }

  lemma BlocksCover(alg: u16, bits: u32)
    requires IsHash(alg)
    ensures BytesFor(bits) <= BlocksFor(alg, bits) * SizeOf(alg) < BytesFor(bits) + SizeOf(alg)
  {
    CeilingCovers(BytesFor(bits), SizeOf(alg));
  }

  lemma CeilingCovers(n: nat, d: nat)
    requires d > 0
    ensures n <= (n + d - 1) / d * d < n + d
  {
    var q, r := (n + d - 1) / d, (n + d - 1) % d;
    assert n + d - 1 == q * d + r;
  }

  /** After i blocks of the given size the output has length len, and the last
      block was still needed for a length of total. */
  ghost predicate Covering(i: nat, size: nat, total: nat, len: nat) {
    len == i * size && (i > 0 ==> (i - 1) * size < total && size >= 20)
  }

  lemma CoveringStep(i: nat, size: nat, total: nat, len: nat)
    requires Covering(i, size, total, len) && len < total && size >= 20
    ensures Covering(i + 1, size, total, len + size)
    ensures 20 * i < total
  {
    MulDistributes(i, 1, size);
    MulMonotone(20, size, i);
  }

  lemma CoveringDone(i: nat, size: nat, total: nat, len: nat)
    requires Covering(i, size, total, len) && 0 < total <= len
    ensures i == (total + size - 1) / size
  {
    assert i > 0 by {
      if i == 0 {
        assert false;
      }
    }
    MulDistributes(i, 1, size);
    DivideExactly(total + size - 1, size, i, total + size - 1 - i * size);
  }

  /** The counter-mode loop, with truncation and the in-place mask. */
  method Kdfa(c: Crypto, alg: u16, key: bytes, usage: bytes, contextU: bytes, contextV: bytes, bits: u32)
    returns (r: Result<bytes>)
    ensures r == KdfaValue(c, alg, KdfInput(key, usage, contextU, contextV), bits)
  {
    ghost var k := KdfInput(key, usage, contextU, contextV);
    var outLen := BytesFor(bits);
    var out: bytes := [];
    var counter: u32 := 0;
    while |out| < outLen
      invariant counter > 0 ==> IsHash(alg)
      invariant out == Stream(c, alg, k, bits, counter)
      invariant Covering(counter, SizeOf(alg), outLen, |out|)
      decreases outLen - |out|
    {
      if IsHash(alg) {
        CoveringStep(counter, SizeOf(alg), outLen, |out|);
      }
      FlattenBlock(k, bits, counter + 1);
      var block :- HmacParts(c, alg, key,
        [U32Bytes(counter + 1), usage, [0], contextU, contextV, U32Bytes(bits)]);
      counter := counter + 1;
      out := out + block;
    }
    if bits != 0 {
      CoveringDone(counter, SizeOf(alg), outLen, |out|);
    }
    out := out[..outLen];
    var rem := bits % 8;
    if rem != 0 && out != [] {
      out := out[0 := MaskByte(out[0], rem)];
      assert out[1..] == Stream(c, alg, k, bits, counter)[..outLen][1..];
      assert out == [out[0]] + out[1..];
    }
    return Success(out);
  }

  lemma FlattenSnoc(parts: seq<bytes>, p: bytes)
    ensures Flatten(parts + [p]) == Flatten(parts) + p
  {
    assert (parts + [p])[..|parts|] == parts;
  }

  lemma FlattenBlock(k: KdfInput, bits: u32, i: u32)
    ensures Flatten([U32Bytes(i), k.usage, [0], k.contextU, k.contextV, U32Bytes(bits)])
         == BlockInput(k, bits, i)
  {
    var a, b, d, e, f, g := U32Bytes(i), k.usage, [0], k.contextU, k.contextV, U32Bytes(bits);
    Flatten6(a, b, d, e, f, g);
  }

  lemma Flatten6(a: bytes, b: bytes, d: bytes, e: bytes, f: bytes, g: bytes)
    ensures Flatten([a]) == a
    ensures Flatten([a, b]) == a + b
    ensures Flatten([a, b, d]) == a + b + d
    ensures Flatten([a, b, d, e]) == a + b + d + e
    ensures Flatten([a, b, d, e, f, g]) == a + b + d + e + f + g
  {
    FlattenSnoc([], a);
    FlattenSnoc([a], b);
    FlattenSnoc([a, b], d);
    FlattenSnoc([a, b, d], e);
    FlattenSnoc([a, b, d, e], f);
    FlattenSnoc([a, b, d, e, f], g);
    assert [] + [a] == [a];
    assert [a] + [b] == [a, b];
    assert [a, b] + [d] == [a, b, d];
    assert [a, b, d] + [e] == [a, b, d, e];
    assert [a, b, d, e] + [f] == [a, b, d, e, f];
    assert [a, b, d, e, f] + [g] == [a, b, d, e, f, g];
  }

  // ---------- what the output means ----------

  /** Producing more blocks than needed does not change the leading bytes. */
  lemma {:induction false} StreamPrefix(c: Crypto, alg: u16, k: KdfInput, bits: u32, m: u32, n: u32)
    requires m <= n
    ensures Stream(c, alg, k, bits, m) <= Stream(c, alg, k, bits, n)
    decreases n
  {
    if m < n {
      StreamPrefix(c, alg, k, bits, m, n - 1);
    }
  }

  lemma SliceOfPrefix(a: bytes, b: bytes, from: nat, end: nat)
    requires from <= end <= |a|
    ensures (a + b)[from..end] == a[from..end]
  {
  }

  lemma SliceOfSuffix(a: bytes, b: bytes)
    ensures (a + b)[|a|..|a| + |b|] == b
  {
  }

  lemma {:induction false} StreamHolds(c: Crypto, alg: u16, k: KdfInput, bits: u32, n: u32, i: u32, at: nat)
    requires i < n && at == |Stream(c, alg, k, bits, i)|
    ensures at + SizeOf(alg) <= |Stream(c, alg, k, bits, n)|
    ensures Stream(c, alg, k, bits, n)[at..at + SizeOf(alg)] == Block(c, alg, k, bits, i + 1)
    decreases n
  {
    var init, last := Stream(c, alg, k, bits, n - 1), Block(c, alg, k, bits, n);
    if i < n - 1 {
      StreamHolds(c, alg, k, bits, n - 1, i, at);
      SliceOfPrefix(init, last, at, at + SizeOf(alg));
    } else {
      SliceOfSuffix(init, last);
    }
  }

  /** Block i + 1 of the stream is the HMAC, under the key, of its number, the
      label with a zero octet, the contexts and the length in bits, each number
      big-endian. */
  lemma StreamBlock(c: Crypto, alg: u16, k: KdfInput, bits: u32, n: u32, i: u32)
    requires i < n
    ensures i * SizeOf(alg) + SizeOf(alg) <= |Stream(c, alg, k, bits, n)|
    ensures Stream(c, alg, k, bits, n)[i * SizeOf(alg)..i * SizeOf(alg) + SizeOf(alg)]
         == c.hmac(alg, k.key, U32Bytes(i + 1) + k.usage + [0] + k.contextU + k.contextV + U32Bytes(bits))
  {
    StreamLength(c, alg, k, bits, i);
    StreamHolds(c, alg, k, bits, n, i, i * SizeOf(alg));
  }

  lemma DigitsOf(j: nat, size: nat, n: nat)
    requires 0 < size && j < n * size
    ensures j / size < n && j == j / size * size + j % size
  {
    if j / size >= n {
      MulMonotone(n, j / size, size);
    }
  }

  lemma TruncatedOctet(c: Crypto, alg: u16, k: KdfInput, bits: u32, q: u32, at: nat, r: nat)
    requires IsHash(alg) && q < BlocksFor(alg, bits) && at == |Stream(c, alg, k, bits, q)|
    requires r < SizeOf(alg) && at + r < BytesFor(bits)
    ensures Truncated(c, alg, k, bits)[at + r] == Block(c, alg, k, bits, q + 1)[r]
  {
    var stream := Stream(c, alg, k, bits, BlocksFor(alg, bits));
    StreamHolds(c, alg, k, bits, BlocksFor(alg, bits), q, at);
    assert stream[at + r] == stream[at..at + SizeOf(alg)][r];
  }

  lemma MaskedOctet(t: bytes, rem: nat, j: nat)
    requires rem < 8 && j < |t|
    ensures MaskLeading(t, rem)[j] == if j == 0 && rem != 0 then t[j] % Pow2(rem) else t[j]
  {
    if j == 0 && rem != 0 {
      MaskIsReduction(t[0], rem);
    }
  }

  lemma WholeDigest(size: nat)
    requires size > 0
    ensures (size * 8 + 7) / 8 == size && size * 8 % 8 == 0 && (size + size - 1) / size == 1
  {
    DivideExactly(size + size - 1, size, 1, size - 1);
  }

  /** As many bits as the digest has come from one block, whole. */
  lemma KdfaOfOneBlock(c: Crypto, alg: u16, k: KdfInput)
    requires IsHash(alg)
    ensures var bits := SizeOf(alg) * 8;
      KdfaValue(c, alg, k, bits)
      == Success(c.hmac(alg, k.key, U32Bytes(1) + k.usage + [0] + k.contextU + k.contextV + U32Bytes(bits)))
  {
    var bits := SizeOf(alg) * 8;
    WholeDigest(SizeOf(alg));
    var block := Block(c, alg, k, bits, 1);
    assert Stream(c, alg, k, bits, 1) == Stream(c, alg, k, bits, 0) + block == block;
    assert block[..SizeOf(alg)] == block;
  }

  /** Every octet that KDFa puts out: the j-th is that of the HMAC of block
      j / size + 1, and the surplus high bits of the first are cleared. */
  lemma KdfaOctets(c: Crypto, alg: u16, k: KdfInput, bits: u32, j: nat)
    requires IsHash(alg) && j < (bits + 7) / 8
    ensures var r := KdfaValue(c, alg, k, bits);
      r.Success? && |r.value| == (bits + 7) / 8
    ensures var block := c.hmac(alg, k.key, U32Bytes(j / SizeOf(alg) + 1) + k.usage + [0] + k.contextU + k.contextV
                                            + U32Bytes(bits));
      var octet := block[j % SizeOf(alg)];
      KdfaValue(c, alg, k, bits).value[j] == if j == 0 && bits % 8 != 0 then octet % Pow2(bits % 8) else octet
  {
    var q, r := j / SizeOf(alg), j % SizeOf(alg);
    BlocksCover(alg, bits);
    DigitsOf(j, SizeOf(alg), BlocksFor(alg, bits));
    StreamLength(c, alg, k, bits, q);
    TruncatedOctet(c, alg, k, bits, q, q * SizeOf(alg), r);
    MaskedOctet(Truncated(c, alg, k, bits), bits % 8, j);
  }

  lemma {:induction false} BigEndianHead(b: bytes)
    requires b != []
    ensures BigEndian(b) == b[0] * Pow2(8 * (|b| - 1)) + BigEndian(b[1..])
    ensures BigEndian(b[1..]) < Pow2(8 * (|b| - 1))
    decreases |b|
  {
    SmallPowers();
    if |b| == 1 {
      assert BigEndian(b) == BigEndian([]) * 0x100 + b[0];
      assert b[1..] == [];
    } else {
      var init, last := b[..|b| - 1], b[|b| - 1];
      BigEndianHead(init);
      assert b[1..][..|b| - 2] == init[1..];
      Pow2Add(8, 8 * (|b| - 2));
      assert 8 + 8 * (|b| - 2) == 8 * (|b| - 1);
      var w := Pow2(8 * (|b| - 2));
      assert (b[0] * w) * 0x100 == b[0] * (0x100 * w);
    }
  }

  lemma MaskedKdfa(c: Crypto, alg: u16, k: KdfInput, bits: u32)
    requires IsHash(alg)
    ensures KdfaValue(c, alg, k, bits) == Success(MaskLeading(Truncated(c, alg, k, bits), bits % 8))
  {
  }

  lemma BitsSplit(bits: u32)
    requires bits > 0
    ensures BytesFor(bits) > 0
    ensures bits == if bits % 8 == 0 then 8 * BytesFor(bits) else bits % 8 + 8 * (BytesFor(bits) - 1)
  {
  }

  lemma EnoughBlocks(c: Crypto, alg: u16, k: KdfInput, bits: u32, n: u32)
    requires IsHash(alg) && BlocksFor(alg, bits) <= n
    ensures |Stream(c, alg, k, bits, n)| >= BytesFor(bits)
    ensures Stream(c, alg, k, bits, n)[..BytesFor(bits)] == Truncated(c, alg, k, bits)
  {
    StreamLength(c, alg, k, bits, BlocksFor(alg, bits));
    BlocksCover(alg, bits);
    StreamPrefix(c, alg, k, bits, BlocksFor(alg, bits), n);
  }

  /** KDFa reduces the leading ceil(bits/8) bytes of K_1 || K_2 || ... modulo
      2^bits, and keeps them at full length. */
  lemma KdfaIsReduction(c: Crypto, alg: u16, k: KdfInput, bits: u32, n: u32)
    requires IsHash(alg) && BlocksFor(alg, bits) <= n
    ensures KdfaValue(c, alg, k, bits).Success?
    ensures |KdfaValue(c, alg, k, bits).value| == BytesFor(bits) <= |Stream(c, alg, k, bits, n)|
    ensures BigEndian(KdfaValue(c, alg, k, bits).value)
         == BigEndian(Stream(c, alg, k, bits, n)[..BytesFor(bits)]) % Pow2(bits)
  {
    MaskedKdfa(c, alg, k, bits);
    EnoughBlocks(c, alg, k, bits, n);
    ReducedValue(Truncated(c, alg, k, bits), bits);
  }

  lemma ReducedValue(t: bytes, bits: u32)
    requires |t| == BytesFor(bits)
    ensures BigEndian(MaskLeading(t, bits % 8)) == BigEndian(t) % Pow2(bits)
  {
    if bits > 0 {
      BitsSplit(bits);
      MaskReduces(t, bits % 8, bits);
    }
  }

  /** Leaving the leading octet alone, or keeping rem bits of it. */
  lemma MaskReduces(t: bytes, rem: nat, bits: nat)
    requires t != [] && rem < 8
    requires bits == if rem == 0 then 8 * |t| else rem + 8 * (|t| - 1)
    ensures BigEndian(MaskLeading(t, rem)) == BigEndian(t) % Pow2(bits)
  {
    if rem == 0 {
      WholeBytes(t);
    } else {
      MaskedTop(t, rem);
    }
  }

  lemma WholeBytes(t: bytes)
    ensures BigEndian(t) % Pow2(8 * |t|) == BigEndian(t)
  {
    var padded := [0] + t;
    assert padded[1..] == t;
    BigEndianHead(padded);
    SmallMod(BigEndian(t), Pow2(8 * |t|));
  }

  lemma MaskedTop(t: bytes, rem: nat)
    requires t != [] && 0 < rem < 8
    ensures BigEndian(MaskLeading(t, rem)) == BigEndian(t) % Pow2(rem + 8 * (|t| - 1))
  {
    var low := 8 * (|t| - 1);
    BigEndianHead(t);
    MaskedValue(t, rem);
    Pow2Add(rem, low);
    TopDigit(t[0], Pow2(rem), Pow2(low), BigEndian(t[1..]));
  }

  lemma MaskedValue(t: bytes, rem: nat)
    requires t != [] && 0 < rem < 8
    ensures BigEndian(MaskLeading(t, rem))
         == t[0] % Pow2(rem) * Pow2(8 * (|t| - 1)) + BigEndian(t[1..])
  {
    var m := MaskLeading(t, rem);
    assert m[1..] == t[1..];
    MaskIsReduction(t[0], rem);
    BigEndianHead(m);
  }

  /** Reducing modulo d*w touches only the digit above w. */
  lemma TopDigit(top: nat, d: nat, w: nat, low: nat)
    requires d > 0 && low < w
    ensures (top * w + low) % (d * w) == top % d * w + low
  {
    var q, r := top / d, top % d;
    assert top == q * d + r;
    MulDistributes(q * d, r, w);
    MulAssociates(q, d, w);
    MulDistributes(d, r, w);
    MulMonotone(1, d - r, w);
    DivideExactly(top * w + low, d * w, q, r * w + low);
  }
}

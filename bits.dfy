/** The bit codec of the passphrase tool: bytes to bits and back, most
    significant bit first, and a group of bits read as a big-endian
    unsigned integer in Go's `int`, 64 bits wide on 64-bit targets. */
module Bits {

  /** Bit `j` of byte `x`, counting from the most significant bit (j = 0)
      to the least significant one (j = 7). */
  function BitOf(x: bv8, j: nat): bool
    requires j < 8
  {
    (x >> (7 - j)) & 1 == 1
  }

  /** The byte whose only set bit is bit `j`, counting from the most
      significant: Go's `1 << (7 - j)`. */
  function Mask(j: nat): bv8
    requires j < 8
  {
    1 << (7 - j)
  }

  /** Bit `p` of a bit sequence, reading every position past its end as 0. */
  function Get(bits: seq<bool>, p: int): bool
  {
    0 <= p < |bits| && bits[p]
  }

  /** The eight bits of one byte, most significant first. */
  function ByteBits(x: bv8): seq<bool>
  {
    seq(8, j requires 0 <= j < 8 => BitOf(x, j))
  }

  /** The bit expansion of a byte sequence: bit `p` of the result is bit
      `p % 8` of byte `p / 8`, so the bits of each byte appear in order,
      most significant first. */
  function ToBits(bytes: seq<bv8>): (bits: seq<bool>)
    ensures |bits| == 8 * |bytes|
    ensures forall p | 0 <= p < |bits| :: bits[p] == BitOf(bytes[p / 8], p % 8)
  {
    if |bytes| == 0 then []
    else
      var head, tail := ByteBits(bytes[0]), ToBits(bytes[1..]);
      assert forall p | 8 <= p < 8 * |bytes| :: (p - 8) / 8 == p / 8 - 1 && (p - 8) % 8 == p % 8;
      head + tail
  }

  /** The byte whose first `m` bits, most significant first, are the bits of
      `bits` at `start`, `start + 1`, ..., `start + m - 1` (0 past the end),
      and whose other bits are 0. */
  function PackPrefix(bits: seq<bool>, start: int, m: nat): bv8
    requires m <= 8
  {
    if m == 0 then 0
    else PackPrefix(bits, start, m - 1) | (if Get(bits, start + m - 1) then Mask(m - 1) else 0)
  }

  /** Byte `k` of the packed form of `bits`: bits 8k .. 8k + 7, zero-padded. */
  function ByteAt(bits: seq<bool>, k: nat): bv8
  {
    PackPrefix(bits, 8 * k, 8)
  }

  /** The packing of a bit sequence into bytes, most significant bit first,
      with the unused low bits of the last byte zero: ceil(|bits| / 8) bytes,
      bit `p` of the bits is bit `p % 8` of byte `p / 8`, and every padding
      bit is 0. */
  function Pack(bits: seq<bool>): (bytes: seq<bv8>)
    ensures |bytes| == (|bits| + 7) / 8
    ensures forall p | 0 <= p < |bits| :: BitOf(bytes[p / 8], p % 8) == bits[p]
    ensures forall p | |bits| <= p < 8 * |bytes| :: !BitOf(bytes[p / 8], p % 8)
  {
    var bytes := seq((|bits| + 7) / 8, k requires 0 <= k => ByteAt(bits, k));
    AllByteBits(bits, |bytes|);
    bytes
  }

  lemma BitOfOr(x: bv8, y: bv8, j: nat)
    requires j < 8
    ensures BitOf(x | y, j) == (BitOf(x, j) || BitOf(y, j))
  {
  }

  lemma BitOfMask(m: nat, j: nat)
    requires m < 8 && j < 8
    ensures BitOf(Mask(m), j) == (m == j)
  {
  }

  /** Two bytes are equal when all eight of their bits are. */
  lemma ByteExt(x: bv8, y: bv8)
    requires forall j | 0 <= j < 8 :: BitOf(x, j) == BitOf(y, j)
    ensures x == y
  {
    assert BitOf(x, 0) == BitOf(y, 0) && BitOf(x, 1) == BitOf(y, 1);
    assert BitOf(x, 2) == BitOf(y, 2) && BitOf(x, 3) == BitOf(y, 3);
    assert BitOf(x, 4) == BitOf(y, 4) && BitOf(x, 5) == BitOf(y, 5);
    assert BitOf(x, 6) == BitOf(y, 6) && BitOf(x, 7) == BitOf(y, 7);
  }

  lemma {:induction false} PackPrefixBit(bits: seq<bool>, start: int, m: nat, j: nat)
    requires m <= 8 && j < 8
    ensures BitOf(PackPrefix(bits, start, m), j) == (j < m && Get(bits, start + j))
  {
    if m > 0 {
      PackPrefixBit(bits, start, m - 1, j);
      var mask: bv8 := if Get(bits, start + m - 1) then Mask(m - 1) else 0;
      BitOfOr(PackPrefix(bits, start, m - 1), mask, j);
      BitOfMask(m - 1, j);
    }
  }

  /** Bit `j` of byte `k` of the packing is bit 8k + j of the bits. */
  lemma ByteAtBit(bits: seq<bool>, k: nat, j: nat)
    requires j < 8
    ensures BitOf(ByteAt(bits, k), j) == Get(bits, 8 * k + j)
  {
    PackPrefixBit(bits, 8 * k, 8, j);
  }

  lemma AllByteBits(bits: seq<bool>, n: nat)
    ensures forall p | 0 <= p < 8 * n :: BitOf(ByteAt(bits, p / 8), p % 8) == Get(bits, p)
  {
    forall p | 0 <= p < 8 * n
      ensures BitOf(ByteAt(bits, p / 8), p % 8) == Get(bits, p)
    {
      ByteAtBit(bits, p / 8, p % 8);
    }
  }

  /** Packing the bit expansion of a byte sequence gives the bytes back. */
  lemma PackToBits(bytes: seq<bv8>)
    ensures Pack(ToBits(bytes)) == bytes
  {
    var bits := ToBits(bytes);
    var packed := Pack(bits);
    forall k | 0 <= k < |bytes|
      ensures packed[k] == bytes[k]
    {
      forall j | 0 <= j < 8
        ensures BitOf(packed[k], j) == BitOf(bytes[k], j)
      {
        var p := 8 * k + j;
        assert p / 8 == k && p % 8 == j;
      }
      ByteExt(packed[k], bytes[k]);
    }
  }

  /** Expanding the packing of a bit sequence gives the bits back, followed
      by the zero bits that pad the last byte. */
  lemma ToBitsPack(bits: seq<bool>)
    ensures ToBits(Pack(bits)) == bits + seq((8 - |bits| % 8) % 8, _ => false)
  {
    var expanded := ToBits(Pack(bits));
    var padded := bits + seq((8 - |bits| % 8) % 8, _ => false);
    assert |expanded| == |padded|;
    forall p | 0 <= p < |expanded|
      ensures expanded[p] == padded[p]
    {
      if p >= |bits| {
        assert padded[p] == false;
      }
    }
  }

  /** The empty bit sequence packs to zero bytes. */
  lemma PackPrefixEmpty(start: int, m: nat)
    requires m <= 8
    ensures PackPrefix([], start, m) == 0
  {
    forall j | 0 <= j < 8
      ensures BitOf(PackPrefix([], start, m), j) == BitOf(0, j)
    {
      PackPrefixBit([], start, m, j);
    }
    ByteExt(PackPrefix([], start, m), 0);
  }

  /** Appending one bit changes at most the byte that holds it, and that one
      by setting the bit's mask when the bit is 1. */
  lemma ByteAtSnoc(bits: seq<bool>, i: nat, k: nat)
    requires i < |bits|
    ensures ByteAt(bits[..i + 1], k)
         == if k == i / 8 && bits[i] then ByteAt(bits[..i], k) | Mask(i % 8) else ByteAt(bits[..i], k)
  {
    var after := ByteAt(bits[..i + 1], k);
    var before := ByteAt(bits[..i], k);
    var expected := if k == i / 8 && bits[i] then before | Mask(i % 8) else before;
    forall j | 0 <= j < 8
      ensures BitOf(after, j) == BitOf(expected, j)
    {
      ByteAtBit(bits[..i + 1], k, j);
      ByteAtBit(bits[..i], k, j);
      if k == i / 8 && bits[i] {
        BitOfOr(before, Mask(i % 8), j);
        BitOfMask(i % 8, j);
      }
    }
    ByteExt(after, expected);
  }

  /** Go's `bytesToBits`: appends the bits of every byte, from bit 7 down to
      bit 0, to a growing slice. */
  method BytesToBits(b: seq<bv8>) returns (bits: seq<bool>)
    ensures bits == ToBits(b)
  {
    bits := [];
    for k := 0 to |b|
      invariant |bits| == 8 * k
      invariant forall p | 0 <= p < |bits| :: bits[p] == BitOf(b[p / 8], p % 8)
    {
      var x := b[k];
      var i := 7;
      while i >= 0
        invariant -1 <= i <= 7
        invariant |bits| == 8 * k + 7 - i
        invariant forall p | 0 <= p < |bits| :: bits[p] == BitOf(b[p / 8], p % 8)
      {
        bits := bits + [(x >> i) & 1 == 1];
        i := i - 1;
      }
    }
  }

  /** Go's `bitsToBytes`: allocates ceil(|bits| / 8) zero bytes and sets, for
      every 1 bit `i`, the bit `1 << (7 - i % 8)` of byte `i / 8` in place. */
  method BitsToBytes(bits: seq<bool>) returns (bytes: seq<bv8>)
    ensures bytes == Pack(bits)
  {
    var n := (|bits| + 7) / 8;
    var out := new bv8[n](_ => 0);
    forall k | 0 <= k < n
      ensures ByteAt(bits[..0], k) == 0
    {
      PackPrefixEmpty(8 * k, 8);
    }
    for i := 0 to |bits|
      invariant forall k | 0 <= k < n :: out[k] == ByteAt(bits[..i], k)
    {
      if bits[i] {
        out[i / 8] := out[i / 8] | (1 << (7 - i % 8));
      }
      forall k | 0 <= k < n
        ensures out[k] == ByteAt(bits[..i + 1], k)
      {
        ByteAtSnoc(bits, i, k);
      }
    }
    assert bits[..|bits|] == bits;
    bytes := out[..];
  }

  /** 2 to the power `n`. */
  function Pow2(n: nat): (r: nat)
    ensures r >= 1
  {
    if n == 0 then 1 else 2 * Pow2(n - 1)
  }

  /** The big-endian unsigned value of a bit sequence: the last bit has
      weight 1, the one before it weight 2, and so on. */
  function Value(bits: seq<bool>): nat
  {
    if |bits| == 0 then 0
    else 2 * Value(bits[..|bits| - 1]) + (if bits[|bits| - 1] then 1 else 0)
  }

  /** An n-bit group has a value below 2^n. */
  lemma {:induction false} ValueBound(bits: seq<bool>)
    ensures Value(bits) < Pow2(|bits|)
  {
    if |bits| > 0 {
      ValueBound(bits[..|bits| - 1]);
    }
  }

  /** The first bit is the most significant: it carries weight 2^(n - 1)
      above the value of the rest. */
  lemma {:induction false} ValueMsbFirst(bits: seq<bool>)
    requires |bits| > 0
    ensures Value(bits) == (if bits[0] then Pow2(|bits| - 1) else 0) + Value(bits[1..])
  {
    if |bits| > 1 {
      var init := bits[..|bits| - 1];
      ValueMsbFirst(init);
      assert init[1..] == bits[1..][..|bits[1..]| - 1];
    }
  }

  /** The big-endian reading written as a sum: bit i of n bits carries
      weight 2^(n-1-i). */
  function WeightedSum(bits: seq<bool>): nat
  {
    if |bits| == 0 then 0
    else (if bits[0] then Pow2(|bits| - 1) else 0) + WeightedSum(bits[1..])
  }

  /** `Value` is the weighted sum of the bits, most significant first. */
  lemma {:induction false} ValueIsWeightedSum(bits: seq<bool>)
    ensures Value(bits) == WeightedSum(bits)
  {
    if |bits| > 0 {
      ValueMsbFirst(bits);
      ValueIsWeightedSum(bits[1..]);
    }
  }

  /** 2^64: Go's `int` is 64 bits wide on 64-bit targets. */
  const TwoTo64: nat := 0x1_0000_0000_0000_0000

  /** The signed 64-bit integer whose two's complement bit pattern is `u`. */
  function AsInt64(u: nat): int
    requires u < TwoTo64
  {
    if u < TwoTo64 / 2 then u else u - TwoTo64
  }

  /** Shifting a 64-bit pattern left by one and setting the low bit to `b`
      computes the next prefix value modulo 2^64. */
  lemma ShiftInMod(v: nat, b: nat)
    requires b < 2
    ensures (2 * (v % TwoTo64)) % TwoTo64 + b == (2 * v + b) % TwoTo64
  {
    var q, r := v / TwoTo64, v % TwoTo64;
    assert v == q * TwoTo64 + r;
    if 2 * r < TwoTo64 {
      assert 2 * v + b == 2 * q * TwoTo64 + (2 * r + b);
    } else {
      assert 2 * v + b == (2 * q + 1) * TwoTo64 + (2 * r - TwoTo64 + b);
    }
  }

  /** Go's `bitsToInt`: shifts an `int` accumulator left once per bit and
      sets its low bit for every 1 bit. The accumulator is kept as its
      unsigned 64-bit pattern, so a group longer than 63 bits wraps around
      exactly as Go's shift does; a group of at most 63 bits is read as its
      exact big-endian value, which lies in [0, 2^n). */
  method BitsToInt(bits: seq<bool>) returns (r: int)
    ensures r == AsInt64(Value(bits) % TwoTo64)
    ensures |bits| <= 63 ==> 0 <= r == Value(bits) < Pow2(|bits|)
  {
    var n: nat := 0;
    for i := 0 to |bits|
      invariant n < TwoTo64 && n == Value(bits[..i]) % TwoTo64
    {
      ShiftInMod(Value(bits[..i]), if bits[i] then 1 else 0);
      assert bits[..i + 1][..i] == bits[..i];
      n := (2 * n) % TwoTo64;
      if bits[i] {
        n := n + 1;
      }
    }
    assert bits[..|bits|] == bits;
    r := AsInt64(n);
    if |bits| <= 63 {
      ValueBound(bits);
      Pow2Monotone(|bits|, 63);
      Pow2Of63();
    }
  }

  lemma {:induction false} Pow2Monotone(m: nat, n: nat)
    requires m <= n
    ensures Pow2(m) <= Pow2(n)
  {
    if m < n {
      Pow2Monotone(m, n - 1);
    }
  }

  lemma {:induction false} Pow2Add(a: nat, b: nat)
    ensures Pow2(a + b) == Pow2(a) * Pow2(b)
  {
    if b > 0 {
      Pow2Add(a, b - 1);
    }
  }

  /** The largest 63-bit group value plus one is the first negative `int`. */
  lemma Pow2Of63()
    ensures Pow2(63) == TwoTo64 / 2
  {
    assert Pow2(7) == 128 && Pow2(8) == 256;
    Pow2Add(8, 8);
    Pow2Add(16, 16);
    Pow2Add(32, 16);
    Pow2Add(48, 8);
    Pow2Add(56, 7);
  }
}

/**
  The 128-bit hash of inputs of at most 16 bytes, and what the test of `seed`
  instead of `useSeed` in the 128-bit digest does to it.
 */
module Xxh3Short {
  import opened Arith
  import opened Binary
  import opened BitOps
  import opened Bytes
  import opened Xxh3
  import opened XxhRounds
  import Kernels = Xxh3Kernels

  /** XXH128_hash_t */
  datatype Hash128 = Hash128(low: u64, high: u64)

  // ----- Nothing is lost in mixing -----------------------------------------

  lemma XorStep(x: nat, y: nat)
    ensures XorNat(x, y) == (x + y) % 2 + 2 * XorNat(x / 2, y / 2)
  {
  }

  lemma SameParity(x: nat, y: nat, z: nat)
    requires (x + z) % 2 == (y + z) % 2 && x / 2 == y / 2
    ensures x == y
  {
  }

  lemma FirstAndRest(a: nat, b: nat, p: nat, q: nat)
    requires a < 2 && b < 2 && a + 2 * p == b + 2 * q
    ensures a == b && p == q
  {
  }

  lemma {:induction false} XorCancel(x: nat, y: nat, z: nat)
    requires XorNat(x, z) == XorNat(y, z)
    ensures x == y
    decreases x + y
  {
    if x + y == 0 {
    } else {
      XorStep(x, z);
      XorStep(y, z);
      FirstAndRest((x + z) % 2, (y + z) % 2, XorNat(x / 2, z / 2), XorNat(y / 2, z / 2));
      XorCancel(x / 2, y / 2, z / 2);
      SameParity(x, y, z);
    }
  }

  lemma {:induction false} ShiftOfXor(x: nat, y: nat, k: nat)
    ensures ShiftRight(XorNat(x, y), k) == XorNat(ShiftRight(x, k), ShiftRight(y, k))
    decreases k
  {
    if k == 0 {
    } else {
      XorStep(x, y);
      ShiftOfXor(x / 2, y / 2, k - 1);
    }
  }

  lemma ShiftLess(x: nat, k: nat)
    requires x > 0 && k > 0
    ensures ShiftRight(x, k) < x
  {
  }

  /** x ^ (x >> k) comes from one x only: shifted, it gives the bits above, and these give the rest. */
  lemma {:induction false} XorShiftInjective(x: nat, y: nat, k: nat)
    requires k > 0 && XorNat(x, ShiftRight(x, k)) == XorNat(y, ShiftRight(y, k))
    ensures x == y
    decreases x + y
  {
    if x + y == 0 {
    } else {
      var u, v := ShiftRight(x, k), ShiftRight(y, k);
      ShiftOfXor(x, u, k);
      ShiftOfXor(y, v, k);
      if x > 0 { ShiftLess(x, k); }
      if y > 0 { ShiftLess(y, k); }
      XorShiftInjective(u, v, k);
      XorCancel(x, y, u);
    }
  }

  lemma MixedUp(x: u64, y: u64, k: nat)
    requires k > 0 && XorShift64(x, k) == XorShift64(y, k)
    ensures x == y
  {
    XorShiftInjective(x, y, k);
  }

  lemma EvenFactor(d: int, p: nat, m: int)
    requires p % 2 == 1 && d * p == 2 * m
    ensures d % 2 == 0
  {
    var q := p / 2;
    assert p == 2 * q + 1;
    assert d * p == 2 * (d * q) + d;
  }

  lemma Twice(x: int, y: int)
    ensures 2 * x * y == 2 * (x * y)
  {
  }

  /** An odd factor takes nothing from divisibility by a power of two. */
  lemma {:induction false} OddFactor(d: int, p: nat, n: nat, k: int) returns (j: int)
    requires p % 2 == 1 && d * p == Pow2(n) * k
    ensures d == Pow2(n) * j
    decreases n
  {
    if n == 0 {
      j := d;
    } else {
      var half := Pow2(n - 1);
      assert d * p == 2 * (half * k) by { Twice(half, k); }
      EvenFactor(d, p, half * k);
      Twice(d / 2, p);
      j := OddFactor(d / 2, p, n - 1, k);
      Twice(half, j);
    }
  }

  lemma SameRest(a: nat, b: nat, m: nat) returns (k: int)
    requires m > 0 && a % m == b % m
    ensures a - b == m * k
  {
    k := a / m - b / m;
    assert a == m * (a / m) + a % m && b == m * (b / m) + b % m;
    assert m * k == m * (a / m) - m * (b / m);
  }

  /** Multiplying by an odd number modulo a power of two can be undone. */
  lemma OddMulInjective(x: nat, y: nat, p: nat, n: nat)
    requires p % 2 == 1 && x < Pow2(n) && y < Pow2(n)
    requires x * p % Pow2(n) == y * p % Pow2(n)
    ensures x == y
  {
    var m := Pow2(n);
    var k := SameRest(x * p, y * p, m);
    assert (x - y) * p == x * p - y * p;
    var j := OddFactor(x - y, p, n, k);
    Factor(m, j);
    Factor(m, -j);
  }

  lemma OddMul64(x: u64, y: u64, p: u64)
    requires p % 2 == 1 && Mul64(x, p) == Mul64(y, p)
    ensures x == y
  {
    Pow64();
    OddMulInjective(x, y, p, 64);
  }

  lemma AddCancel(x: u64, y: u64, z: u64)
    requires Add64(x, z) == Add64(y, z)
    ensures x == y
  {
  }

  lemma Xor64Cancel(z: u64, x: u64, y: u64)
    requires Xor64(z, x) == Xor64(z, y)
    ensures x == y
  {
    XorCommutes(z, x);
    XorCommutes(z, y);
    XorCancel(x, y, z);
  }

  /** The finishing step of XXH64 maps no two numbers to one. */
  lemma AvalancheInjective(x: u64, y: u64)
    requires Avalanche64(x) == Avalanche64(y)
    ensures x == y
  {
    var x1, y1 := Mul64(XorShift64(x, 33), PRIME64_2), Mul64(XorShift64(y, 33), PRIME64_2);
    MixedUp(Mul64(XorShift64(x1, 29), PRIME64_3), Mul64(XorShift64(y1, 29), PRIME64_3), 32);
    OddMul64(XorShift64(x1, 29), XorShift64(y1, 29), PRIME64_3);
    MixedUp(x1, y1, 29);
    OddMul64(XorShift64(x, 33), XorShift64(y, 33), PRIME64_2);
    MixedUp(x, y, 33);
  }

  // ----- XXH3_len_0to16_128b -----------------------------------------------

  const SHORT_MAX := 16
  const PRIME_MX1: u64 := 0x165667919E3779F9
  const PRIME_MX2: u64 := 0x9FB21C651E98DF25

  /** Two 64-bit halves, of the hash or of what the secret puts into it. */
  type Halves = Hash128

  function Swap32(x: u32): u32 {
    var s := WriteLE(x, 4);
    Read32([s[3], s[2], s[1], s[0]], 0)
  }

  function Swap64(x: u64): u64 {
    var s := WriteLE(x, 8);
    Read64([s[7], s[6], s[5], s[4], s[3], s[2], s[1], s[0]], 0)
  }

  /** Swapped words have their bytes in the other order. */
  lemma SwapReverses(x: u32, k: nat)
    requires k < 4
    ensures WriteLE(Swap32(x), 4)[k] == WriteLE(x, 4)[3 - k]
  {
    var s := WriteLE(x, 4);
    var t: seq<byte> := [s[3], s[2], s[1], s[0]];
    assert t[0..4] == t;
    WriteReadLE(t);
    assert t[k] == s[3 - k];
  }

  lemma SwapReverses64(x: u64, k: nat)
    requires k < 8
    ensures WriteLE(Swap64(x), 8)[k] == WriteLE(x, 8)[7 - k]
  {
    var s := WriteLE(x, 8);
    var t: seq<byte> := [s[7], s[6], s[5], s[4], s[3], s[2], s[1], s[0]];
    assert t[0..8] == t;
    WriteReadLE(t);
    assert t[k] == s[7 - k];
  }

  /** seed ^= swap32((u32)seed) << 32 */
  function SwapSeed(seed: u64): u64 {
    Xor64(seed, Kernels.Pack(0, Swap32(Kernels.Low(seed))))
  }

  /** What the secret puts in: the bitflips, with the seed where there is input. */
  function Bitflips(secret: seq<byte>, len: nat, seed: u64): Halves
    requires |secret| >= SECRET_SIZE_MIN
  {
    if len > 8 then
      Hash128(Sub64(Xor64(Read64(secret, 32), Read64(secret, 40)), seed),
              Add64(Xor64(Read64(secret, 48), Read64(secret, 56)), seed))
    else if len >= 4 then
      Hash128(Add64(Xor64(Read64(secret, 16), Read64(secret, 24)), SwapSeed(seed)), 0)
    else if len > 0 then
      Hash128(Add64(Xor64(Read32(secret, 0), Read32(secret, 4)), seed),
              Sub64(Xor64(Read32(secret, 8), Read32(secret, 12)), seed))
    else
      Hash128(Xor64(Read64(secret, 64), Read64(secret, 72)), Xor64(Read64(secret, 80), Read64(secret, 88)))
  }

  /** XXH3_avalanche */
  function Avalanche3(h: u64): u64 {
    XorShift64(Mul64(XorShift64(h, 37), PRIME_MX1), 32)
  }

  /** combinedl */
  function Combined(input: seq<byte>): u32
    requires 1 <= |input| <= 3
  {
    Read32([input[|input| - 1], |input|, input[0], input[|input| / 2]], 0)
  }

  lemma FourBytes(a: byte, b: byte, c: byte, d: byte)
    ensures ReadLE([a, b, c, d]) == a + 0x100 * b + 0x1_0000 * c + 0x100_0000 * d
  {
    assert [a, b, c, d][1..] == [b, c, d] && [b, c, d][1..] == [c, d] && [c, d][1..] == [d] && [d][1..] == [];
    assert ReadLE([d]) == d;
    assert ReadLE([c, d]) == c + 0x100 * d;
    assert ReadLE([b, c, d]) == b + 0x100 * c + 0x1_0000 * d;
  }

  /** First, middle and last byte and the length, each in its place. */
  lemma CombinedIs(input: seq<byte>)
    requires 1 <= |input| <= 3
    ensures Combined(input) ==
      0x1_0000 * input[0] + 0x100_0000 * input[|input| / 2] + input[|input| - 1] + 0x100 * |input|
  {
    var bytes: seq<byte> := [input[|input| - 1], |input|, input[0], input[|input| / 2]];
    assert bytes[0..4] == bytes;
    FourBytes(input[|input| - 1], |input|, input[0], input[|input| / 2]);
  }

  function Mix1to3(combined: u32, key: Halves): Hash128 {
    Hash128(Avalanche64(Xor64(combined, key.low)), Avalanche64(Xor64(Rotl32(Swap32(combined), 13), key.high)))
  }

  function Mix4to8(keyed: u64, len: nat): Hash128
    requires len <= 8
  {
    var m := Kernels.Mult64to128(keyed, Add64(PRIME64_1, 4 * len));
    var high := Add64(m.high, Add64(m.low, m.low));
    var low := Xor64(m.low, ShiftRight(high, 3));
    Hash128(XorShift64(Mul64(XorShift64(low, 35), PRIME_MX2), 28), Avalanche3(high))
  }

  /** What the upper half of the input adds to the product, in the form for 64 bits. */
  function Spread(x: u64): u64 {
    Add64(x, Kernels.Mul32(Kernels.Low(x), PRIME32_2 - 1))
  }

  /** The same in the form for 32 bits. */
  function Spread32(x: u64): u64 {
    Add64(Kernels.Pack(0, Kernels.High(x)), Kernels.Mul32(Kernels.Low(x), PRIME32_2))
  }

  function Mix9to16(lo: u64, hi: u64, len: nat, key: Halves): Hash128
    requires 9 <= len <= SHORT_MAX
  {
    var m := Kernels.Mult64to128(Xor64(Xor64(lo, hi), key.low), PRIME64_1);
    var low := Add64(m.low, (len - 1) * 0x40_0000_0000_0000);
    var high := Add64(m.high, Spread(Xor64(hi, key.high)));
    var h := Kernels.Mult64to128(Xor64(low, Swap64(high)), PRIME64_2);
    Hash128(Avalanche3(h.low), Avalanche3(Add64(h.high, Mul64(high, PRIME64_2))))
  }

  /** The hash as a function of the input, the seed and the bitflips. */
  function Mixed(input: seq<byte>, seed: u64, key: Halves): Hash128
    requires |input| <= SHORT_MAX
  {
    var n := |input|;
    if n > 8 then
      Mix9to16(Read64(input, 0), Read64(input, n - 8), n, key)
    else if n >= 4 then
      Mix4to8(Xor64(Kernels.Pack(Read32(input, 0), Read32(input, n - 4)), key.low), n)
    else if n > 0 then
      Mix1to3(Combined(input), key)
    else
      Hash128(Avalanche64(Xor64(seed, key.low)), Avalanche64(Xor64(seed, key.high)))
  }

  function Short128(input: seq<byte>, secret: seq<byte>, seed: u64): Hash128
    requires |input| <= SHORT_MAX && |secret| >= SECRET_SIZE_MIN
  {
    Mixed(input, seed, Bitflips(secret, |input|, seed))
  }

  // ----- No two bitflips give one hash -------------------------------------

  lemma KeyedOnce(data: u64, k: u64, l: u64)
    requires Avalanche64(Xor64(data, k)) == Avalanche64(Xor64(data, l))
    ensures k == l
  {
    AvalancheInjective(Xor64(data, k), Xor64(data, l));
    Xor64Cancel(data, k, l);
  }

  lemma Avalanche3Injective(x: u64, y: u64)
    requires Avalanche3(x) == Avalanche3(y)
    ensures x == y
  {
    MixedUp(Mul64(XorShift64(x, 37), PRIME_MX1), Mul64(XorShift64(y, 37), PRIME_MX1), 32);
    OddMul64(XorShift64(x, 37), XorShift64(y, 37), PRIME_MX1);
    MixedUp(x, y, 37);
  }

  /** The low half of a product is the product modulo 2^64. */
  lemma LowHalf(x: u64, y: u64)
    ensures Kernels.Mult64to128(x, y).low == Mul64(x, y)
  {
    var p := Kernels.Mult64to128(x, y);
    Kernels.Mult64to128Exact(x, y);
    ModUnique(x * y, TWO64, p.high, p.low);
  }

  lemma ProductOnce(x: u64, y: u64, p: u64)
    requires p % 2 == 1 && Kernels.Mult64to128(x, p).low == Kernels.Mult64to128(y, p).low
    ensures x == y
  {
    LowHalf(x, p);
    LowHalf(y, p);
    OddMul64(x, y, p);
  }

  lemma Finish4to8(low: u64, high: u64, low': u64, high': u64)
    requires Avalanche3(high) == Avalanche3(high')
    requires
      var a, b := Xor64(low, ShiftRight(high, 3)), Xor64(low', ShiftRight(high', 3));
      XorShift64(Mul64(XorShift64(a, 35), PRIME_MX2), 28) == XorShift64(Mul64(XorShift64(b, 35), PRIME_MX2), 28)
    ensures low == low'
  {
    var a, b := Xor64(low, ShiftRight(high, 3)), Xor64(low', ShiftRight(high', 3));
    Avalanche3Injective(high, high');
    MixedUp(Mul64(XorShift64(a, 35), PRIME_MX2), Mul64(XorShift64(b, 35), PRIME_MX2), 28);
    OddMul64(XorShift64(a, 35), XorShift64(b, 35), PRIME_MX2);
    MixedUp(a, b, 35);
    XorCancel(low, low', ShiftRight(high, 3));
  }

  lemma OddFactor4to8(len: nat)
    requires len <= 8
    ensures Add64(PRIME64_1, 4 * len) % 2 == 1
  {
  }

  lemma Mix4to8Injective(x: u64, y: u64, len: nat)
    requires len <= 8 && Mix4to8(x, len) == Mix4to8(y, len)
    ensures x == y
  {
    var p := Add64(PRIME64_1, 4 * len);
    var m, n := Kernels.Mult64to128(x, p), Kernels.Mult64to128(y, p);
    Finish4to8(m.low, Add64(m.high, Add64(m.low, m.low)), n.low, Add64(n.high, Add64(n.low, n.low)));
    OddFactor4to8(len);
    ProductOnce(x, y, p);
  }

  lemma HighPart(y: u64, hi: u32)
    ensures Add64(0x1_0000_0000 * hi, y) % 0x1_0000_0000 == y % 0x1_0000_0000
  {
  }

  /** The forms for 32 and 64 bits are the same, and lose nothing. */
  lemma SpreadForms(x: u64)
    ensures Spread(x) == Spread32(x)
    ensures Spread(x) % 0x1_0000_0000 == Kernels.Low(x) * PRIME32_2 % 0x1_0000_0000
  {
    var lo: int, hi: u32, p: int := Kernels.Low(x), Kernels.High(x), PRIME32_2;
    assert lo * (p - 1) + lo == lo * p;
    HighPart(lo * p, hi);
  }

  lemma SpreadInjective(x: u64, y: u64)
    requires Spread(x) == Spread(y)
    ensures x == y
  {
    SpreadForms(x);
    SpreadForms(y);
    Pow32();
    OddMulInjective(Kernels.Low(x), Kernels.Low(y), PRIME32_2, 32);
    AddCancel(x, y, Kernels.Mul32(Kernels.Low(x), PRIME32_2 - 1));
  }

  /** The second product and what follows it. */
  lemma FinishInjective(low: u64, high: u64, low': u64, high': u64)
    requires
      var h, h' := Kernels.Mult64to128(Xor64(low, Swap64(high)), PRIME64_2),
                   Kernels.Mult64to128(Xor64(low', Swap64(high')), PRIME64_2);
      && Avalanche3(h.low) == Avalanche3(h'.low)
      && Avalanche3(Add64(h.high, Mul64(high, PRIME64_2))) == Avalanche3(Add64(h'.high, Mul64(high', PRIME64_2)))
    ensures low == low' && high == high'
  {
    var x, y := Xor64(low, Swap64(high)), Xor64(low', Swap64(high'));
    var h, h' := Kernels.Mult64to128(x, PRIME64_2), Kernels.Mult64to128(y, PRIME64_2);
    Avalanche3Injective(h.low, h'.low);
    ProductOnce(x, y, PRIME64_2);
    Avalanche3Injective(Add64(h.high, Mul64(high, PRIME64_2)), Add64(h.high, Mul64(high', PRIME64_2)));
    AddCancel(Mul64(high, PRIME64_2), Mul64(high', PRIME64_2), h.high);
    OddMul64(high, high', PRIME64_2);
    XorCancel(low, low', Swap64(high));
  }

  lemma ProductKeyed(data: u64, k: u64, l: u64, p: u64)
    requires p % 2 == 1 && Kernels.Mult64to128(Xor64(data, k), p).low == Kernels.Mult64to128(Xor64(data, l), p).low
    ensures k == l
  {
    ProductOnce(Xor64(data, k), Xor64(data, l), p);
    Xor64Cancel(data, k, l);
  }

  lemma SpreadKeyed(m: u64, data: u64, k: u64, l: u64)
    requires Add64(m, Spread(Xor64(data, k))) == Add64(m, Spread(Xor64(data, l)))
    ensures k == l
  {
    AddCancel(Spread(Xor64(data, k)), Spread(Xor64(data, l)), m);
    SpreadInjective(Xor64(data, k), Xor64(data, l));
    Xor64Cancel(data, k, l);
  }

  lemma Mix9to16Injective(lo: u64, hi: u64, len: nat, k: Halves, l: Halves)
    requires 9 <= len <= SHORT_MAX && Mix9to16(lo, hi, len, k) == Mix9to16(lo, hi, len, l)
    ensures k == l
  {
    var data, shifted: u64 := Xor64(lo, hi), (len - 1) * 0x40_0000_0000_0000;
    var m, n := Kernels.Mult64to128(Xor64(data, k.low), PRIME64_1),
                Kernels.Mult64to128(Xor64(data, l.low), PRIME64_1);
    FinishInjective(Add64(m.low, shifted), Add64(m.high, Spread(Xor64(hi, k.high))),
                    Add64(n.low, shifted), Add64(n.high, Spread(Xor64(hi, l.high))));
    AddCancel(m.low, n.low, shifted);
    ProductKeyed(data, k.low, l.low, PRIME64_1);
    SpreadKeyed(m.high, hi, k.high, l.high);
  }

  lemma MixedInjective(input: seq<byte>, seed: u64, k: Halves, l: Halves)
    requires |input| <= SHORT_MAX && Mixed(input, seed, k) == Mixed(input, seed, l)
    requires 4 <= |input| <= 8 ==> k.high == l.high
    ensures k == l
  {
    var n := |input|;
    if n > 8 {
      Mix9to16Injective(Read64(input, 0), Read64(input, n - 8), n, k, l);
    } else if n >= 4 {
      var data := Kernels.Pack(Read32(input, 0), Read32(input, n - 4));
      Mix4to8Injective(Xor64(data, k.low), Xor64(data, l.low), n);
      Xor64Cancel(data, k.low, l.low);
    } else if n > 0 {
      KeyedOnce(Combined(input), k.low, l.low);
      KeyedOnce(Rotl32(Swap32(Combined(input)), 13), k.high, l.high);
    } else {
      KeyedOnce(seed, k.low, l.low);
      KeyedOnce(seed, k.high, l.high);
    }
  }

  /** Secrets give the same hash of an input of at most 16 bytes exactly when they give the same bitflips. */
  lemma SameShortHash(input: seq<byte>, s: seq<byte>, t: seq<byte>, seed: u64)
    requires |input| <= SHORT_MAX && |s| >= SECRET_SIZE_MIN && |t| >= SECRET_SIZE_MIN
    ensures Short128(input, s, seed) == Short128(input, t, seed)
      <==> Bitflips(s, |input|, seed) == Bitflips(t, |input|, seed)
  {
    if Short128(input, s, seed) == Short128(input, t, seed) {
      MixedInjective(input, seed, Bitflips(s, |input|, seed), Bitflips(t, |input|, seed));
    }
  }

  // ----- The 128-bit digest ------------------------------------------------

  /** The kernel hashes these inputs as XXH3 does. */
  ghost predicate HashesShort<A(!new)>(k: Kernel<A, Hash128>) {
    forall input: seq<byte>, secret: seq<byte>, seed: u64 |
        |input| <= SHORT_MAX && |secret| >= SECRET_SIZE_MIN ::
      k.hashShort(input, secret, seed) == Short128(input, secret, seed)
  }

  lemma ModesHash<A(!new)>(k: Kernel<A, Hash128>, secret: seq<byte>, input: seq<byte>)
    requires k.Valid() && HashesShort(k) && |secret| >= SECRET_SIZE_MIN && |input| <= SHORT_MAX
    ensures Hash(k, WithSecretAndSeed(secret, 0), input) == Short128(input, k.defaultSecret, 0)
    ensures Streamed128(k, WithSecretAndSeed(secret, 0), input) == Short128(input, secret, 0)
  {
    SeedZero(k, secret, input);
  }

  /**
    In the family that Digest128Exact names, the digest of an input of up to
    16 bytes is the one-shot hash if and only if the bitflips of the given
    secret are those of the default one: for empty input, the exclusive ors of
    the words at 64 and 72 and of those at 80 and 88.
   */
  lemma ShortDigestExact<A(!new)>(k: Kernel<A, Hash128>, secret: seq<byte>, input: seq<byte>)
    requires k.Valid() && HashesShort(k) && |secret| >= SECRET_SIZE_MIN && |input| <= SHORT_MAX
    ensures
      Streamed128(k, WithSecretAndSeed(secret, 0), input) == Hash(k, WithSecretAndSeed(secret, 0), input)
      <==>
      Bitflips(secret, |input|, 0) == Bitflips(k.defaultSecret, |input|, 0)
  {
    ModesHash(k, secret, input);
    SameShortHash(input, secret, k.defaultSecret, 0);
  }

  /** The calls that return it. */
  method DigestShort<A(!new)>(k: Kernel<A, Hash128>, secret: seq<byte>, input: seq<byte>) returns (h: Hash128)
    requires k.Valid() && HashesShort(k) && |secret| >= SECRET_SIZE_MIN && |input| <= SHORT_MAX
    ensures h == Hash(k, WithSecretAndSeed(secret, 0), input)
      <==> Bitflips(secret, |input|, 0) == Bitflips(k.defaultSecret, |input|, 0)
  {
    var st := new State(k);
    var ok := st.ResetWithSecretAndSeed(Some(secret), |secret|, 0);
    st.Update(input);
    h := st.Digest128();
    ShortDigestExact(k, secret, input);
  }

  // ----- Which bytes of the secret count -----------------------------------

  /** The bytes of the secret that an input of this length is hashed with. */
  predicate ReadFor(len: nat, k: nat) {
    if len > 8 then 32 <= k < 64 else if len >= 4 then 16 <= k < 32 else if len > 0 then k < 16 else 64 <= k < 96
  }

  /** Words are equal only if all their bytes are. */
  lemma ReadInjective(s: seq<byte>, t: seq<byte>)
    requires |s| == |t| && ReadLE(s) == ReadLE(t)
    ensures s == t
  {
    WriteReadLE(s);
    WriteReadLE(t);
  }

  lemma OneByte(s: seq<byte>, k: nat, b: byte, at: nat)
    requires k < |s| && at + 8 <= |s| && b != s[k]
    ensures k < at || at + 8 <= k ==> s[k := b][at..at + 8] == s[at..at + 8]
    ensures at <= k < at + 8 ==> Read64(s[k := b], at) != Read64(s, at)
    ensures at <= k < at + 4 ==> Read32(s[k := b], at) != Read32(s, at)
    ensures k < at || at + 4 <= k ==> Read32(s[k := b], at) == Read32(s, at)
  {
    var t := s[k := b];
    if at <= k < at + 8 {
      assert t[at..at + 8][k - at] != s[at..at + 8][k - at];
      if Read64(t, at) == Read64(s, at) { ReadInjective(t[at..at + 8], s[at..at + 8]); }
    }
    if at <= k < at + 4 {
      assert t[at..at + 4][k - at] != s[at..at + 4][k - at];
      if Read32(t, at) == Read32(s, at) { ReadInjective(t[at..at + 4], s[at..at + 4]); }
    } else {
      assert t[at..at + 4] == s[at..at + 4];
    }
  }

  /** An exclusive or of two words, one of which changes. */
  lemma PairChanges(x: u64, y: u64, x': u64, y': u64)
    requires (x == x') != (y == y')
    ensures Xor64(x, y) != Xor64(x', y')
  {
    if Xor64(x, y) == Xor64(x', y') {
      if x == x' {
        Xor64Cancel(x, y, y');
      } else {
        XorCancel(x, x', y);
      }
    }
  }

  /** Two neighbouring words, together. */
  lemma PairOfWords(s: seq<byte>, k: nat, b: byte, at: nat)
    requires k < |s| && at + 16 <= |s| && b != s[k]
    ensures Xor64(Read64(s[k := b], at), Read64(s[k := b], at + 8)) == Xor64(Read64(s, at), Read64(s, at + 8))
      <==> !(at <= k < at + 16)
  {
    var t := s[k := b];
    OneByte(s, k, b, at);
    OneByte(s, k, b, at + 8);
    if at <= k < at + 16 {
      PairChanges(Read64(t, at), Read64(t, at + 8), Read64(s, at), Read64(s, at + 8));
    }
  }

  lemma PairOfHalves(s: seq<byte>, k: nat, b: byte, at: nat)
    requires k < |s| && at + 12 <= |s| && b != s[k]
    ensures Xor64(Read32(s[k := b], at), Read32(s[k := b], at + 4)) == Xor64(Read32(s, at), Read32(s, at + 4))
      <==> !(at <= k < at + 8)
  {
    var t := s[k := b];
    OneByte(s, k, b, at);
    OneByte(s, k, b, at + 4);
    if at <= k < at + 8 {
      PairChanges(Read32(t, at), Read32(t, at + 4), Read32(s, at), Read32(s, at + 4));
    }
  }

  lemma SeedCancels(x: u64, y: u64, seed: u64)
    ensures Add64(x, seed) == Add64(y, seed) <==> x == y
    ensures Sub64(x, seed) == Sub64(y, seed) <==> x == y
  {
  }

  /** Another byte at one place of the secret makes other bitflips exactly if it is one of those. */
  lemma ByteCounts(s: seq<byte>, k: nat, b: byte, len: nat, seed: u64)
    requires |s| >= SECRET_SIZE_MIN && k < |s| && b != s[k]
    ensures Bitflips(s[k := b], len, seed) == Bitflips(s, len, seed) <==> !ReadFor(len, k)
  {
    var t := s[k := b];
    if len > 8 {
      PairOfWords(s, k, b, 32);
      PairOfWords(s, k, b, 48);
      SeedCancels(Xor64(Read64(t, 32), Read64(t, 40)), Xor64(Read64(s, 32), Read64(s, 40)), seed);
      SeedCancels(Xor64(Read64(t, 48), Read64(t, 56)), Xor64(Read64(s, 48), Read64(s, 56)), seed);
    } else if len >= 4 {
      PairOfWords(s, k, b, 16);
      SeedCancels(Xor64(Read64(t, 16), Read64(t, 24)), Xor64(Read64(s, 16), Read64(s, 24)), SwapSeed(seed));
    } else if len > 0 {
      PairOfHalves(s, k, b, 0);
      PairOfHalves(s, k, b, 8);
      SeedCancels(Xor64(Read32(t, 0), Read32(t, 4)), Xor64(Read32(s, 0), Read32(s, 4)), seed);
      SeedCancels(Xor64(Read32(t, 8), Read32(t, 12)), Xor64(Read32(s, 8), Read32(s, 12)), seed);
    } else {
      PairOfWords(s, k, b, 64);
      PairOfWords(s, k, b, 80);
    }
  }

  /** So a secret with one other byte gives another hash exactly if the byte is read for this length. */
  lemma ByteChangesHash(input: seq<byte>, s: seq<byte>, k: nat, b: byte, seed: u64)
    requires |input| <= SHORT_MAX && |s| >= SECRET_SIZE_MIN && k < |s| && b != s[k]
    ensures Short128(input, s[k := b], seed) == Short128(input, s, seed) <==> !ReadFor(|input|, k)
  {
    SameShortHash(input, s[k := b], s, seed);
    ByteCounts(s, k, b, |input|, seed);
  }

  /** And the digest with such a secret and seed 0 is not the one-shot hash. */
  lemma ByteChangesDigest<A(!new)>(kernel: Kernel<A, Hash128>, k: nat, b: byte, input: seq<byte>)
    requires kernel.Valid() && HashesShort(kernel) && |input| <= SHORT_MAX
    requires k < SECRET_DEFAULT_SIZE && b != kernel.defaultSecret[k]
    ensures var mode := WithSecretAndSeed(kernel.defaultSecret[k := b], 0);
      Streamed128(kernel, mode, input) == Hash(kernel, mode, input) <==> !ReadFor(|input|, k)
  {
    ShortDigestExact(kernel, kernel.defaultSecret[k := b], input);
    ByteCounts(kernel.defaultSecret, k, b, |input|, 0);
  }

  // ----- The real kernel ---------------------------------------------------

  /** The 128-bit kernel: the lanes of Xxh3Kernels, and this hash of the shortest inputs. */
  function Kernel128(defaultSecret: seq<byte>, init: Kernels.Lanes,
                     merge: (Kernels.Lanes, seq<byte>, nat) -> Hash128,
                     longer: (seq<byte>, seq<byte>, u64) -> Hash128): (k: Kernel<Kernels.Lanes, Hash128>)
    requires |defaultSecret| == SECRET_DEFAULT_SIZE
    ensures k.Valid() && HashesShort(k) && k.defaultSecret == defaultSecret && k.deriveSecret(0) == defaultSecret
  {
    var short := (input: seq<byte>, secret: seq<byte>, seed: u64) =>
      if |input| <= SHORT_MAX && |secret| >= SECRET_SIZE_MIN then Short128(input, secret, seed)
      else longer(input, secret, seed);
    Kernels.MakeKernel(defaultSecret, init, merge, short)
  }
}

/**
  The finishing steps of the hashes can be undone, with the inverses of these
  primes and shifts and no others: the mixing loses nothing.
 */
module XxhInverses {
  import opened Arith
  import opened Binary
  import opened BitOps
  import opened Bytes
  import opened XxhRounds
  import Kernels = Xxh3Kernels
  import Short = Xxh3Short

  // ----- Exclusive or and shifts -------------------------------------------

  lemma {:induction false} LessThanPower(x: nat, m: nat, n: nat)
    requires x < Pow2(m) && m <= n
    ensures x < Pow2(n)
    decreases n
  {
    if m == n {
    } else {
      LessThanPower(x, m, n - 1);
    }
  }

  lemma SameNumber(x: nat, y: nat)
    requires forall i: nat :: BitAt(x, i) == BitAt(y, i)
    ensures x == y
  {
    BitLengthBounds(x);
    BitLengthBounds(y);
    var n := if BitLength(x) < BitLength(y) then BitLength(y) else BitLength(x);
    LessThanPower(x, BitLength(x), n);
    LessThanPower(y, BitLength(y), n);
    SameBits(x, y, n);
  }

  lemma {:induction false} NoBitAbove(x: nat, n: nat, i: nat)
    requires x < Pow2(n) && n <= i
    ensures !BitAt(x, i)
    decreases i
  {
    if i == 0 {
    } else if n == 0 {
      NoBitAbove(0, 0, i - 1);
    } else {
      NoBitAbove(x / 2, n - 1, i - 1);
    }
  }

  function Mixed(x: nat, k: nat): nat {
    XorNat(x, ShiftRight(x, k))
  }

  lemma BitOfMixed(x: nat, k: nat, i: nat)
    ensures BitAt(Mixed(x, k), i) <==> BitAt(x, i) != BitAt(x, i + k)
  {
    BitOfXor(x, ShiftRight(x, k), i);
    BitOfShift(x, k, i);
  }

  /** A shift by half the width or more is undone by doing it again. */
  lemma WideShiftUndone(x: nat, k: nat, n: nat)
    requires x < Pow2(n) && n <= k + k
    ensures Mixed(Mixed(x, k), k) == x
  {
    forall i: nat
      ensures BitAt(Mixed(Mixed(x, k), k), i) == BitAt(x, i)
    {
      BitOfMixed(Mixed(x, k), k, i);
      BitOfMixed(x, k, i);
      BitOfMixed(x, k, i + k);
      NoBitAbove(x, n, i + k + k);
    }
    SameNumber(Mixed(Mixed(x, k), k), x);
  }

  /** A shorter one by taking in the shift and its double. */
  function Unshift(y: nat, k: nat): nat {
    XorNat(Mixed(y, k), ShiftRight(y, k + k))
  }

  lemma ShiftUndone(x: nat, k: nat, n: nat)
    requires x < Pow2(n) && n <= k + k + k
    ensures Unshift(Mixed(x, k), k) == x
  {
    var y := Mixed(x, k);
    forall i: nat
      ensures BitAt(Unshift(y, k), i) == BitAt(x, i)
    {
      BitOfXor(Mixed(y, k), ShiftRight(y, k + k), i);
      BitOfShift(y, k + k, i);
      BitOfMixed(y, k, i);
      BitOfMixed(x, k, i);
      BitOfMixed(x, k, i + k);
      BitOfMixed(x, k, i + (k + k));
      NoBitAbove(x, n, i + (k + k) + k);
    }
    SameNumber(Unshift(y, k), x);
  }

  /** Multiplying by a number that has an inverse modulo 2^64 is undone by multiplying by that. */
  lemma MulUndone(x: u64, p: u64, q: u64, c: nat)
    requires p * q == 1 + TWO64 * c
    ensures Mul64(Mul64(x, p), q) == x
  {
    var m := x * p / TWO64;
    assert Mul64(x, p) == x * p - TWO64 * m;
    assert Mul64(x, p) * q == x * (p * q) - TWO64 * (m * q) == x + TWO64 * (x * c - m * q);
    ModUnique(Mul64(x, p) * q, TWO64, x * c - m * q, x);
  }

  lemma MulUndone32(x: u32, p: nat, q: nat, c: nat)
    requires p * q == 1 + 0x1_0000_0000 * c
    ensures Mul32(x, p) * q % 0x1_0000_0000 == x
  {
    var m := x * p / 0x1_0000_0000;
    assert Mul32(x, p) == x * p - 0x1_0000_0000 * m;
    assert Mul32(x, p) * q == x * (p * q) - 0x1_0000_0000 * (m * q) == x + 0x1_0000_0000 * (x * c - m * q);
    ModUnique(Mul32(x, p) * q, 0x1_0000_0000, x * c - m * q, x);
  }

  // ----- The avalanches ----------------------------------------------------

  function Undo32(h: nat): nat {
    var b := Mixed(h, 16) * 0xA89E_D915 % 0x1_0000_0000;
    var a := Unshift(b, 13) * 0xB6C9_2F47 % 0x1_0000_0000;
    Unshift(a, 15)
  }

  lemma Avalanche32Undone(x: u32)
    ensures Undo32(Avalanche32(x)) == x
  {
    var a := Mul32(XorShift32(x, 15), PRIME32_2);
    var b := Mul32(XorShift32(a, 13), PRIME32_3);
    Pow32();
    WideShiftUndone(b, 16, 32);
    MulUndone32(XorShift32(a, 13), PRIME32_3, 0xA89E_D915, 0x803E_11B9);
    ShiftUndone(a, 13, 32);
    MulUndone32(XorShift32(x, 15), PRIME32_2, 0xB6C9_2F47, 0x5F9E_E0CE);
    ShiftUndone(x, 15, 32);
  }

  function Undo64(h: nat): nat {
    var b := Mixed(h, 32) * 0xE9E9_F4C4_1D6D_F849 % 0x1_0000_0000_0000_0000;
    var a := Unshift(b, 29) * 0xBA7_9078_168D_4BAF % 0x1_0000_0000_0000_0000;
    Mixed(a, 33)
  }

  /** XXH64_avalanche */
  lemma Avalanche64Undone(x: u64)
    ensures Undo64(Avalanche64(x)) == x
  {
    var a := Mul64(XorShift64(x, 33), PRIME64_2);
    var b := Mul64(XorShift64(a, 29), PRIME64_3);
    Pow64();
    WideShiftUndone(b, 32, 64);
    MulUndone(XorShift64(a, 29), PRIME64_3, 0xE9E9_F4C4_1D6D_F849, 0x1469_0E60_8137_8F7F);
    ShiftUndone(a, 29, 64);
    MulUndone(XorShift64(x, 33), PRIME64_2, 0xBA7_9078_168D_4BAF, 0x8DD_1DEC_2186_0607);
    WideShiftUndone(x, 33, 64);
  }

  function Undo3(h: nat): nat {
    Mixed(Mixed(h, 32) * 0x8DA_8EE4_1D6D_F849 % 0x1_0000_0000_0000_0000, 37)
  }

  /** XXH3_avalanche */
  lemma Avalanche3Undone(x: u64)
    ensures Undo3(Short.Avalanche3(x)) == x
  {
    Pow64();
    var a := Mul64(XorShift64(x, 37), Short.PRIME_MX1);
    WideShiftUndone(a, 32, 64);
    MulUndone(XorShift64(x, 37), Short.PRIME_MX1, 0x8DA_8EE4_1D6D_F849, 0xC5_C548_93EA_DCB1);
    WideShiftUndone(x, 37, 64);
  }

  /** A scrambled lane: the key and the product are taken off, then the shift. */
  function Unscramble(lane: nat, key: nat): nat {
    Mixed(XorNat(lane * 0xCFA4_A56B_0E8B_2F51 % 0x1_0000_0000_0000_0000, key), 47)
  }

  lemma {:induction false} XorTwice(x: nat, y: nat)
    ensures XorNat(XorNat(x, y), y) == x
  {
    forall i: nat
      ensures BitAt(XorNat(XorNat(x, y), y), i) == BitAt(x, i)
    {
      BitOfXor(XorNat(x, y), y, i);
      BitOfXor(x, y, i);
    }
    SameNumber(XorNat(XorNat(x, y), y), x);
  }

  lemma ScrambleUndone(acc: u64, key: u64)
    ensures Unscramble(Kernels.ScrambleLane(acc, key), key) == acc
  {
    Pow64();
    var y := XorShift64(acc, 47);
    MulUndone(Xor64(y, key), Kernels.PRIME32_1, 0xCFA4_A56B_0E8B_2F51, 0x8054_9D2C);
    XorTwice(y, key);
    WideShiftUndone(acc, 47, 64);
  }

  function UndoLow(h: nat): nat {
    Unshift(Unshift(h, 28) * 0x2AB_9C72_0D10_24AD % 0x1_0000_0000_0000_0000, 35)
  }

  lemma LowUndone(low: u64)
    ensures UndoLow(XorShift64(Mul64(XorShift64(low, 35), Short.PRIME_MX2), 28)) == low
  {
    Pow64();
    ShiftUndone(Mul64(XorShift64(low, 35), Short.PRIME_MX2), 28, 64);
    MulUndone(XorShift64(low, 35), Short.PRIME_MX2, 0x2AB_9C72_0D10_24AD, 0x1AA_71C9_708D_02FC);
    ShiftUndone(low, 35, 64);
  }

  function Unadd(high: nat, low: nat): nat {
    (high - 2 * low) % 0x1_0000_0000_0000_0000
  }

  /** What of a short hash comes from the 128-bit product: both its halves. */
  function Product4to8(h: Short.Hash128): (nat, nat) {
    var high := Undo3(h.high);
    var low := XorNat(UndoLow(h.low), ShiftRight(high, 3));
    (low, Unadd(high, low))
  }

  lemma AddUndone(u: u64, v: u64)
    ensures Unadd(Add64(v, Add64(u, u)), u) == v
  {
  }

  lemma FinishUndone(u: u64, v: u64, high: u64, low: u64)
    requires high == Add64(v, Add64(u, u)) && low == Xor64(u, ShiftRight(high, 3))
    ensures Product4to8(Short.Hash128(XorShift64(Mul64(XorShift64(low, 35), Short.PRIME_MX2), 28),
                                      Short.Avalanche3(high))) == (u, v)
  {
    LowUndone(low);
    Avalanche3Undone(high);
    XorTwice(u, ShiftRight(high, 3));
    AddUndone(u, v);
  }

  /** The hash of 4 to 8 bytes still holds the whole product of the keyed input and its odd factor. */
  lemma Product4to8Kept(keyed: u64, len: nat)
    requires 4 <= len <= 8
    ensures
      var (low, high) := Product4to8(Short.Mix4to8(keyed, len));
      low + 0x1_0000_0000_0000_0000 * high == keyed * (0x9E37_79B1_85EB_CA87 + 4 * len)
  {
    var p := Add64(PRIME64_1, 4 * len);
    var m := Kernels.Mult64to128(keyed, p);
    var high := Add64(m.high, Add64(m.low, m.low));
    FinishUndone(m.low, m.high, high, Xor64(m.low, ShiftRight(high, 3)));
    Kernels.Mult64to128Exact(keyed, p);
  }

  function UndoTimes2(x: nat): u64 {
    x * 0xBA7_9078_168D_4BAF % 0x1_0000_0000_0000_0000
  }

  lemma Times2Undone(x: u64)
    ensures UndoTimes2(Mul64(x, PRIME64_2)) == x
  {
    MulUndone(x, PRIME64_2, 0xBA7_9078_168D_4BAF, 0x8DD_1DEC_2186_0607);
  }

  function UndoSum(h: nat, over: u64): u64 {
    (h - over) % 0x1_0000_0000_0000_0000
  }

  lemma SumUndone(a: u64, b: u64)
    ensures UndoSum(Add64(a, b), a) == b
  {
  }

  /** What the hash of 9 to 16 bytes makes its second product of: the low half with the length, and the high half. */
  function Halves9to16(h: Short.Hash128): (nat, nat) {
    var x := UndoTimes2(Undo3(h.low));
    var high := UndoTimes2(UndoSum(Undo3(h.high), Kernels.Mult64to128(x, 0xC2B2_AE3D_27D4_EB4F).high));
    (XorNat(x, Short.Swap64(high)), high)
  }

  lemma Finish9to16Undone(low: u64, high: u64, x: u64, h: Kernels.U128)
    requires x == Xor64(low, Short.Swap64(high)) && h == Kernels.Mult64to128(x, PRIME64_2)
    ensures Halves9to16(Short.Hash128(Short.Avalanche3(h.low),
                                      Short.Avalanche3(Add64(h.high, Mul64(high, PRIME64_2))))) == (low, high)
  {
    Avalanche3Undone(h.low);
    Avalanche3Undone(Add64(h.high, Mul64(high, PRIME64_2)));
    Short.LowHalf(x, PRIME64_2);
    Times2Undone(x);
    SumUndone(h.high, Mul64(high, PRIME64_2));
    Times2Undone(high);
    XorTwice(low, Short.Swap64(high));
  }

  /** The hash of 9 to 16 bytes still holds the first product, with the length and the upper half of the input added. */
  lemma Halves9to16Kept(lo: u64, hi: u64, len: nat, key: Short.Halves)
    requires 9 <= len <= 16
    ensures
      var m := Kernels.Mult64to128(Xor64(Xor64(lo, hi), key.low), 0x9E37_79B1_85EB_CA87);
      Halves9to16(Short.Mix9to16(lo, hi, len, key)) ==
        (Add64(m.low, (len - 1) * 0x40_0000_0000_0000), Add64(m.high, Short.Spread32(Xor64(hi, key.high))))
  {
    var m := Kernels.Mult64to128(Xor64(Xor64(lo, hi), key.low), PRIME64_1);
    var low, high := Add64(m.low, (len - 1) * 0x40_0000_0000_0000), Add64(m.high, Short.Spread(Xor64(hi, key.high)));
    Short.SpreadForms(Xor64(hi, key.high));
    var x := Xor64(low, Short.Swap64(high));
    Finish9to16Undone(low, high, x, Kernels.Mult64to128(x, PRIME64_2));
  }
}

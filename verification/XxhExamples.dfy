/** Steps of XXH32 and XXH64 on operands that make them simple: they tell these primes and rotations from others. */
module XxhExamples {
  import opened Arith
  import opened Binary
  import opened Bytes
  import opened XxhRounds

  lemma Powers()
    ensures Pow2(1) == 2 && Pow2(7) == 0x80 && Pow2(11) == 0x800 && Pow2(12) == 0x1000 && Pow2(13) == 0x2000
    ensures Pow2(14) == 0x4000 && Pow2(15) == 0x8000 && Pow2(17) == 0x2_0000 && Pow2(18) == 0x4_0000
    ensures Pow2(19) == 0x8_0000 && Pow2(20) == 0x10_0000 && Pow2(21) == 0x20_0000 && Pow2(25) == 0x200_0000
    ensures Pow2(31) == 0x8000_0000
  {
    assert Pow2(7) == 0x80;
    assert Pow2(14) == 0x4000 by { Pow2Add(7, 7); }
    assert Pow2(21) == 0x20_0000 by { Pow2Add(14, 7); }
    assert Pow2(28) == 0x1000_0000 by { Pow2Add(14, 14); }
  }

  lemma WidePowers()
    ensures Pow2(23) == 0x80_0000 && Pow2(27) == 0x800_0000 && Pow2(33) == 0x2_0000_0000
    ensures Pow2(37) == 0x20_0000_0000 && Pow2(41) == 0x200_0000_0000 && Pow2(46) == 0x4000_0000_0000
    ensures Pow2(52) == 0x10_0000_0000_0000 && Pow2(53) == 0x20_0000_0000_0000
    ensures Pow2(57) == 0x200_0000_0000_0000 && Pow2(63) == 0x8000_0000_0000_0000
  {
    Powers();
    assert Pow2(23) == 0x80_0000;
    assert Pow2(46) == 0x4000_0000_0000 by { Pow2Add(23, 23); }
    assert Pow2(27) == 0x800_0000;
    assert Pow2(33) == 0x2_0000_0000;
    assert Pow2(37) == 0x20_0000_0000;
    assert Pow2(41) == 0x200_0000_0000;
    assert Pow2(52) == 0x10_0000_0000_0000 by { Pow2Add(41, 11); }
    assert Pow2(57) == 0x200_0000_0000_0000;
    assert Pow2(63) == 0x8000_0000_0000_0000 by { Pow2Add(46, 17); }
  }

  // ----- XXH32 -------------------------------------------------------------

  lemma Init32Example()
    ensures Init32(0) == Lanes(0x2423_4428, 0x85EB_CA77, 0, 0x61C8_864F)
  {
  }

  lemma Round32FromZero(input: nat, x: u32)
    requires x == input * 0x85EB_CA77 % 0x1_0000_0000
    ensures Round32(0, input) == Rotl32(x, 13) * 0x9E37_79B1 % 0x1_0000_0000
  {
  }

  lemma Process4FromZero(word: seq<byte>, x: u32)
    requires x == ReadLE(word) * 0xC2B2_AE3D % 0x1_0000_0000
    ensures Process4(0, word) == Rotl32(x, 17) * 0x27D4_EB2F % 0x1_0000_0000
  {
  }

  lemma Process1FromZero(b: byte, x: u32)
    requires x == b * 0x1656_67B1 % 0x1_0000_0000
    ensures Process1(0, b) == Rotl32(x, 11) * 0x9E37_79B1 % 0x1_0000_0000
  {
  }

  // ----- XXH64 -------------------------------------------------------------

  lemma Init64Example()
    ensures Init64(0) == Lanes(0x60EA_27EE_ADC0_B5D6, 0xC2B2_AE3D_27D4_EB4F, 0, 0x61C8_864E_7A14_3579)
  {
  }

  // From zero there is nothing for the exclusive or to do.

  lemma FromZero(x: u64)
    ensures Xor64(0, x) == x
  {
    XorCommutes(0, x);
    XorChanges(x, 0);
  }

  lemma SumModulo(a: nat, b: u64)
    ensures Add64(a % 0x1_0000_0000_0000_0000, b) == (a + b) % 0x1_0000_0000_0000_0000
  {
  }

  lemma Round64FromZero(input: u64, x: u64)
    requires x == input * 0xC2B2_AE3D_27D4_EB4F % 0x1_0000_0000_0000_0000
    ensures Round64(0, input) == Rotl64(x, 31) * 0x9E37_79B1_85EB_CA87 % 0x1_0000_0000_0000_0000
  {
  }

  lemma MergeFromZero(val: u64)
    ensures MergeRound64(0, val) ==
      (Round64(0, val) * 0x9E37_79B1_85EB_CA87 + 0x85EB_CA77_C2B2_AE63) % 0x1_0000_0000_0000_0000
  {
    FromZero(Round64(0, val));
    SumModulo(Round64(0, val) * 0x9E37_79B1_85EB_CA87, 0x85EB_CA77_C2B2_AE63);
  }

  lemma WordFromZero(word: u64)
    ensures ProcessWord64(0, word) ==
      (Rotl64(Round64(0, word), 27) * 0x9E37_79B1_85EB_CA87 + 0x85EB_CA77_C2B2_AE63) % 0x1_0000_0000_0000_0000
  {
    FromZero(Round64(0, word));
    SumModulo(Rotl64(Round64(0, word), 27) * 0x9E37_79B1_85EB_CA87, 0x85EB_CA77_C2B2_AE63);
  }

  lemma HalfFromZero(word: u32, x: u64)
    requires x == word * 0x9E37_79B1_85EB_CA87 % 0x1_0000_0000_0000_0000
    ensures ProcessHalf64(0, word) ==
      (Rotl64(x, 23) * 0xC2B2_AE3D_27D4_EB4F + 0x1656_67B1_9E37_79F9) % 0x1_0000_0000_0000_0000
  {
    FromZero(x);
    SumModulo(Rotl64(x, 23) * 0xC2B2_AE3D_27D4_EB4F, 0x1656_67B1_9E37_79F9);
  }

  lemma ByteFromZero(b: byte, x: u64)
    requires x == b * 0x27D4_EB2F_1656_67C5 % 0x1_0000_0000_0000_0000
    ensures ProcessByte64(0, b) == Rotl64(x, 11) * 0x9E37_79B1_85EB_CA87 % 0x1_0000_0000_0000_0000
  {
    FromZero(x);
  }

  // ----- Lanes that do not meet --------------------------------------------

  lemma Small32(x: u32, r: nat, p: nat, q: nat)
    requires r <= 32 && p == Pow2(r) && q == Pow2(32 - r) && x < q && x * p < 0x1_0000_0000
    ensures Rotl32(x, r) == x * p
  {
    ModUnique(x, q, 0, x);
    ModUnique(x * p, 0x1_0000_0000, 0, x * p);
  }

  lemma Small64(x: u64, r: nat, p: nat, q: nat)
    requires r <= 64 && p == Pow2(r) && q == Pow2(64 - r) && x < q && x * p < 0x1_0000_0000_0000_0000
    ensures Rotl64(x, r) == x * p
  {
    ModUnique(x, q, 0, x);
    ModUnique(x * p, 0x1_0000_0000_0000_0000, 0, x * p);
  }

  lemma SmallSum(x: u32, y: u32)
    requires x + y < 0x1_0000_0000
    ensures Add32(x, y) == x + y
  {
  }

  lemma SmallSums(a: u32, b: u32, c: u32, d: u32)
    requires a + b + c + d < 0x1_0000_0000
    ensures Add32(Add32(Add32(a, b), c), d) == a + b + c + d
  {
    SmallSum(a, b);
    SmallSum(a + b, c);
    SmallSum(a + b + c, d);
  }

  lemma SmallLanes32(v: Lanes<u32>)
    requires v.a < 0x1000 && v.b < 0x1000 && v.c < 0x1000 && v.d < 0x1000
    ensures Converge32(v) == 2 * v.a + 0x80 * v.b + 0x1000 * v.c + 0x4_0000 * v.d
  {
    Powers();
    Small32(v.a, 1, 2, 0x8000_0000);
    Small32(v.b, 7, 0x80, 0x200_0000);
    Small32(v.c, 12, 0x1000, 0x10_0000);
    Small32(v.d, 18, 0x4_0000, 0x4000);
    SmallSums(2 * v.a, 0x80 * v.b, 0x1000 * v.c, 0x4_0000 * v.d);
  }

  lemma SmallLanes64(v: Lanes<u64>)
    requires v.a < 0x1000 && v.b < 0x1000 && v.c < 0x1000 && v.d < 0x1000
    ensures Sum64(v) == 2 * v.a + 0x80 * v.b + 0x1000 * v.c + 0x4_0000 * v.d
  {
    Powers();
    WidePowers();
    Small64(v.a, 1, 2, 0x8000_0000_0000_0000);
    Small64(v.b, 7, 0x80, 0x200_0000_0000_0000);
    Small64(v.c, 12, 0x1000, 0x10_0000_0000_0000);
    Small64(v.d, 18, 0x4_0000, 0x4000_0000_0000);
  }
}

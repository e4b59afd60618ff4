/**
  The accumulate and scramble kernels of XXH3: the scalar lane loop and the
  SSE2 and AVX2 forms, each proved to be the same function of the lanes, and
  the portable 64x64->128 bit multiplications.
 */
module Xxh3Kernels {
  import opened Arith
  import opened Binary
  import opened Bytes
  import opened Xxh3
  import XxhRounds

  const PRIME32_1 := XxhRounds.PRIME32_1

  type Lanes = s: seq<u64> | |s| == 8 witness [0, 0, 0, 0, 0, 0, 0, 0]

  // ----- Words -------------------------------------------------------------

  function Low(x: u64): u32 { x % 0x1_0000_0000 }
  function High(x: u64): u32 { x / 0x1_0000_0000 }
  function Pack(lo: u32, hi: u32): u64 { lo + 0x1_0000_0000 * hi }

  /** Additions modulo 2^64 may be reordered. */
  lemma AddLast(a: u64, b: u64, c: u64)
    ensures Add64(Add64(a, c), b) == Add64(Add64(a, b), c)
  {
  }

  /** Word i of a string of words. */
  function Word(s: seq<byte>, i: nat): u64
    requires 8 * i + 8 <= |s|
  {
    Read64(s, 8 * i)
  }

  /** A stripe as eight words. */
  function Words(s: seq<byte>): Lanes
    requires |s| == STRIPE_LEN
  {
    seq(8, i requires 0 <= i < 8 => Word(s, i))
  }

  // ----- The lane functions ------------------------------------------------

  function Partner(i: nat): nat { if i % 2 == 0 then i + 1 else i - 1 }

  /** XXH_mult32to64 */
  function Mul32(x: u32, y: u32): (r: u64)
  {
    MulUp(x, y, 0xffff_ffff);
    x * y
  }

  /** The product of the two halves of the keyed data. */
  function Product(data: u64, key: u64): u64 {
    Mul32(Low(Xor64(data, key)), High(Xor64(data, key)))
  }

  /** `lane ^ 1` */
  lemma PartnerIsXor(i: nat)
    ensures XorNat(i, 1) == Partner(i)
  {
    XorChanges(i / 2, 0);
  }

  lemma HalvesOf(x: u64, lo: u32, hi: u32)
    requires x == lo + 0x1_0000_0000 * hi
    ensures Low(x) == lo && High(x) == hi
  {
  }

  /** Data and key count by their exclusive or, whose halves are multiplied. */
  lemma ProductIs(data: u64, key: u64, lo: u32, hi: u32)
    requires XorNat(data, key) == lo + 0x1_0000_0000 * hi
    ensures Product(data, key) == lo * hi
  {
    HalvesOf(Xor64(data, key), lo, hi);
  }

  /** Lane `i` takes its partner's data and its own product. */
  function AccumulateLane(acc: Lanes, data: Lanes, key: Lanes, i: nat): u64
    requires i < 8
  {
    Add64(Add64(acc[i], data[Partner(i)]), Product(data[i], key[i]))
  }

  function Accumulate512(acc: Lanes, data: Lanes, key: Lanes): (r: Lanes) {
    seq(8, i requires 0 <= i < 8 => AccumulateLane(acc, data, key, i))
  }

  function ScrambleLane(acc: u64, key: u64): u64 {
    Xor64(XorShift64(acc, 47), key) * PRIME32_1 % 0x1_0000_0000_0000_0000
  }

  function ScrambleAcc(acc: Lanes, key: Lanes): (r: Lanes)
  {
    seq(8, i requires 0 <= i < 8 => ScrambleLane(acc[i], key[i]))
  }

  // ----- Scalar loops ------------------------------------------------------

  /** Lane `x` after the rounds of lanes 0..lane: its own round adds a product, its partner's adds data. */
  ghost function PartialLane(acc: Lanes, data: Lanes, key: Lanes, x: nat, lane: nat): u64
    requires x < 8
  {
    var p := Partner(x);
    if x < lane && p < lane then AccumulateLane(acc, data, key, x)
    else if x < lane then Add64(acc[x], Product(data[x], key[x]))
    else if p < lane then Add64(acc[x], data[p])
    else acc[x]
  }

  /** XXH3_scalarRound for one lane moves both lanes of the pair one round on. */
  lemma ScalarRound(acc: Lanes, data: Lanes, key: Lanes, lane: nat)
    requires lane < 8
    ensures var p := Partner(lane);
            && Add64(PartialLane(acc, data, key, p, lane), data[lane]) == PartialLane(acc, data, key, p, lane + 1)
            && Add64(PartialLane(acc, data, key, lane, lane), Product(data[lane], key[lane])) ==
               PartialLane(acc, data, key, lane, lane + 1)
  {
    var p := Partner(lane);
    AddLast(acc[p], data[lane], Product(data[p], key[p]));
  }

  lemma OtherLane(acc: Lanes, data: Lanes, key: Lanes, x: nat, lane: nat)
    requires x < 8 && x != lane && x != Partner(lane)
    ensures PartialLane(acc, data, key, x, lane) == PartialLane(acc, data, key, x, lane + 1)
  {
  }

  /** XXH3_accumulate_512_scalar */
  method AccumulateScalar(acc: array<u64>, data: Lanes, key: Lanes)
    requires acc.Length == 8
    modifies acc
    ensures acc[..] == Accumulate512(old(acc[..]), data, key)
  {
    ghost var was := acc[..];
    for lane := 0 to 8
      invariant forall x | 0 <= x < 8 :: acc[x] == PartialLane(was, data, key, x, lane)
    {
      var partner := Partner(lane);
      ScalarRound(was, data, key, lane);
      forall x | 0 <= x < 8 && x != lane && x != partner
        ensures PartialLane(was, data, key, x, lane) == PartialLane(was, data, key, x, lane + 1)
      {
        OtherLane(was, data, key, x, lane);
      }
      acc[partner] := Add64(acc[partner], data[lane]);
      acc[lane] := Add64(acc[lane], Product(data[lane], key[lane]));
    }
  }

  /** XXH3_scrambleAcc_scalar */
  method ScrambleScalar(acc: array<u64>, key: Lanes)
    requires acc.Length == 8
    modifies acc
    ensures acc[..] == ScrambleAcc(old(acc[..]), key)
  {
    for lane := 0 to 8
      invariant forall x | 0 <= x < 8 :: acc[x] == if x < lane then ScrambleLane(old(acc[x]), key[x]) else old(acc[x])
    {
      acc[lane] := ScrambleLane(acc[lane], key[lane]);
    }
  }

  // ----- Vectors -----------------------------------------------------------

  /** __m128i as two 64-bit halves; element 0 is the low half of `lo`. */
  datatype V128 = V128(lo: u64, hi: u64)

  function XorSi128(a: V128, b: V128): V128 { V128(Xor64(a.lo, b.lo), Xor64(a.hi, b.hi)) }
  function AddEpi64(a: V128, b: V128): V128 { V128(Add64(a.lo, b.lo), Add64(a.hi, b.hi)) }
  function MulEpu32(a: V128, b: V128): V128 { V128(Mul32(Low(a.lo), Low(b.lo)), Mul32(Low(a.hi), Low(b.hi))) }
  function Srli32(a: V128): V128 { V128(High(a.lo), High(a.hi)) }
  function Srli64(a: V128, k: nat): V128 { V128(ShiftRight(a.lo, k), ShiftRight(a.hi, k)) }
  function Slli32(a: V128): V128 { V128(Pack(0, Low(a.lo)), Pack(0, Low(a.hi))) }
  function Set1Epi32(x: u32): V128 { V128(Pack(x, x), Pack(x, x)) }
  function Load(s: Lanes, i: nat): V128
    requires i < 4
  {
    V128(s[2 * i], s[2 * i + 1])
  }

  function Elem(a: V128, i: nat): u32
    requires i < 4
  {
    if i == 0 then Low(a.lo) else if i == 1 then High(a.lo) else if i == 2 then Low(a.hi) else High(a.hi)
  }

  /** _mm_shuffle_epi32(a, _MM_SHUFFLE(s3, s2, s1, s0)) */
  function Shuffle(a: V128, s3: nat, s2: nat, s1: nat, s0: nat): V128
    requires s3 < 4 && s2 < 4 && s1 < 4 && s0 < 4
  {
    V128(Pack(Elem(a, s0), Elem(a, s1)), Pack(Elem(a, s2), Elem(a, s3)))
  }

  /** Which way a vector form brings the high halves down: SSE2 shuffles, AVX2 shifts. */
  datatype Form = Sse2 | Avx2

  function HighHalves(form: Form, a: V128): (r: V128)
    ensures Low(r.lo) == High(a.lo) && Low(r.hi) == High(a.hi)
  {
    if form.Sse2? then Shuffle(a, 0, 3, 0, 1) else Srli32(a)
  }

  lemma Unsplit(x: u64)
    ensures Pack(Low(x), High(x)) == x
  {
  }

  lemma SwapHalves(a: V128)
    ensures Shuffle(a, 1, 0, 3, 2) == V128(a.hi, a.lo)
  {
    Unsplit(a.lo);
    Unsplit(a.hi);
  }

  lemma AddCommutes(x: u64, y: u64)
    ensures Add64(x, y) == Add64(y, x)
  {
  }

  /** One 128-bit vector, or 128-bit half of a vector, of the accumulate loop. */
  method AccumulateVector(form: Form, acc: V128, data: V128, key: V128) returns (r: V128)
    ensures r.lo == Add64(Add64(acc.lo, data.hi), Product(data.lo, key.lo))
    ensures r.hi == Add64(Add64(acc.hi, data.lo), Product(data.hi, key.hi))
  {
    var dataKey := XorSi128(data, key);
    var product := MulEpu32(dataKey, HighHalves(form, dataKey));
    var dataSwap := Shuffle(data, 1, 0, 3, 2);
    SwapHalves(data);
    var sum := AddEpi64(acc, dataSwap);
    r := AddEpi64(product, sum);
    AddCommutes(product.lo, sum.lo);
    AddCommutes(product.hi, sum.hi);
  }

  lemma Partners(i: nat)
    ensures Partner(2 * i) == 2 * i + 1 && Partner(2 * i + 1) == 2 * i
  {
  }

  lemma Reduce(s: nat, q: nat)
    requires s < 2 * TWO64
    ensures (s + 0x1_0000_0000_0000_0000 * q) % 0x1_0000_0000_0000_0000 == if s < TWO64 then s else s - TWO64
  {
  }

  /** The two 32-bit products of the vector form make the 64-bit product of the scalar form. */
  lemma SplitProduct(x: u64)
    ensures Add64(Mul32(Low(x), PRIME32_1), Pack(0, Low(Mul32(High(x), PRIME32_1)))) ==
      x * PRIME32_1 % 0x1_0000_0000_0000_0000
  {
    var lo, hi := Low(x) * 0x9E3779B1, High(x) * 0x9E3779B1;
    var q, r := hi / 0x1_0000_0000, hi % 0x1_0000_0000;
    assert x * 0x9E3779B1 == lo + 0x1_0000_0000 * hi == (lo + 0x1_0000_0000 * r) + 0x1_0000_0000_0000_0000 * q;
    Reduce(lo + 0x1_0000_0000 * r, q);
  }

  lemma ShiftLanes(a: V128, k: nat)
    ensures XorSi128(a, Srli64(a, k)) == V128(XorShift64(a.lo, k), XorShift64(a.hi, k))
  {
  }

  /** The 32-bit multiplications that make a 64-bit one. */
  method TimesPrime(form: Form, data: V128) returns (r: V128)
    ensures r == V128(data.lo * PRIME32_1 % 0x1_0000_0000_0000_0000, data.hi * PRIME32_1 % 0x1_0000_0000_0000_0000)
  {
    var prime := Set1Epi32(PRIME32_1);
    assert Low(prime.lo) == PRIME32_1;
    var prodLo := MulEpu32(data, prime);
    var prodHi := MulEpu32(HighHalves(form, data), prime);
    SplitProduct(data.lo);
    SplitProduct(data.hi);
    r := AddEpi64(prodLo, Slli32(prodHi));
  }

  /** One 128-bit vector of the scramble loop. */
  method ScrambleVector(form: Form, acc: V128, key: V128) returns (r: V128)
    ensures r == V128(ScrambleLane(acc.lo, key.lo), ScrambleLane(acc.hi, key.hi))
  {
    var shifted := XorSi128(acc, Srli64(acc, 47));
    ShiftLanes(acc, 47);
    var dataKey := XorSi128(shifted, key);
    r := TimesPrime(form, dataKey);
  }

  /** XXH3_accumulate_512_sse2 and _avx2, the latter as its 128-bit halves. */
  method AccumulateSimd(form: Form, acc: array<u64>, data: Lanes, key: Lanes)
    requires acc.Length == 8
    modifies acc
    ensures acc[..] == Accumulate512(old(acc[..]), data, key)
  {
    ghost var was := acc[..];
    for i := 0 to 4
      invariant forall x | 0 <= x < 8 :: acc[x] == if x < 2 * i then AccumulateLane(was, data, key, x) else was[x]
    {
      Partners(i);
      var r := AccumulateVector(form, V128(acc[2 * i], acc[2 * i + 1]), Load(data, i), Load(key, i));
      acc[2 * i], acc[2 * i + 1] := r.lo, r.hi;
    }
  }

  /** XXH3_scrambleAcc_sse2 and _avx2. */
  method ScrambleSimd(form: Form, acc: array<u64>, key: Lanes)
    requires acc.Length == 8
    modifies acc
    ensures acc[..] == ScrambleAcc(old(acc[..]), key)
  {
    for i := 0 to 4
      invariant forall x | 0 <= x < 8 ::
          acc[x] == if x < 2 * i then ScrambleAcc(old(acc[..]), key)[x] else old(acc[x])
    {
      var r := ScrambleVector(form, V128(acc[2 * i], acc[2 * i + 1]), Load(key, i));
      acc[2 * i], acc[2 * i + 1] := r.lo, r.hi;
    }
  }

  // ----- The derived secret ------------------------------------------------

  /** Word `j` of the secret, with `value` written over it. */
  function Rewrite(secret: seq<byte>, j: nat, value: u64): (r: seq<byte>)
    requires 8 * j + 8 <= |secret|
    ensures |r| == 8
  {
    WriteLE(value, |secret[8 * j..8 * j + 8]|)
  }

  /** The two words that round `i` of XXH3_initCustomSecret_scalar writes. */
  function DerivedRound(secret: seq<byte>, seed: u64, i: nat): (r: seq<byte>)
    requires 16 * i + 16 <= |secret|
    ensures |r| == 16
  {
    Rewrite(secret, 2 * i, Add64(Word(secret, 2 * i), seed)) +
    Rewrite(secret, 2 * i + 1, Sub64(Word(secret, 2 * i + 1), seed))
  }

  function DerivedByte(secret: seq<byte>, seed: u64, b: nat): byte
    requires |secret| == SECRET_DEFAULT_SIZE && b < |secret|
  {
    DerivedRound(secret, seed, b / 16)[b % 16]
  }

  /** XXH3_initCustomSecret */
  function DeriveSecret(secret: seq<byte>, seed: u64): (r: seq<byte>)
    requires |secret| == SECRET_DEFAULT_SIZE
    ensures |r| == SECRET_DEFAULT_SIZE
  {
    seq(|secret|, b requires 0 <= b < |secret| => DerivedByte(secret, seed, b))
  }

  lemma DerivedPart(secret: seq<byte>, seed: u64, i: nat)
    requires |secret| == SECRET_DEFAULT_SIZE && 16 * i + 16 <= |secret|
    ensures DeriveSecret(secret, seed)[16 * i..16 * i + 16] == DerivedRound(secret, seed, i)
  {
    var derived, part := DeriveSecret(secret, seed), DerivedRound(secret, seed, i);
    forall b | 0 <= b < 16
      ensures derived[16 * i + b] == part[b]
    {
      assert (16 * i + b) / 16 == i && (16 * i + b) % 16 == b;
    }
  }

  /** The first n bytes of the derived secret are written. */
  ghost predicate DerivedSoFar(custom: seq<byte>, secret: seq<byte>, seed: u64, n: nat) {
    && |custom| == |secret| == SECRET_DEFAULT_SIZE && n <= SECRET_DEFAULT_SIZE
    && custom[..n] == DeriveSecret(secret, seed)[..n]
  }

  lemma DerivedMore(custom: seq<byte>, secret: seq<byte>, seed: u64, i: nat)
    requires 16 * i + 16 <= SECRET_DEFAULT_SIZE && DerivedSoFar(custom, secret, seed, 16 * i)
    ensures DerivedSoFar(Splice(custom, 16 * i, DerivedRound(secret, seed, i)), secret, seed, 16 * i + 16)
  {
    var derived, part := DeriveSecret(secret, seed), DerivedRound(secret, seed, i);
    DerivedPart(secret, seed, i);
    assert derived[..16 * i + 16] == derived[..16 * i] + part;
    assert Splice(custom, 16 * i, part)[..16 * i + 16] == custom[..16 * i] + part;
  }

  lemma DerivedAll(custom: seq<byte>, secret: seq<byte>, seed: u64)
    requires DerivedSoFar(custom, secret, seed, SECRET_DEFAULT_SIZE)
    ensures custom == DeriveSecret(secret, seed)
  {
    assert custom[..SECRET_DEFAULT_SIZE] == custom;
    assert DeriveSecret(secret, seed)[..SECRET_DEFAULT_SIZE] == DeriveSecret(secret, seed);
  }

  /** XXH3_initCustomSecret_scalar */
  method InitSecretScalar(custom: array<byte>, secret: seq<byte>, seed: u64)
    requires custom.Length == |secret| == SECRET_DEFAULT_SIZE
    modifies custom
    ensures custom[..] == DeriveSecret(secret, seed)
  {
    for i := 0 to 12
      invariant DerivedSoFar(custom[..], secret, seed, 16 * i)
    {
      DerivedMore(custom[..], secret, seed, i);
      var lo := Add64(Word(secret, 2 * i), seed);
      var hi := Sub64(Word(secret, 2 * i + 1), seed);
      CopyInto(custom, 16 * i, WriteLE(lo, 8) + WriteLE(hi, 8));
    }
    DerivedAll(custom[..], secret, seed);
  }

  lemma AddNegated(x: u64, y: u64)
    ensures Add64(x, Sub64(0, y)) == Sub64(x, y)
  {
  }

  /** One 128-bit vector of the secret plus the seed and its negation. */
  method InitVector(custom: array<byte>, secret: seq<byte>, seed: u64, i: nat)
    requires custom.Length == |secret| == SECRET_DEFAULT_SIZE && 16 * i + 16 <= SECRET_DEFAULT_SIZE
    requires DerivedSoFar(custom[..], secret, seed, 16 * i)
    modifies custom
    ensures DerivedSoFar(custom[..], secret, seed, 16 * i + 16)
  {
    DerivedMore(custom[..], secret, seed, i);
    AddNegated(Word(secret, 2 * i + 1), seed);
    var sum := AddEpi64(V128(Word(secret, 2 * i), Word(secret, 2 * i + 1)), V128(seed, Sub64(0, seed)));
    CopyInto(custom, 16 * i, WriteLE(sum.lo, 8) + WriteLE(sum.hi, 8));
  }

  /** XXH3_initCustomSecret_sse2, and _avx2 with two such halves in each of its six vectors. */
  method InitSecretSimd(form: Form, custom: array<byte>, secret: seq<byte>, seed: u64)
    requires custom.Length == |secret| == SECRET_DEFAULT_SIZE
    modifies custom
    ensures custom[..] == DeriveSecret(secret, seed)
  {
    var i := 0;
    while i < 12
      invariant 0 <= i <= 12 && (form.Avx2? ==> i % 2 == 0)
      invariant DerivedSoFar(custom[..], secret, seed, 16 * i)
    {
      InitVector(custom, secret, seed, i);
      if form.Avx2? {
        InitVector(custom, secret, seed, i + 1);
      }
      i := i + if form.Avx2? then 2 else 1;
    }
    DerivedAll(custom[..], secret, seed);
  }

  lemma ZeroKeepsWord(secret: seq<byte>, j: nat)
    requires 8 * j + 8 <= |secret|
    ensures Rewrite(secret, j, Add64(Word(secret, j), 0)) == secret[8 * j..8 * j + 8]
    ensures Rewrite(secret, j, Sub64(Word(secret, j), 0)) == secret[8 * j..8 * j + 8]
  {
    WriteReadLE(secret[8 * j..8 * j + 8]);
  }

  lemma ZeroKeepsRound(secret: seq<byte>, i: nat)
    requires 16 * i + 16 <= |secret|
    ensures DerivedRound(secret, 0, i) == secret[16 * i..16 * i + 16]
  {
    ZeroKeepsWord(secret, 2 * i);
    ZeroKeepsWord(secret, 2 * i + 1);
    assert secret[16 * i..16 * i + 8] + secret[16 * i + 8..16 * i + 16] == secret[16 * i..16 * i + 16];
  }

  lemma ZeroKeepsByte(secret: seq<byte>, b: nat)
    requires |secret| == SECRET_DEFAULT_SIZE && b < |secret|
    ensures DeriveSecret(secret, 0)[b] == secret[b]
  {
    ZeroKeepsRound(secret, b / 16);
    assert DeriveSecret(secret, 0)[b] == DerivedByte(secret, 0, b);
  }

  lemma SameBytes(a: seq<byte>, b: seq<byte>)
    requires |a| == |b| && forall i | 0 <= i < |a| :: a[i] == b[i]
    ensures a == b
  {
  }

  lemma WrittenWord(secret: seq<byte>, j: nat, value: u64)
    requires 8 * j + 8 <= |secret|
    ensures ReadLE(Rewrite(secret, j, value)) == value
  {
    Pow64();
    ReadWriteLE(value, 8);
  }

  lemma PartsOf(s: seq<byte>, t: seq<byte>, a: seq<byte>, b: seq<byte>, i: nat)
    requires 16 * i + 16 <= |s| && s[16 * i..16 * i + 16] == t == a + b && |a| == |b| == 8
    ensures s[8 * (2 * i)..8 * (2 * i) + 8] == a && s[8 * (2 * i + 1)..8 * (2 * i + 1) + 8] == b
  {
    assert s[8 * (2 * i)..8 * (2 * i) + 8] == t[..8];
    assert s[8 * (2 * i + 1)..8 * (2 * i + 1) + 8] == t[8..];
  }

  /** Even words of the derived secret have the seed added, odd ones subtracted. */
  lemma DerivedWords(secret: seq<byte>, seed: u64, i: nat)
    requires |secret| == SECRET_DEFAULT_SIZE && 16 * i + 16 <= |secret|
    ensures Word(DeriveSecret(secret, seed), 2 * i) == Add64(Word(secret, 2 * i), seed)
    ensures Word(DeriveSecret(secret, seed), 2 * i + 1) == Sub64(Word(secret, 2 * i + 1), seed)
  {
    var sum, rest := Add64(Word(secret, 2 * i), seed), Sub64(Word(secret, 2 * i + 1), seed);
    DerivedPart(secret, seed, i);
    PartsOf(DeriveSecret(secret, seed), DerivedRound(secret, seed, i), Rewrite(secret, 2 * i, sum),
            Rewrite(secret, 2 * i + 1, rest), i);
    WrittenWord(secret, 2 * i, sum);
    WrittenWord(secret, 2 * i + 1, rest);
  }

  /** Seed 0 derives the secret itself. */
  lemma DerivedFromZero(secret: seq<byte>)
    requires |secret| == SECRET_DEFAULT_SIZE
    ensures DeriveSecret(secret, 0) == secret
  {
    var derived := DeriveSecret(secret, 0);
    forall b | 0 <= b < |secret|
      ensures derived[b] == secret[b]
    {
      ZeroKeepsByte(secret, b);
    }
    SameBytes(derived, secret);
  }

  // ----- A kernel of the real lanes ----------------------------------------

  function AccumulateBytes(acc: Lanes, data: seq<byte>, key: seq<byte>): Lanes {
    if |data| == |key| == STRIPE_LEN then Accumulate512(acc, Words(data), Words(key)) else acc
  }

  function ScrambleBytes(acc: Lanes, key: seq<byte>): Lanes {
    if |key| == STRIPE_LEN then ScrambleAcc(acc, Words(key)) else acc
  }

  /** The XXH3 kernel around a given finishing step and short-input hash. */
  function MakeKernel<H>(defaultSecret: seq<byte>, init: Lanes, merge: (Lanes, seq<byte>, nat) -> H,
                         short: (seq<byte>, seq<byte>, u64) -> H): (k: Kernel<Lanes, H>)
    requires |defaultSecret| == SECRET_DEFAULT_SIZE
    ensures k.Valid() && k.deriveSecret(0) == defaultSecret
  {
    DerivedFromZero(defaultSecret);
    var accumulate: (Lanes, seq<byte>, seq<byte>) -> Lanes := AccumulateBytes;
    var scramble: (Lanes, seq<byte>) -> Lanes := ScrambleBytes;
    Kernel(init, accumulate, scramble, merge, short, defaultSecret, (seed: u64) => DeriveSecret(defaultSecret, seed))
  }

  /** Of the real lanes, a secret generated from a seed hashes with it like the seed alone. */
  lemma GeneratedSecret<H>(defaultSecret: seq<byte>, init: Lanes, merge: (Lanes, seq<byte>, nat) -> H,
                           short: (seq<byte>, seq<byte>, u64) -> H, seed: u64, input: seq<byte>)
    requires |defaultSecret| == SECRET_DEFAULT_SIZE
    ensures
      var k := MakeKernel(defaultSecret, init, merge, short);
      Hash(k, WithSecretAndSeed(DeriveSecret(defaultSecret, seed), seed), input) == Hash(k, WithSeed(seed), input)
  {
    SecretFromSeed(MakeKernel(defaultSecret, init, merge, short), seed, input);
  }

  // ----- 64x64 -> 128 bit products -----------------------------------------

  datatype U128 = U128(low: u64, high: u64)

  function Value(p: U128): nat { p.low + 0x1_0000_0000_0000_0000 * p.high }

  lemma ProductBounds(a0: u32, a1: u32, b0: u32, b1: u32)
    ensures a0 * b0 <= 0xFFFF_FFFE_0000_0001 && a1 * b0 <= 0xFFFF_FFFE_0000_0001
    ensures a0 * b1 <= 0xFFFF_FFFE_0000_0001 && a1 * b1 <= 0xFFFF_FFFE_0000_0001
  {
    MulUp(a0, b0, 0xffff_ffff);
    MulUp(a1, b0, 0xffff_ffff);
    MulUp(a0, b1, 0xffff_ffff);
    MulUp(a1, b1, 0xffff_ffff);
  }

  /** The portable branch of XXH_mult64to128; the types say that no sum overflows. */
  function Mult64to128(lhs: u64, rhs: u64): (p: U128)
  {
    var loLo := Mul32(Low(lhs), Low(rhs));
    var hiLo := Mul32(High(lhs), Low(rhs));
    var loHi := Mul32(Low(lhs), High(rhs));
    var hiHi := Mul32(High(lhs), High(rhs));
    ProductBounds(Low(lhs), High(lhs), Low(rhs), High(rhs));
    var cross: u64 := High(loLo) + Low(hiLo) + loHi;
    var upper: u64 := High(hiLo) + High(cross) + hiHi;
    var lower := Pack(Low(loLo), Low(cross));
    U128(lower, upper)
  }

  lemma SchoolProduct(a: u64, b: u64)
    ensures a * b == Low(a) * Low(b) + 0x1_0000_0000 * (High(a) * Low(b)) + 0x1_0000_0000 * (Low(a) * High(b))
                     + 0x1_0000_0000_0000_0000 * (High(a) * High(b))
  {
    var a0: nat, a1: nat, b0: nat, b1: nat := Low(a), High(a), Low(b), High(b);
    assert a * b == (a0 + 0x1_0000_0000 * a1) * b == a0 * b + 0x1_0000_0000 * (a1 * b);
    assert a0 * b == a0 * (b0 + 0x1_0000_0000 * b1) == a0 * b0 + 0x1_0000_0000 * (a0 * b1);
    assert a1 * b == a1 * (b0 + 0x1_0000_0000 * b1) == a1 * b0 + 0x1_0000_0000 * (a1 * b1);
  }

  lemma Mult64to128Exact(lhs: u64, rhs: u64)
    ensures Value(Mult64to128(lhs, rhs)) == lhs * rhs
  {
    SchoolProduct(lhs, rhs);
  }

  /** add64carry_first: the carry is read off the wrapped sum. */
  function AddCarry(base: u64, addend: u64): (r: (u64, nat))
    ensures r.0 + 0x1_0000_0000_0000_0000 * r.1 == base + addend && r.1 <= 1
  {
    var sum := Add64(base, addend);
    (sum, if sum < addend then 1 else 0)
  }

  /** The portable branch of t1ha's mul_64x64_128. */
  function Mul64x64(a: u64, b: u64): (p: U128)
  {
    var ll := Mul32(Low(a), Low(b));
    var lh := Mul32(High(a), Low(b));
    var hl := Mul32(Low(a), High(b));
    var hh := Mul32(High(a), High(b));
    var (l, c) := AddCarry(ll, Pack(0, Low(lh)));
    var h := Add64(Add64(hh, High(lh)), c);
    var (l', c') := AddCarry(l, Pack(0, Low(hl)));
    U128(l', Add64(Add64(h, High(hl)), c'))
  }

  lemma Mul64x64Exact(a: u64, b: u64)
    ensures Value(Mul64x64(a, b)) == a * b
  {
    SchoolProduct(a, b);
    ProductBounds(Low(a), High(a), Low(b), High(b));
  }
}

/**
  The rounds of XXH32 and XXH64: what the streaming theorems of XxhStripes take
  as parameters, and the two ways in which XXH32 finishes a hash.
 */
module XxhRounds {
  import opened Binary
  import opened Bytes
  import opened XxhStripes

  // ----- Words of 32 and 64 bits -------------------------------------------

  function Add32(x: u32, y: int): u32 { (x + y) % 0x1_0000_0000 }
  function Mul32(x: u32, y: nat): u32 { (x * y) % 0x1_0000_0000 }
  function Rotl32(x: u32, r: nat): u32
    requires r <= 32
  {
    (x * Pow2(r) + x / Pow2(32 - r)) % 0x1_0000_0000
  }

  function Rotl64(x: u64, r: nat): u64
    requires r <= 64
  {
    (x * Pow2(r) + x / Pow2(64 - r)) % 0x1_0000_0000_0000_0000
  }

  // ----- XXH32 -------------------------------------------------------------

  const PRIME32_1: nat := 0x9E3779B1
  const PRIME32_2: u32 := 0x85EBCA77
  const PRIME32_3: nat := 0xC2B2AE3D
  const PRIME32_4: nat := 0x27D4EB2F
  const PRIME32_5: nat := 0x165667B1

  datatype Lanes<T> = Lanes(a: T, b: T, c: T, d: T)

  function Round32(acc: u32, input: nat): u32 {
    Mul32(Rotl32(Add32(acc, input * PRIME32_2), 13), PRIME32_1)
  }

  function Init32(seed: u64): Lanes<u32> {
    var s: u32 := seed % 0x1_0000_0000;
    Lanes(Add32(s, PRIME32_1 + PRIME32_2), Add32(s, PRIME32_2), s, Add32(s, 0 - PRIME32_1 as int))
  }

  function Stripe32(v: Lanes<u32>, s: seq<byte>): Lanes<u32> {
    if |s| != 16 then v else
      Lanes(Round32(v.a, ReadLE(s[0..4])), Round32(v.b, ReadLE(s[4..8])),
            Round32(v.c, ReadLE(s[8..12])), Round32(v.d, ReadLE(s[12..16])))
  }

  function Converge32(v: Lanes<u32>): u32 {
    Add32(Add32(Add32(Rotl32(v.a, 1), Rotl32(v.b, 7)), Rotl32(v.c, 12)), Rotl32(v.d, 18))
  }

  function Avalanche32(h: u32): u32 {
    XorShift32(Mul32(XorShift32(Mul32(XorShift32(h, 15), PRIME32_2), 13), PRIME32_3), 16)
  }

  function Process4(h: u32, word: seq<byte>): u32 {
    Mul32(Rotl32(Add32(h, ReadLE(word) * PRIME32_3), 17), PRIME32_4)
  }

  function Process1(h: u32, b: byte): u32 {
    Mul32(Rotl32(Add32(h, b * PRIME32_5), 11), PRIME32_1)
  }

  /** The left-over bytes: words of four first, then single bytes. */
  function Tail32(h: u32, rest: seq<byte>): u32
    decreases |rest|
  {
    if |rest| >= 4 then Tail32(Process4(h, rest[..4]), rest[4..])
    else if |rest| > 0 then Tail32(Process1(h, rest[0]), rest[1..])
    else h
  }

  function Xxh32(): Rounds<Lanes<u32>, u32> {
    Rounds(16, 0x1_0000_0000, Init32, Stripe32, Converge32, (v: Lanes<u32>) => Add32(v.c, PRIME32_5),
           (h: u32, len: nat, rest: seq<byte>) => Avalanche32(Tail32(Add32(h, len), rest)))
  }

  /** A stripe is four words, one for each lane. */
  lemma Stripe32Lanes(v: Lanes<u32>, a: seq<byte>, b: seq<byte>, c: seq<byte>, d: seq<byte>)
    requires |a| == |b| == |c| == |d| == 4
    ensures |a + b + c + d| == Xxh32().stripeLen && Xxh32().lengthModulus == Pow2(32)
    ensures Xxh32().round(v, a + b + c + d) ==
      Lanes(Round32(v.a, ReadLE(a)), Round32(v.b, ReadLE(b)), Round32(v.c, ReadLE(c)), Round32(v.d, ReadLE(d)))
  {
    var s := a + b + c + d;
    Pow32();
    assert s[0..4] == a && s[4..8] == b && s[8..12] == c && s[12..16] == d;
  }

  /** The digest of a short input starts from lane 3, which still is the seed: the one-shot code's seed + PRIME32_5. */
  lemma SmallIsSeed32(seed: u32)
    ensures Xxh32().Valid() && Xxh32().small(Xxh32().init(seed)) == Add32(seed, PRIME32_5)
  {
    assert seed % 0x1_0000_0000 == seed;
    assert Init32(seed).c == seed;
  }

  /** XXH32_finalize, the compact loop. */
  method Finalize32(h0: u32, rest: seq<byte>) returns (h: u32)
    ensures h == Avalanche32(Tail32(h0, rest))
  {
    h := h0;
    var p := 0;
    assert rest[0..] == rest;
    while |rest| - p >= 4
      invariant 0 <= p <= |rest| && Tail32(h, rest[p..]) == Tail32(h0, rest)
    {
      assert rest[p..][..4] == rest[p..p + 4] && rest[p..][4..] == rest[p + 4..];
      h := Process4(h, rest[p..p + 4]);
      p := p + 4;
    }
    while p < |rest|
      invariant 0 <= p <= |rest| && |rest| - p < 4 && Tail32(h, rest[p..]) == Tail32(h0, rest)
    {
      assert rest[p..][0] == rest[p] && rest[p..][1..] == rest[p + 1..];
      h := Process1(h, rest[p]);
      p := p + 1;
    }
    h := Avalanche32(h);
  }

  method Next4(h: u32, rest: seq<byte>, p: nat) returns (h': u32, p': nat)
    requires p + 4 <= |rest|
    ensures p' == p + 4 && Tail32(h', rest[p'..]) == Tail32(h, rest[p..])
  {
    assert rest[p..][..4] == rest[p..p + 4] && rest[p..][4..] == rest[p + 4..];
    h', p' := Process4(h, rest[p..p + 4]), p + 4;
  }

  method Next1(h: u32, rest: seq<byte>, p: nat) returns (h': u32, p': nat)
    requires |rest| - 4 < p < |rest|
    ensures p' == p + 1 && Tail32(h', rest[p'..]) == Tail32(h, rest[p..])
  {
    assert rest[p..][0] == rest[p] && rest[p..][1..] == rest[p + 1..];
    h', p' := Process1(h, rest[p]), p + 1;
  }

  /** One to three PROCESS4 that fall through to the next. */
  method Words(h0: u32, rest: seq<byte>, k: nat) returns (h: u32, p: nat)
    requires k <= 3 && 4 * k <= |rest|
    ensures p == 4 * k && Tail32(h, rest[p..]) == Tail32(h0, rest)
  {
    h, p := h0, 0;
    assert rest[0..] == rest;
    if k >= 3 { h, p := Next4(h, rest, p); }
    if k >= 2 { h, p := Next4(h, rest, p); }
    if k >= 1 { h, p := Next4(h, rest, p); }
  }

  /** Up to three PROCESS1 that fall through to the next. */
  method LastBytes(h0: u32, rest: seq<byte>, p0: nat) returns (h: u32)
    requires p0 <= |rest| < p0 + 4
    ensures h == Tail32(h0, rest[p0..])
  {
    var p := p0;
    h := h0;
    if |rest| - p >= 3 { h, p := Next1(h, rest, p); }
    if |rest| - p >= 2 { h, p := Next1(h, rest, p); }
    if |rest| - p >= 1 { h, p := Next1(h, rest, p); }
    assert rest[p..] == [];
  }

  /** XXH32_finalize with XXH32_ENDJMP: a switch on the length whose cases fall through gives the same hash. */
  method Finalize32Jump(h0: u32, rest: seq<byte>) returns (h: u32)
    requires |rest| < 16
    ensures h == Avalanche32(Tail32(h0, rest))
  {
    var n, p := |rest|, 0;
    if n == 12 || n == 8 || n == 4 {
      h, p := Words(h0, rest, if n == 12 then 3 else if n == 8 then 2 else 1);
    } else if n == 13 || n == 9 || n == 5 {
      h, p := Words(h0, rest, if n == 13 then 3 else if n == 9 then 2 else 1);
    } else if n == 14 || n == 10 || n == 6 {
      h, p := Words(h0, rest, if n == 14 then 3 else if n == 10 then 2 else 1);
    } else {
      h, p := Words(h0, rest, if n == 15 then 3 else if n == 11 then 2 else if n == 7 then 1 else 0);
    }
    h := LastBytes(h, rest, p);
    h := Avalanche32(h);
  }

  // ----- XXH64 -------------------------------------------------------------

  const PRIME64_1: u64 := 0x9E3779B185EBCA87
  const PRIME64_2: u64 := 0xC2B2AE3D27D4EB4F
  const PRIME64_3: u64 := 0x165667B19E3779F9
  const PRIME64_4: u64 := 0x85EBCA77C2B2AE63
  const PRIME64_5: u64 := 0x27D4EB2F165667C5

  function Round64(acc: u64, input: u64): u64 {
    Mul64(Rotl64(Add64(acc, Mul64(input, PRIME64_2)), 31), PRIME64_1)
  }

  function MergeRound64(acc: u64, val: u64): u64 {
    Add64(Mul64(Xor64(acc, Round64(0, val)), PRIME64_1), PRIME64_4)
  }

  function Init64(seed: u64): Lanes<u64> {
    Lanes(Add64(seed, Add64(PRIME64_1, PRIME64_2)), Add64(seed, PRIME64_2), seed, Sub64(seed, PRIME64_1))
  }

  function Stripe64(v: Lanes<u64>, s: seq<byte>): Lanes<u64> {
    if |s| != 32 then v else
      Lanes(Round64(v.a, Read64(s, 0)), Round64(v.b, Read64(s, 8)),
            Round64(v.c, Read64(s, 16)), Round64(v.d, Read64(s, 24)))
  }

  function Sum64(v: Lanes<u64>): u64 {
    Add64(Add64(Add64(Rotl64(v.a, 1), Rotl64(v.b, 7)), Rotl64(v.c, 12)), Rotl64(v.d, 18))
  }

  function Converge64(v: Lanes<u64>): u64 {
    MergeRound64(MergeRound64(MergeRound64(MergeRound64(Sum64(v), v.a), v.b), v.c), v.d)
  }

  function Avalanche64(h: u64): u64 {
    XorShift64(Mul64(XorShift64(Mul64(XorShift64(h, 33), PRIME64_2), 29), PRIME64_3), 32)
  }

  function ProcessWord64(h: u64, word: u64): u64 {
    Add64(Mul64(Rotl64(Xor64(h, Round64(0, word)), 27), PRIME64_1), PRIME64_4)
  }

  function ProcessHalf64(h: u64, word: u32): u64 {
    Add64(Mul64(Rotl64(Xor64(h, Mul64(word, PRIME64_1)), 23), PRIME64_2), PRIME64_3)
  }

  function ProcessByte64(h: u64, b: byte): u64 {
    Mul64(Rotl64(Xor64(h, Mul64(b, PRIME64_5)), 11), PRIME64_1)
  }

  /** The left-over bytes: words of eight, at most one of four, then single bytes. */
  function Tail64(h: u64, rest: seq<byte>): u64
    decreases |rest|
  {
    if |rest| >= 8 then Tail64(ProcessWord64(h, Read64(rest, 0)), rest[8..])
    else if |rest| >= 4 then Tail64(ProcessHalf64(h, Read32(rest, 0)), rest[4..])
    else if |rest| > 0 then Tail64(ProcessByte64(h, rest[0]), rest[1..])
    else h
  }

  method NextWord64(h: u64, rest: seq<byte>, p: nat) returns (h': u64, p': nat)
    requires p + 8 <= |rest|
    ensures p' == p + 8 && Tail64(h', rest[p'..]) == Tail64(h, rest[p..])
  {
    assert rest[p..][0..8] == rest[p..p + 8] && rest[p..][8..] == rest[p + 8..];
    h', p' := ProcessWord64(h, Read64(rest, p)), p + 8;
  }

  /** XXH64_finalize: words of eight, then one of four, then bytes. */
  method Finalize64(h0: u64, rest: seq<byte>) returns (h: u64)
    ensures h == Avalanche64(Tail64(h0, rest))
  {
    h := h0;
    var p := 0;
    assert rest[0..] == rest;
    while |rest| - p >= 8
      invariant 0 <= p <= |rest| && Tail64(h, rest[p..]) == Tail64(h0, rest)
    {
      h, p := NextWord64(h, rest, p);
    }
    if |rest| - p >= 4 {
      assert rest[p..][..4] == rest[p..p + 4] && rest[p..][4..] == rest[p + 4..];
      h := ProcessHalf64(h, Read32(rest, p));
      p := p + 4;
    }
    while |rest| - p > 0
      invariant 0 <= p <= |rest| && |rest| - p < 4 && Tail64(h, rest[p..]) == Tail64(h0, rest)
    {
      assert rest[p..][0] == rest[p] && rest[p..][1..] == rest[p + 1..];
      h := ProcessByte64(h, rest[p]);
      p := p + 1;
    }
    h := Avalanche64(h);
  }

  function Xxh64(): Rounds<Lanes<u64>, u64> {
    Rounds(32, TWO64, Init64, Stripe64, Converge64, (v: Lanes<u64>) => Add64(v.c, PRIME64_5),
           (h: u64, len: nat, rest: seq<byte>) => Avalanche64(Tail64(Add64(h, len % TWO64), rest)))
  }

  /** A stripe is four words, one for each lane. */
  lemma Stripe64Lanes(v: Lanes<u64>, a: seq<byte>, b: seq<byte>, c: seq<byte>, d: seq<byte>)
    requires |a| == |b| == |c| == |d| == 8
    ensures |a + b + c + d| == Xxh64().stripeLen && Xxh64().lengthModulus == Pow2(64)
    ensures Xxh64().round(v, a + b + c + d) ==
      Lanes(Round64(v.a, Read64(a, 0)), Round64(v.b, Read64(b, 0)), Round64(v.c, Read64(c, 0)),
            Round64(v.d, Read64(d, 0)))
  {
    var s := a + b + c + d;
    Pow64();
    assert s[0..8] == a == a[0..8] && s[8..16] == b == b[0..8];
    assert s[16..24] == c == c[0..8] && s[24..32] == d == d[0..8];
  }

  lemma SmallIsSeed64(seed: u64)
    ensures Xxh64().Valid() && Xxh64().small(Xxh64().init(seed)) == Add64(seed, PRIME64_5)
  {
  }
}

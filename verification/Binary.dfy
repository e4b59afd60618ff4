/** Powers of two, exclusive or, and numbers as bytes of memory. */
module Binary {
  import opened Arith
  import opened Bytes

  function Pow2(n: nat): (p: nat)
    ensures p > 0
  {
    if n == 0 then 1 else 2 * Pow2(n - 1)
  }

  /** Bitwise exclusive or. */
  function XorNat(x: nat, y: nat): nat {
    if x == 0 && y == 0 then 0 else (x + y) % 2 + 2 * XorNat(x / 2, y / 2)
  }

  lemma {:induction false} XorBound(x: nat, y: nat, n: nat)
    requires x < Pow2(n) && y < Pow2(n)
    ensures XorNat(x, y) < Pow2(n)
  {
    if n == 0 {
    } else {
      XorBound(x / 2, y / 2, n - 1);
    }
  }

  lemma Pow2Add(a: nat, b: nat)
    ensures Pow2(a + b) == Pow2(a) * Pow2(b)
    decreases a
  {
    if a == 0 {
    } else {
      Pow2Add(a - 1, b);
      assert Pow2(a + b) == 2 * Pow2((a - 1) + b);
    }
  }

  lemma Pow32()
    ensures Pow2(32) == 0x1_0000_0000
  {
    assert Pow2(8) == 256;
    Pow2Add(8, 8);
    Pow2Add(16, 16);
  }

  lemma Pow64()
    ensures Pow2(64) == TWO64
  {
    Pow32();
    Pow2Add(32, 32);
  }

  /** Little-endian value of a byte string. */
  function ReadLE(s: seq<byte>): nat {
    if s == [] then 0 else s[0] + 256 * ReadLE(s[1..])
  }

  lemma Pow2Byte(n: nat)
    ensures Pow2(8 * (n + 1)) == 256 * Pow2(8 * n)
  {
    assert Pow2(8) == 256;
    Pow2Add(8, 8 * n);
  }

  lemma {:induction false} ReadBound(s: seq<byte>)
    ensures ReadLE(s) < Pow2(8 * |s|)
  {
    if s == [] {
    } else {
      ReadBound(s[1..]);
      Pow2Byte(|s| - 1);
    }
  }

  function WriteLE(x: nat, n: nat): (s: seq<byte>)
    ensures |s| == n
    decreases x, n
  {
    if n == 0 then [] else [x % 256] + WriteLE(x / 256, n - 1)
  }

  lemma {:induction false} WriteReadLE(s: seq<byte>)
    ensures WriteLE(ReadLE(s), |s|) == s
  {
    if s == [] {
    } else {
      WriteReadLE(s[1..]);
      assert ReadLE(s) / 256 == ReadLE(s[1..]);
    }
  }

  lemma {:induction false} ReadWriteLE(x: nat, n: nat)
    requires x < Pow2(8 * n)
    ensures ReadLE(WriteLE(x, n)) == x
    decreases x, n
  {
    if n == 0 {
    } else {
      Pow2Byte(n - 1);
      ReadWriteLE(x / 256, n - 1);
      assert WriteLE(x, n)[1..] == WriteLE(x / 256, n - 1);
    }
  }

  lemma DivideByte(x: nat, p: nat)
    requires p > 0
    ensures x / (256 * p) == x / 256 / p
  {
    var q, r := x / 256 / p, x / 256 % p;
    assert x / 256 == p * q + r;
    assert 256 * p * q == 256 * (p * q);
    ModUnique(x, 256 * p, q, 256 * r + x % 256);
  }

  lemma FirstByte(s: seq<byte>)
    requires s != []
    ensures ReadLE(s) % 256 == s[0] && ReadLE(s) / 256 == ReadLE(s[1..])
  {
  }

  /** Byte k of a little-endian number counts Pow2(8 * k). */
  lemma {:induction false} ByteOfRead(s: seq<byte>, k: nat)
    requires k < |s|
    ensures ReadLE(s) / Pow2(8 * k) % 256 == s[k]
    decreases k
  {
    FirstByte(s);
    if k == 0 {
      assert Pow2(8 * k) == 1;
    } else {
      ByteOfRead(s[1..], k - 1);
      Pow2Byte(k - 1);
      DivideByte(ReadLE(s), Pow2(8 * (k - 1)));
    }
  }
  lemma XorCommutes(x: nat, y: nat)
    ensures XorNat(x, y) == XorNat(y, x)
  {
  }

  /** An exclusive or with anything but zero changes a number. */
  lemma {:induction false} XorChanges(x: nat, y: nat)
    ensures XorNat(x, y) == x <==> y == 0
  {
    if x == 0 && y == 0 {
    } else {
      XorChanges(x / 2, y / 2);
    }
  }

  /** x >> k */
  function ShiftRight(x: nat, k: nat): (r: nat)
    ensures r <= x
    decreases x, k
  {
    if k == 0 then x else ShiftRight(x / 2, k - 1)
  }

  // ----- Words of 64 bits --------------------------------------------------

  function Add64(x: u64, y: u64): u64 {
    if x + y < TWO64 then x + y else x + y - TWO64
  }

  function Sub64(x: u64, y: u64): u64 {
    if x >= y then x - y else x + TWO64 - y
  }

  /** Both are modulo 2^64. */
  lemma SumsModulo(x: u64, y: u64)
    ensures Add64(x, y) == (x + y) % 0x1_0000_0000_0000_0000
    ensures Sub64(x, y) == (x - y) % 0x1_0000_0000_0000_0000
  {
  }

  function Mul64(x: u64, y: u64): u64 {
    (x * y) % 0x1_0000_0000_0000_0000
  }

  function Xor64(x: u64, y: u64): u64 {
    Pow64();
    XorBound(x, y, 64);
    XorNat(x, y)
  }

  /** x ^ (x >> k) */
  function XorShift32(x: u32, k: nat): u32 {
    Pow32();
    XorBound(x, ShiftRight(x, k), 32);
    XorNat(x, ShiftRight(x, k))
  }

  function XorShift64(x: u64, k: nat): u64 {
    Xor64(x, ShiftRight(x, k))
  }

  /** XXH_readLE64(s + at) */
  function Read64(s: seq<byte>, at: nat): u64
    requires at + 8 <= |s|
  {
    Pow64();
    ReadBound(s[at..at + 8]);
    ReadLE(s[at..at + 8])
  }

  /** XXH_readLE32(s + at) */
  function Read32(s: seq<byte>, at: nat): u32
    requires at + 4 <= |s|
  {
    Pow32();
    ReadBound(s[at..at + 4]);
    ReadLE(s[at..at + 4])
  }
}

/**
  The havoc mutations that overwrite one, two or four bytes in place: bit and
  byte flips, interesting values, and additions and subtractions on words of
  either byte order.
 */
module HavocPoke {
  import opened Binary
  import opened Bytes

  const ARITH_MAX: nat := 35

  const INTERESTING_8: seq<int> := [-128, -1, 0, 1, 16, 32, 64, 100, 127]
  const MORE_16: seq<int> := [-32768, -129, 128, 255, 256, 512, 1000, 1024, 4096, 32767]
  const MORE_32: seq<int> :=
    [-2147483648, -100663046, -32769, 32768, 65535, 65536, 100663045, 2139095040, 2147483647]

  const INTERESTING_16: seq<int> := INTERESTING_8 + MORE_16
  const INTERESTING_32: seq<int> := INTERESTING_16 + MORE_32

  datatype Width = W8 | W16 | W32 {
    function Bytes(): nat { match this case W8 => 1 case W16 => 2 case W32 => 4 }
    function Modulus(): nat { match this case W8 => 0x100 case W16 => 0x1_0000 case W32 => 0x1_0000_0000 }
    function Interesting(): seq<int> {
      match this case W8 => INTERESTING_8 case W16 => INTERESTING_16 case W32 => INTERESTING_32
    }
  }

  datatype Poke =
    | FlipBit | Rand8 | Flip8 | ByteAdd | ByteSub
    | Interesting(w: Width, big: bool)
    | Arith(w: Width, big: bool, add: bool)
  {
    function Width(): Width {
      if Interesting? || Arith? then w else W8
    }
  }

  lemma LowPowers()
    ensures Pow2(4) == 16 && Pow2(5) == 32 && Pow2(6) == 64 && Pow2(7) == 128 && Pow2(8) == 256 && Pow2(9) == 512
  {
  }

  lemma HighPowers()
    ensures Pow2(10) == 1024 && Pow2(12) == 4096 && Pow2(15) == 32768 && Pow2(16) == 65536
    ensures Pow2(23) == 0x80_0000 && Pow2(31) == 0x8000_0000
  {
    assert Pow2(8) == 256;
    Pow2Add(8, 7);
    Pow2Add(8, 8);
    Pow2Add(16, 7);
    Pow2Add(16, 15);
  }

  function Power(k: nat): int { Pow2(k) }

  /** The values before and after an overflow, buffer sizes, numbers of bytes 05 ff ff 05, and the infinite float. */
  lemma InterestingValues()
    ensures INTERESTING_8 == [-Power(7), -1, 0, 1, Power(4), Power(5), Power(6), 100, Power(7) - 1]
    ensures MORE_16 == [-Power(15), -Power(7) - 1, Power(7), Power(8) - 1, Power(8), Power(9), 1000, Power(10),
                        Power(12), Power(15) - 1]
    ensures MORE_32 == [-Power(31), -0x5FF_FF05 - 1, -Power(15) - 1, Power(15), Power(16) - 1, Power(16), 0x5FF_FF05,
                        255 * Power(23), Power(31) - 1]
  {
    LowPowers();
    HighPowers();
  }

  // ----- What a poke means -------------------------------------------------

  function Reversed(s: seq<byte>): (r: seq<byte>)
    ensures |r| == |s| && forall k | 0 <= k < |s| :: r[k] == s[|s| - 1 - k]
  {
    seq(|s|, k requires 0 <= k < |s| => s[|s| - 1 - k])
  }

  /** The number that a machine of this byte order sees in `s`. */
  function Number(s: seq<byte>, big: bool): nat {
    ReadLE(if big then Reversed(s) else s)
  }

  /** The byte order in which a word is added to: the 32-bit big-endian addition works on the little-endian word. */
  predicate AddsBigEndian(p: Poke) {
    p.Arith? && p.big && !(p.w.W32? && p.add)
  }

  /** x + item or x - item on a word. */
  function Plus(x: nat, item: nat, add: bool, w: Width): (r: nat)
    ensures r < w.Modulus()
  {
    (if add then x + item else x - item) % w.Modulus()
  }

  /** The random part that each poke can have. */
  predicate Drawn(p: Poke, item: nat) {
    match p
    case FlipBit => item < 8
    case Rand8 => 1 <= item <= 255
    case Interesting(w, _) => item < |w.Interesting()|
    case Arith(_, _, _) => 1 <= item <= 35
    case _ => item == 0
  }

  lemma Wraps(x: int, m: int)
    requires m in {0x100, 0x1_0000, 0x1_0000_0000} && -m <= x < 2 * m
    ensures x % m == if x < 0 then x + m else if x < m then x else x - m
  {
    if m == 0x100 {
    } else if m == 0x1_0000 {
    } else {
    }
  }

  /** Subtracting takes back what was added. */
  lemma PlusMinus(x: nat, item: nat, w: Width)
    requires x < w.Modulus() && item < w.Modulus()
    ensures Plus(Plus(x, item, true, w), item, false, w) == x
    ensures item < w.Modulus() - x ==> Plus(x, item, true, w) == x + item
  {
    Wraps(x + item, w.Modulus());
    Wraps(Plus(x, item, true, w) - item, w.Modulus());
  }
  /** From the old bytes `s` a poke with random part `item` makes the bytes `t`. */
  ghost predicate Poked(p: Poke, s: seq<byte>, t: seq<byte>, item: nat) {
    && |s| == |t| == p.Width().Bytes() && Drawn(p, item)
    && match p
       case FlipBit => t[0] == XorNat(s[0], Pow2(item))
       case Rand8 => t[0] == XorNat(s[0], item)
       case Flip8 => t[0] == XorNat(s[0], 0xff)
       case ByteAdd => t[0] == Plus(s[0], 1, true, W8)
       case ByteSub => t[0] == Plus(s[0], 1, false, W8)
       case Interesting(w, big) => Number(t, big) == w.Interesting()[item] % w.Modulus()
       case Arith(w, big, add) =>
         Number(t, AddsBigEndian(p)) == Plus(Number(s, AddsBigEndian(p)), item, add, w)
  }

  // ----- The code's macros -------------------------------------------------

  /** SWAP16, SWAP32 */
  function Swap(x: nat, w: Width): nat {
    ReadLE(Reversed(WriteLE(x, w.Bytes())))
  }

  lemma PowWidth(w: Width)
    ensures Pow2(8 * w.Bytes()) == w.Modulus()
  {
    assert Pow2(8) == 256;
    Pow2Byte(1);
    Pow2Byte(2);
    Pow2Byte(3);
  }

  lemma ReversedTwice(s: seq<byte>)
    ensures Reversed(Reversed(s)) == s
  {
  }

  /** A stored word is read back, in either byte order. */
  lemma StoreNumber(x: nat, big: bool, w: Width)
    requires x < w.Modulus()
    ensures Number(WriteLE(if big then Swap(x, w) else x, w.Bytes()), big) == x
  {
    PowWidth(w);
    ReadWriteLE(x, w.Bytes());
    if big {
      var r := Reversed(WriteLE(x, w.Bytes()));
      WriteReadLE(r);
      ReversedTwice(WriteLE(x, w.Bytes()));
    }
  }

  /** Reading a word and swapping it gives its big-endian number. */
  lemma SwapNumber(s: seq<byte>, w: Width)
    requires |s| == w.Bytes()
    ensures Swap(ReadLE(s), w) == Number(s, true)
  {
    WriteReadLE(s);
  }

  lemma SwapTwice(x: nat, w: Width)
    requires x < w.Modulus()
    ensures Swap(Swap(x, w), w) == x
  {
    StoreNumber(x, true, w);
  }

  /** The word that an arithmetic mutation stores, swap by swap as the code has it. */
  function ArithWord(p: Poke, x: nat, item: nat): nat
    requires p.Arith?
  {
    if !p.big then Plus(x, item, p.add, p.w)
    else if p.w.W32? && p.add then Swap(Swap(Plus(x, item, p.add, p.w), p.w), p.w)
    else Swap(Plus(Swap(x, p.w), item, p.add, p.w), p.w)
  }

  function ArithBytes(p: Poke, s: seq<byte>, item: nat): seq<byte>
    requires p.Arith?
  {
    WriteLE(ArithWord(p, ReadLE(s), item), p.w.Bytes())
  }

  lemma ArithPokes(p: Poke, s: seq<byte>, item: nat)
    requires p.Arith? && |s| == p.w.Bytes() && 1 <= item <= ARITH_MAX
    ensures Poked(p, s, ArithBytes(p, s, item), item)
  {
    var big := AddsBigEndian(p);
    SwapNumber(s, p.w);
    var sum := Plus(Number(s, big), item, p.add, p.w);
    StoreNumber(sum, big, p.w);
    SwapTwice(sum, p.w);
  }

  lemma {:induction false} Pow2Below(a: nat, b: nat)
    requires a < b
    ensures Pow2(a) < Pow2(b)
    decreases b
  {
    if a == b - 1 {
    } else {
      Pow2Below(a, b - 1);
    }
  }

  lemma ByteXor(b: byte, bit: nat)
    requires bit < 8
    ensures XorNat(b, Pow2(bit)) < 256
  {
    Pow2Below(bit, 8);
    XorBound(b, Pow2(bit), 8);
  }

  /** The new bytes of one poke with this random part. */
  method NewBytes(p: Poke, s: seq<byte>, item: nat) returns (t: seq<byte>)
    requires |s| == p.Width().Bytes() && Drawn(p, item)
    ensures Poked(p, s, t, item)
  {
    match p {
      case FlipBit =>
        ByteXor(s[0], item);
        t := [XorNat(s[0], Pow2(item))];
      case Rand8 =>
        XorBound(s[0], item, 8);
        t := [XorNat(s[0], item)];
      case Flip8 =>
        XorBound(s[0], 0xff, 8);
        t := [XorNat(s[0], 0xff)];
      case ByteAdd => t := [Plus(s[0], 1, true, W8)];
      case ByteSub => t := [Plus(s[0], 1, false, W8)];
      case Interesting(w, big) =>
        var x := w.Interesting()[item] % w.Modulus();
        StoreNumber(x, big, w);
        t := WriteLE(if big then Swap(x, w) else x, w.Bytes());
      case Arith(_, _, _) =>
        ArithPokes(p, s, item);
        t := ArithBytes(p, s, item);
    }
  }

  // ----- The 32-bit big-endian addition ------------------------------------

  function Four(a: byte, b: byte, c: byte, d: byte): int {
    (a as int) + 0x100 * (b as int) + 0x1_0000 * (c as int) + 0x100_0000 * (d as int)
  }

  /** (a', b', c', d') is the sum of (a, b, c, d) and item, least significant byte first. */
  ghost predicate Sum(a: byte, b: byte, c: byte, d: byte, item: nat, a': byte, b': byte, c': byte, d': byte) {
    Four(a', b', c', d') == (Four(a, b, c, d) + item) % 0x1_0000_0000
  }

  lemma FourBytes(s: seq<byte>)
    requires |s| == 4
    ensures ReadLE(s) == Four(s[0], s[1], s[2], s[3])
  {
    var s1, s2, s3 := s[1..], s[2..], s[3..];
    assert s1[1..] == s2 && s2[1..] == s3 && s3[1..] == [];
    assert ReadLE(s3) == s3[0];
    assert ReadLE(s2) == s2[0] + 256 * ReadLE(s3);
    assert ReadLE(s1) == s1[0] + 256 * ReadLE(s2);
  }

  lemma SumOf(s: seq<byte>, t: seq<byte>, item: nat)
    requires |s| == |t| == 4
    ensures ReadLE(t) == Plus(ReadLE(s), item, true, W32) <==> Sum(s[0], s[1], s[2], s[3], item, t[0], t[1], t[2], t[3])
  {
    FourBytes(s);
    FourBytes(t);
  }

  /** Unless the lowest byte carries, the others stay; the highest changes only if every byte below it carries. */
  lemma Carries(a: byte, b: byte, c: byte, d: byte, item: nat, a': byte, b': byte, c': byte, d': byte)
    requires 1 <= item <= ARITH_MAX && Sum(a, b, c, d, item, a', b', c', d')
    ensures a' == if a + item < 0x100 then a + item else a + item - 0x100
    ensures a + item < 0x100 ==> d' == d
    ensures d' != d ==> b == c == 0xff && d' == if d == 0xff then 0 else d + 1
  {
    var x, y := Four(a, b, c, d) + item, Four(a', b', c', d');
    assert y == x || y == x - 0x1_0000_0000;
    var up: int := if (a as int) + item < 0x100 then 0 else 1;
    assert (b' as int) + 0x100 * (c' as int) + 0x1_0000 * (d' as int)
        == (b as int) + 0x100 * (c as int) + 0x1_0000 * (d as int) + up - (if y == x then 0 else 0x100_0000);
  }

  lemma BothSums(a: byte, b: byte, c: byte, d: byte, item: nat, a': byte, b': byte, c': byte, d': byte)
    requires 1 <= item <= ARITH_MAX && Sum(a, b, c, d, item, a', b', c', d')
    ensures Sum(d, c, b, a, item, d', c', b', a') <==> item == 1 && a == b == c == d == 0xff
  {
    Carries(a, b, c, d, item, a', b', c', d');
    if Sum(d, c, b, a, item, d', c', b', a') {
      Carries(d, c, b, a, item, d', c', b', a');
    }
  }

  /**
    MUT_ARITH32BE swaps after the addition, so it adds to the little-endian
    word: the result is the big-endian sum only when 1 is added to 0xffffffff.
   */
  lemma Arith32BigEndian(s: seq<byte>, item: nat)
    requires |s| == 4 && 1 <= item <= ARITH_MAX
    ensures var t := ArithBytes(Arith(W32, true, true), s, item);
      Number(t, true) == Plus(Number(s, true), item, true, W32)
      <==> item == 1 && s == [0xff, 0xff, 0xff, 0xff]
  {
    var p := Arith(W32, true, true);
    var t := ArithBytes(p, s, item);
    ArithPokes(p, s, item);
    SumOf(s, t, item);
    SumOf(Reversed(s), Reversed(t), item);
    BothSums(s[0], s[1], s[2], s[3], item, t[0], t[1], t[2], t[3]);
  }
}

/** Bitwise operations on numbers and on bytes. */
module BitOps {
  import opened Binary
  import opened Bytes

  datatype Op = And | AndNot | Or

  function Bit(op: Op, a: nat, b: nat): nat
    requires a < 2 && b < 2
  {
    match op
    case And => if a == 1 && b == 1 then 1 else 0
    case AndNot => if a == 1 && b == 0 then 1 else 0
    case Or => if a == 1 || b == 1 then 1 else 0
  }

  /** x op y, bit by bit. */
  function Bits(op: Op, x: nat, y: nat): nat {
    if x == 0 && y == 0 then 0 else Bit(op, x % 2, y % 2) + 2 * Bits(op, x / 2, y / 2)
  }

  lemma {:induction false} BitsBound(op: Op, x: nat, y: nat, n: nat)
    requires x < Pow2(n) && y < Pow2(n)
    ensures Bits(op, x, y) < Pow2(n)
  {
    if n == 0 {
    } else {
      BitsBound(op, x / 2, y / 2, n - 1);
    }
  }

  lemma BitsStep(op: Op, x: nat, y: nat)
    ensures Bits(op, x, y) == Bit(op, x % 2, y % 2) + 2 * Bits(op, x / 2, y / 2)
  {
  }

  function BitAt(x: nat, i: nat): bool
    decreases i
  {
    if i == 0 then x % 2 == 1 else BitAt(x / 2, i - 1)
  }

  function BoolOp(op: Op, a: bool, b: bool): bool {
    match op
    case And => a && b
    case AndNot => a && !b
    case Or => a || b
  }

  lemma Halves(z: nat, b: nat, q: nat)
    ensures b < 2 && z == b + 2 * q ==> z % 2 == b && z / 2 == q
  {
  }

  /** Every bit of x op y. */
  lemma {:induction false} BitOfBits(op: Op, x: nat, y: nat, i: nat)
    ensures BitAt(Bits(op, x, y), i) == BoolOp(op, BitAt(x, i), BitAt(y, i))
    decreases i
  {
    Halves(Bits(op, x, y), Bit(op, x % 2, y % 2), Bits(op, x / 2, y / 2));
    if i == 0 {
    } else {
      BitOfBits(op, x / 2, y / 2, i - 1);
    }
  }

  /** Every bit of an exclusive or. */
  lemma {:induction false} BitOfXor(x: nat, y: nat, i: nat)
    ensures BitAt(XorNat(x, y), i) <==> BitAt(x, i) != BitAt(y, i)
    decreases i
  {
    Halves(XorNat(x, y), (x + y) % 2, XorNat(x / 2, y / 2));
    if i == 0 {
    } else {
      BitOfXor(x / 2, y / 2, i - 1);
    }
  }

  lemma {:induction false} BitOfShift(x: nat, k: nat, i: nat)
    ensures BitAt(ShiftRight(x, k), i) == BitAt(x, i + k)
    decreases k
  {
    if k == 0 {
    } else {
      BitOfShift(x / 2, k - 1, i);
    }
  }

  lemma {:induction false} SameBits(x: nat, y: nat, n: nat)
    requires x < Pow2(n) && y < Pow2(n)
    requires forall i | 0 <= i < n :: BitAt(x, i) == BitAt(y, i)
    ensures x == y
  {
    if n == 0 {
    } else {
      assert BitAt(x, 0) == BitAt(y, 0);
      forall i | 0 <= i < n - 1
        ensures BitAt(x / 2, i) == BitAt(y / 2, i)
      {
        assert BitAt(x, i + 1) == BitAt(y, i + 1);
      }
      SameBits(x / 2, y / 2, n - 1);
    }
  }

  /** Bytes with the same bits are the same. */
  lemma SameByte(x: byte, y: byte)
    requires forall i | 0 <= i < 8 :: BitAt(x, i) == BitAt(y, i)
    ensures x == y
  {
    assert Pow2(8) == 256;
    SameBits(x, y, 8);
  }

  ghost predicate IsOp(op: Op, x: byte, y: byte, r: byte) {
    forall i | 0 <= i < 8 :: BitAt(r, i) == BoolOp(op, BitAt(x, i), BitAt(y, i))
  }

  lemma BitsOfBytes(op: Op, x: byte, y: byte)
    ensures Bits(op, x, y) < 256 && IsOp(op, x, y, Bits(op, x, y))
  {
    assert Pow2(8) == 256;
    BitsBound(op, x, y, 8);
    forall i | 0 <= i < 8
      ensures BitAt(Bits(op, x, y), i) == BoolOp(op, BitAt(x, i), BitAt(y, i))
    {
      BitOfBits(op, x, y, i);
    }
  }

  /** x op y on bytes. */
  ghost function ByteOp(op: Op, x: byte, y: byte): byte {
    BitsOfBytes(op, x, y);
    var r: byte :| IsOp(op, x, y, r);
    r
  }

  lemma ByteOpIs(op: Op, x: byte, y: byte)
    ensures ByteOp(op, x, y) == Bits(op, x, y)
  {
    BitsOfBytes(op, x, y);
    SameByte(ByteOp(op, x, y), Bits(op, x, y));
  }

  /** x shifted left by n. */
  function Shifted(x: nat, n: nat): nat
    decreases x, n
  {
    if n == 0 then x else 2 * Shifted(x, n - 1)
  }

  lemma Doubled(a: nat, u: nat)
    ensures (a + 2 * u) % 2 == a % 2 && (a + 2 * u) / 2 == a / 2 + u
  {
  }

  lemma SplitStep(op: Op, a: nat, b: nat, u: nat, v: nat, w: nat)
    requires Bits(op, a / 2 + u, b / 2 + v) == Bits(op, a / 2, b / 2) + w
    ensures Bits(op, a + 2 * u, b + 2 * v) == Bits(op, a, b) + 2 * w
  {
    var x, y := a + 2 * u, b + 2 * v;
    Doubled(a, u);
    Doubled(b, v);
    BitsStep(op, a, b);
    BitsStep(op, x, y);
  }

  /** The low n bits and the bits above them do not mix. */
  lemma {:induction false} BitsSplit(op: Op, a: nat, b: nat, x: nat, y: nat, n: nat)
    requires a < Pow2(n) && b < Pow2(n)
    ensures Bits(op, a + Shifted(x, n), b + Shifted(y, n)) == Bits(op, a, b) + Shifted(Bits(op, x, y), n)
    decreases a, n
  {
    if n == 0 {
    } else {
      BitsSplit(op, a / 2, b / 2, x, y, n - 1);
      SplitStep(op, a, b, Shifted(x, n - 1), Shifted(y, n - 1), Shifted(Bits(op, x, y), n - 1));
    }
  }

  lemma ShiftedByte(x: nat)
    ensures Shifted(x, 8) == 256 * x
  {
    assert Shifted(x, 0) == x;
    assert Shifted(x, 1) == 2 * x;
    assert Shifted(x, 2) == 4 * x;
    assert Shifted(x, 3) == 8 * x;
    assert Shifted(x, 4) == 16 * x;
    assert Shifted(x, 5) == 32 * x;
    assert Shifted(x, 6) == 64 * x;
    assert Shifted(x, 7) == 128 * x;
  }

  lemma {:induction false} OneBits(n: nat, i: nat)
    requires i < n
    ensures BitAt(Pow2(n) - 1, i)
    decreases n
  {
    if i == 0 {
    } else {
      OneBits(n - 1, i - 1);
    }
  }

  /** 0xff has every bit. */
  lemma AndFull(x: byte)
    ensures ByteOp(And, x, 0xff) == x
  {
    assert Pow2(8) == 256;
    forall i | 0 <= i < 8
      ensures BitAt(0xff, i)
    {
      OneBits(8, i);
    }
    SameByte(ByteOp(And, x, 0xff), x);
  }

  /** Clearing the bits of one trace and then of another clears those of both. */
  lemma ClearTwice(v: byte, c: byte, d: byte)
    ensures ByteOp(AndNot, ByteOp(AndNot, v, c), d) == ByteOp(AndNot, v, ByteOp(Or, c, d))
  {
    SameByte(ByteOp(AndNot, ByteOp(AndNot, v, c), d), ByteOp(AndNot, v, ByteOp(Or, c, d)));
  }

  lemma {:induction false} ZeroBit(i: nat)
    ensures !BitAt(0, i)
  {
    if i == 0 {
    } else {
      ZeroBit(i - 1);
    }
  }

  lemma ZeroBits()
    ensures forall i | 0 <= i < 8 :: !BitAt(0, i)
  {
    forall i | 0 <= i < 8
      ensures !BitAt(0, i)
    {
      ZeroBit(i);
    }
  }

  /** Two bytes have no bit in common exactly when clearing the one does not change the other. */
  lemma NoneInCommon(c: byte, v: byte)
    ensures ByteOp(And, c, v) == 0 <==> ByteOp(AndNot, v, c) == v
  {
    ZeroBits();
    var both, rest := ByteOp(And, c, v), ByteOp(AndNot, v, c);
    if both == 0 {
      forall i | 0 <= i < 8
        ensures BitAt(rest, i) == BitAt(v, i)
      {
        assert BitAt(both, i) == (BitAt(c, i) && BitAt(v, i));
      }
      SameByte(rest, v);
    }
    if rest == v {
      forall i | 0 <= i < 8
        ensures BitAt(both, i) == BitAt(0, i)
      {
        assert BitAt(rest, i) == (BitAt(v, i) && !BitAt(c, i));
      }
      SameByte(both, 0);
    }
  }

  /** Bits that were cleared are gone, and stay gone when others are cleared. */
  lemma StaysGone(c: byte, v: byte, d: byte)
    requires ByteOp(And, c, v) == 0 || c == d
    ensures ByteOp(And, c, ByteOp(AndNot, v, d)) == 0
  {
    ZeroBits();
    var both, rest := ByteOp(And, c, v), ByteOp(AndNot, v, d);
    var now := ByteOp(And, c, rest);
    forall i | 0 <= i < 8
      ensures BitAt(now, i) == BitAt(0, i)
    {
      assert BitAt(both, i) == (BitAt(c, i) && BitAt(v, i));
      assert BitAt(rest, i) == (BitAt(v, i) && !BitAt(d, i));
    }
    SameByte(now, 0);
  }

  /** Zero has nothing in common with anything. */
  lemma AndZero(v: byte)
    ensures ByteOp(And, 0, v) == 0 && ByteOp(AndNot, v, 0) == v
  {
    ZeroBits();
    SameByte(ByteOp(And, 0, v), 0);
    NoneInCommon(0, v);
  }

  lemma {:induction false} BitOfPow(k: nat, i: nat)
    ensures BitAt(Pow2(k), i) <==> i == k
    decreases i
  {
    if k == 0 && i > 0 {
      ZeroBit(i - 1);
    } else if k > 0 && i > 0 {
      BitOfPow(k - 1, i - 1);
    }
  }

  /** The number of bits of x. */
  function BitLength(x: nat): nat {
    if x == 0 then 0 else 1 + BitLength(x / 2)
  }

  lemma {:induction false} BitLengthBounds(x: nat)
    ensures x < Pow2(BitLength(x))
    ensures x > 0 ==> Pow2(BitLength(x) - 1) <= x && BitAt(x, BitLength(x) - 1)
  {
    if x == 0 {
    } else {
      BitLengthBounds(x / 2);
    }
  }

  lemma {:induction false} BitLengthFits(x: nat, n: nat)
    requires x < Pow2(n)
    ensures BitLength(x) <= n
  {
    if x == 0 {
    } else {
      BitLengthFits(x / 2, n - 1);
    }
  }
}

/**
  MUT_ASCIINUM of the havoc mutator: find a decimal number in the buffer, read
  it without overflowing 64 bits, change it, and write it back.
 */
module HavocNumber {
  import opened Bytes

  const INT64_MAX: int := 0x7fff_ffff_ffff_ffff
  const INT64_MIN: int := -0x8000_0000_0000_0000

  const MINUS: byte := '-' as int

  predicate IsDigit(b: byte) {
    '0' as int <= b <= '9' as int
  }

  ghost predicate AllDigits(s: seq<byte>) {
    forall i | 0 <= i < |s| :: IsDigit(s[i])
  }

  function Digit(b: byte): int {
    b as int - '0' as int
  }

  /** The value of a string of decimal digits. */
  function Value(s: seq<byte>): (v: int)
    decreases |s|
  {
    if s == [] then 0 else 10 * Value(s[..|s| - 1]) + Digit(s[|s| - 1])
  }

  /** Division as C does it: towards zero. */
  function Quot(a: int, b: int): int
    requires b > 0
  {
    if a >= 0 then a / b else -(-a / b)
  }

  // ----- Finding the digits ------------------------------------------------

  /** The first digit at or after `from` and before `to`, or `to`. */
  method FirstDigit(buf: seq<byte>, from: nat, to: nat) returns (at: nat)
    requires from <= to <= |buf|
    ensures from <= at <= to
    ensures forall k | from <= k < at :: !IsDigit(buf[k])
    ensures at < to ==> IsDigit(buf[at])
  {
    at := from;
    while at < to && !IsDigit(buf[at])
      invariant from <= at <= to
      invariant forall k | from <= k < at :: !IsDigit(buf[k])
    {
      at := at + 1;
    }
  }

  /** The number starts at the first digit from a random place on, wrapping around once; |buf| when there is none. */
  method FindNumber(buf: seq<byte>, start: nat) returns (off: nat)
    requires start < |buf|
    ensures off <= |buf|
    ensures off < |buf| ==> IsDigit(buf[off])
    ensures off == |buf| <==> forall k | 0 <= k < |buf| :: !IsDigit(buf[k])
    ensures start <= off ==> forall k | start <= k < off :: !IsDigit(buf[k])
    ensures off < start ==> forall k | 0 <= k < off || start <= k < |buf| :: !IsDigit(buf[k])
  {
    off := FirstDigit(buf, start, |buf|);
    if off == |buf| {
      off := FirstDigit(buf, 0, start);
      if off == start { off := |buf|; }
    }
  }

  /** The digits from `off` up to `off2` fit 64 bits, and no longer run of them does. */
  ghost predicate LongestFit(buf: seq<byte>, off: nat, off2: nat) {
    && off < off2 <= |buf|
    && AllDigits(buf[off..off2])
    && Value(buf[off..off2]) <= INT64_MAX
    && (off2 < |buf| && IsDigit(buf[off2]) ==> Value(buf[off..off2 + 1]) > INT64_MAX)
  }

  lemma ValueNext(buf: seq<byte>, off: nat, i: nat)
    requires off <= i < |buf|
    ensures Value(buf[off..i + 1]) == 10 * Value(buf[off..i]) + Digit(buf[i])
  {
    var s := buf[off..i + 1];
    assert s[..|s| - 1] == buf[off..i];
  }

  /** Reads the number at `off`, stopping before a digit that would overflow. */
  method ReadNumber(buf: seq<byte>, off: nat) returns (val: int, off2: nat)
    requires off < |buf| && IsDigit(buf[off])
    ensures LongestFit(buf, off, off2)
    ensures val == Value(buf[off..off2]) && 0 <= val
  {
    off2 := off + 1;
    while off2 < |buf| && IsDigit(buf[off2])
      invariant off < off2 <= |buf|
      invariant forall k | off <= k < off2 :: IsDigit(buf[k])
    {
      off2 := off2 + 1;
    }
    val := Digit(buf[off]);
    ValueNext(buf, off, off);
    var i := off + 1;
    while i < off2
      invariant off < i <= off2
      invariant val == Value(buf[off..i]) && 0 <= val <= INT64_MAX
    {
      ValueNext(buf, off, i);
      var digit := Digit(buf[i]);
      if val > INT64_MAX / 10 || val * 10 > INT64_MAX - digit {
        off2 := i;
        break;
      }
      val := val * 10 + digit;
      i := i + 1;
    }
  }

  // ----- Changing the value ------------------------------------------------

  /** The number read at `off`, negative after a minus sign. */
  ghost function SignedValue(buf: seq<byte>, off: nat, off2: nat): int
    requires off <= off2 <= |buf|
  {
    if off > 0 && buf[off - 1] == MINUS then -Value(buf[off..off2]) else Value(buf[off..off2])
  }

  /** What each of the eight strategies means for an unbounded number; `r` is the random part. */
  ghost predicate Changed(strat: nat, base: int, r: nat, val: int) {
    match strat
    case 0 => val == base + 1
    case 1 => val == base - 1
    case 2 => val == 2 * base
    case 3 => val == Quot(base, 2)
    case 4 => val == r && r < if 0 < base < 0x1999_9999 then 10 * base else 256
    case 5 => r < 256 && val == base + r
    case 6 => r < 256 && val == base - r
    case _ => val == -base - 1
  }

  /** How many random parts a strategy has. */
  function Spread(strat: nat, base: int): nat {
    match strat
    case 4 => if 0 < base < 0x1999_9999 then 10 * base else 256
    case 5 => 256
    case 6 => 256
    case _ => 1
  }

  /** When the strategy could leave 64 bits: these numbers are first divided by ten. */
  predicate TooFar(strat: nat, base: int) {
    match strat
    case 0 => base + 1 > INT64_MAX
    case 1 => base - 1 < INT64_MIN
    case 2 => 2 * base > INT64_MAX || 2 * base < INT64_MIN
    case 5 => base + 256 > INT64_MAX
    case 6 => base - 256 < INT64_MIN
    case _ => false
  }

  lemma {:induction false} NonNegative(s: seq<byte>)
    requires AllDigits(s)
    ensures Value(s) >= 0
  {
    if s == [] {
    } else {
      NonNegative(s[..|s| - 1]);
    }
  }

  lemma DropDigit(buf: seq<byte>, off: nat, off2: nat)
    requires off < off2 <= |buf| && AllDigits(buf[off..off2])
    ensures Value(buf[off..off2 - 1]) >= 0
    ensures Quot(SignedValue(buf, off, off2), 10) == SignedValue(buf, off, off2 - 1)
    ensures Value(buf[off..off2]) >= 10 ==> off < off2 - 1
  {
    ValueNext(buf, off, off2 - 1);
    assert IsDigit(buf[off..off2][off2 - 1 - off]);
    var s, t := buf[off..off2], buf[off..off2 - 1];
    forall k | 0 <= k < |t|
      ensures IsDigit(t[k])
    {
      assert t[k] == s[k];
    }
    NonNegative(t);
  }

  /**
    The strategy switch.  Where a strategy could overflow it first divides by
    ten, which gives back the last digit: the result is the strategy applied,
    without overflow, to the number in buf[off..end].
   */
  method Change(buf: seq<byte>, off: nat, off2: nat, strat: nat, val0: int, r: nat) returns (val: int, end: nat)
    requires LongestFit(buf, off, off2) && strat < 8
    requires val0 == SignedValue(buf, off, off2) && r < Spread(strat, val0)
    ensures off < end == if TooFar(strat, val0) then off2 - 1 else off2
    ensures INT64_MIN <= val <= INT64_MAX
    ensures Changed(strat, SignedValue(buf, off, end), r, val)
  {
    DropDigit(buf, off, off2);
    val, end := val0, off2;
    match strat {
      case 0 =>
        if val == INT64_MAX { val, end := Quot(val, 10), end - 1; }
        val := val + 1;
      case 1 =>
        if val == INT64_MIN {
          assert false; // a number that was read is never this small
        }
        val := val - 1;
      case 2 =>
        if val > INT64_MAX / 2 || val < Quot(INT64_MIN, 2) { val, end := Quot(val, 10), end - 1; }
        val := val * 2;
      case 3 =>
        val := Quot(val, 2);
      case 4 =>
        val := r;
      case 5 =>
        if val > INT64_MAX - 256 { val, end := Quot(val, 10), end - 1; }
        val := val + r;
      case 6 =>
        if val < INT64_MIN + 256 { val, end := Quot(val, 10), end - 1; }
        val := val - r;
      case _ =>
        val := -val - 1;
    }
  }

  // ----- Writing it back ---------------------------------------------------

  function Digits(n: nat): (s: seq<byte>)
    ensures s != [] && AllDigits(s)
  {
    if n < 10 then ['0' as int + n] else Digits(n / 10) + ['0' as int + n % 10]
  }

  /** snprintf("%" PRId64) */
  function Decimal(v: int): (s: seq<byte>)
    ensures s != []
  {
    if v < 0 then [MINUS] + Digits(-v) else Digits(v)
  }

  lemma {:induction false} ValueOfDigits(n: nat)
    ensures Value(Digits(n)) == n
  {
    if n < 10 {
      assert Digits(n)[..0] == [];
    } else {
      ValueOfDigits(n / 10);
      assert Digits(n)[..|Digits(n)| - 1] == Digits(n / 10);
    }
  }

  /** The digits that are looked for are the ten that are written. */
  lemma TenDigits(b: byte)
    ensures IsDigit(b) <==> exists n: nat :: n < 10 && Digits(n) == [b]
    ensures IsDigit(b) ==> Digits(Digit(b)) == [b]
  {
    if IsDigit(b) {
      assert Digits(Digit(b)) == [b];
    }
  }

  function Pow10(k: nat): nat {
    if k == 0 then 1 else 10 * Pow10(k - 1)
  }

  lemma {:induction false} DigitsLength(n: nat, k: nat)
    requires k > 0 && n < Pow10(k)
    ensures |Digits(n)| <= k
  {
    if n < 10 {
    } else {
      DigitsLength(n / 10, k - 1);
    }
  }

  /** A 64-bit number takes at most 20 characters, so it fits numbuf. */
  lemma DecimalFits(v: int)
    requires INT64_MIN <= v <= INT64_MAX
    ensures 1 <= |Decimal(v)| <= 20
  {
    assert Pow10(5) == 100_000;
    assert Pow10(10) == 10_000_000_000;
    assert Pow10(15) == 1_000_000_000_000_000;
    assert Pow10(19) == 10_000_000_000_000_000_000;
    DigitsLength(if v < 0 then -v else v, 19);
  }
}

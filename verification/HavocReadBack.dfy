/**
  Does a number that MUT_ASCIINUM wrote read back as that number?  The reader is
  the mutator's own: the longest run of digits that fits 64 bits.  It may fail
  to: a minus sign in front of the old number stays, digits that the reader left
  out may join the new number, and INT64_MIN has no reading at all.
 */
module HavocReadBack {
  import opened Bytes
  import opened HavocNumber
  import Havoc

  function Abs(v: int): nat {
    if v < 0 then -v else v
  }

  /** The buffer after the number in buf[off..end] was replaced by `val`. */
  ghost function Rewritten(buf: seq<byte>, off: nat, end: nat, val: int): seq<byte>
    requires off <= end <= |buf|
  {
    Havoc.ApplyEdit(buf, Havoc.Replace(off, end - off, Decimal(val)))
  }

  /** Where the digits of the new number start. */
  function First(off: nat, val: int): nat {
    if val < 0 then off + 1 else off
  }

  /** The digits that `rest` starts with are all zeros. */
  predicate ZeroRun(rest: seq<byte>)
    decreases |rest|
  {
    rest == [] || !IsDigit(rest[0]) || (rest[0] == 48 && ZeroRun(rest[1..]))
  }

  /** A reader of `n` with `rest` behind it does not come to another value. */
  predicate Stops(n: nat, rest: seq<byte>) {
    if n == 0 then
      ZeroRun(rest)
    else
      rest == [] || !IsDigit(rest[0]) || 10 * n + Digit(rest[0]) > INT64_MAX
  }

  predicate AfterMinus(buf: seq<byte>, off: nat)
    requires off <= |buf|
  {
    off > 0 && buf[off - 1] == MINUS
  }

  // ----- Reading further ---------------------------------------------------

  lemma {:induction false} MoreDigits(s: seq<byte>, at: nat, i: nat, j: nat)
    requires at <= i <= j <= |s| && AllDigits(s[at..j])
    ensures 0 <= Value(s[at..i]) <= Value(s[at..j])
    decreases j - i
  {
    if i == j {
      NonNegative(s[at..j]);
    } else {
      ValueNext(s, at, j - 1);
      assert s[j - 1] == s[at..j][j - 1 - at];
      assert s[at..j - 1] == s[at..j][..j - 1 - at];
      MoreDigits(s, at, i, j - 1);
    }
  }

  /** Digits behind a zero leave it a zero exactly when they are zeros. */
  lemma {:induction false} ReadsZero(s: seq<byte>, at: nat, i: nat, j: nat)
    requires at <= i <= j <= |s| && AllDigits(s[at..j]) && Value(s[at..i]) == 0
    requires j < |s| ==> !IsDigit(s[j])
    ensures Value(s[at..j]) == 0 <==> ZeroRun(s[i..])
    decreases j - i
  {
    if i == j {
      assert s[j..] == [] || s[j..][0] == s[j];
    } else {
      ValueNext(s, at, i);
      assert s[i] == s[at..j][i - at];
      MoreDigits(s, at, i + 1, j);
      if s[i] == 48 {
        ReadsZero(s, at, i + 1, j);
        assert s[i..][1..] == s[i + 1..];
      }
    }
  }

  lemma {:induction false} NotAllZeros(s: seq<byte>, at: nat, i: nat, j: nat)
    requires at <= i <= j <= |s| && AllDigits(s[at..j])
    requires Value(s[at..i]) == 0 && Value(s[at..j]) != 0
    ensures !ZeroRun(s[i..])
    decreases j - i
  {
    if i == j {
      assert false;
    } else if s[i] == 48 {
      ValueNext(s, at, i);
      NotAllZeros(s, at, i + 1, j);
      assert s[i..][1..] == s[i + 1..];
    } else {
      assert s[i] == s[at..j][i - at];
    }
  }

  /** A run of zeros always fits, so the reader takes all of it. */
  lemma ZerosFit(s: seq<byte>, at: nat, i: nat, j: nat)
    requires LongestFit(s, at, j) && at <= i <= j && Value(s[at..i]) == 0
    ensures Value(s[at..j]) == 0 <==> ZeroRun(s[i..])
  {
    if j < |s| && IsDigit(s[j]) {
      ValueNext(s, at, j);
      assert Value(s[at..j]) != 0;
      NotAllZeros(s, at, i, j);
    } else {
      ReadsZero(s, at, i, j);
    }
  }

  /** The reader takes at least a number that fits, and comes to its value exactly when it stops there. */
  lemma ReadOn(s: seq<byte>, at: nat, mid: nat, j: nat)
    requires at < mid <= |s| && AllDigits(s[at..mid]) && LongestFit(s, at, j)
    requires Value(s[at..mid]) <= INT64_MAX
    ensures 0 <= Value(s[at..mid]) <= Value(s[at..j])
    ensures Value(s[at..j]) == Value(s[at..mid]) <==> Stops(Value(s[at..mid]), s[mid..])
  {
    if j < mid {
      assert s[j] == s[at..mid][j - at];
      MoreDigits(s, at, j + 1, mid);
      assert false;
    }
    MoreDigits(s, at, mid, j);
    if Value(s[at..mid]) == 0 {
      ZerosFit(s, at, mid, j);
    } else if mid < j {
      assert s[mid] == s[at..j][mid - at];
      ValueNext(s, at, mid);
      MoreDigits(s, at, mid + 1, j);
    } else if mid < |s| {
      ValueNext(s, at, mid);
    }
  }

  // ----- The number that was written ---------------------------------------

  lemma Between(head: seq<byte>, s: seq<byte>, tail: seq<byte>)
    requires s != []
    ensures var text, mid := head + s + tail, |head| + |s|;
      && text[..|head|] == head && text[|head|..mid] == s && text[mid..] == tail
      && (head != [] ==> text[|head| - 1] == head[|head| - 1])
  {
  }

  lemma Regroup(a: seq<byte>, b: seq<byte>, c: seq<byte>, d: seq<byte>)
    ensures a + (b + c) + d == (a + b) + c + d
  {
  }

  lemma WrittenDigits(buf: seq<byte>, off: nat, end: nat, val: int)
    requires off <= end <= |buf|
    ensures var text, first, mid := Rewritten(buf, off, end, val), First(off, val), off + |Decimal(val)|;
      && first < mid <= |text| && text[first..mid] == Digits(Abs(val))
      && text[mid..] == buf[end..]
      && (AfterMinus(text, first) <==> val < 0 || AfterMinus(buf, off))
  {
    var head, tail := buf[..off], buf[end..];
    assert Rewritten(buf, off, end, val) == head + Decimal(val) + tail;
    if val < 0 {
      Regroup(head, [MINUS], Digits(-val), tail);
      Between(head + [MINUS], Digits(-val), tail);
    } else {
      Between(head, Digits(val), tail);
    }
  }

  /**
    Wherever the mutator's reader stops, it has read the new number if and only
    if that is not INT64_MIN, no old minus sign stands before a positive
    number, and no digit behind it joins in.
   */
  lemma ReadsBack(buf: seq<byte>, off: nat, end: nat, val: int, off2: nat)
    requires off <= end <= |buf| && INT64_MIN <= val <= INT64_MAX
    requires LongestFit(Rewritten(buf, off, end, val), First(off, val), off2)
    ensures
      SignedValue(Rewritten(buf, off, end, val), First(off, val), off2) == val
      <==>
      val != INT64_MIN && !(val > 0 && AfterMinus(buf, off)) && Stops(Abs(val), buf[end..])
  {
    WrittenDigits(buf, off, end, val);
    ValueOfDigits(Abs(val));
    if val != INT64_MIN {
      ReadOn(Rewritten(buf, off, end, val), First(off, val), off + |Decimal(val)|, off2);
    }
  }

  /** Writes the number back and reads it again. */
  method WriteAndRead(buf: seq<byte>, off: nat, end: nat, val: int) returns (text: seq<byte>, back: int)
    requires off <= end <= |buf| && INT64_MIN <= val <= INT64_MAX
    ensures text == Rewritten(buf, off, end, val)
    ensures back == val <==>
      val != INT64_MIN && !(val > 0 && AfterMinus(buf, off)) && Stops(Abs(val), buf[end..])
  {
    text := buf[..off] + Decimal(val) + buf[end..];
    assert end == off + (end - off);
    var first := First(off, val);
    WrittenDigits(buf, off, end, val);
    assert text[first] == Digits(Abs(val))[0];
    var size, off2 := ReadNumber(text, first);
    back := if AfterMinus(text, first) then -size else size;
    ReadsBack(buf, off, end, val, off2);
  }

  // ----- The three ways to fail --------------------------------------------

  /** "-1" changed to the value 1 is written "-1", which reads as -1. */
  lemma KeptMinus(off2: nat)
    requires LongestFit(Rewritten([MINUS, 49], 1, 2, 1), 1, off2)
    ensures SignedValue([MINUS, 49], 1, 2) == -1
    ensures Changed(4, -1, 1, 1)
    ensures SignedValue(Rewritten([MINUS, 49], 1, 2, 1), 1, off2) != 1
  {
    assert [MINUS, 49][1..2] == Digits(1);
    ValueOfDigits(1);
    ReadsBack([MINUS, 49], 1, 2, 1, off2);
  }

  /** A number that fits, with a digit behind it that does not. */
  lemma FitsAlone(n: nat, d: byte)
    requires n <= INT64_MAX && IsDigit(d) && 10 * n + Digit(d) > INT64_MAX
    ensures LongestFit(Digits(n) + [d], 0, |Digits(n)|)
    ensures SignedValue(Digits(n) + [d], 0, |Digits(n)|) == n
  {
    var buf, k := Digits(n) + [d], |Digits(n)|;
    assert buf[0..k] == Digits(n);
    ValueOfDigits(n);
    ValueNext(buf, 0, k);
  }

  lemma RewrittenWhole(s: seq<byte>, rest: seq<byte>, val: int)
    ensures Rewritten(s + rest, 0, |s|, val) == Decimal(val) + rest
    ensures (s + rest)[|s|..] == rest
  {
  }

  /** A digit that the reader left out joins a number that has room for it. */
  lemma LeftOut(n: nat, d: byte, val: nat, off2: nat)
    requires n <= INT64_MAX && IsDigit(d) && 10 * n + Digit(d) > INT64_MAX
    requires 0 < val && 10 * val + Digit(d) <= INT64_MAX && LongestFit(Digits(val) + [d], 0, off2)
    ensures LongestFit(Digits(n) + [d], 0, |Digits(n)|)
    ensures SignedValue(Digits(n) + [d], 0, |Digits(n)|) == n
    ensures Rewritten(Digits(n) + [d], 0, |Digits(n)|, val) == Digits(val) + [d]
    ensures SignedValue(Digits(val) + [d], 0, off2) != val
  {
    FitsAlone(n, d);
    RewrittenWhole(Digits(n), [d], val);
    ReadsBack(Digits(n) + [d], 0, |Digits(n)|, val, off2);
  }

  /** 9223372036854775807 and a 9 behind it: strategy 4 may draw 7, and "79" is left. */
  lemma JoinedDigit(off2: nat)
    requires LongestFit([55, 57], 0, off2)
    ensures LongestFit(Digits(INT64_MAX) + [57], 0, |Digits(INT64_MAX)|)
    ensures Changed(4, SignedValue(Digits(INT64_MAX) + [57], 0, |Digits(INT64_MAX)|), 7, 7)
    ensures Rewritten(Digits(INT64_MAX) + [57], 0, |Digits(INT64_MAX)|, 7) == [55, 57]
    ensures SignedValue([55, 57], 0, off2) != 7
  {
    assert Digits(7) == [55] && Digits(7) + [57] == [55, 57];
    LeftOut(INT64_MAX, 57, 7, off2);
  }

  /** 9223372036854775807 complemented by strategy 7 is INT64_MIN, which nothing reads. */
  lemma NoReading(off2: nat)
    requires LongestFit(Rewritten(Digits(INT64_MAX), 0, |Digits(INT64_MAX)|, INT64_MIN), 1, off2)
    ensures LongestFit(Digits(INT64_MAX), 0, |Digits(INT64_MAX)|)
    ensures Changed(7, SignedValue(Digits(INT64_MAX), 0, |Digits(INT64_MAX)|), 0, INT64_MIN)
    ensures SignedValue(Rewritten(Digits(INT64_MAX), 0, |Digits(INT64_MAX)|, INT64_MIN), 1, off2) != INT64_MIN
  {
    var big := Digits(INT64_MAX);
    assert big[0..|big|] == big;
    ValueOfDigits(INT64_MAX);
    ReadsBack(big, 0, |big|, INT64_MIN, off2);
  }
}

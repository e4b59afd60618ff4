/**
  The coverage bitmap kernels.  They work on the maps a machine word at a time,
  with short cuts for words that are zero; what they mean is said byte by byte.
 */
module Coverage {
  import opened Binary
  import opened BitOps
  import opened Bytes

  // ----- Words -------------------------------------------------------------

  /** The build's word: coverage-32.h or coverage-64.h. */
  datatype Width = W32 | W64 {
    function Bytes(): nat { match this case W32 => 4 case W64 => 8 }
  }

  /** A byte operation on each byte. */
  ghost function Bytewise(op: Op, s: seq<byte>, t: seq<byte>): (r: seq<byte>)
    requires |s| == |t|
    ensures |r| == |s| && forall k | 0 <= k < |s| :: r[k] == ByteOp(op, s[k], t[k])
  {
    seq(|s|, k requires 0 <= k < |s| => ByteOp(op, s[k], t[k]))
  }

  lemma ByteAndRest(op: Op, a: byte, b: byte, x: nat, y: nat)
    ensures Bits(op, a + 256 * x, b + 256 * y) == ByteOp(op, a, b) + 256 * Bits(op, x, y)
  {
    assert Pow2(8) == 256;
    ByteOpIs(op, a, b);
    BitsSplit(op, a, b, x, y, 8);
    ShiftedByte(x);
    ShiftedByte(y);
    ShiftedByte(Bits(op, x, y));
  }

  /** An operation on words is the operation on each byte. */
  lemma {:induction false} WordOp(op: Op, s: seq<byte>, t: seq<byte>)
    requires |s| == |t|
    ensures Bits(op, ReadLE(s), ReadLE(t)) == ReadLE(Bytewise(op, s, t))
  {
    if s == [] {
    } else {
      var x, y := ReadLE(s[1..]), ReadLE(t[1..]);
      WordOp(op, s[1..], t[1..]);
      ByteAndRest(op, s[0], t[0], x, y);
      assert Bytewise(op, s, t)[1..] == Bytewise(op, s[1..], t[1..]);
    }
  }

  ghost predicate AllZero(s: seq<byte>) {
    forall k | 0 <= k < |s| :: s[k] == 0
  }

  lemma {:induction false} WordZero(s: seq<byte>)
    ensures ReadLE(s) == 0 <==> AllZero(s)
  {
    if s == [] {
    } else {
      var t := s[1..];
      WordZero(t);
      assert forall k | 1 <= k < |s| :: s[k] == t[k - 1];
    }
  }

  // ----- What discovering means --------------------------------------------

  /** Some byte was hit whose virgin byte is still pristine. */
  ghost predicate NewTuple(c: seq<byte>, v: seq<byte>) {
    exists k | 0 <= k < |c| && k < |v| :: c[k] != 0 && v[k] == 0xff
  }

  ghost predicate NewBits(c: seq<byte>, v: seq<byte>) {
    exists k | 0 <= k < |c| && k < |v| :: ByteOp(And, c[k], v[k]) != 0
  }

  ghost function Verdict(c: seq<byte>, v: seq<byte>): nat {
    if NewTuple(c, v) then 2 else if NewBits(c, v) then 1 else 0
  }

  function Max(x: nat, y: nat): nat { if x < y then y else x }

  lemma TupleHasBits(c: seq<byte>, v: seq<byte>)
    ensures NewTuple(c, v) ==> NewBits(c, v)
  {
    if NewTuple(c, v) {
      var k :| 0 <= k < |c| && k < |v| && c[k] != 0 && v[k] == 0xff;
      AndFull(c[k]);
    }
  }

  lemma TuplesJoin(c: seq<byte>, v: seq<byte>, c': seq<byte>, v': seq<byte>)
    requires |c| == |v| && |c'| == |v'|
    ensures NewTuple(c + c', v + v') <==> NewTuple(c, v) || NewTuple(c', v')
  {
    var cc, vv := c + c', v + v';
    if NewTuple(c, v) {
      var k :| 0 <= k < |c| && c[k] != 0 && v[k] == 0xff;
      assert cc[k] != 0 && vv[k] == 0xff;
    } else if NewTuple(c', v') {
      var k :| 0 <= k < |c'| && c'[k] != 0 && v'[k] == 0xff;
      assert cc[|c| + k] != 0 && vv[|c| + k] == 0xff;
    }
  }

  lemma BitsJoin(c: seq<byte>, v: seq<byte>, c': seq<byte>, v': seq<byte>)
    requires |c| == |v| && |c'| == |v'|
    ensures NewBits(c + c', v + v') <==> NewBits(c, v) || NewBits(c', v')
  {
    var cc, vv := c + c', v + v';
    if NewBits(c, v) {
      var k :| 0 <= k < |c| && ByteOp(And, c[k], v[k]) != 0;
      assert ByteOp(And, cc[k], vv[k]) != 0;
    } else if NewBits(c', v') {
      var k :| 0 <= k < |c'| && ByteOp(And, c'[k], v'[k]) != 0;
      assert ByteOp(And, cc[|c| + k], vv[|c| + k]) != 0;
    }
  }

  /** The verdict on a map is the best of the verdicts on its parts. */
  lemma VerdictJoin(c: seq<byte>, v: seq<byte>, c': seq<byte>, v': seq<byte>)
    requires |c| == |v| && |c'| == |v'|
    ensures Verdict(c + c', v + v') == Max(Verdict(c, v), Verdict(c', v'))
  {
    TuplesJoin(c, v, c', v');
    BitsJoin(c, v, c', v');
    TupleHasBits(c, v);
    TupleHasBits(c', v');
  }

  /** What a word's `*current & *virgin` tells. */
  lemma WordNewBits(c: seq<byte>, v: seq<byte>)
    requires |c| == |v|
    ensures Bits(And, ReadLE(c), ReadLE(v)) != 0 <==> NewBits(c, v)
  {
    WordOp(And, c, v);
    WordZero(Bytewise(And, c, v));
  }

  /** What a word's `*virgin &= ~*current` stores. */
  lemma WordCleared(c: seq<byte>, v: seq<byte>)
    requires |c| == |v|
    ensures WriteLE(Bits(AndNot, ReadLE(v), ReadLE(c)), |v|) == Bytewise(AndNot, v, c)
  {
    WordOp(AndNot, v, c);
    WriteReadLE(Bytewise(AndNot, v, c));
  }

  lemma NothingToClear(c: seq<byte>, v: seq<byte>)
    requires |c| == |v| && !NewBits(c, v)
    ensures Bytewise(AndNot, v, c) == v
  {
    forall k | 0 <= k < |v|
      ensures ByteOp(AndNot, v[k], c[k]) == v[k]
    {
      assert ByteOp(And, c[k], v[k]) == 0;
      NoneInCommon(c[k], v[k]);
    }
  }

  // ----- discover_word and has_new_bits ------------------------------------

  /** The tests of cur[k] && vir[k] == 0xff for the bytes of one word. */
  method SomePristine(c: seq<byte>, v: seq<byte>) returns (found: bool)
    requires |c| == |v|
    ensures found <==> NewTuple(c, v)
  {
    found := false;
    for k := 0 to |c|
      invariant found <==> exists j | 0 <= j < k :: c[j] != 0 && v[j] == 0xff
    {
      if c[k] != 0 && v[k] == 0xff { found := true; }
    }
  }

  /** discover_word, on the words of n bytes at `at`. */
  method DiscoverWord(n: nat, ret: nat, current: seq<byte>, virgin: array<byte>, at: nat) returns (ret': nat)
    requires at + n <= |current| && at + n <= virgin.Length && ret <= 2
    modifies virgin
    ensures ret' == Max(ret, Verdict(current[at..at + n], old(virgin[at..at + n])))
    ensures virgin[..] == Splice(old(virgin[..]), at, Bytewise(AndNot, old(virgin[at..at + n]), current[at..at + n]))
  {
    ret' := ret;
    var c, v := current[at..at + n], virgin[at..at + n];
    WordNewBits(c, v);
    WordCleared(c, v);
    TupleHasBits(c, v);
    if Bits(And, ReadLE(c), ReadLE(v)) != 0 {
      if ret < 2 {
        var pristine := SomePristine(c, v);
        ret' := if pristine then 2 else 1;
      }
      CopyInto(virgin, at, WriteLE(Bits(AndNot, ReadLE(v), ReadLE(c)), n));
    } else {
      NothingToClear(c, v);
      assert virgin[..] == Splice(virgin[..], at, v);
    }
  }

  /** The bytes of k words, or packs, of n bytes. */
  function Span(n: nat, k: nat): nat
    decreases k
  {
    if k == 0 then 0 else Span(n, k - 1) + n
  }

  lemma SpanStep(n: nat, k: nat)
    ensures Span(n, k + 1) == Span(n, k) + n
  {
  }

  lemma {:induction false} SpanIs(k: nat)
    ensures Span(4, k) == 4 * k && Span(8, k) == 8 * k
  {
    if k == 0 {
    } else {
      SpanIs(k - 1);
    }
  }

  /** real_map_size in words, rounded up. */
  function WordsUp(w: Width, size: nat): nat {
    match w case W32 => (size + 3) / 4 case W64 => (size + 7) / 8
  }

  /** map_size in words, rounded down. */
  function WordsDown(w: Width, size: nat): nat {
    match w case W32 => size / 4 case W64 => size / 8
  }

  /** The bytes of the map that make whole words. */
  function Whole(w: Width, size: nat): (n: nat)
    ensures n <= size
  {
    SpanIs(WordsDown(w, size));
    Span(w.Bytes(), WordsDown(w, size))
  }

  /** The bytes that has_new_bits looks at. */
  function Covered(w: Width, size: nat): nat {
    Span(w.Bytes(), WordsUp(w, size))
  }

  /** These are the least number of whole words that covers real_map_size. */
  lemma CoveredIsLeast(w: Width, size: nat, words: nat)
    ensures exists k: nat :: Covered(w, size) == Span(w.Bytes(), k)
    ensures size <= Span(w.Bytes(), words) <==> Covered(w, size) <= Span(w.Bytes(), words)
  {
    SpanIs(words);
    SpanIs(WordsUp(w, size));
    assert Covered(w, size) == Span(w.Bytes(), WordsUp(w, size));
  }

  /** Whole words: the greatest number of them that fits the map. */
  lemma WholeIsGreatest(w: Width, size: nat, words: nat)
    ensures exists k: nat :: Whole(w, size) == Span(w.Bytes(), k)
    ensures Span(w.Bytes(), words) <= size <==> Span(w.Bytes(), words) <= Whole(w, size)
  {
    SpanIs(words);
    SpanIs(WordsDown(w, size));
    assert Whole(w, size) == Span(w.Bytes(), WordsDown(w, size));
  }

  /** The virgin map once the first n bytes of a trace were taken from it. */
  ghost function Swept(v: seq<byte>, c: seq<byte>, n: nat): (r: seq<byte>)
    requires n <= |v| && n <= |c|
    ensures |r| == |v|
  {
    Bytewise(AndNot, v[..n], c[..n]) + v[n..]
  }

  ghost function ByteVerdict(c: byte, v: byte): nat {
    if c != 0 && v == 0xff then 2 else if ByteOp(And, c, v) != 0 then 1 else 0
  }

  /** Result and virgin map after the first n bytes, byte by byte. */
  ghost function Sofar(c: seq<byte>, v: seq<byte>, n: nat): (r: (nat, seq<byte>))
    requires n <= |c| == |v|
    ensures |r.1| == |v|
    decreases n
  {
    if n == 0 then (0, v) else
      var before := Sofar(c, v, n - 1);
      (Max(before.0, ByteVerdict(c[n - 1], v[n - 1])), before.1[n - 1 := ByteOp(AndNot, v[n - 1], c[n - 1])])
  }

  lemma VerdictWord(c: seq<byte>, v: seq<byte>, at: nat, n: nat)
    requires at + n <= |c| && at + n <= |v|
    ensures Verdict(c[..at + n], v[..at + n]) == Max(Verdict(c[..at], v[..at]), Verdict(c[at..at + n], v[at..at + n]))
  {
    VerdictJoin(c[..at], v[..at], c[at..at + n], v[at..at + n]);
    assert c[..at] + c[at..at + n] == c[..at + n];
    assert v[..at] + v[at..at + n] == v[..at + n];
  }

  lemma OneByte(c: byte, v: byte)
    ensures Verdict([c], [v]) == ByteVerdict(c, v)
  {
    assert [c][0] == c && [v][0] == v;
  }

  lemma SweptByte(v: seq<byte>, c: seq<byte>, at: nat)
    requires at < |v| == |c|
    ensures Swept(v, c, at + 1) == Swept(v, c, at)[at := ByteOp(AndNot, v[at], c[at])]
  {
    assert v[..at + 1] == v[..at] + [v[at]] && c[..at + 1] == c[..at] + [c[at]];
  }

  lemma NothingYet(c: seq<byte>, v: seq<byte>)
    ensures Verdict(c[..0], v[..0]) == 0 && Swept(v, c, 0) == v
  {
  }

  /** This is the verdict on all those bytes, and clears them all. */
  lemma {:induction false} SofarIs(c: seq<byte>, v: seq<byte>, n: nat)
    requires n <= |c| == |v|
    ensures Sofar(c, v, n).0 == Verdict(c[..n], v[..n])
    ensures Sofar(c, v, n).1 == Swept(v, c, n)
    decreases n
  {
    if n > 0 {
      SofarIs(c, v, n - 1);
      VerdictWord(c, v, n - 1, 1);
      assert c[n - 1..n] == [c[n - 1]] && v[n - 1..n] == [v[n - 1]];
      OneByte(c[n - 1], v[n - 1]);
      SweptByte(v, c, n - 1);
    } else {
      NothingYet(c, v);
    }
  }

  lemma SweptWord(v: seq<byte>, c: seq<byte>, at: nat, n: nat)
    requires at + n <= |v| && at + n <= |c|
    ensures Swept(v, c, at)[at..at + n] == v[at..at + n]
    ensures Swept(v, c, at + n) == Splice(Swept(v, c, at), at, Bytewise(AndNot, v[at..at + n], c[at..at + n]))
  {
    var done, word := Bytewise(AndNot, v[..at], c[..at]), Bytewise(AndNot, v[at..at + n], c[at..at + n]);
    assert Swept(v, c, at)[..at] == done;
    assert Swept(v, c, at)[at..] == v[at..];
    assert v[at..][n..] == v[at + n..];
    assert Swept(v, c, at)[at + n..] == v[at + n..];
    assert v[at..][..n] == v[at..at + n];
    assert Bytewise(AndNot, v[..at + n], c[..at + n]) == done + word;
  }

  /** A word more: the best verdict, and the word cleared. */
  lemma SofarWord(c: seq<byte>, v: seq<byte>, at: nat, n: nat)
    requires at + n <= |c| == |v|
    ensures Sofar(c, v, at).0 <= 2 && Sofar(c, v, at).1[at..at + n] == v[at..at + n]
    ensures Sofar(c, v, at + n).0 == Max(Sofar(c, v, at).0, Verdict(c[at..at + n], v[at..at + n]))
    ensures Sofar(c, v, at + n).1 == Splice(Sofar(c, v, at).1, at, Bytewise(AndNot, v[at..at + n], c[at..at + n]))
  {
    SofarIs(c, v, at);
    SofarIs(c, v, at + n);
    VerdictWord(c, v, at, n);
    SweptWord(v, c, at, n);
  }

  lemma ZeroWord(c: seq<byte>, v: seq<byte>)
    requires |c| == |v| && AllZero(c)
    ensures Verdict(c, v) == 0 && Bytewise(AndNot, v, c) == v
  {
    forall k | 0 <= k < |c|
      ensures ByteOp(And, c[k], v[k]) == 0
    {
      AndZero(v[k]);
    }
    NothingToClear(c, v);
  }

  lemma SpliceSame(s: seq<byte>, at: nat, n: nat)
    requires at + n <= |s|
    ensures Splice(s, at, s[at..at + n]) == s
  {
  }

  /** One turn of the loop: a word of the trace that is zero is skipped. */
  method NewBitsOfWord(n: nat, ret: nat, trace: seq<byte>, virgin: array<byte>, at: nat, ghost v: seq<byte>)
      returns (ret': nat)
    requires |trace| == virgin.Length == |v| && at + n <= |trace|
    requires (ret, virgin[..]) == Sofar(trace, v, at)
    modifies virgin
    ensures (ret', virgin[..]) == Sofar(trace, v, at + n)
  {
    ghost var c := trace[at..at + n];
    SofarWord(trace, v, at, n);
    assert virgin[at..at + n] == virgin[..][at..at + n] == v[at..at + n];
    WordZero(c);
    ret' := ret;
    if ReadLE(trace[at..at + n]) != 0 {
      ret' := DiscoverWord(n, ret, trace, virgin, at);
    } else {
      ZeroWord(c, v[at..at + n]);
      SpliceSame(virgin[..], at, n);
    }
  }

  method NewBitsOfWords(n: nat, trace: seq<byte>, virgin: array<byte>, words: nat, ghost v: seq<byte>)
      returns (ret: nat)
    requires |trace| == virgin.Length && Span(n, words) <= |trace| && v == virgin[..]
    modifies virgin
    ensures (ret, virgin[..]) == Sofar(trace, v, Span(n, words))
  {
    ghost var end := Span(n, words);
    ret := 0;
    var i: nat, at: nat := words, 0;
    while i != 0
      invariant at + Span(n, i) == end
      invariant (ret, virgin[..]) == Sofar(trace, v, at)
    {
      i := i - 1;
      SpanStep(n, i);
      ret := NewBitsOfWord(n, ret, trace, virgin, at, v);
      at := at + n;
    }
  }

  /**
    has_new_bits: 2 for a byte hit for the first time, else 1 for a new bit,
    else 0; the bits of the trace are cleared from the virgin map.
   */
  method HasNewBits(w: Width, trace: seq<byte>, virgin: array<byte>, size: nat) returns (ret: nat)
    requires |trace| == virgin.Length && Covered(w, size) <= |trace|
    modifies virgin
    ensures ret == Verdict(trace[..Covered(w, size)], old(virgin[..])[..Covered(w, size)])
    ensures virgin[..] == Swept(old(virgin[..]), trace, Covered(w, size))
  {
    ghost var v := virgin[..];
    ret := NewBitsOfWords(w.Bytes(), trace, virgin, WordsUp(w, size), v);
    SofarIs(trace, v, Covered(w, size));
  }
}

/**
  Hit counts are put into classes, traces are skimmed before they are
  classified, and a virgin map is kept over many traces.
 */
module CoverageMaps {
  import opened Binary
  import opened BitOps
  import opened Bytes
  import opened Coverage

  // ----- The tables --------------------------------------------------------

  /** count_class_lookup8: the greatest power of two that is not above the count. */
  function CountClass(b: byte): (r: byte)
    ensures b == 0 ==> r == 0
    ensures b > 0 ==> r in {1, 2, 4, 8, 16, 32, 64, 128} && r <= b < 2 * r
  {
    if b == 0 then 0 else if b == 1 then 1 else if b <= 3 then 2 else if b <= 7 then 4 else if b <= 15 then 8
    else if b <= 31 then 16 else if b <= 63 then 32 else if b <= 127 then 64 else 128
  }

  /** A power of two at or below x, whose double is above it, has as many bits as x. */
  lemma {:induction false} LengthIs(x: nat, k: nat)
    requires Pow2(k) <= x < Pow2(k + 1)
    ensures BitLength(x) == k + 1
    decreases k
  {
    if k == 0 {
      assert Pow2(1) == 2;
      assert x / 2 == 0;
    } else {
      LengthIs(x / 2, k - 1);
    }
  }

  lemma BytePowers()
    ensures Pow2(0) == 1 && Pow2(1) == 2 && Pow2(2) == 4 && Pow2(3) == 8 && Pow2(4) == 16
    ensures Pow2(5) == 32 && Pow2(6) == 64 && Pow2(7) == 128 && Pow2(8) == 256
  {
  }

  /** The class of a count is one bit, its highest. */
  lemma ClassIsTopBit(b: byte, i: nat)
    requires b > 0
    ensures CountClass(b) == Pow2(BitLength(b) - 1)
    ensures BitAt(CountClass(b), i) <==> i == BitLength(b) - 1
  {
    BytePowers();
    var r := CountClass(b);
    var k: nat :| k < 8 && r == Pow2(k);
    LengthIs(b, k);
    BitOfPow(k, i);
  }

  /** Two counts of a byte have a bit of their classes in common exactly when they have as many bits. */
  lemma CommonClass(a: byte, b: byte)
    requires a > 0 && b > 0
    ensures ByteOp(And, CountClass(a), CountClass(b)) != 0 <==> BitLength(a) == BitLength(b)
    ensures CountClass(a) == CountClass(b) <==> BitLength(a) == BitLength(b)
  {
    var both := ByteOp(And, CountClass(a), CountClass(b));
    ZeroBits();
    BytePowers();
    BitLengthFits(a, 8);
    forall i | 0 <= i < 8
      ensures BitAt(both, i) <==> i == BitLength(a) - 1 == BitLength(b) - 1
    {
      ClassIsTopBit(a, i);
      ClassIsTopBit(b, i);
    }
    ClassIsTopBit(a, 0);
    ClassIsTopBit(b, 0);
    if BitLength(a) == BitLength(b) {
      assert BitAt(both, BitLength(a) - 1);
    } else {
      SameByte(both, 0);
    }
  }

  /** simplify_lookup */
  function Simplify(b: byte): byte {
    if b == 0 then 1 else 128
  }

  /** A simplified byte is one bit: the highest for a byte that was hit, the lowest for one that was not. */
  lemma SimplifiedBit(b: byte, i: nat)
    ensures BitAt(Simplify(b), i) <==> i == if b == 0 then 0 else 7
  {
    BytePowers();
    BitOfPow(if b == 0 then 0 else 7, i);
  }

  function Index(hi: byte, lo: byte): nat {
    256 * (hi as int) + lo
  }

  /** count_class_lookup16 looks up two bytes at once. */
  ghost predicate Table16(t: seq<nat>) {
    |t| == 65536 && forall hi: byte, lo: byte :: t[Index(hi, lo)] == Index(CountClass(hi), CountClass(lo))
  }

  method InitCountClass16() returns (t: seq<nat>)
    ensures Table16(t)
  {
    t := seq(65536, _ => 0);
    for b1: int := 0 to 256
      invariant |t| == 65536
      invariant forall hi: byte, lo: byte | hi < b1 :: t[Index(hi, lo)] == Index(CountClass(hi), CountClass(lo))
    {
      for b2: int := 0 to 256
        invariant |t| == 65536
        invariant forall hi: byte, lo: byte | hi < b1 || (hi == b1 && lo < b2) ::
          t[Index(hi, lo)] == Index(CountClass(hi), CountClass(lo))
      {
        t := t[Index(b1, b2) := Index(CountClass(b1), CountClass(b2))];
      }
    }
  }

  function Mapped(f: byte -> byte, s: seq<byte>): (r: seq<byte>)
    ensures |r| == |s| && forall k | 0 <= k < |s| :: r[k] == f(s[k])
  {
    seq(|s|, k requires 0 <= k < |s| => f(s[k]))
  }

  lemma MappedJoin(f: byte -> byte, s: seq<byte>, t: seq<byte>)
    ensures Mapped(f, s + t) == Mapped(f, s) + Mapped(f, t)
  {
  }

  // ----- classify_word and classify_counts ---------------------------------

  /** classify_word: the u16 parts of a word are looked up one by one. */
  function ClassifyWord(t: seq<nat>, s: seq<byte>): seq<byte>
    requires |t| == 65536
  {
    if |s| < 2 then [] else
      var y := t[Index(s[1], s[0])];
      [y % 256, y / 256 % 256] + ClassifyWord(t, s[2..])
  }

  lemma TwoBytes(t: seq<nat>, hi: byte, lo: byte)
    requires Table16(t)
    ensures t[Index(hi, lo)] % 256 == CountClass(lo) && t[Index(hi, lo)] / 256 % 256 == CountClass(hi)
  {
    assert t[Index(hi, lo)] == Index(CountClass(hi), CountClass(lo));
  }

  lemma {:induction false} ClassifiesBytes(t: seq<nat>, s: seq<byte>)
    requires Table16(t) && |s| % 2 == 0
    ensures ClassifyWord(t, s) == Mapped(CountClass, s)
  {
    if |s| < 2 {
      assert Mapped(CountClass, s) == [];
    } else {
      ClassifiesBytes(t, s[2..]);
      TwoBytes(t, s[1], s[0]);
      MappedJoin(CountClass, [s[0], s[1]], s[2..]);
      assert s == [s[0], s[1]] + s[2..];
      assert Mapped(CountClass, [s[0], s[1]]) == [CountClass(s[0]), CountClass(s[1])];
    }
  }

  /** What a map becomes when f was applied to its first n bytes. */
  ghost function Prefix(f: byte -> byte, s: seq<byte>, n: nat): (r: seq<byte>)
    requires n <= |s|
    ensures |r| == |s|
  {
    Mapped(f, s[..n]) + s[n..]
  }

  lemma PrefixWord(f: byte -> byte, s: seq<byte>, at: nat, n: nat)
    requires at + n <= |s|
    ensures Prefix(f, s, at)[at..at + n] == s[at..at + n]
    ensures Prefix(f, s, at + n) == Splice(Prefix(f, s, at), at, Mapped(f, s[at..at + n]))
  {
    var done, word := Mapped(f, s[..at]), Mapped(f, s[at..at + n]);
    assert Prefix(f, s, at)[..at] == done;
    assert Prefix(f, s, at)[at..] == s[at..];
    assert s[at..][n..] == s[at + n..];
    assert Prefix(f, s, at)[at + n..] == s[at + n..];
    assert s[at..][..n] == s[at..at + n];
    assert Mapped(f, s[..at + n]) == done + word;
  }

  method ClassifyAt(n: nat, t: seq<nat>, trace: array<byte>, at: nat, ghost s: seq<byte>)
    requires Table16(t) && n % 2 == 0 && at + n <= trace.Length == |s| && trace[..] == Prefix(CountClass, s, at)
    modifies trace
    ensures trace[..] == Prefix(CountClass, s, at + n)
  {
    PrefixWord(CountClass, s, at, n);
    var word := trace[at..at + n];
    assert word == trace[..][at..at + n] == s[at..at + n];
    WordZero(word);
    ClassifiesBytes(t, word);
    if ReadLE(word) != 0 {
      CopyInto(trace, at, ClassifyWord(t, word));
    } else {
      assert Mapped(CountClass, word) == word;
      SpliceSame(trace[..], at, n);
    }
  }

  method ClassifyWords(n: nat, t: seq<nat>, trace: array<byte>, words: nat)
    requires Table16(t) && n % 2 == 0 && Span(n, words) <= trace.Length
    modifies trace
    ensures trace[..] == Prefix(CountClass, old(trace[..]), Span(n, words))
  {
    ghost var s := trace[..];
    var i, at: nat := words, 0;
    while i != 0
      invariant at + Span(n, i) == Span(n, words)
      invariant trace[..] == Prefix(CountClass, s, at)
    {
      i := i - 1;
      SpanStep(n, i);
      ClassifyAt(n, t, trace, at, s);
      at := at + n;
    }
  }

  method ClassifyCounts(w: Width, t: seq<nat>, trace: array<byte>)
    requires Table16(t)
    modifies trace
    ensures trace[..] == Prefix(CountClass, old(trace[..]), Whole(w, trace.Length))
  {
    assert Span(w.Bytes(), WordsDown(w, trace.Length)) == Whole(w, trace.Length);
    ClassifyWords(w.Bytes(), t, trace, WordsDown(w, trace.Length));
  }

  method SimplifyAt(n: nat, trace: array<byte>, at: nat, ghost s: seq<byte>)
    requires at + n <= trace.Length == |s| && trace[..] == Prefix(Simplify, s, at)
    modifies trace
    ensures trace[..] == Prefix(Simplify, s, at + n)
  {
    PrefixWord(Simplify, s, at, n);
    var word := trace[at..at + n];
    assert word == trace[..][at..at + n] == s[at..at + n];
    WordZero(word);
    if ReadLE(word) != 0 {
      CopyInto(trace, at, Mapped(Simplify, word));
    } else {
      assert Mapped(Simplify, word) == seq(n, _ => 1);
      CopyInto(trace, at, seq(n, _ => 1));
    }
  }

  method SimplifyWords(n: nat, trace: array<byte>, words: nat)
    requires Span(n, words) <= trace.Length
    modifies trace
    ensures trace[..] == Prefix(Simplify, old(trace[..]), Span(n, words))
  {
    ghost var s := trace[..];
    var i, at: nat := words, 0;
    while i != 0
      invariant at + Span(n, i) == Span(n, words)
      invariant trace[..] == Prefix(Simplify, s, at)
    {
      i := i - 1;
      SpanStep(n, i);
      SimplifyAt(n, trace, at, s);
      at := at + n;
    }
  }

  method SimplifyTrace(w: Width, trace: array<byte>)
    modifies trace
    ensures trace[..] == Prefix(Simplify, old(trace[..]), Whole(w, trace.Length))
  {
    assert Span(w.Bytes(), WordsDown(w, trace.Length)) == Whole(w, trace.Length);
    SimplifyWords(w.Bytes(), trace, WordsDown(w, trace.Length));
  }

  // ----- skim --------------------------------------------------------------

  /** The three versions of skim: four words a turn, the same with a test for a zero pack first, or eight words. */
  datatype Skimmer = Scalar | Avx2 | Avx512 {
    function Words(): nat { if Avx512? then 8 else 4 }
    function Pack(w: Width): nat { Span(w.Bytes(), Words()) }
  }

  /** `current[x] && classify_word(current[x]) & virgin[x]` */
  function Interesting(t: seq<nat>, c: seq<byte>, v: seq<byte>): bool
    requires |t| == 65536
  {
    ReadLE(c) != 0 && Bits(And, ReadLE(ClassifyWord(t, c)), ReadLE(v)) != 0
  }

  lemma InterestingIs(t: seq<nat>, c: seq<byte>, v: seq<byte>)
    requires Table16(t) && |c| == |v| && |c| % 2 == 0
    ensures Interesting(t, c, v) <==> NewBits(Mapped(CountClass, c), v)
  {
    ClassifiesBytes(t, c);
    WordNewBits(Mapped(CountClass, c), v);
    WordZero(c);
    if AllZero(c) {
      ZeroWord(Mapped(CountClass, c), v);
      assert Verdict(Mapped(CountClass, c), v) == 0;
    }
  }

  /** New bits in the first n bytes of a trace, once it is classified. */
  ghost predicate Finds(c: seq<byte>, v: seq<byte>, n: nat)
    requires n <= |c| && n <= |v|
  {
    NewBits(Mapped(CountClass, c[..n]), v[..n])
  }

  lemma FindsJoin(c: seq<byte>, v: seq<byte>, c': seq<byte>, v': seq<byte>)
    requires |c| == |v| && |c'| == |v'|
    ensures NewBits(Mapped(CountClass, c + c'), v + v')
      <==> NewBits(Mapped(CountClass, c), v) || NewBits(Mapped(CountClass, c'), v')
  {
    MappedJoin(CountClass, c, c');
    BitsJoin(Mapped(CountClass, c), v, Mapped(CountClass, c'), v');
  }

  lemma FindsWord(c: seq<byte>, v: seq<byte>, at: nat, n: nat)
    requires at + n <= |c| && at + n <= |v|
    ensures Finds(c, v, at + n) <==> Finds(c, v, at) || NewBits(Mapped(CountClass, c[at..at + n]), v[at..at + n])
  {
    var c1, c2, v1, v2 := c[..at], c[at..at + n], v[..at], v[at..at + n];
    assert c1 + c2 == c[..at + n] && v1 + v2 == v[..at + n];
    FindsJoin(c1, v1, c2, v2);
  }

  lemma FindsMore(c: seq<byte>, v: seq<byte>, n: nat, m: nat)
    requires n <= m <= |c| && m <= |v|
    ensures Finds(c, v, n) ==> Finds(c, v, m)
  {
    FindsWord(c, v, n, m - n);
  }

  /** The vector test that every lane of the pack is zero. */
  method ZeroPack(virgin: seq<byte>, current: seq<byte>, at: nat, n: nat) returns (zero: bool)
    requires |virgin| == |current| && at + n <= |current| && !Finds(current, virgin, at)
    ensures zero ==> !Finds(current, virgin, at + n)
  {
    var c := current[at..at + n];
    zero := ReadLE(c) == 0;
    WordZero(c);
    if zero {
      FindsWord(current, virgin, at, n);
      ZeroWord(Mapped(CountClass, c), virgin[at..at + n]);
    }
  }

  method SkimWord(n: nat, t: seq<nat>, virgin: seq<byte>, current: seq<byte>, at: nat) returns (r: bool)
    requires Table16(t) && n % 2 == 0 && |virgin| == |current| && at + n <= |current| && !Finds(current, virgin, at)
    ensures r <==> Finds(current, virgin, at + n)
  {
    var c, v := current[at..at + n], virgin[at..at + n];
    InterestingIs(t, c, v);
    FindsWord(current, virgin, at, n);
    r := Interesting(t, c, v);
  }

  method SkimWords(n: nat, words: nat, t: seq<nat>, virgin: seq<byte>, current: seq<byte>, at: nat) returns (r: bool)
    requires Table16(t) && n % 2 == 0 && |virgin| == |current| && at + Span(n, words) <= |current|
    requires !Finds(current, virgin, at)
    ensures r <==> Finds(current, virgin, at + Span(n, words))
  {
    ghost var end := at + Span(n, words);
    var i, p: nat := words, at;
    while i != 0
      invariant p + Span(n, i) == end && !Finds(current, virgin, p)
    {
      i := i - 1;
      SpanStep(n, i);
      r := SkimWord(n, t, virgin, current, p);
      p := p + n;
      FindsMore(current, virgin, p, end);
      if r { return; }
    }
    r := false;
  }

  method SkimPack(version: Skimmer, w: Width, n: nat, t: seq<nat>, virgin: seq<byte>, current: seq<byte>, at: nat)
      returns (r: bool)
    requires Table16(t) && |virgin| == |current| && at + n <= |current| && n == version.Pack(w)
    requires !Finds(current, virgin, at)
    ensures r <==> Finds(current, virgin, at + n)
  {
    if !version.Scalar? {
      var zero := ZeroPack(virgin, current, at, n);
      if zero { return false; }
    }
    r := SkimWords(w.Bytes(), version.Words(), t, virgin, current, at);
  }

  /** skim: 1 exactly when the classified trace has a bit that the virgin map still has. */
  method Skim(version: Skimmer, w: Width, t: seq<nat>, virgin: seq<byte>, current: seq<byte>, packs: nat)
      returns (r: bool)
    requires Table16(t) && |virgin| == |current| == Span(version.Pack(w), packs)
    ensures r <==> Finds(current, virgin, |current|)
  {
    var n, i, at: nat := version.Pack(w), packs, 0;
    while i != 0
      invariant at + Span(n, i) == |current|
      invariant !Finds(current, virgin, at)
    {
      i := i - 1;
      SpanStep(n, i);
      r := SkimPack(version, w, n, t, virgin, current, at);
      at := at + n;
      FindsMore(current, virgin, at, |current|);
      if r { return; }
    }
    r := false;
  }

  // ----- has_new_bits_unclassified -----------------------------------------

  /** All that is new in a classified trace lies behind the n bytes that has_new_bits looks at. */
  ghost predicate BreaksComment(c: seq<byte>, v: seq<byte>, n: nat)
    requires n <= |c| == |v|
  {
    NewBits(c, v) && !NewBits(c[..n], v[..n])
  }

  lemma WholeMap(c: seq<byte>, v: seq<byte>)
    requires |c| == |v|
    ensures Finds(c, v, |c|) <==> NewBits(Mapped(CountClass, c), v)
  {
    assert c[..|c|] == c && v[..|v|] == v;
  }

  lemma NothingFound(c: seq<byte>, v: seq<byte>, n: nat)
    requires |c| == |v| && n <= |c| && !Finds(c, v, |c|)
    ensures Verdict(Mapped(CountClass, c)[..n], v[..n]) == 0
    ensures Swept(v, Mapped(CountClass, c), n) == v
  {
    FindsMore(c, v, n, |c|);
    var cn := Mapped(CountClass, c)[..n];
    assert cn == Mapped(CountClass, c[..n]);
    TupleHasBits(cn, v[..n]);
    NothingToClear(cn, v[..n]);
  }

  lemma {:induction false} EvenSpans(n: nat, k: nat)
    requires n % 8 == 0
    ensures Span(n, k) % 8 == 0
    decreases k
  {
    if k == 0 {
    } else {
      EvenSpans(n, k - 1);
    }
  }

  lemma EvenPack(w: Width, version: Skimmer)
    ensures version.Pack(w) % 8 == 0
  {
    SpanIs(version.Words());
  }

  lemma WholeEights(w: Width, size: nat)
    requires size % 8 == 0
    ensures Whole(w, size) == size
  {
    match w
    case W32 => SpanIs(size / 4);
    case W64 => SpanIs(size / 8);
  }

  /** Whole packs are whole words. */
  lemma WholePacks(w: Width, version: Skimmer, packs: nat)
    ensures Whole(w, Span(version.Pack(w), packs)) == Span(version.Pack(w), packs)
  {
    var n := version.Pack(w);
    EvenPack(w, version);
    EvenSpans(n, packs);
    WholeEights(w, Span(n, packs));
  }

  /**
    Skims the whole map first and classifies only when there is something new:
    the answer and the virgin map are those of classifying first, and the trace
    is left alone when there is nothing new.
   */
  method HasNewBitsUnclassified(version: Skimmer, w: Width, t: seq<nat>, trace: array<byte>, virgin: array<byte>,
                                size: nat, packs: nat)
      returns (ret: nat, classified: bool)
    requires Table16(t) && trace != virgin
    requires trace.Length == virgin.Length == Span(version.Pack(w), packs) && Covered(w, size) <= trace.Length
    modifies trace, virgin
    ensures ret == Verdict(Mapped(CountClass, old(trace[..]))[..Covered(w, size)], old(virgin[..])[..Covered(w, size)])
    ensures virgin[..] == Swept(old(virgin[..]), Mapped(CountClass, old(trace[..])), Covered(w, size))
    ensures classified <==> NewBits(Mapped(CountClass, old(trace[..])), old(virgin[..]))
    ensures trace[..] == if classified then Mapped(CountClass, old(trace[..])) else old(trace[..])
    ensures ret == 0 && classified <==>
      BreaksComment(Mapped(CountClass, old(trace[..])), old(virgin[..]), Covered(w, size))
  {
    ghost var c0, v0, n := trace[..], virgin[..], Covered(w, size);
    var found := Skim(version, w, t, virgin[..], trace[..], packs);
    WholeMap(c0, v0);
    if !found {
      NothingFound(c0, v0, n);
      return 0, false;
    }
    ClassifyCounts(w, t, trace);
    WholePacks(w, version, packs);
    assert c0[..|c0|] == c0;
    ret := HasNewBits(w, trace[..], virgin, size);
    classified := true;
    TupleHasBits(Mapped(CountClass, c0)[..n], v0[..n]);
  }

  /** For example, one hit on the last of 64 bytes when real_map_size is 8: the trace is classified and 0 returned. */
  lemma CommentBroken(w: Width, trace: seq<byte>, virgin: seq<byte>)
    requires trace == seq(63, _ => 0) + [3] && virgin == seq(64, _ => 0xff)
    ensures Covered(w, 8) == 8 && BreaksComment(Mapped(CountClass, trace), virgin, 8)
    ensures Mapped(CountClass, trace) != trace
  {
    SpanIs(WordsUp(w, 8));
    var c := Mapped(CountClass, trace);
    AndFull(c[63]);
    assert ByteOp(And, c[63], virgin[63]) != 0;
    ZeroWord(c[..8], virgin[..8]);
  }

  // ----- 32 and 64 bits ----------------------------------------------------

  lemma SpliceMiddle(s: seq<byte>, at: nat, b: seq<byte>)
    requires at + |b| <= |s|
    ensures Splice(s, at, b)[at..at + |b|] == b
  {
  }

  /** Looking at `more` further bytes gives the same answer and the same map exactly when they hold nothing new. */
  lemma SameOutcome(c: seq<byte>, v: seq<byte>, at: nat, n: nat)
    requires |c| == |v| && at + n <= |c|
    ensures Verdict(c[..at + n], v[..at + n]) == Verdict(c[..at], v[..at]) && Swept(v, c, at + n) == Swept(v, c, at)
      <==> !NewBits(c[at..at + n], v[at..at + n])
  {
    var c', v' := c[at..at + n], v[at..at + n];
    VerdictWord(c, v, at, n);
    SweptWord(v, c, at, n);
    TupleHasBits(c', v');
    if !NewBits(c', v') {
      NothingToClear(c', v');
      SpliceSame(Swept(v, c, at), at, n);
    } else if Swept(v, c, at + n) == Swept(v, c, at) {
      assert Bytewise(AndNot, v', c') == v' by {
        SpliceMiddle(Swept(v, c, at), at, Bytewise(AndNot, v', c'));
      }
      var k :| 0 <= k < |c'| && ByteOp(And, c'[k], v'[k]) != 0;
      NoneInCommon(c'[k], v'[k]);
      assert false;
    }
  }

  ghost predicate Agree(c: seq<byte>, v: seq<byte>, n: nat, m: nat) {
    && n <= m <= |c| && |c| == |v|
    && Verdict(c[..m], v[..m]) == Verdict(c[..n], v[..n]) && Swept(v, c, m) == Swept(v, c, n)
  }

  ghost predicate NewBetween(c: seq<byte>, v: seq<byte>, n: nat, m: nat) {
    n <= m <= |c| && |c| == |v| && NewBits(c[n..m], v[n..m])
  }

  lemma RoundUps(q: nat, r: nat)
    requires r < 8
    ensures (8 * q + r + 7) / 8 == q + if r == 0 then 0 else 1
    ensures (8 * q + r + 3) / 4 == 2 * q + if r == 0 then 0 else if r <= 4 then 1 else 2
  {
  }

  /**
    The 32-bit build rounds real_map_size up to fewer bytes than the 64-bit
    build; the two agree exactly when there is nothing new in the bytes between.
    There is not when the trace is zero from real_map_size on.
   */
  lemma WidthsAgree(c: seq<byte>, v: seq<byte>, size: nat)
    requires |c| == |v| && Covered(W64, size) <= |c|
    ensures Agree(c, v, Covered(W32, size), Covered(W64, size))
      <==> !NewBetween(c, v, Covered(W32, size), Covered(W64, size))
    ensures (forall k | size <= k < |c| :: c[k] == 0) ==> Agree(c, v, Covered(W32, size), Covered(W64, size))
  {
    var n, m := Covered(W32, size), Covered(W64, size);
    RoundUps(size / 8, size % 8);
    SpanIs(WordsUp(W32, size));
    SpanIs(WordsUp(W64, size));
    SameOutcome(c, v, n, m - n);
    if forall k | size <= k < |c| :: c[k] == 0 {
      ZeroWord(c[n..m], v[n..m]);
    }
  }

  // ----- Many traces -------------------------------------------------------

  ghost predicate SameSize(size: nat, traces: seq<seq<byte>>) {
    forall i | 0 <= i < |traces| :: |traces[i]| == size
  }

  /** The union of the first n bytes of the traces. */
  ghost function Union(n: nat, traces: seq<seq<byte>>): (r: seq<byte>)
    requires forall i | 0 <= i < |traces| :: n <= |traces[i]|
    ensures |r| == n
    decreases |traces|
  {
    if traces == [] then
      seq(n, _ => 0)
    else
      Bytewise(Or, Union(n, traces[..|traces| - 1]), traces[|traces| - 1][..n])
  }

  /** The virgin map after the first n bytes of each trace were taken from it in turn. */
  ghost function VirginAfter(v: seq<byte>, traces: seq<seq<byte>>, n: nat): (r: seq<byte>)
    requires SameSize(|v|, traces) && n <= |v|
    ensures |r| == |v|
    decreases |traces|
  {
    if traces == [] then v else Swept(VirginAfter(v, traces[..|traces| - 1], n), traces[|traces| - 1], n)
  }

  lemma ClearUnion(v: seq<byte>, u: seq<byte>, c: seq<byte>)
    requires |v| == |u| == |c|
    ensures Bytewise(AndNot, Bytewise(AndNot, v, u), c) == Bytewise(AndNot, v, Bytewise(Or, u, c))
  {
    forall k | 0 <= k < |v|
      ensures ByteOp(AndNot, ByteOp(AndNot, v[k], u[k]), c[k]) == ByteOp(AndNot, v[k], ByteOp(Or, u[k], c[k]))
    {
      ClearTwice(v[k], u[k], c[k]);
    }
  }

  lemma ClearNone(v: seq<byte>)
    ensures Bytewise(AndNot, v, seq(|v|, _ => 0)) == v
  {
    forall k | 0 <= k < |v|
      ensures ByteOp(AndNot, v[k], 0) == v[k]
    {
      AndZero(v[k]);
    }
  }

  /**
    Over any run the bytes looked at are the initial ones without the union of
    the traces, and the others are the initial ones.
   */
  lemma {:induction false} VirginIsUnion(v: seq<byte>, traces: seq<seq<byte>>, n: nat)
    requires SameSize(|v|, traces) && n <= |v|
    ensures VirginAfter(v, traces, n) == Bytewise(AndNot, v[..n], Union(n, traces)) + v[n..]
    decreases |traces|
  {
    if traces == [] {
      ClearNone(v[..n]);
    } else {
      var before, last := traces[..|traces| - 1], traces[|traces| - 1];
      VirginIsUnion(v, before, n);
      ClearUnion(v[..n], Union(n, before), last[..n]);
      var v' := VirginAfter(v, before, n);
      assert v'[..n] == Bytewise(AndNot, v[..n], Union(n, before)) && v'[n..] == v[n..];
    }
  }

  /** Some earlier trace had the same first n bytes. */
  ghost predicate Seen(c: seq<byte>, traces: seq<seq<byte>>, n: nat)
    requires n <= |c| && SameSize(|c|, traces)
  {
    exists i | 0 <= i < |traces| :: traces[i][..n] == c[..n]
  }

  /** Clearing a trace from the map leaves nothing of it, and brings nothing back of another one. */
  lemma NothingLeft(c: seq<byte>, v: seq<byte>, last: seq<byte>)
    requires |c| == |v| == |last| && (c == last || !NewBits(c, v))
    ensures !NewBits(c, Bytewise(AndNot, v, last))
  {
    forall k | 0 <= k < |c|
      ensures ByteOp(And, c[k], ByteOp(AndNot, v[k], last[k])) == 0
    {
      assert c == last || ByteOp(And, c[k], v[k]) == 0;
      StaysGone(c[k], v[k], last[k]);
    }
  }

  /** A trace seen once is never news again, however many traces come between. */
  lemma {:induction false} SeenIsOld(v: seq<byte>, c: seq<byte>, traces: seq<seq<byte>>, n: nat)
    requires n <= |c| == |v| && SameSize(|v|, traces) && Seen(c, traces, n)
    ensures !NewBits(c[..n], VirginAfter(v, traces, n)[..n])
    ensures Verdict(c[..n], VirginAfter(v, traces, n)[..n]) == 0
    decreases |traces|
  {
    var before, last := traces[..|traces| - 1], traces[|traces| - 1];
    var v' := VirginAfter(v, before, n);
    assert VirginAfter(v, traces, n)[..n] == Bytewise(AndNot, v'[..n], last[..n]);
    if last[..n] == c[..n] {
    } else {
      var i :| 0 <= i < |traces| && traces[i][..n] == c[..n];
      assert before[i] == traces[i];
      SeenIsOld(v, c, before, n);
    }
    NothingLeft(c[..n], v'[..n], last[..n]);
    TupleHasBits(c[..n], VirginAfter(v, traces, n)[..n]);
  }

  /** What has_new_bits answers for a trace that comes after `before`. */
  ghost function AnswerAfter(v: seq<byte>, before: seq<seq<byte>>, c: seq<byte>, n: nat): nat
    requires n <= |c| == |v| && SameSize(|v|, before)
  {
    Verdict(c[..n], Bytewise(AndNot, v[..n], Union(n, before)))
  }

  lemma AnswerIs(v: seq<byte>, before: seq<seq<byte>>, c: seq<byte>, n: nat)
    requires n <= |c| == |v| && SameSize(|v|, before)
    ensures Verdict(c[..n], VirginAfter(v, before, n)[..n]) == AnswerAfter(v, before, c, n)
    ensures Seen(c, before, n) ==> AnswerAfter(v, before, c, n) == 0
  {
    VirginIsUnion(v, before, n);
    assert VirginAfter(v, before, n)[..n] == Bytewise(AndNot, v[..n], Union(n, before));
    if Seen(c, before, n) {
      SeenIsOld(v, c, before, n);
    }
  }

  /** The answers of has_new_bits, called on one trace after another, and the map that is left. */
  ghost function Outcome(v: seq<byte>, traces: seq<seq<byte>>, n: nat): (r: (seq<nat>, seq<byte>))
    requires SameSize(|v|, traces) && n <= |v|
    ensures r.1 == VirginAfter(v, traces, n)
    decreases |traces|
  {
    if traces == [] then
      ([], v)
    else
      var before, last := Outcome(v, traces[..|traces| - 1], n), traces[|traces| - 1];
      (before.0 + [Verdict(last[..n], before.1[..n])], Swept(before.1, last, n))
  }

  lemma OutcomeStep(v: seq<byte>, traces: seq<seq<byte>>, n: nat, i: nat)
    requires SameSize(|v|, traces) && n <= |v| && i < |traces|
    ensures
      var before := Outcome(v, traces[..i], n);
      Outcome(v, traces[..i + 1], n) ==
        (before.0 + [Verdict(traces[i][..n], before.1[..n])], Swept(before.1, traces[i], n))
  {
    assert traces[..i + 1][..i] == traces[..i];
  }

  lemma LastAnswer(v: seq<byte>, traces: seq<seq<byte>>, n: nat)
    requires SameSize(|v|, traces) && n <= |v| && traces != []
    ensures
      var before, last := traces[..|traces| - 1], traces[|traces| - 1];
      Outcome(v, traces, n).0 == Outcome(v, before, n).0 + [AnswerAfter(v, before, last, n)]
  {
    AnswerIs(v, traces[..|traces| - 1], traces[|traces| - 1], n);
  }

  /** Each answer compares the trace with the union of all the traces before it. */
  lemma {:induction false} AnswersAre(v: seq<byte>, traces: seq<seq<byte>>, n: nat, i: nat)
    requires SameSize(|v|, traces) && n <= |v| && i < |traces|
    ensures |Outcome(v, traces, n).0| == |traces|
    ensures Outcome(v, traces, n).0[i] == AnswerAfter(v, traces[..i], traces[i], n)
    decreases |traces|
  {
    var before := traces[..|traces| - 1];
    LastAnswer(v, traces, n);
    if i < |before| {
      AnswersAre(v, before, n, i);
      assert before[..i] == traces[..i];
    } else if before != [] {
      AnswersAre(v, before, n, 0);
    }
  }

  /** has_new_bits on one trace after another. */
  method RunTraces(w: Width, traces: seq<seq<byte>>, virgin: array<byte>, size: nat) returns (rets: seq<nat>)
    requires SameSize(virgin.Length, traces) && Covered(w, size) <= virgin.Length
    modifies virgin
    ensures |rets| == |traces|
    ensures forall i | 0 <= i < |traces| ::
      rets[i] == AnswerAfter(old(virgin[..]), traces[..i], traces[i], Covered(w, size))
    ensures forall i | 0 <= i < |traces| && Seen(traces[i], traces[..i], Covered(w, size)) :: rets[i] == 0
    ensures virgin[..] ==
      var v, n := old(virgin[..]), Covered(w, size); Bytewise(AndNot, v[..n], Union(n, traces)) + v[n..]
  {
    ghost var v, n := virgin[..], Covered(w, size);
    rets := [];
    for i := 0 to |traces|
      invariant (rets, virgin[..]) == Outcome(v, traces[..i], n)
    {
      OutcomeStep(v, traces, n, i);
      var ret := HasNewBits(w, traces[i], virgin, size);
      rets := rets + [ret];
    }
    assert traces[..|traces|] == traces;
    VirginIsUnion(v, traces, n);
    if traces != [] {
      AnswersAre(v, traces, n, 0);
    }
    forall i | 0 <= i < |traces|
      ensures rets[i] == AnswerAfter(v, traces[..i], traces[i], n)
      ensures Seen(traces[i], traces[..i], n) ==> rets[i] == 0
    {
      AnswersAre(v, traces, n, i);
      AnswerIs(v, traces[..i], traces[i], n);
    }
  }
}

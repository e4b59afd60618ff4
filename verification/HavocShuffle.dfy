/**
  The byte shuffle of the havoc mutator: Sattolo's algorithm.
 */
module HavocShuffle {
  import opened Bytes
  import opened Sequences

  /** Following `p` around `c` visits c[0], c[1], ... and returns to c[0]. */
  ghost predicate Follows(p: seq<nat>, c: seq<nat>) {
    && c != []
    && (forall k | 0 <= k < |c| :: c[k] < |p|)
    && (forall k | 0 <= k < |c| - 1 :: p[c[k]] == c[k + 1])
    && p[c[|c| - 1]] == c[0]
  }

  /** `p` permutes the positions 0..|p| in one single cycle, which `c` lists. */
  ghost predicate SingleCycle(p: seq<nat>, c: seq<nat>) {
    && Distinct(c) && |c| == |p|
    && (forall x | 0 <= x < |p| :: x in c)
    && Follows(p, c)
  }

  ghost predicate OnSome(cs: seq<seq<nat>>, x: nat) {
    exists r :: 0 <= r < |cs| && x in cs[r]
  }

  /**
    Before the round for index i: `p` falls into i + 1 disjoint cycles, and
    cycle r is the one that contains r, listed from r on.
   */
  ghost predicate Cycles(p: seq<nat>, cs: seq<seq<nat>>) {
    && |cs| <= |p|
    && (forall r | 0 <= r < |cs| :: Follows(p, cs[r]) && Distinct(cs[r]) && cs[r][0] == r)
    && (forall r, q, x | 0 <= r < q < |cs| && x in cs[r] :: x !in cs[q])
    && (forall x: nat | x < |p| :: OnSome(cs, x))
  }

  /** Exchanging the images of i and j joins their cycles. */
  function Join(ci: seq<nat>, cj: seq<nat>): seq<nat>
    requires ci != [] && cj != []
  {
    [cj[0]] + ci[1..] + [ci[0]] + cj[1..]
  }

  lemma JoinAt(ci: seq<nat>, cj: seq<nat>, k: nat)
    requires ci != [] && cj != [] && k < |ci| + |cj|
    ensures Join(ci, cj)[k]
         == if k == 0 then cj[0] else if k < |ci| then ci[k] else if k == |ci| then ci[0] else cj[k - |ci|]
  {
  }

  /** The exchange changes the images of i and j only. */
  lemma ExchangeAt(p: seq<nat>, i: nat, j: nat, x: nat)
    requires i < |p| && j < |p| && x < |p|
    ensures p[i := p[j]][j := p[i]][x] == if x == j then p[i] else if x == i then p[j] else p[x]
  {
  }

  lemma JoinNext(p: seq<nat>, ci: seq<nat>, cj: seq<nat>, i: nat, j: nat, k: nat)
    requires i < |p| && j < |p| && i != j
    requires Follows(p, ci) && Follows(p, cj) && ci[0] == i && cj[0] == j
    requires Distinct(ci) && Distinct(cj) && i !in cj && j !in ci
    requires k < |ci| + |cj|
    ensures Join(ci, cj)[k] < |p|
    ensures p[i := p[j]][j := p[i]][Join(ci, cj)[k]] == Join(ci, cj)[if k + 1 == |ci| + |cj| then 0 else k + 1]
  {
    var a, b := |ci|, |cj|;
    JoinAt(ci, cj, k);
    JoinAt(ci, cj, if k + 1 == a + b then 0 else k + 1);
    ExchangeAt(p, i, j, Join(ci, cj)[k]);
    if 0 < k < a {
      assert ci[k] in ci && ci[k] != ci[0];
    } else if a < k {
      assert cj[k - a] in cj && cj[k - a] != cj[0];
    }
  }

  lemma JoinFollows(p: seq<nat>, ci: seq<nat>, cj: seq<nat>, i: nat, j: nat)
    requires i < |p| && j < |p| && i != j
    requires Follows(p, ci) && Follows(p, cj) && ci[0] == i && cj[0] == j
    requires Distinct(ci) && Distinct(cj) && (forall x | x in ci :: x !in cj)
    ensures Follows(p[i := p[j]][j := p[i]], Join(ci, cj))
  {
    var q, c := p[i := p[j]][j := p[i]], Join(ci, cj);
    assert i in ci && j in cj;
    forall k | 0 <= k < |c|
      ensures c[k] < |p| && q[c[k]] == c[if k + 1 == |c| then 0 else k + 1]
    {
      JoinNext(p, ci, cj, i, j, k);
    }
  }

  /** A cycle without the positions i and j does not notice the exchange. */
  lemma OtherFollows(p: seq<nat>, c: seq<nat>, i: nat, j: nat)
    requires i < |p| && j < |p| && Follows(p, c) && i !in c && j !in c
    ensures Follows(p[i := p[j]][j := p[i]], c)
  {
  }

  lemma JoinMembers(ci: seq<nat>, cj: seq<nat>)
    requires ci != [] && cj != [] && Distinct(ci) && Distinct(cj) && (forall x | x in ci :: x !in cj)
    ensures Distinct(Join(ci, cj))
    ensures forall x :: x in Join(ci, cj) <==> x in ci || x in cj
  {
    var c := Join(ci, cj);
    var a, b := |ci|, |cj|;
    assert c[0] == cj[0] && c[a] == ci[0];
    assert forall k | 1 <= k < a :: c[k] == ci[k];
    assert forall k | a < k < a + b :: c[k] == cj[k - a];
    forall k, m | 0 <= k < m < a + b
      ensures c[k] != c[m]
    {
      assert 1 <= k <= a ==> c[k] in ci;
      assert 1 <= m <= a ==> c[m] in ci;
      assert k == 0 || k > a ==> c[k] in cj;
      assert m > a ==> c[m] in cj;
    }
    forall x | x in ci
      ensures x in c
    {
      var k :| 0 <= k < a && ci[k] == x;
      assert c[if k == 0 then a else k] == x;
    }
    forall x | x in cj
      ensures x in c
    {
      var k :| 0 <= k < b && cj[k] == x;
      assert c[if k == 0 then 0 else a + k] == x;
    }
  }

  /** One round of the loop: the last cycle is joined into cycle j. */
  lemma JoinCycles(p: seq<nat>, cs: seq<seq<nat>>, i: nat, j: nat)
    requires Cycles(p, cs) && |cs| == i + 1 && j < i
    ensures Cycles(p[i := p[j]][j := p[i]], cs[..i][j := Join(cs[i], cs[j])])
  {
    var q, joined := p[i := p[j]][j := p[i]], Join(cs[i], cs[j]);
    var ds := cs[..i][j := joined];
    JoinMembers(cs[i], cs[j]);
    JoinFollows(p, cs[i], cs[j], i, j);
    forall r | 0 <= r < |ds|
      ensures Follows(q, ds[r]) && Distinct(ds[r]) && ds[r][0] == r
    {
      if r != j {
        assert cs[i][0] in cs[i] && cs[j][0] in cs[j];
        OtherFollows(p, cs[r], i, j);
      }
    }
    forall x: nat | x < |p|
      ensures OnSome(ds, x)
    {
      assert OnSome(cs, x);
      var r :| 0 <= r < |cs| && x in cs[r];
      assert x in ds[if r == i then j else r];
    }
  }

  /** The identity: every position is a cycle of its own. */
  lemma IdentityCycles(n: nat)
    requires n > 0
    ensures Cycles(seq(n, k => k), seq(n, k => [k]))
  {
    var p, cs := seq(n, k => k), seq(n, k => [k]);
    forall x: nat | x < n
      ensures OnSome(cs, x)
    {
      assert x in cs[x];
    }
  }

  ghost function ToSet(c: seq<nat>): set<nat> {
    set x | x in c
  }

  lemma {:induction false} SetOfDistinct(c: seq<nat>)
    requires Distinct(c)
    ensures |ToSet(c)| == |c|
  {
    if c == [] {
    } else {
      var d, last := c[..|c| - 1], c[|c| - 1];
      SetOfDistinct(d);
      assert c == d + [last] && last !in d;
      assert ToSet(c) == ToSet(d) + {last};
    }
  }

  lemma {:induction false} SetBelow(s: set<nat>, n: nat)
    requires forall x: nat :: x in s <==> x < n
    ensures |s| == n
  {
    if n > 0 {
      SetBelow(s - {n - 1}, n - 1);
    } else {
      assert s == {};
    }
  }

  /** Distinct numbers that are exactly those below n: there are n of them. */
  lemma DistinctCount(c: seq<nat>, n: nat)
    requires Distinct(c) && (forall x | x in c :: x < n) && (forall x: nat | x < n :: x in c)
    ensures |c| == n
  {
    SetOfDistinct(c);
    SetBelow(ToSet(c), n);
  }

  lemma OneCycleLeft(p: seq<nat>, cs: seq<seq<nat>>)
    requires Cycles(p, cs) && |cs| == 1
    ensures SingleCycle(p, cs[0])
  {
    var c := cs[0];
    forall x: nat | x < |p|
      ensures x in c
    {
      assert OnSome(cs, x);
    }
    DistinctCount(c, |p|);
  }

  /** In a single cycle of two or more positions nothing stays in place. */
  lemma NothingStays(p: seq<nat>, c: seq<nat>, x: nat)
    requires SingleCycle(p, c) && |p| >= 2 && x < |p|
    ensures p[x] != x
  {
    assert x in c;
    var k :| 0 <= k < |c| && c[k] == x;
    assert p[x] == if k + 1 < |c| then c[k + 1] else c[0];
  }

  /**
    MUT_SHUFFLE on `blen` bytes from `off`: the block's new byte at position x
    is its old byte at p[x], for a p that is one single cycle; all other bytes
    stay.  The redraw until j differs from i is an arbitrary j below i.
   */
  method Shuffle(buf: array<byte>, off: nat, blen: nat) returns (ghost p: seq<nat>, ghost c: seq<nat>)
    requires blen >= 1 && off + blen <= buf.Length
    modifies buf
    ensures |p| == blen && SingleCycle(p, c)
    ensures forall x | 0 <= x < blen :: 0 <= p[x] < blen && buf[off + x] == old(buf[off + p[x]])
    ensures forall k | 0 <= k < buf.Length && !(off <= k < off + blen) :: buf[k] == old(buf[k])
  {
    p := seq(blen, k => k);
    ghost var cs: seq<seq<nat>> := seq(blen, k => [k]);
    IdentityCycles(blen);
    var i := blen - 1;
    while i > 0
      invariant 0 <= i < blen && |cs| == i + 1
      invariant |p| == blen && Cycles(p, cs)
      invariant forall x | 0 <= x < blen :: 0 <= p[x] < blen && buf[off + x] == old(buf[off + p[x]])
      invariant forall k | 0 <= k < buf.Length && !(off <= k < off + blen) :: buf[k] == old(buf[k])
    {
      var j :| 0 <= j < i;
      buf[off + i], buf[off + j] := buf[off + j], buf[off + i];
      JoinCycles(p, cs, i, j);
      cs := cs[..i][j := Join(cs[i], cs[j])];
      p := p[i := p[j]][j := p[i]];
      i := i - 1;
    }
    OneCycleLeft(p, cs);
    c := cs[0];
  }
}

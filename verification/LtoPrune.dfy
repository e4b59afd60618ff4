/**
  Which basic blocks the LTO pass leaves without instrumentation, and why their
  execution can still be told from that of the others.
 */
module LtoPrune {

  /** A control flow graph: block 0 is the entry, succ gives the successors, as often as there are edges to them. */
  datatype Graph = Graph(succ: seq<multiset<nat>>) {
    ghost predicate Edge(a: nat, b: nat) { a < |succ| && b in succ[a] }
    ghost predicate Exit(a: nat) { a < |succ| && succ[a] == multiset{} }
  }

  ghost predicate IsPath(g: Graph, p: seq<nat>) {
    && p != [] && (forall i | 0 <= i < |p| :: p[i] < |g.succ|)
    && (forall i | 0 <= i < |p| - 1 :: g.Edge(p[i], p[i + 1]))
  }

  ghost predicate Connects(g: Graph, p: seq<nat>, a: nat, b: nat) {
    IsPath(g, p) && p[0] == a && p[|p| - 1] == b
  }

  ghost predicate Reachable(g: Graph, b: nat) {
    exists p :: Connects(g, p, 0, b)
  }

  /** The entry has no predecessors, and every block can be reached. */
  ghost predicate WellFormed(g: Graph) {
    && g.succ != []
    && (forall a: nat, b: nat | g.Edge(a, b) :: 0 < b < |g.succ|)
    && (forall b: nat | b < |g.succ| :: Reachable(g, b))
  }

  /** A finished run of the function: from the entry to an exit. */
  ghost predicate Run(g: Graph, p: seq<nat>) {
    IsPath(g, p) && p[0] == 0 && g.Exit(p[|p| - 1])
  }

  ghost predicate Dominates(g: Graph, a: nat, b: nat) {
    forall p | Connects(g, p, 0, b) :: a in p
  }

  ghost predicate PostDominates(g: Graph, a: nat, b: nat) {
    forall p, e: nat | Connects(g, p, b, e) && g.Exit(e) :: a in p
  }

  /** isFullDominator */
  ghost predicate FullDominator(g: Graph, b: nat) {
    (exists s :: g.Edge(b, s)) && forall s | g.Edge(b, s) :: Dominates(g, b, s)
  }

  /** isFullPostDominator */
  ghost predicate FullPostDominator(g: Graph, b: nat) {
    (exists a :: g.Edge(a, b)) && forall a | g.Edge(a, b) :: PostDominates(g, b, a)
  }

  /** A single edge leads to the block. */
  ghost predicate SingleEdge(g: Graph, a: nat, b: nat) {
    g.Edge(a, b) && g.succ[a][b] == 1 && forall c | g.Edge(c, b) :: c == a
  }

  /** getSinglePredecessor */
  ghost predicate SinglePredecessor(g: Graph, b: nat) {
    exists a: nat :: SingleEdge(g, a, b)
  }

  datatype CoverageType = FunctionCoverage | BlockCoverage | EdgeCoverage

  /** What else is asked of a block: whether it is nothing but unreachable, and whether code can be put into it. */
  datatype Facts = Facts(onlyUnreachable: bool, insertable: bool)

  /** Blocks that their neighbours tell about. */
  ghost predicate Prunable(g: Graph, b: nat) {
    FullDominator(g, b) || (FullPostDominator(g, b) && !SinglePredecessor(g, b))
  }

  /**
    What shouldInstrumentBlock decides: without pruning any block that takes
    code; with it the entry of a function that has no other block, and, but for
    function coverage, the other blocks that are not prunable.
   */
  ghost predicate ShouldInstrument(noPrune: bool, coverage: CoverageType, facts: Facts, g: Graph, b: nat) {
    && !facts.onlyUnreachable && facts.insertable
    && (noPrune || (b == 0 && |g.succ| <= 1) || (b != 0 && !coverage.FunctionCoverage? && !Prunable(g, b)))
  }

  /** Its answer for ordinary blocks, with pruning and edge coverage. */
  ghost predicate Instrumented(g: Graph, b: nat) {
    ShouldInstrument(false, EdgeCoverage, Facts(false, true), g, b)
  }

  /** No edge that is one of several from its block and one of several to its block: SplitAllCriticalEdges. */
  ghost predicate NoCriticalEdges(g: Graph) {
    forall a: nat, b: nat | g.Edge(a, b) :: |g.succ[a]| == 1 || SingleEdge(g, a, b)
  }

  lemma OnlySuccessor(g: Graph, a: nat, b: nat)
    requires g.Edge(a, b) && |g.succ[a]| == 1
    ensures g.succ[a] == multiset{b}
    ensures forall c | g.Edge(a, c) :: c == b
  {
    var rest := g.succ[a] - multiset{b};
    assert g.succ[a] == rest + multiset{b};
    assert |rest| == 0;
  }

  // ----- The decision ------------------------------------------------------

  /** `succs` and `preds` are the lists of successors and predecessors of the block that the code runs through. */
  ghost predicate Neighbours(g: Graph, b: nat, succs: seq<nat>, preds: seq<nat>) {
    && b < |g.succ| && multiset(succs) == g.succ[b]
    && forall a: nat :: multiset(preds)[a] == if a < |g.succ| then g.succ[a][b] else 0
  }

  /** The dominator trees answer as they should. */
  ghost predicate Trees(g: Graph, dt: (nat, nat) -> bool, pdt: (nat, nat) -> bool) {
    forall a: nat, b: nat :: (dt(a, b) <==> Dominates(g, a, b)) && (pdt(a, b) <==> PostDominates(g, a, b))
  }

  lemma Listed(g: Graph, b: nat, succs: seq<nat>, preds: seq<nat>)
    requires Neighbours(g, b, succs, preds)
    ensures forall s: nat :: s in succs <==> g.Edge(b, s)
    ensures forall a: nat :: a in preds <==> g.Edge(a, b)
  {
    assert forall s: nat :: s in succs <==> multiset(succs)[s] > 0;
    assert forall a: nat :: a in preds <==> multiset(preds)[a] > 0;
  }

  /** isFullDominator */
  method IsFullDominator(g: Graph, b: nat, succs: seq<nat>, ghost preds: seq<nat>, dt: (nat, nat) -> bool,
                         ghost pdt: (nat, nat) -> bool)
      returns (r: bool)
    requires Neighbours(g, b, succs, preds) && Trees(g, dt, pdt)
    ensures r <==> FullDominator(g, b)
  {
    Listed(g, b, succs, preds);
    if succs == [] { return false; }
    assert g.Edge(b, succs[0]);
    for i := 0 to |succs|
      invariant forall k | 0 <= k < i :: Dominates(g, b, succs[k])
    {
      if !dt(b, succs[i]) {
        assert g.Edge(b, succs[i]);
        return false;
      }
    }
    r := true;
  }

  /** isFullPostDominator */
  method IsFullPostDominator(g: Graph, b: nat, ghost succs: seq<nat>, preds: seq<nat>, ghost dt: (nat, nat) -> bool,
                             pdt: (nat, nat) -> bool)
      returns (r: bool)
    requires Neighbours(g, b, succs, preds) && Trees(g, dt, pdt)
    ensures r <==> FullPostDominator(g, b)
  {
    Listed(g, b, succs, preds);
    if preds == [] { return false; }
    assert g.Edge(preds[0], b);
    for i := 0 to |preds|
      invariant forall k | 0 <= k < i :: PostDominates(g, b, preds[k])
    {
      if !pdt(b, preds[i]) {
        assert g.Edge(preds[i], b);
        return false;
      }
    }
    r := true;
  }

  lemma TwoPlaces(s: seq<nat>, i: nat, j: nat)
    requires i < |s| && j < |s| && i != j && s[i] == s[j]
    ensures multiset(s)[s[i]] >= 2
  {
    var lo, hi := if i < j then i else j, if i < j then j else i;
    assert s == s[..lo] + [s[lo]] + s[lo + 1..hi] + [s[hi]] + s[hi + 1..];
  }

  lemma OnePredecessor(g: Graph, b: nat, succs: seq<nat>, preds: seq<nat>)
    requires Neighbours(g, b, succs, preds)
    ensures |preds| == 1 <==> SinglePredecessor(g, b)
  {
    Listed(g, b, succs, preds);
    if |preds| == 1 {
      assert preds == [preds[0]] && multiset(preds)[preds[0]] == 1;
      assert SingleEdge(g, preds[0], b);
    } else if a: nat :| SingleEdge(g, a, b) {
      assert multiset(preds)[a] == 1;
      var k :| 0 <= k < |preds| && preds[k] == a;
      var other := if k == 0 then 1 else 0;
      assert preds[other] in preds && g.Edge(preds[other], b);
      TwoPlaces(preds, k, other);
      assert false;
    }
  }

  /** shouldInstrumentBlock */
  method ShouldInstrumentBlock(noPrune: bool, coverage: CoverageType, facts: Facts, g: Graph, b: nat,
                               succs: seq<nat>, preds: seq<nat>, dt: (nat, nat) -> bool, pdt: (nat, nat) -> bool)
      returns (r: bool)
    requires Neighbours(g, b, succs, preds) && Trees(g, dt, pdt)
    ensures r <==> ShouldInstrument(noPrune, coverage, facts, g, b)
  {
    if facts.onlyUnreachable { return false; }
    if !facts.insertable { return false; }
    if !noPrune && b == 0 && |g.succ| > 1 { return false; }
    if noPrune || b == 0 { return true; }
    if coverage.FunctionCoverage? && b != 0 { return false; }
    OnePredecessor(g, b, succs, preds);
    var dominator := IsFullDominator(g, b, succs, preds, dt, pdt);
    var postDominator := IsFullPostDominator(g, b, succs, preds, dt, pdt);
    r := !dominator && !(postDominator && !(|preds| == 1));
  }

  // ----- Neighbours --------------------------------------------------------

  lemma PathPrefix(g: Graph, p: seq<nat>, i: nat)
    requires IsPath(g, p) && i < |p|
    ensures Connects(g, p[..i + 1], p[0], p[i])
  {
  }

  lemma PathSuffix(g: Graph, p: seq<nat>, i: nat)
    requires IsPath(g, p) && i < |p|
    ensures Connects(g, p[i..], p[i], p[|p| - 1])
  {
  }

  lemma PathExtend(g: Graph, p: seq<nat>, b: nat)
    requires IsPath(g, p) && g.Edge(p[|p| - 1], b) && b < |g.succ|
    ensures Connects(g, p + [b], p[0], b)
  {
  }

  lemma PathJoin(g: Graph, p: seq<nat>, q: seq<nat>)
    requires IsPath(g, p) && IsPath(g, q) && p[|p| - 1] == q[0]
    ensures Connects(g, p + q[1..], p[0], q[|q| - 1])
  {
    var r := p + q[1..];
    forall i | 0 <= i < |r| - 1
      ensures g.Edge(r[i], r[i + 1])
    {
      if i >= |p| - 1 {
        assert r[i] == q[i - (|p| - 1)] && r[i + 1] == q[i + 1 - (|p| - 1)];
      }
    }
  }

  /** A full dominator runs exactly when one of its successors does. */
  lemma FullDominatorFixed(g: Graph, b: nat, p: seq<nat>)
    requires FullDominator(g, b) && Run(g, p)
    ensures b in p <==> exists s :: g.Edge(b, s) && s in p
  {
    if b in p {
      var i :| 0 <= i < |p| && p[i] == b;
      assert i < |p| - 1;
      assert g.Edge(b, p[i + 1]);
    }
    if s :| g.Edge(b, s) && s in p {
      var i :| 0 <= i < |p| && p[i] == s;
      PathPrefix(g, p, i);
      assert Dominates(g, b, s);
      assert b in p[..i + 1];
    }
  }

  /** A full post-dominator other than the entry runs exactly when one of its predecessors does. */
  lemma FullPostDominatorFixed(g: Graph, b: nat, p: seq<nat>)
    requires FullPostDominator(g, b) && Run(g, p) && b != 0
    ensures b in p <==> exists a :: g.Edge(a, b) && a in p
  {
    if b in p {
      var i :| 0 <= i < |p| && p[i] == b;
      assert i > 0;
      assert g.Edge(p[i - 1], p[i]);
    }
    if a :| g.Edge(a, b) && a in p {
      var i :| 0 <= i < |p| && p[i] == a;
      PathSuffix(g, p, i);
      assert PostDominates(g, b, a);
      assert b in p[i..];
    }
  }

  /** A pruned block always runs, or its neighbours on one side tell whether it does. */
  lemma PrunedIsFixed(g: Graph, b: nat, p: seq<nat>)
    requires !Instrumented(g, b) && Run(g, p)
    ensures (b == 0 && b in p)
      || (b in p <==> exists s :: g.Edge(b, s) && s in p)
      || (b in p <==> exists a :: g.Edge(a, b) && a in p)
  {
    if b == 0 {
      assert p[0] == 0;
    } else if FullDominator(g, b) {
      FullDominatorFixed(g, b, p);
    } else {
      FullPostDominatorFixed(g, b, p);
    }
  }

  // ----- Nothing is lost ---------------------------------------------------

  /** The last place of x on a path through it. */
  lemma LastVisit(p: seq<nat>, x: nat) returns (c: nat)
    requires x in p
    ensures c < |p| && p[c] == x && x !in p[c + 1..]
    decreases |p|
  {
    var n := |p| - 1;
    if p[n] == x {
      c := n;
    } else {
      c := LastVisit(p[..n], x);
      assert p[c + 1..] == p[..n][c + 1..] + [p[n]];
    }
  }

  /** Where only x can follow y, a path through y that does not end there goes through x. */
  lemma OnlyNext(g: Graph, p: seq<nat>, y: nat, x: nat)
    requires IsPath(g, p) && y in p && p[|p| - 1] != y
    requires forall c | g.Edge(y, c) :: c == x
    ensures x in p
  {
    var i :| 0 <= i < |p| && p[i] == y;
    assert g.Edge(p[i], p[i + 1]);
  }

  /** y does not dominate a block by a path to a predecessor that avoids it. */
  lemma OnEveryPath(g: Graph, p: seq<nat>, y: nat, x: nat)
    requires Dominates(g, y, x) && y != x && IsPath(g, p) && p[0] == 0 && g.Edge(p[|p| - 1], x) && x < |g.succ|
    ensures y in p
  {
    PathExtend(g, p, x);
    assert Connects(g, p + [x], 0, x);
  }

  /** x runs on to a block that it does not dominate: there is a path to that block around x. */
  lemma AvoidingPath(g: Graph, p: seq<nat>, x: nat, z: nat) returns (s: nat, r: seq<nat>)
    requires IsPath(g, p) && x in p && p[|p| - 1] == z && g.Edge(z, x) && !FullDominator(g, x)
    ensures g.Edge(x, s) && Connects(g, r, 0, s) && x !in r
  {
    var i :| 0 <= i < |p| && p[i] == x;
    if i < |p| - 1 {
      assert g.Edge(x, p[i + 1]);
    } else {
      assert g.Edge(x, x);
    }
    s :| g.Edge(x, s) && !Dominates(g, x, s);
    r :| Connects(g, r, 0, s) && x !in r;
  }

  /** A block reached around x has a predecessor other than x, so without critical edges it is x's only successor. */
  lemma PredecessorOff(g: Graph, r: seq<nat>, s: nat, x: nat)
    requires WellFormed(g) && NoCriticalEdges(g)
    requires g.Edge(x, s) && Connects(g, r, 0, s) && x !in r
    ensures forall c | g.Edge(x, c) :: c == s
  {
    assert s != 0;
    var k := |r| - 2;
    assert g.Edge(r[k], r[k + 1]) && r[k] != x;
    assert !SingleEdge(g, x, s);
    OnlySuccessor(g, x, s);
  }

  /** If x only runs on to s, and s can be reached around x, so can every block that a path through x leads to. */
  lemma PathAround(g: Graph, p: seq<nat>, x: nat, z: nat, s: nat, r: seq<nat>) returns (t: seq<nat>)
    requires Connects(g, p, 0, z) && x in p && z != x
    requires Connects(g, r, 0, s) && x !in r && forall c | g.Edge(x, c) :: c == s
    ensures Connects(g, t, 0, z) && x !in t
  {
    var c := LastVisit(p, x);
    assert g.Edge(p[c], p[c + 1]);
    PathSuffix(g, p, c + 1);
    var rest := p[c + 1..];
    PathJoin(g, r, rest);
    t := r + rest[1..];
    assert x !in rest;
  }

  /**
    A successor of a full dominator that is none itself has a single
    predecessor: no loop and no join can begin there.
   */
  lemma EndOfChain(g: Graph, y: nat, x: nat)
    requires WellFormed(g) && NoCriticalEdges(g)
    requires FullDominator(g, y) && g.Edge(y, x) && !FullDominator(g, x)
    ensures SinglePredecessor(g, x)
  {
    if !SinglePredecessor(g, x) {
      assert !SingleEdge(g, y, x);
      OnlySuccessor(g, y, x);
      assert g.succ[y][x] == 1;
      var z: nat :| g.Edge(z, x) && z != y;
      assert z < |g.succ| && Reachable(g, z);
      var p :| Connects(g, p, 0, z);
      OnEveryPath(g, p, y, x);
      OnlyNext(g, p, y, x);
      var s, r := AvoidingPath(g, p, x, z);
      PredecessorOff(g, r, s, x);
      var t := PathAround(g, p, x, z, s, r);
      OnEveryPath(g, t, y, x);
      OnlyNext(g, t, y, x);
      assert false;
    }
  }

  /** Runs that agree on the instrumented blocks. */
  ghost predicate SameCoverage(g: Graph, p: seq<nat>, q: seq<nat>) {
    forall b: nat | b < |g.succ| && Instrumented(g, b) :: b in p <==> b in q
  }

  /** A full dominator on p is on q: its chain of full dominators ends in an instrumented block. */
  lemma {:induction false} ChainEnds(g: Graph, p: seq<nat>, q: seq<nat>, k: nat)
    requires WellFormed(g) && NoCriticalEdges(g) && Run(g, p) && Run(g, q) && SameCoverage(g, p, q)
    requires k < |p| && FullDominator(g, p[k])
    ensures p[k] in q
    decreases |p| - k
  {
    var y, x := p[k], p[k + 1];
    assert g.Edge(y, x);
    if FullDominator(g, x) {
      ChainEnds(g, p, q, k + 1);
    } else {
      EndOfChain(g, y, x);
      assert Instrumented(g, x);
      assert x in p;
    }
    FullDominatorFixed(g, y, q);
  }

  lemma {:induction false} NothingMissed(g: Graph, p: seq<nat>, q: seq<nat>, t: nat)
    requires WellFormed(g) && NoCriticalEdges(g) && Run(g, p) && Run(g, q) && SameCoverage(g, p, q)
    requires t < |p|
    ensures p[t] in q
    decreases t
  {
    var u := p[t];
    if t == 0 {
      assert q[0] == 0;
    } else if FullDominator(g, u) {
      ChainEnds(g, p, q, t);
    } else if FullPostDominator(g, u) && !SinglePredecessor(g, u) {
      NothingMissed(g, p, q, t - 1);
      assert g.Edge(p[t - 1], u);
      FullPostDominatorFixed(g, u, q);
    } else {
      assert g.Edge(p[t - 1], u);
      assert Instrumented(g, u) && u in p;
    }
  }

  /**
    Pruning loses nothing: two finished runs that visit the same instrumented
    blocks visit the same blocks.
   */
  lemma CoverageDetermines(g: Graph, p: seq<nat>, q: seq<nat>)
    requires WellFormed(g) && NoCriticalEdges(g) && Run(g, p) && Run(g, q) && SameCoverage(g, p, q)
    ensures forall b :: b in p <==> b in q
  {
    forall t: nat | t < |p|
      ensures p[t] in q
    {
      NothingMissed(g, p, q, t);
    }
    forall t: nat | t < |q|
      ensures q[t] in p
    {
      NothingMissed(g, q, p, t);
    }
  }

  // ----- Critical edges matter ---------------------------------------------

  /** Two branches; in each, block a may skip block a + 1 on the way to block a + 2. */
  function Skips(): Graph {
    Graph([multiset{1, 4}, multiset{2, 3}, multiset{3}, multiset{},
           multiset{5, 6}, multiset{6}, multiset{}])
  }

  lemma {:induction false} StaysInBranch(p: seq<nat>, a: nat)
    requires IsPath(Skips(), p) && (a == 1 || a == 4) && a <= p[0] <= a + 2
    ensures forall i | 0 <= i < |p| :: a <= p[i] <= a + 2
    decreases |p|
  {
    if |p| == 1 {
    } else {
      assert Skips().Edge(p[0], p[1]);
      StaysInBranch(p[1..], a);
      assert forall i | 1 <= i < |p| :: p[i] == p[1..][i - 1];
    }
  }

  lemma {:induction false} EntersBranchAtTop(p: seq<nat>, a: nat)
    requires IsPath(Skips(), p) && (a == 1 || a == 4) && p[0] == 0 && a <= p[|p| - 1] <= a + 2
    ensures a in p
    decreases |p|
  {
    var n := |p| - 1;
    assert Skips().Edge(p[n - 1], p[n]);
    if p[n] == a {
    } else {
      EntersBranchAtTop(p[..n], a);
    }
  }

  lemma TopAndBottomPruned(a: nat)
    requires a == 1 || a == 4
    ensures FullDominator(Skips(), a)
    ensures FullPostDominator(Skips(), a + 2) && !SinglePredecessor(Skips(), a + 2)
  {
    var g := Skips();
    assert g.Edge(a, a + 2) && g.Edge(a + 1, a + 2);
    forall s, p | g.Edge(a, s) && Connects(g, p, 0, s)
      ensures a in p
    {
      EntersBranchAtTop(p, a);
    }
    forall b, p, e: nat | g.Edge(b, a + 2) && Connects(g, p, b, e) && g.Exit(e)
      ensures a + 2 in p
    {
      StaysInBranch(p, a);
      assert p[|p| - 1] == a + 2;
    }
  }

  lemma BranchRun(a: nat)
    requires a == 1 || a == 4
    ensures Run(Skips(), [0, a, a + 2])
  {
    var g, p := Skips(), [0, a, a + 2];
    assert g.Edge(p[0], p[1]) && g.Edge(p[1], p[2]);
  }

  lemma PrunedByRule(g: Graph, b: nat)
    requires b > 0 && (FullDominator(g, b) || (FullPostDominator(g, b) && !SinglePredecessor(g, b)))
    ensures !Instrumented(g, b)
  {
  }

  lemma OnlyMiddleInstrumented(b: nat)
    requires b < 7 && b != 2 && b != 5
    ensures !Instrumented(Skips(), b)
  {
    if b != 0 {
      TopAndBottomPruned(if b < 4 then 1 else 4);
      PrunedByRule(Skips(), b);
    }
  }

  lemma SkipsReachable(b: nat)
    requires b < 7
    ensures Reachable(Skips(), b)
  {
    var g := Skips();
    if b == 0 {
      assert Connects(g, [0], 0, b);
    } else {
      var a := if b < 4 then 1 else 4;
      var p := if b == a then [0, a] else [0, a, b];
      assert g.Edge(p[0], p[1]) && (|p| == 3 ==> g.Edge(p[1], p[2]));
      assert Connects(g, p, 0, b);
    }
  }

  /** With critical edges, runs through different branches can leave the same trace. */
  lemma CriticalEdgesMatter()
    ensures WellFormed(Skips())
    ensures var p, q := [0, 1, 3], [0, 4, 6];
      Run(Skips(), p) && Run(Skips(), q) && SameCoverage(Skips(), p, q) && 1 in p && 1 !in q
  {
    BranchRun(1);
    BranchRun(4);
    forall b: nat | b < 7 && b != 2 && b != 5
      ensures !Instrumented(Skips(), b)
    {
      OnlyMiddleInstrumented(b);
    }
    forall b: nat | b < 7
      ensures Reachable(Skips(), b)
    {
      SkipsReachable(b);
    }
  }
}

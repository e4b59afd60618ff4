/**
  The circular doubly linked list whose elements come from a pool of 64
  preallocated slots, and from malloc once all of those are in use.  The first
  slot is the head of the ring.
 */
module LinkedList {
  import opened Bytes
  import opened Sequences

  const PREALLOC_SIZE: nat := 64

  /** A void pointer; 0 is NULL. */
  type Pointer = nat

  datatype Status = Unused | Used | Malloc

  class Element {
    var status: Status
    var prev: Element?
    var next: Element?
    var data: Pointer

    /** Zeroed memory. */
    constructor ()
      ensures status == Unused && prev == null && next == null && data == 0
    {
      status, prev, next, data := Unused, null, null, 0;
    }
  }

  // ----- Counting the slots in use -----------------------------------------

  function CountUsed(ss: seq<Status>): (n: nat)
    ensures n <= |ss|
  {
    if ss == [] then 0 else (if ss[0].Used? then 1 else 0) + CountUsed(ss[1..])
  }

  lemma {:induction false} CountUpdate(ss: seq<Status>, k: nat, s: Status)
    requires k < |ss|
    ensures CountUsed(ss[k := s]) == CountUsed(ss) - (if ss[k].Used? then 1 else 0) + (if s.Used? then 1 else 0)
  {
    var t := ss[k := s];
    if k == 0 {
      assert t[1..] == ss[1..];
    } else {
      CountUpdate(ss[1..], k - 1, s);
      assert t[1..] == ss[1..][k - 1 := s];
    }
  }

  lemma {:induction false} CountAll(ss: seq<Status>)
    ensures CountUsed(ss) == |ss| <==> forall k | 0 <= k < |ss| :: ss[k].Used?
  {
    if ss == [] {
    } else {
      CountAll(ss[1..]);
      assert forall k | 1 <= k < |ss| :: ss[k] == ss[1..][k - 1];
    }
  }

  lemma {:induction false} CountNone(ss: seq<Status>)
    requires forall k | 0 <= k < |ss| :: ss[k] == Unused
    ensures CountUsed(ss) == 0
  {
    if ss == [] {
    } else {
      CountNone(ss[1..]);
    }
  }

  // ----- The ring and the pool ---------------------------------------------

  function Up(n: nat, i: nat): nat { if i + 1 == n then 0 else i + 1 }

  function Down(n: nat, i: nat): int { if i == 0 then n - 1 else i - 1 }

  ghost predicate LinkedUp(ring: seq<Element>)
    reads ring`next
  {
    forall i {:trigger ring[i].next} | 0 <= i < |ring| :: ring[i].next == ring[Up(|ring|, i)]
  }

  ghost predicate LinkedDown(ring: seq<Element>)
    reads ring`prev
  {
    forall i {:trigger ring[i].prev} | 0 <= i < |ring| :: ring[i].prev == ring[Down(|ring|, i)]
  }

  /** The elements form a ring: next goes up and around, prev goes down and around. */
  ghost predicate Linked(ring: seq<Element>)
    reads ring`next, ring`prev
  {
    ring != [] && LinkedUp(ring) && LinkedDown(ring)
  }

  /** After the head come the elements that hold the data. */
  ghost predicate Holds(ring: seq<Element>, contents: seq<Pointer>)
    reads ring`data
  {
    |ring| == |contents| + 1 && forall i | 0 < i < |ring| :: ring[i].data == contents[i - 1]
  }

  ghost predicate Members(ring: seq<Element>, live: set<Element>) {
    && (forall i | 0 <= i < |ring| :: ring[i] in live)
    && (forall e | e in live :: e in ring)
  }

  /** A slot is in use exactly when it is live; live elements outside the pool come from malloc. */
  ghost predicate Owned(pool: seq<Element>, slots: seq<Status>, live: set<Element>, count: int)
    reads pool`status, live`status
  {
    && |slots| == |pool| && count == CountUsed(slots)
    && (forall k | 0 <= k < |pool| :: pool[k].status == slots[k])
    && (forall k | 0 <= k < |pool| :: slots[k] == if pool[k] in live then Used else Unused)
    && (forall e | e in live :: e in pool || e.status == Malloc)
  }

  function Without<T>(s: seq<T>, i: nat): seq<T>
    requires i < |s|
  {
    s[..i] + s[i + 1..]
  }

  method ZeroedPool(n: nat) returns (es: seq<Element>)
    ensures |es| == n && fresh(es) && Distinct(es)
    ensures forall k | 0 <= k < n :: es[k].next == null
  {
    es := [];
    while |es| < n
      invariant |es| <= n && fresh(es) && Distinct(es)
      invariant forall k | 0 <= k < |es| :: es[k].next == null
    {
      var e := new Element();
      es := es + [e];
    }
  }

  method Memset(es: seq<Element>)
    requires Distinct(es)
    modifies es
    ensures forall k | 0 <= k < |es| :: es[k].status == Unused && es[k].next == null
  {
    var k := 0;
    while k < |es|
      invariant 0 <= k <= |es|
      invariant forall j | 0 <= j < k :: es[j].status == Unused && es[j].next == null
    {
      es[k].status, es[k].prev, es[k].next, es[k].data := Unused, null, null, 0;
      k := k + 1;
    }
  }

  /** The assignments that put `e` between the last element and the head. */
  method LinkLast(ghost ring: seq<Element>, head: Element, e: Element)
    requires Linked(ring) && Distinct(ring) && head == ring[0] && e !in ring
    modifies e`next, e`prev, ring`next, ring`prev
    ensures Linked(ring + [e]) && Distinct(ring + [e])
  {
    e.next := head;
    e.prev := head.prev;
    head.prev.next := e;
    head.prev := e;
  }

  /** Where the elements of the ring without the one at `at` were before. */
  function Was(at: nat, i: nat): nat { if i < at then i else i + 1 }

  lemma NeighboursWithout(n: nat, at: nat, i: nat)
    requires 0 < at < n && i < n - 1
    ensures Was(at, Up(n - 1, i)) == if Up(n, Was(at, i)) == at then Up(n, at) else Up(n, Was(at, i))
    ensures 0 <= Down(n - 1, i)
      && Was(at, Down(n - 1, i)) == if Down(n, Was(at, i)) == at then Down(n, at) else Down(n, Was(at, i))
  {
  }

  lemma WithoutAt(ring: seq<Element>, at: nat)
    requires Distinct(ring) && at < |ring|
    ensures Distinct(Without(ring, at)) && ring[at] !in Without(ring, at)
    ensures forall i | 0 <= i < |ring| - 1 :: Without(ring, at)[i] == ring[Was(at, i)]
  {
  }

  /** before->next = after: the element between them is skipped on the way up. */
  method SkipUp(ghost ring: seq<Element>, before: Element, after: Element, ghost at: nat)
    requires LinkedUp(ring) && Distinct(ring) && 0 < at < |ring|
    requires before == ring[Down(|ring|, at)] && after == ring[Up(|ring|, at)]
    modifies before`next
    ensures LinkedUp(Without(ring, at))
  {
    WithoutAt(ring, at);
    ghost var rest, n := Without(ring, at), |ring|;
    before.next := after;
    forall i | 0 <= i < n - 1
      ensures rest[i].next == rest[Up(n - 1, i)]
    {
      NeighboursWithout(n, at, i);
      assert ring[Was(at, i)].next == ring[Was(at, Up(n - 1, i))];
    }
  }

  /** after->prev = before: the element between them is skipped on the way down. */
  method SkipDown(ghost ring: seq<Element>, before: Element, after: Element, ghost at: nat)
    requires LinkedDown(ring) && Distinct(ring) && 0 < at < |ring|
    requires before == ring[Down(|ring|, at)] && after == ring[Up(|ring|, at)]
    modifies after`prev
    ensures LinkedDown(Without(ring, at))
  {
    WithoutAt(ring, at);
    ghost var rest, n := Without(ring, at), |ring|;
    after.prev := before;
    forall i | 0 <= i < n - 1
      ensures rest[i].prev == rest[Down(n - 1, i)]
    {
      NeighboursWithout(n, at, i);
      assert ring[Was(at, i)].prev == ring[Was(at, Down(n - 1, i))];
    }
  }

  /** The two assignments that take the element at `at` out of the ring. */
  method Unlink(ghost ring: seq<Element>, e: Element, ghost at: nat)
    requires Linked(ring) && Distinct(ring) && 0 < at < |ring| && ring[at] == e
    modifies ring`next, ring`prev
    ensures e.next == old(e.next)
    ensures Linked(Without(ring, at)) && Distinct(Without(ring, at))
  {
    WithoutAt(ring, at);
    SkipUp(ring, e.prev, e.next, at);
    SkipDown(ring, e.prev, e.next, at);
  }

  /**
    PRE_ALLOC: a slot that nobody uses, or a new element when every slot is in
    use.  The search never falls through with a slot that is taken.
   */
  method PreAlloc(pool: seq<Element>, ghost slots: seq<Status>, ghost live: set<Element>, count: int)
      returns (e: Element, count': int, ghost slots': seq<Status>)
    requires pool != [] && Distinct(pool) && Owned(pool, slots, live, count)
    modifies pool`status
    ensures e !in live && (if count < |pool| then e in pool && old(e.status) == Unused else fresh(e))
    ensures Owned(pool, slots', live + {e}, count')
  {
    count', slots' := count, slots;
    if count >= |pool| {
      e := new Element();
      e.status := Malloc;
    } else {
      CountAll(slots);
      e := pool[0];
      var i := 0;
      while i < |pool|
        invariant 0 <= i <= |pool|
        invariant forall k | 0 <= k < i :: slots[k] != Unused
      {
        e := pool[i];
        if e.status == Unused { break; }
        i := i + 1;
      }
      count' := count + 1;
      e.status := Used;
      slots' := slots[i := Used];
      CountUpdate(slots, i, Used);
    }
  }

  /** PRE_FREE: the slot becomes free again; memory from malloc is given back. */
  method PreFree(pool: seq<Element>, ghost slots: seq<Status>, ghost live: set<Element>, count: int, e: Element)
      returns (count': int, ghost slots': seq<Status>)
    requires Distinct(pool) && Owned(pool, slots, live, count) && e in live
    modifies e`status
    ensures Owned(pool, slots', live - {e}, count') && count' >= 0
    ensures e.status == Unused
  {
    count', slots' := count, slots;
    match e.status {
      case Used =>
        ghost var k :| 0 <= k < |pool| && pool[k] == e;
        e.status := Unused;
        count' := count - 1;
        slots' := slots[k := Unused];
        CountUpdate(slots, k, Unused);
      case Malloc =>
        e.status := Unused;
      case Unused =>
        assert false; // no double free
    }
  }

  // ----- The list ----------------------------------------------------------

  /** What the elements stand for: the ring, its members as a set, the slots' statuses and the data in order. */
  datatype Shape = Shape(ring: seq<Element>, live: set<Element>, slots: seq<Status>, contents: seq<Pointer>)

  ghost predicate Good(pool: seq<Element>, g: Shape, count: int)
    reads pool, g.ring, g.live
  {
    && |pool| == PREALLOC_SIZE && Distinct(pool)
    && Linked(g.ring) && Distinct(g.ring) && g.ring[0] == pool[0]
    && Holds(g.ring, g.contents) && Members(g.ring, g.live)
    && Owned(pool, g.slots, g.live, count)
  }

  lemma NextOfHead(ring: seq<Element>)
    ensures Linked(ring) ==> ring[0].next != null
  {
  }

  lemma MembersAppend(ring: seq<Element>, live: set<Element>, e: Element)
    requires Members(ring, live)
    ensures Members(ring + [e], live + {e})
  {
    assert (ring + [e])[|ring|] == e;
    forall x | x in live + {e}
      ensures x in ring + [e]
    {
    }
  }

  lemma HoldsAppend(ring: seq<Element>, contents: seq<Pointer>, e: Element)
    requires Holds(ring, contents)
    ensures Holds(ring + [e], contents + [e.data])
  {
  }

  /** memset, then the head is taken by PRE_ALLOC_FORCE and linked to itself. */
  method Initialise(pool: seq<Element>) returns (count: int, ghost g: Shape)
    requires |pool| == PREALLOC_SIZE && Distinct(pool)
    modifies pool
    ensures Good(pool, g, count) && g.ring == [pool[0]] && g.contents == []
  {
    Memset(pool);
    ghost var unused := seq(|pool|, _ => Unused);
    CountNone(unused);
    CountUpdate(unused, 0, Used);
    var head := pool[0];
    head.status := Used;
    count := 1;
    head.next, head.prev := head, head;
    g := Shape([head], {head}, unused[0 := Used], []);
  }

  method FillAndLink(ghost ring: seq<Element>, ghost contents: seq<Pointer>, head: Element, e: Element, x: Pointer)
    requires Linked(ring) && Distinct(ring) && head == ring[0] && e !in ring && Holds(ring, contents)
    modifies e`data, e`next, e`prev, ring`next, ring`prev
    ensures Linked(ring + [e]) && Distinct(ring + [e]) && Holds(ring + [e], contents + [x])
  {
    e.data := x;
    HoldsAppend(ring, contents, e);
    LinkLast(ring, head, e);
  }

  method AppendToRing(pool: seq<Element>, ghost g: Shape, count: int, x: Pointer)
      returns (count': int, ghost g': Shape, ghost e: Element)
    requires Good(pool, g, count)
    modifies pool, g.live
    ensures Good(pool, g', count') && g'.contents == g.contents + [x]
    ensures g'.ring == g.ring + [e] && g'.live == g.live + {e} && (e in pool || fresh(e))
  {
    var box; ghost var slots;
    box, count', slots := PreAlloc(pool, g.slots, g.live, count);
    FillAndLink(g.ring, g.contents, pool[0], box, x);
    MembersAppend(g.ring, g.live, box);
    e, g' := box, Shape(g.ring + [box], g.live + {box}, slots, g.contents + [x]);
    assert Owned(pool, slots, g'.live, count');
  }

  lemma MembersWithout(ring: seq<Element>, live: set<Element>, at: nat)
    requires Members(ring, live) && Distinct(ring) && at < |ring|
    ensures Members(Without(ring, at), live - {ring[at]})
  {
    var rest := Without(ring, at);
    forall i | 0 <= i < |rest|
      ensures rest[i] in live - {ring[at]}
    {
      var was := if i < at then i else i + 1;
      assert rest[i] == ring[was] && ring[was] != ring[at];
    }
    forall e | e in live - {ring[at]}
      ensures e in rest
    {
      var k :| 0 <= k < |ring| && ring[k] == e;
      assert rest[if k < at then k else k - 1] == e;
    }
  }

  lemma HoldsWithout(ring: seq<Element>, contents: seq<Pointer>, at: nat)
    requires Holds(ring, contents) && 0 < at < |ring|
    ensures Holds(Without(ring, at), Without(contents, at - 1))
  {
  }

  method UnlinkAndWipe(ghost ring: seq<Element>, ghost contents: seq<Pointer>, e: Element, ghost at: nat, wipe: bool)
    requires Linked(ring) && Distinct(ring) && Holds(ring, contents) && 0 < at < |ring| && ring[at] == e
    modifies ring`next, ring`prev, e`data
    ensures e.next == old(e.next) && e.data == if wipe then 0 else old(e.data)
    ensures Linked(Without(ring, at)) && Distinct(Without(ring, at))
    ensures Holds(Without(ring, at), Without(contents, at - 1))
  {
    Unlink(ring, e, at);
    HoldsWithout(ring, contents, at);
    WithoutAt(ring, at);
    if wipe { e.data := 0; }
  }

  /** Takes the element at `at` out of the ring and frees it; list_remove also wipes its data. */
  method RemoveAt(pool: seq<Element>, ghost g: Shape, count: int, e: Element, ghost at: nat, wipe: bool)
      returns (count': int, ghost g': Shape)
    requires Good(pool, g, count) && 0 < at < |g.ring| && g.ring[at] == e
    modifies pool, g.live
    ensures Good(pool, g', count') && e.data == if wipe then 0 else old(e.data)
    ensures g'.contents == Without(g.contents, at - 1) && g'.ring == Without(g.ring, at) && g'.live <= g.live
  {
    UnlinkAndWipe(g.ring, g.contents, e, at, wipe);
    MembersWithout(g.ring, g.live, at);
    ghost var slots;
    count', slots := PreFree(pool, g.slots, g.live, count, e);
    g' := Shape(Without(g.ring, at), g.live - {e}, slots, Without(g.contents, at - 1));
    assert Linked(g'.ring) && Holds(g'.ring, g'.contents);
  }

  /** What the block of LIST_FOREACH does with the element it sees: remove it or not, and return or go on. */
  datatype Decision = Decision(drop: bool, stop: bool)

  /** A block decides by the number of the visit and the value. */
  type Block = (nat, Pointer) -> Decision

  /** What is left of the values when all of them were visited. */
  function Kept(s: seq<Pointer>, block: Block): seq<Pointer>
    decreases |s|
  {
    if s == [] then
      []
    else
      var n := |s| - 1;
      Kept(s[..n], block) + if block(n, s[n]).drop then [] else [s[n]]
  }

  /** How many values are visited, if the first v are. */
  function Visits(s: seq<Pointer>, block: Block, v: nat): (n: nat)
    requires v <= |s|
    ensures v <= n <= |s|
    decreases |s| - v
  {
    if v == |s| then v else if block(v, s[v]).stop then v + 1 else Visits(s, block, v + 1)
  }

  /** What is left of the values after the visits. */
  function Left(s: seq<Pointer>, block: Block): seq<Pointer> {
    var n := Visits(s, block, 0);
    Kept(s[..n], block) + s[n..]
  }

  lemma KeptNext(s: seq<Pointer>, block: Block, v: nat)
    requires v < |s|
    ensures Kept(s[..v + 1], block) == Kept(s[..v], block) + if block(v, s[v]).drop then [] else [s[v]]
  {
    assert s[..v + 1][..v] == s[..v];
  }

  /** The element that a traversal reaches after those before `i`: the head once all were visited. */
  ghost function At(ring: seq<Element>, i: nat): Element
    requires ring != [] && i <= |ring|
  {
    if i == |ring| then ring[0] else ring[i]
  }

  lemma NextIs(ring: seq<Element>, i: nat)
    requires Linked(ring) && i < |ring|
    ensures ring[i].next == At(ring, i + 1)
  {
  }

  /** After `v` values were visited, `now` is what was kept of them and all the others; the next one is now[i]. */
  ghost predicate Progress(all: seq<Pointer>, block: Block, v: nat, i: nat, now: seq<Pointer>) {
    && v <= |all|
    && i == |Kept(all[..v], block)|
    && now == Kept(all[..v], block) + all[v..]
  }

  lemma ProgressStep(all: seq<Pointer>, block: Block, v: nat, i: nat, now: seq<Pointer>)
    requires Progress(all, block, v, i, now) && i < |now|
    ensures v < |all| && now[i] == all[v] && all[..v + 1] == all[..v] + [all[v]]
    ensures block(v, now[i]).drop ==> Progress(all, block, v + 1, i, Without(now, i))
    ensures !block(v, now[i]).drop ==> Progress(all, block, v + 1, i + 1, now)
  {
    KeptNext(all, block, v);
    var kept := Kept(all[..v], block);
    assert now[i..] == all[v..] && now[..i] == kept;
    assert now[i + 1..] == all[v..][1..] == all[v + 1..];
    assert now == kept + [all[v]] + all[v + 1..];
  }

  lemma ProgressStart(all: seq<Pointer>, block: Block)
    ensures Progress(all, block, 0, 0, all)
  {
  }

  lemma ProgressEnd(all: seq<Pointer>, block: Block, v: nat, i: nat, now: seq<Pointer>)
    requires Progress(all, block, v, i, now) && i == |now|
    ensures v == |all|
  {
    assert |now| == i + |all[v..]|;
  }

  /** One turn of LIST_FOREACH, whose block removes the current element or leaves it. */
  method Visit(pool: seq<Element>, ghost g: Shape, count: int, box: Element, ghost i: nat, v: nat, block: Block)
      returns (count': int, ghost g': Shape, next: Element, el: Pointer)
    requires Good(pool, g, count) && i < |g.contents| && box == g.ring[i + 1]
    modifies pool, g.live
    ensures Good(pool, g', count') && g'.live <= g.live && el == g.contents[i]
    ensures g'.contents == if block(v, el).drop then Without(g.contents, i) else g.contents
    ensures next == At(g'.ring, if block(v, el).drop then i + 1 else i + 2)
  {
    NextIs(g.ring, i + 1);
    next := box.next;
    el := box.data;
    count', g' := count, g;
    if block(v, el).drop {
      count', g' := RemoveAt(pool, g, count, box, i + 1, false);
    }
  }

  /** The same, for the traversal that is at value `v` of `all`. */
  method VisitNext(pool: seq<Element>, ghost g: Shape, count: int, box: Element, ghost i: nat, v: nat, block: Block,
                   ghost all: seq<Pointer>)
      returns (count': int, ghost g': Shape, next: Element, ghost i': nat, el: Pointer)
    requires Good(pool, g, count) && i < |g.contents| && box == g.ring[i + 1]
    requires Progress(all, block, v, i, g.contents)
    modifies pool, g.live
    ensures Good(pool, g', count') && g'.live <= g.live
    ensures i' <= |g'.contents| && next == At(g'.ring, i' + 1)
    ensures v < |all| && el == all[v] && all[..v + 1] == all[..v] + [el]
    ensures Progress(all, block, v + 1, i', g'.contents)
  {
    ProgressStep(all, block, v, i, g.contents);
    count', g', next, el := Visit(pool, g, count, box, i, v, block);
    i' := if block(v, el).drop then i else i + 1;
  }

  /** The loop of LIST_FOREACH, from the first element on. */
  method Traverse(pool: seq<Element>, ghost g: Shape, count: int, first: Element, block: Block)
      returns (count': int, ghost g': Shape, visited: seq<Pointer>)
    requires Good(pool, g, count) && first == At(g.ring, 1)
    modifies pool, g.live
    ensures Good(pool, g', count') && g'.live <= g.live
    ensures visited == g.contents[..Visits(g.contents, block, 0)] && g'.contents == Left(g.contents, block)
  {
    ghost var all, i: nat := g.contents, 0;
    var v: nat := 0;
    visited, count', g' := [], count, g;
    ProgressStart(all, block);
    var box := first;
    while box != pool[0]
      invariant Good(pool, g', count') && g'.live <= g.live
      invariant i <= |g'.contents| && box == At(g'.ring, i + 1)
      invariant Progress(all, block, v, i, g'.contents)
      invariant visited == all[..v] && Visits(all, block, v) == Visits(all, block, 0)
      decreases |all| - v
    {
      var el;
      count', g', box, i, el := VisitNext(pool, g', count', box, i, v, block, all);
      var decision := block(v, el);
      visited, v := visited + [el], v + 1;
      if decision.stop { return; }
    }
    ProgressEnd(all, block, v, i, g'.contents);
  }

  method ForEachRemove(pool: seq<Element>, ghost g: Shape, count: int, block: Block)
      returns (count': int, ghost g': Shape, visited: seq<Pointer>)
    requires Good(pool, g, count)
    modifies pool, g.live
    ensures Good(pool, g', count') && g'.live <= g.live
    ensures visited == g.contents[..Visits(g.contents, block, 0)] && g'.contents == Left(g.contents, block)
  {
    NextIs(g.ring, 0);
    count', g', visited := Traverse(pool, g, count, pool[0].next, block);
  }

  /** The traversal of list_remove and list_contains: the first element that holds `x`, or the head. */
  method Find(pool: seq<Element>, ghost g: Shape, count: int, x: Pointer) returns (box: Element, ghost i: nat)
    requires Good(pool, g, count)
    ensures i <= |g.contents| && box == At(g.ring, i + 1)
    ensures x !in g.contents[..i] && (i < |g.contents| ==> g.contents[i] == x)
    ensures box == pool[0] <==> x !in g.contents
  {
    var head := pool[0];
    NextIs(g.ring, 0);
    box, i := head.next, 0;
    while box != head
      invariant i <= |g.contents| && box == At(g.ring, i + 1)
      invariant x !in g.contents[..i]
      decreases |g.contents| - i
    {
      NextIs(g.ring, i + 1);
      var next := box.next;
      if box.data == x { return; }
      box, i := next, i + 1;
    }
  }

  // ----- The operations on a list ------------------------------------------

  /** What a list is to its user: nothing yet, or a sequence. */
  datatype Model = Uninitialised | Items(items: seq<Pointer>)

  datatype Operation =
    | Append(x: Pointer)
    | Remove(x: Pointer)
    | Contains(x: Pointer)
    | ForEach(block: Block)

  datatype Output = Nothing | Truth(value: bool) | Visited(order: seq<Pointer>)

  function First(s: seq<Pointer>, x: Pointer): (i: nat)
    requires x in s
    ensures i < |s| && s[i] == x && x !in s[..i]
  {
    if s[0] == x then 0 else
      var k := First(s[1..], x);
      assert s[..k + 1] == [s[0]] + s[1..][..k];
      k + 1
  }

  /** The meaning of one operation on a plain sequence; None is the end of the process by FATAL. */
  function Meaning(m: Model, op: Operation): Option<(Model, Output)> {
    match op
    case Append(x) => Some((Items((if m.Items? then m.items else []) + [x]), Nothing))
    case Remove(x) =>
      if m.Items? && x in m.items then Some((Items(Without(m.items, First(m.items, x))), Nothing)) else None
    case Contains(x) => if m.Items? then Some((m, Truth(x in m.items))) else None
    case ForEach(block) =>
      if m.Items? then Some((Items(Left(m.items, block)), Visited(m.items[..Visits(m.items, block, 0)]))) else None
  }

  /** LIST_FOREACH_CLEAR, whose block always removes and goes on, visits every element and leaves the list empty. */
  lemma {:induction false} ClearEmpties(s: seq<Pointer>, v: nat)
    requires v <= |s|
    ensures Kept(s[..v], (_, _) => Decision(true, false)) == []
    ensures Visits(s, (_, _) => Decision(true, false), 0) == Visits(s, (_, _) => Decision(true, false), v)
    ensures v == |s| ==> Left(s, (_, _) => Decision(true, false)) == []
    decreases v
  {
    if v == 0 {
    } else {
      ClearEmpties(s, v - 1);
      assert s[..v][..v - 1] == s[..v - 1];
    }
  }

  /** The block of list_remove and list_contains. */
  function StopAt(x: Pointer): Block {
    (_, el) => Decision(el == x, el == x)
  }

  /** Elements at which a block neither removes nor returns stay as they are. */
  lemma {:induction false} PassedOver(s: seq<Pointer>, block: Block, v: nat)
    requires v <= |s| && forall k: nat | k < v :: block(k, s[k]) == Decision(false, false)
    ensures Kept(s[..v], block) == s[..v] && Visits(s, block, 0) == Visits(s, block, v)
    decreases v
  {
    if v == 0 {
    } else {
      PassedOver(s, block, v - 1);
      KeptNext(s, block, v - 1);
      assert s[..v] == s[..v - 1] + [s[v - 1]];
    }
  }

  /** The block's first removal, with a return. */
  lemma OneRemoved(s: seq<Pointer>, block: Block, i: nat)
    requires i < |s| && forall k: nat | k < i :: block(k, s[k]) == Decision(false, false)
    requires block(i, s[i]) == Decision(true, true)
    ensures Left(s, block) == Without(s, i) && Visits(s, block, 0) == i + 1
  {
    PassedOver(s, block, i);
    KeptNext(s, block, i);
  }

  /** list_remove is a LIST_FOREACH whose block returns after the first removal: the first match goes, and no other. */
  lemma RemoveIsForEach(s: seq<Pointer>, x: Pointer)
    requires x in s
    ensures Left(s, StopAt(x)) == Without(s, First(s, x)) && Visits(s, StopAt(x), 0) == First(s, x) + 1
  {
    var i := First(s, x);
    forall k: nat | k < i
      ensures s[k] != x
    {
      assert s[..i][k] == s[k];
    }
    OneRemoved(s, StopAt(x), i);
  }

  /** Before the first append nothing is known but that the head has no successor. */
  ghost predicate Usable(pool: seq<Element>, g: Shape, count: int)
    reads pool, g.ring, g.live
  {
    && |pool| == PREALLOC_SIZE && Distinct(pool)
    && (g.ring == [] ==> pool[0].next == null)
    && (g.ring != [] ==> Good(pool, g, count))
  }

  lemma HeadTells(pool: seq<Element>, g: Shape, count: int)
    requires Usable(pool, g, count)
    ensures pool[0].next == null <==> g.ring == []
  {
    NextOfHead(g.ring);
  }

  ghost function ModelOf(g: Shape): Model {
    if g.ring == [] then Uninitialised else Items(g.contents)
  }

  method AppendTo(pool: seq<Element>, ghost g: Shape, count: int, x: Pointer) returns (count': int, ghost g': Shape)
    requires Usable(pool, g, count)
    modifies pool, g.live
    ensures Good(pool, g', count') && g'.contents == (if g.ring == [] then [] else g.contents) + [x]
    ensures forall e | e in g'.live :: e in g.live || e in pool || fresh(e)
  {
    HeadTells(pool, g, count);
    ghost var e;
    if pool[0].next == null {
      count', g' := Initialise(pool);
      count', g', e := AppendToRing(pool, g', count', x);
    } else {
      count', g', e := AppendToRing(pool, g, count, x);
    }
  }

  lemma FirstIs(s: seq<Pointer>, x: Pointer, i: nat)
    requires i < |s| && s[i] == x && x !in s[..i]
    ensures First(s, x) == i
  {
    if i == 0 {
    } else {
      assert s[0] == s[..i][0];
      assert s[1..][..i - 1] == s[..i][1..];
      FirstIs(s[1..], x, i - 1);
    }
  }

  method RemoveFrom(pool: seq<Element>, ghost g: Shape, count: int, x: Pointer)
      returns (ok: bool, count': int, ghost g': Shape)
    requires Usable(pool, g, count)
    modifies pool, g.live
    ensures Usable(pool, g', count') && g'.live <= g.live
    ensures ok ==> Some((ModelOf(g'), Nothing)) == Meaning(ModelOf(g), Operation.Remove(x))
    ensures !ok ==> Meaning(ModelOf(g), Operation.Remove(x)) == None && ModelOf(g') == ModelOf(g)
  {
    HeadTells(pool, g, count);
    ok, count', g' := false, count, g;
    if pool[0].next == null { return; }
    var box; ghost var i;
    box, i := Find(pool, g, count, x);
    if box != pool[0] {
      FirstIs(g.contents, x, i);
      count', g' := RemoveAt(pool, g, count, box, i + 1, true);
      ok := true;
    }
  }

  method ForEachIn(pool: seq<Element>, ghost g: Shape, count: int, block: Block)
      returns (count': int, ghost g': Shape, visited: Option<seq<Pointer>>)
    requires Usable(pool, g, count)
    modifies pool, g.live
    ensures Usable(pool, g', count') && g'.live <= g.live
    ensures Meaning(ModelOf(g), Operation.ForEach(block))
         == if visited.Some? then Some((ModelOf(g'), Visited(visited.value))) else None
    ensures visited.None? ==> ModelOf(g') == ModelOf(g)
  {
    HeadTells(pool, g, count);
    count', g', visited := count, g, None;
    if pool[0].next == null { return; }
    var order;
    count', g', order := ForEachRemove(pool, g, count, block);
    visited := Some(order);
  }

  class List {
    const pool: seq<Element>
    var count: int
    ghost var g: Shape

    ghost predicate Valid()
      reads this, pool, g.ring, g.live
    {
      Usable(pool, g, count)
    }

    ghost function Model(): Model
      reads this
    {
      ModelOf(g)
    }

    /** A zeroed list_t. */
    constructor ()
      ensures Valid() && Model() == Uninitialised && fresh(pool) && g.live == {}
    {
      var es := ZeroedPool(PREALLOC_SIZE);
      pool, count, g := es, 0, Shape([], {}, [], []);
    }

    /** list_append */
    method Append(x: Pointer)
      requires Valid()
      modifies this, pool, g.live
      ensures Valid() && Some((Model(), Nothing)) == Meaning(old(Model()), Operation.Append(x))
      ensures forall e | e in g.live :: e in old(g.live) || e in pool || fresh(e)
    {
      var c; ghost var s;
      c, s := AppendTo(pool, g, count, x);
      count, g := c, s;
      assert Good(pool, g, count);
    }

    /** list_remove */
    method Remove(x: Pointer) returns (ok: bool)
      requires Valid()
      modifies this, pool, g.live
      ensures Valid() && g.live <= old(g.live)
      ensures ok ==> Some((Model(), Nothing)) == Meaning(old(Model()), Operation.Remove(x))
      ensures !ok ==> Meaning(old(Model()), Operation.Remove(x)) == None && Model() == old(Model())
    {
      var c; ghost var s;
      ok, c, s := RemoveFrom(pool, g, count, x);
      count, g := c, s;
      assert Usable(pool, g, count);
    }

    /** list_contains */
    method Contains(x: Pointer) returns (r: Option<bool>)
      requires Valid()
      ensures Meaning(Model(), Operation.Contains(x)) == if r.Some? then Some((Model(), Truth(r.value))) else None
    {
      HeadTells(pool, g, count);
      if pool[0].next == null { return None; }
      var box; ghost var i;
      box, i := Find(pool, g, count, x);
      r := Some(box != pool[0]);
    }

    /** LIST_FOREACH with removal of the current element wherever `block` says so, and a return from it. */
    method ForEach(block: Block) returns (visited: Option<seq<Pointer>>)
      requires Valid()
      modifies this, pool, g.live
      ensures Valid() && g.live <= old(g.live)
      ensures Meaning(old(Model()), Operation.ForEach(block))
           == if visited.Some? then Some((Model(), Visited(visited.value))) else None
      ensures visited.None? ==> Model() == old(Model())
    {
      var c; ghost var s;
      c, s, visited := ForEachIn(pool, g, count, block);
      count, g := c, s;
      assert Usable(pool, g, count);
    }
  }

  // ----- Whole runs --------------------------------------------------------

  /** What a run of operations puts out, up to the first that ends the process. */
  function Outputs(m: Model, ops: seq<Operation>): seq<Output>
    decreases |ops|
  {
    if ops == [] then [] else
      var r := Meaning(m, ops[0]);
      if r.None? then [] else [r.value.1] + Outputs(r.value.0, ops[1..])
  }

  method Execute(list: List, op: Operation) returns (out: Option<Output>)
    requires list.Valid()
    modifies list, list.pool, list.g.live
    ensures list.Valid()
    ensures Meaning(old(list.Model()), op) == if out.Some? then Some((list.Model(), out.value)) else None
    ensures forall e | e in list.g.live :: e in old(list.g.live) || e in list.pool || fresh(e)
  {
    match op {
      case Append(x) =>
        list.Append(x);
        out := Some(Nothing);
      case Remove(x) =>
        var ok := list.Remove(x);
        out := if ok then Some(Nothing) else None;
      case Contains(x) =>
        var r := list.Contains(x);
        out := if r.Some? then Some(Truth(r.value)) else None;
      case ForEach(block) =>
        var visited := list.ForEach(block);
        out := if visited.Some? then Some(Visited(visited.value)) else None;
    }
  }

  /** Every run of operations on a new list puts out what the same run on a plain sequence does. */
  method Run(ops: seq<Operation>) returns (outs: seq<Output>)
    ensures outs == Outputs(Uninitialised, ops)
  {
    var list := new List();
    outs := [];
    var k := 0;
    while k < |ops|
      invariant 0 <= k <= |ops|
      invariant list.Valid() && fresh(list) && fresh(list.pool) && fresh(list.g.live)
      invariant outs + Outputs(list.Model(), ops[k..]) == Outputs(Uninitialised, ops)
    {
      assert ops[k..][1..] == ops[k + 1..];
      var out := Execute(list, ops[k]);
      if out.None? { return; }
      outs := outs + [out.value];
      k := k + 1;
    }
  }
}

/**
  The selection of afl-cmin.py: which files are kept, given the tables that the
  trace workers produced.
 */
module CminSelect {
  import opened Sequences

  /** Where a trace is stored: the worker's pack, a byte offset, and a number of tuples. */
  datatype Entry = Entry(worker: nat, pos: nat, count: nat)

  /**
    `traces[f]` is what afl-showmap reports for file f, the files being sorted by
    size; tuples are below `maxTuple`, `noFile` is the largest value of the file
    index type and `itemSize` the bytes of one stored tuple.
   */
  datatype Corpus = Corpus(traces: seq<seq<nat>>, maxTuple: nat, noFile: nat, itemSize: nat)
  {
    ghost predicate Valid() {
      && |traces| <= noFile
      && itemSize > 0
      && forall f: nat, t: nat | Has(f, t) :: t < maxTuple
    }

    predicate Has(f: nat, t: nat) {
      f < |traces| && t in traces[f]
    }

    ghost predicate Held(t: nat) {
      exists f: nat :: Has(f, t)
    }

    /** `b` is the smallest file that holds `t`, or `noFile` when none does. */
    ghost predicate IsBest(t: nat, b: nat) {
      && (forall f: nat | Has(f, t) :: b <= f)
      && (b == noFile || Has(b, t))
    }

    ghost predicate HeldBy(files: seq<nat>, t: nat) {
      exists f: nat :: f in files && Has(f, t)
    }

    /** A choice of files covers the corpus when it holds every tuple that any file holds. */
    ghost predicate Covers(files: seq<nat>) {
      forall t: nat | Held(t) :: HeldBy(files, t)
    }

    /** No other file holds `t`. */
    ghost predicate Sole(f: nat, t: nat) {
      Has(f, t) && forall g: nat | Has(g, t) :: g == f
    }
  }

  // ----- Counting tuples ---------------------------------------------------

  function Count(files: seq<nat>, f: nat): nat {
    multiset(files)[f]
  }

  function Range(lo: nat, hi: nat): (r: seq<nat>)
    requires lo <= hi
    ensures |r| == hi - lo && forall i | 0 <= i < |r| :: r[i] == lo + i
  {
    seq(hi - lo, i requires 0 <= i < hi - lo => lo + i)
  }

  lemma CountSplit(files: seq<nat>, f: nat)
    requires files != []
    ensures Count(files, f) == Count(files[1..], f) + if files[0] == f then 1 else 0
  {
    assert files == [files[0]] + files[1..];
  }

  lemma {:induction false} RangeCount(lo: nat, hi: nat, f: nat)
    requires lo <= hi
    ensures Count(Range(lo, hi), f) == if lo <= f < hi then 1 else 0
    decreases hi - lo
  {
    if lo == hi {
    } else {
      var r := Range(lo, hi);
      assert r[1..] == Range(lo + 1, hi);
      CountSplit(r, f);
      RangeCount(lo + 1, hi, f);
    }
  }

  /** Occurrences of `t` in the traces of the given files. */
  ghost function Occurrences(c: Corpus, files: seq<nat>, t: nat): nat {
    if files == [] then 0 else
    var last := files[|files| - 1];
    Occurrences(c, files[..|files| - 1], t) + if last < |c.traces| then Count(c.traces[last], t) else 0
  }

  ghost predicate AtMostOnce(files: seq<nat>) {
    forall f: nat :: Count(files, f) <= 1
  }

  lemma PrefixOnce(files: seq<nat>)
    requires AtMostOnce(files) && files != []
    ensures AtMostOnce(files[..|files| - 1]) && files[|files| - 1] !in files[..|files| - 1]
  {
    var last := files[|files| - 1];
    var prefix := files[..|files| - 1];
    assert files == prefix + [last];
    assert Count(files, last) == Count(prefix, last) + 1;
    forall f: nat
      ensures Count(prefix, f) <= 1
    {
      assert Count(files, f) >= Count(prefix, f);
    }
  }

  /** A tuple is counted when a file holds it, and counted once only when one file does. */
  lemma {:induction false} OccurrencesMeaning(c: Corpus, files: seq<nat>, t: nat)
    requires AtMostOnce(files)
    ensures Occurrences(c, files, t) > 0 <==> exists f: nat :: f in files && c.Has(f, t)
    ensures Occurrences(c, files, t) == 1 ==>
      forall f: nat, g: nat | f in files && g in files && c.Has(f, t) && c.Has(g, t) :: f == g
    decreases |files|
  {
    if files == [] {
    } else {
      var prefix, last := files[..|files| - 1], files[|files| - 1];
      PrefixOnce(files);
      OccurrencesMeaning(c, prefix, t);
      assert forall f: nat :: f in files <==> f in prefix || f == last;
      assert c.Has(last, t) <==> last < |c.traces| && Count(c.traces[last], t) > 0;
      if f: nat :| f in prefix && c.Has(f, t) {
        assert f in files;
      }
    }
  }

  lemma {:induction false} OccurrencesAppend(c: Corpus, a: seq<nat>, b: seq<nat>, t: nat)
    ensures Occurrences(c, a + b, t) == Occurrences(c, a, t) + Occurrences(c, b, t)
    decreases |b|
  {
    if b == [] {
      assert a + b == a;
    } else {
      var n := |b| - 1;
      OccurrencesAppend(c, a, b[..n], t);
      assert (a + b)[..|a + b| - 1] == a + b[..n];
    }
  }

  lemma RemoveOne(s: seq<nat>, k: nat)
    requires k < |s|
    ensures multiset(s[..k] + s[k + 1..]) == multiset(s) - multiset{s[k]}
  {
    assert s == s[..k] + [s[k]] + s[k + 1..];
  }

  lemma OccurrencesRemove(c: Corpus, s: seq<nat>, k: nat, t: nat)
    requires k < |s|
    ensures Occurrences(c, s, t) == Occurrences(c, s[..k] + s[k + 1..], t) + Occurrences(c, [s[k]], t)
  {
    assert s == s[..k] + [s[k]] + s[k + 1..];
    OccurrencesAppend(c, s[..k] + [s[k]], s[k + 1..], t);
    OccurrencesAppend(c, s[..k], [s[k]], t);
    OccurrencesAppend(c, s[..k], s[k + 1..], t);
  }

  /** The order of the files does not matter. */
  lemma {:induction false} OccurrencesPermute(c: Corpus, a: seq<nat>, b: seq<nat>, t: nat)
    requires multiset(a) == multiset(b)
    ensures Occurrences(c, a, t) == Occurrences(c, b, t)
    decreases |a|
  {
    if a == [] {
      assert |multiset(b)| == 0;
    } else {
      var n := |a| - 1;
      RemoveOne(a, n);
      assert a[n] in multiset(b);
      var k :| 0 <= k < |b| && b[k] == a[n];
      RemoveOne(b, k);
      OccurrencesPermute(c, a[..n] + a[n + 1..], b[..k] + b[k + 1..], t);
      OccurrencesRemove(c, a, n, t);
      OccurrencesRemove(c, b, k, t);
    }
  }

  /** How often the traces of the corpus hold the tuple. */
  ghost function Total(c: Corpus, t: nat): nat {
    Occurrences(c, Range(0, |c.traces|), t)
  }

  lemma TotalMeaning(c: Corpus, t: nat)
    ensures Total(c, t) > 0 <==> c.Held(t)
    ensures Total(c, t) == 1 ==> forall f: nat, g: nat | c.Has(f, t) && c.Has(g, t) :: f == g
  {
    var files := Range(0, |c.traces|);
    forall f: nat
      ensures Count(files, f) <= 1
      ensures f in files <==> f < |c.traces|
    {
      RangeCount(0, |c.traces|, f);
      assert f in files <==> Count(files, f) > 0;
    }
    OccurrencesMeaning(c, files, t);
    assert forall f: nat | c.Has(f, t) :: f in files;
  }

  // ----- Index types and tuple numbers -------------------------------------

  /** 256 ** itemsize - 1 for the type codes B, H, I, L and Q. */
  function MaxValue(itemSize: nat): nat {
    if itemSize == 1 then 0xff else if itemSize == 2 then 0xffff else if itemSize == 4 then 0xffff_ffff
    else 0xffff_ffff_ffff_ffff
  }

  function Pow256(k: nat): nat {
    if k == 0 then 1 else 256 * Pow256(k - 1)
  }

  /** These are what fits the bytes. */
  lemma MaxValueIs(itemSize: nat)
    requires itemSize in {1, 2, 4, 8}
    ensures MaxValue(itemSize) == Pow256(itemSize) - 1
  {
    assert Pow256(4) == 0x1_0000_0000;
    assert Pow256(6) == 0x1_0000_0000_0000;
  }

  /** detect_type_code: the narrowest item size whose largest value is not below `size`; 0 when none is. */
  function DetectItemSize(size: nat): (k: nat)
    ensures k in {0, 1, 2, 4, 8}
    ensures k > 0 ==> size <= MaxValue(k) && forall j | j in [1, 2, 4, 8] && j < k :: MaxValue(j) < size
    ensures k == 0 <==> size > 0xffff_ffff_ffff_ffff
  {
    if size < 0x100 then 1 else if size < 0x1_0000 then 2 else if size < 0x1_0000_0000 then 4
    else if size < 0x1_0000_0000_0000_0000 then 8 else 0
  }

  /** An afl-showmap line, edge * 1000 + class, as an index into the table. */
  function EncodeTuple(line: nat): nat {
    line / 1000 * 9 + line % 1000
  }

  /** With fewer than nine classes the numbering is injective and fits the table. */
  lemma EncodeInjective(x: nat, y: nat, mapSize: nat)
    requires x % 1000 < 9 && y % 1000 < 9 && x / 1000 < mapSize
    ensures EncodeTuple(x) == EncodeTuple(y) ==> x == y
    ensures EncodeTuple(x) < mapSize * 9
  {
    assert EncodeTuple(x) / 9 == x / 1000 && EncodeTuple(y) / 9 == y / 1000;
  }

  // ----- Trace packs -------------------------------------------------------

  ghost predicate Readable(packs: seq<seq<nat>>, itemSize: nat, e: Entry) {
    && itemSize > 0
    && e.worker < |packs|
    && e.pos % itemSize == 0
    && e.pos / itemSize + e.count <= |packs[e.worker]|
  }

  /** seek(pos), then fromfile(count) */
  function ReadPack(packs: seq<seq<nat>>, itemSize: nat, e: Entry): seq<nat>
    requires Readable(packs, itemSize, e)
  {
    packs[e.worker][e.pos / itemSize..e.pos / itemSize + e.count]
  }

  /** The entry reads back exactly the trace of file `f`. */
  ghost predicate Stores(c: Corpus, packs: seq<seq<nat>>, f: nat, e: Entry) {
    f < |c.traces| && Readable(packs, c.itemSize, e) && ReadPack(packs, c.itemSize, e) == c.traces[f]
  }

  // ----- What main holds when it starts selecting --------------------------

  ghost predicate Tables(c: Corpus, best: seq<nat>, info: map<nat, Entry>, packs: seq<seq<nat>>) {
    && c.Valid()
    && |best| == c.maxTuple
    && (forall t | 0 <= t < c.maxTuple :: c.IsBest(t, best[t]))
    && (forall t | 0 <= t < c.maxTuple && best[t] != c.noFile :: best[t] in info)
    && (forall f | f in info :: Stores(c, packs, f, info[f]))
  }

  /** counter.most_common(): every tuple of the corpus with the number of its occurrences, the commonest first. */
  ghost predicate Ranking(c: Corpus, order: seq<(nat, nat)>) {
    && (forall i | 0 <= i < |order| :: c.Held(order[i].0) && order[i].1 == Total(c, order[i].0))
    && (forall t: nat | c.Held(t) :: exists i :: 0 <= i < |order| && order[i].0 == t)
    && (forall i, j | 0 <= i < j < |order| :: order[i].1 >= order[j].1)
  }

  // ----- Passes ------------------------------------------------------------

  ghost predicate IsSavedTrace(c: Corpus, packs: seq<seq<nat>>, saved: seq<nat>, e: Entry) {
    exists f :: f in saved && Stores(c, packs, f, e)
  }

  ghost predicate IsJob(jobs: seq<seq<Entry>>, e: Entry) {
    e.worker < |jobs| && e in jobs[e.worker]
  }

  ghost predicate HasJob(c: Corpus, packs: seq<seq<nat>>, jobs: seq<seq<Entry>>, f: nat) {
    exists e :: IsJob(jobs, e) && Stores(c, packs, f, e)
  }

  /** The jobs of the combine workers name exactly the files saved so far, each at the worker that wrote it. */
  ghost predicate JobsMatch(c: Corpus, packs: seq<seq<nat>>, jobs: seq<seq<Entry>>, saved: seq<nat>) {
    && |jobs| == |packs|
    && (forall w, e | 0 <= w < |jobs| && e in jobs[w] :: e.worker == w && IsSavedTrace(c, packs, saved, e))
    && (forall f | f in saved :: HasJob(c, packs, jobs, f))
  }

  /** The tuple that makes a file indispensable. */
  ghost predicate Indispensable(c: Corpus, f: nat) {
    exists t: nat :: c.Sole(f, t)
  }

  /** The file holds a tuple that occurs once in the whole corpus. */
  ghost predicate HoldsSingle(c: Corpus, f: nat) {
    exists t: nat :: Total(c, t) == 1 && c.Has(f, t)
  }

  lemma SingleIsSole(c: Corpus, f: nat)
    requires HoldsSingle(c, f)
    ensures Indispensable(c, f)
  {
    var t: nat :| Total(c, t) == 1 && c.Has(f, t);
    TotalMeaning(c, t);
    assert c.Sole(f, t);
  }

  lemma BestOfHeld(c: Corpus, best: seq<nat>, info: map<nat, Entry>, packs: seq<seq<nat>>, t: nat)
    requires Tables(c, best, info, packs) && c.Held(t)
    ensures t < c.maxTuple && c.Has(best[t], t)
    ensures best[t] in info && Stores(c, packs, best[t], info[best[t]])
  {
    var f: nat :| c.Has(f, t);
    assert c.IsBest(t, best[t]);
  }

  lemma JobAdded(c: Corpus, packs: seq<seq<nat>>, jobs: seq<seq<Entry>>, saved: seq<nat>, f: nat, e: Entry)
    requires JobsMatch(c, packs, jobs, saved) && Stores(c, packs, f, e)
    ensures JobsMatch(c, packs, jobs[e.worker := jobs[e.worker] + [e]], saved + [f])
  {
    var jobs' := jobs[e.worker := jobs[e.worker] + [e]];
    forall w, d: Entry | 0 <= w < |jobs'| && d in jobs'[w]
      ensures d.worker == w && IsSavedTrace(c, packs, saved + [f], d)
    {
      if d in jobs[w] {
        assert IsSavedTrace(c, packs, saved, d);
        var g :| g in saved && Stores(c, packs, g, d);
        assert g in saved + [f];
      } else {
        assert f in saved + [f];
      }
    }
    forall g | g in saved + [f]
      ensures HasJob(c, packs, jobs', g)
    {
      if g in saved {
        var d :| IsJob(jobs, d) && Stores(c, packs, g, d);
        assert IsJob(jobs', d);
      } else {
        assert IsJob(jobs', e);
      }
    }
  }

  /** The file kept at place `i` holds a tuple counted once; the holders of such tuples before it came earlier. */
  ghost predicate SingleFor(best: seq<nat>, order: seq<(nat, nat)>, saved: seq<nat>, i: nat, k: nat) {
    && i < |saved| && k < |order| && order[k].1 == 1 && order[k].0 < |best| && saved[i] == best[order[k].0]
    && forall j | 0 <= j < k && order[j].1 == 1 :: order[j].0 < |best| && best[order[j].0] in saved[..i]
  }

  ghost predicate SingleAt(best: seq<nat>, order: seq<(nat, nat)>, saved: seq<nat>, i: nat) {
    exists k: nat :: SingleFor(best, order, saved, i, k)
  }

  ghost predicate InOrder(best: seq<nat>, order: seq<(nat, nat)>, saved: seq<nat>) {
    forall i: nat | i < |saved| :: SingleAt(best, order, saved, i)
  }

  lemma InOrderMore(best: seq<nat>, order: seq<(nat, nat)>, saved: seq<nat>, k: nat)
    requires InOrder(best, order, saved) && k < |order| && order[k].1 == 1 && order[k].0 < |best|
    requires forall j | 0 <= j < k && order[j].1 == 1 :: order[j].0 < |best| && best[order[j].0] in saved
    ensures InOrder(best, order, saved + [best[order[k].0]])
  {
    var more := saved + [best[order[k].0]];
    forall i: nat | i < |more|
      ensures SingleAt(best, order, more, i)
    {
      if i < |saved| {
        assert SingleAt(best, order, saved, i);
        var q: nat :| SingleFor(best, order, saved, i, q);
        assert more[..i] == saved[..i];
        assert SingleFor(best, order, more, i, q);
      } else {
        assert more[..i] == saved;
        assert SingleFor(best, order, more, i, k);
      }
    }
  }

  /** First pass: the only holder of each tuple counted once. */
  method FirstPass(c: Corpus, best: seq<nat>, info: map<nat, Entry>, packs: seq<seq<nat>>, order: seq<(nat, nat)>)
    returns (saved: seq<nat>, jobs: seq<seq<Entry>>)
    requires Tables(c, best, info, packs) && Ranking(c, order)
    ensures Distinct(saved) && JobsMatch(c, packs, jobs, saved) && InOrder(best, order, saved)
    ensures forall f: nat :: f in saved <==> HoldsSingle(c, f)
  {
    saved, jobs := [], seq(|packs|, _ => []);
    for i := 0 to |order|
      invariant Distinct(saved) && JobsMatch(c, packs, jobs, saved) && InOrder(best, order, saved)
      invariant forall f | f in saved :: HoldsSingle(c, f)
      invariant forall k | 0 <= k < i && order[k].1 == 1 :: order[k].0 < |best| && best[order[k].0] in saved
    {
      var (t, count) := order[i];
      BestOfHeld(c, best, info, packs, t);
      if count == 1 {
        var idx := best[t];
        if idx !in saved {
          var e := info[idx];
          JobAdded(c, packs, jobs, saved, idx, e);
          InOrderMore(best, order, saved, i);
          saved, jobs := saved + [idx], jobs[e.worker := jobs[e.worker] + [e]];
        }
      }
    }
    forall f: nat | HoldsSingle(c, f)
      ensures f in saved
    {
      var t: nat :| Total(c, t) == 1 && c.Has(f, t);
      TotalMeaning(c, t);
      BestOfHeld(c, best, info, packs, t);
    }
  }

  /** One combine worker: the union of the traces it is told to read. */
  method CombineTraces(packs: seq<seq<nat>>, itemSize: nat, jobs: seq<Entry>) returns (have: set<nat>)
    requires forall e | e in jobs :: Readable(packs, itemSize, e)
    ensures forall t :: t in have <==> exists e :: e in jobs && t in ReadPack(packs, itemSize, e)
  {
    have := {};
    for i := 0 to |jobs|
      invariant forall t :: t in have <==> exists e :: e in jobs[..i] && t in ReadPack(packs, itemSize, e)
    {
      var result := ReadPack(packs, itemSize, jobs[i]);
      have := have + set t | t in result;
      assert jobs[..i + 1] == jobs[..i] + [jobs[i]];
    }
    assert jobs[..|jobs|] == jobs;
  }

  /** All combine workers; main takes the union of what they send. */
  method Combine(c: Corpus, packs: seq<seq<nat>>, jobs: seq<seq<Entry>>, ghost saved: seq<nat>) returns (have: set<nat>)
    requires JobsMatch(c, packs, jobs, saved)
    ensures forall t: nat :: t in have <==> c.HeldBy(saved, t)
  {
    have := {};
    for w := 0 to |jobs|
      invariant forall t: nat | t in have :: c.HeldBy(saved, t)
      invariant forall e, t: nat | IsJob(jobs, e) && e.worker < w && t in ReadPack(packs, c.itemSize, e) :: t in have
    {
      forall e | e in jobs[w]
        ensures Readable(packs, c.itemSize, e)
      {
        assert IsSavedTrace(c, packs, saved, e);
      }
      var part := CombineTraces(packs, c.itemSize, jobs[w]);
      forall t: nat | t in part
        ensures c.HeldBy(saved, t)
      {
        var e :| e in jobs[w] && t in ReadPack(packs, c.itemSize, e);
        var f: nat :| f in saved && Stores(c, packs, f, e);
        assert c.Has(f, t);
      }
      have := have + part;
    }
    forall t: nat | c.HeldBy(saved, t)
      ensures t in have
    {
      var f: nat :| f in saved && c.Has(f, t);
      var e :| IsJob(jobs, e) && Stores(c, packs, f, e);
      assert t in ReadPack(packs, c.itemSize, e);
    }
  }

  lemma SavedMore(c: Corpus, saved: seq<nat>, idx: nat, t: nat)
    requires Distinct(saved) && c.Has(idx, t) && !c.HeldBy(saved, t)
    ensures Distinct(saved + [idx])
    ensures forall u: nat :: c.HeldBy(saved + [idx], u) <==> c.HeldBy(saved, u) || c.Has(idx, u)
  {
    var more := saved + [idx];
    assert idx !in saved;
    forall u: nat | c.HeldBy(saved, u)
      ensures c.HeldBy(more, u)
    {
      var f: nat :| f in saved && c.Has(f, u);
      assert f in more;
    }
    assert idx in more;
  }

  /** The file kept at place `i` is the best one of the last tuple of the order that the earlier ones do not hold. */
  ghost predicate PickedFor(c: Corpus, best: seq<nat>, order: seq<(nat, nat)>, saved: seq<nat>, i: nat, k: nat) {
    && i < |saved| && k < |order| && order[k].0 < |best|
    && saved[i] == best[order[k].0] && !c.HeldBy(saved[..i], order[k].0)
    && forall j | k < j < |order| :: c.HeldBy(saved[..i], order[j].0)
  }

  ghost predicate Picked(c: Corpus, best: seq<nat>, order: seq<(nat, nat)>, saved: seq<nat>, i: nat) {
    exists k: nat :: PickedFor(c, best, order, saved, i, k)
  }

  lemma PickedBefore(c: Corpus, best: seq<nat>, order: seq<(nat, nat)>, saved: seq<nat>, more: seq<nat>, i: nat)
    requires Picked(c, best, order, saved, i) && saved <= more
    ensures Picked(c, best, order, more, i)
  {
    var k: nat :| PickedFor(c, best, order, saved, i, k);
    assert more[..i] == saved[..i];
    assert PickedFor(c, best, order, more, i, k);
  }

  lemma PickedNow(c: Corpus, best: seq<nat>, order: seq<(nat, nat)>, saved: seq<nat>, k: nat)
    requires k < |order| && order[k].0 < |best| && !c.HeldBy(saved, order[k].0)
    requires forall j | k < j < |order| :: c.HeldBy(saved, order[j].0)
    ensures Picked(c, best, order, saved + [best[order[k].0]], |saved|)
  {
    var more := saved + [best[order[k].0]];
    assert more[..|saved|] == saved;
    assert PickedFor(c, best, order, more, |saved|, k);
  }

  /** What the second pass has made of the files kept first. */
  ghost predicate Continued(c: Corpus, best: seq<nat>, order: seq<(nat, nat)>, saved0: seq<nat>, saved: seq<nat>) {
    && saved0 <= saved && Distinct(saved)
    && forall i | |saved0| <= i < |saved| :: Picked(c, best, order, saved, i)
  }

  lemma ContinuedMore(c: Corpus, best: seq<nat>, order: seq<(nat, nat)>, saved0: seq<nat>, saved: seq<nat>, k: nat)
    requires Continued(c, best, order, saved0, saved)
    requires k < |order| && order[k].0 < |best| && c.Has(best[order[k].0], order[k].0)
    requires !c.HeldBy(saved, order[k].0) && forall j | k < j < |order| :: c.HeldBy(saved, order[j].0)
    ensures Continued(c, best, order, saved0, saved + [best[order[k].0]])
  {
    var more := saved + [best[order[k].0]];
    SavedMore(c, saved, best[order[k].0], order[k].0);
    PickedNow(c, best, order, saved, k);
    forall i | |saved0| <= i < |saved|
      ensures Picked(c, best, order, more, i)
    {
      PickedBefore(c, best, order, saved, more, i);
    }
  }

  /**
    Second pass: the best file of each tuple still missing, rarest tuples first;
    there is no test for files already kept.
   */
  method SecondPass(c: Corpus, best: seq<nat>, info: map<nat, Entry>, packs: seq<seq<nat>>, order: seq<(nat, nat)>,
                    saved0: seq<nat>, have0: set<nat>)
    returns (saved: seq<nat>)
    requires Tables(c, best, info, packs) && Ranking(c, order)
    requires Distinct(saved0) && forall t: nat :: t in have0 <==> c.HeldBy(saved0, t)
    ensures Continued(c, best, order, saved0, saved) && c.Covers(saved)
  {
    saved := saved0;
    var have := have0;
    var i := |order|;
    while i > 0
      invariant 0 <= i <= |order|
      invariant Continued(c, best, order, saved0, saved)
      invariant forall t: nat :: t in have <==> c.HeldBy(saved, t)
      invariant forall k | i <= k < |order| :: order[k].0 in have
    {
      i := i - 1;
      var t := order[i].0;
      if t !in have {
        BestOfHeld(c, best, info, packs, t);
        var idx := best[t];
        SavedMore(c, saved, idx, t);
        ContinuedMore(c, best, order, saved0, saved, i);
        var result := ReadPack(packs, c.itemSize, info[idx]);
        saved, have := saved + [idx], have + set u | u in result;
      }
    }
  }

  /** `t` is missing from the files kept before place `i`, and no tuple missing from them is rarer. */
  ghost predicate RarestMissing(c: Corpus, saved: seq<nat>, i: nat, t: nat)
    requires i <= |saved|
  {
    && c.Held(t) && !c.HeldBy(saved[..i], t)
    && forall u: nat | c.Held(u) && !c.HeldBy(saved[..i], u) :: Total(c, t) <= Total(c, u)
  }

  /** The file kept at place `i` is the smallest that holds a rarest tuple missing from the earlier ones. */
  ghost predicate ForRarest(c: Corpus, saved: seq<nat>, i: nat) {
    i < |saved| && exists t: nat :: RarestMissing(c, saved, i, t) && c.Has(saved[i], t) && c.IsBest(t, saved[i])
  }

  lemma PickedIsRarest(c: Corpus, best: seq<nat>, info: map<nat, Entry>, packs: seq<seq<nat>>,
                       order: seq<(nat, nat)>, saved: seq<nat>, i: nat)
    requires Tables(c, best, info, packs) && Ranking(c, order) && Picked(c, best, order, saved, i)
    ensures ForRarest(c, saved, i)
  {
    var k: nat :| PickedFor(c, best, order, saved, i, k);
    var t := order[k].0;
    BestOfHeld(c, best, info, packs, t);
    forall u: nat | c.Held(u) && !c.HeldBy(saved[..i], u)
      ensures Total(c, t) <= Total(c, u)
    {
      var j :| 0 <= j < |order| && order[j].0 == u;
      assert j <= k;
    }
    assert RarestMissing(c, saved, i, t);
  }

  lemma NeededBy(c: Corpus, f: nat, files: seq<nat>)
    requires HoldsSingle(c, f) && c.Covers(files)
    ensures f in files
  {
    SingleIsSole(c, f);
    var t: nat :| c.Sole(f, t);
    assert c.Held(t);
    var g: nat :| g in files && c.Has(g, t);
  }

  /**
    Both passes.  The kept files hold exactly the tuples of the corpus and no
    file is kept twice.  The first `forced` are those that hold a tuple which
    occurs once, and belong to every covering choice; each later one is the
    smallest that holds a rarest tuple still missing.
   */
  method Select(c: Corpus, best: seq<nat>, info: map<nat, Entry>, packs: seq<seq<nat>>, order: seq<(nat, nat)>)
    returns (saved: seq<nat>, forced: nat)
    requires Tables(c, best, info, packs) && Ranking(c, order)
    ensures c.Covers(saved) && Distinct(saved)
    ensures forall f | f in saved :: f < |c.traces|
    ensures forced <= |saved|
    ensures InOrder(best, order, saved[..forced])
    ensures forall f: nat :: f in saved[..forced] <==> HoldsSingle(c, f)
    ensures forall i, files | 0 <= i < forced && c.Covers(files) :: saved[i] in files
    ensures forall i | forced <= i < |saved| :: ForRarest(c, saved, i)
  {
    var first, jobs := FirstPass(c, best, info, packs, order);
    var have := Combine(c, packs, jobs, first);
    saved := SecondPass(c, best, info, packs, order, first, have);
    forced := |first|;
    assert saved[..forced] == first;
    forall i, files | 0 <= i < forced && c.Covers(files)
      ensures saved[i] in files
    {
      assert saved[i] in first;
      NeededBy(c, saved[i], files);
    }
    forall i | forced <= i < |saved|
      ensures ForRarest(c, saved, i)
    {
      PickedIsRarest(c, best, info, packs, order, saved, i);
    }
    forall f | f in saved
      ensures f < |c.traces|
    {
      var i :| 0 <= i < |saved| && saved[i] == f;
      if i < forced {
        assert first[i] in first && HoldsSingle(c, f);
      } else {
        assert ForRarest(c, saved, i);
      }
    }
  }
}

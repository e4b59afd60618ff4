/**
  The coverage-ID allocator of the LTO pass.  With context instrumentation a
  function is first counted in a dry run; the IDs it then really takes must be
  as many, and each calling context gets its own copy of them.
 */
module LtoIds {
  import opened Arith

  datatype Condition = Integer | FixedVector(elements: nat) | ScalableVector | OtherType

  datatype Callee = Unknown | Intrinsic | Dlopen | CoverageInteresting | Other

  /** An instruction, with the answer of isAflCovInterestingInstruction. */
  datatype Instruction =
    | Call(callee: Callee, ccallConv: bool, interesting: bool)
    | Select(condition: Condition, interesting: bool)
    | Compare(isBool: bool, interesting: bool)
    | CompareExchange(interesting: bool)
    | ReadModifyWrite(minMax: bool, interesting: bool)
    | Plain(interesting: bool)

  /** A basic block: `wanted` is shouldInstrumentBlock, `listed` membership in BlockList. */
  datatype Block = Block(code: seq<Instruction>, wanted: bool, listed: bool)

  /** A function, with the number of callers that its context is taken from. */
  datatype Function = Function(blocks: seq<Block>, callers: nat)

  // ----- How many IDs something takes --------------------------------------

  function Cost(i: Instruction): nat {
    match i
    case Call(callee, conv, _) => if callee.CoverageInteresting? && conv then 1 else 0
    case Select(c, interesting) =>
      if !interesting || c.OtherType? then 0 else if c.FixedVector? then 2 * c.elements else 2
    case Compare(isBool, interesting) => if interesting && isBool then 2 else 0
    case CompareExchange(interesting) => if interesting then 2 else 0
    case ReadModifyWrite(minMax, interesting) => if interesting && minMax then 2 else 0
    case Plain(_) => 0
  }

  /** What can happen at an instruction that coverage is to tell apart: a call, or a condition that is true or false. */
  datatype Outcome = Called | Is(lane: nat, value: bool)

  /** Both values of so many conditions. */
  ghost function BothValues(lanes: nat): (outcomes: set<Outcome>)
    ensures |outcomes| == 2 * lanes
    ensures forall o :: o in outcomes <==> o.Is? && o.lane < lanes
  {
    if lanes == 0 then
      {}
    else
      var rest := BothValues(lanes - 1);
      assert Is(lanes - 1, false) !in rest && Is(lanes - 1, true) !in rest;
      rest + {Is(lanes - 1, false), Is(lanes - 1, true)}
  }

  ghost function Outcomes(i: Instruction): set<Outcome> {
    match i
    case Call(callee, conv, _) => if callee.CoverageInteresting? && conv then {Called} else {}
    case Select(c, interesting) =>
      if !interesting || c.OtherType? then {} else BothValues(if c.FixedVector? then c.elements else 1)
    case Compare(isBool, interesting) => if interesting && isBool then BothValues(1) else {}
    case CompareExchange(interesting) => if interesting then BothValues(1) else {}
    case ReadModifyWrite(minMax, interesting) => if interesting && minMax then BothValues(1) else {}
    case Plain(_) => {}
  }

  /** An instruction takes one ID for each outcome. */
  lemma CostIsOutcomes(i: Instruction)
    ensures Cost(i) == |Outcomes(i)|
  {
  }

  function CodeCost(code: seq<Instruction>): nat
    decreases |code|
  {
    if code == [] then 0 else CodeCost(code[..|code| - 1]) + Cost(code[|code| - 1])
  }

  function DecisionCost(blocks: seq<Block>): nat
    decreases |blocks|
  {
    if blocks == [] then 0 else DecisionCost(blocks[..|blocks| - 1]) + CodeCost(blocks[|blocks| - 1].code)
  }

  /** The blocks that shouldInstrumentBlock picks. */
  function Wanted(blocks: seq<Block>): seq<Block>
    decreases |blocks|
  {
    if blocks == [] then [] else
      Wanted(blocks[..|blocks| - 1]) + if blocks[|blocks| - 1].wanted then [blocks[|blocks| - 1]] else []
  }

  /** A block in BlockList gets no ID. */
  function BlockCost(blocks: seq<Block>): nat
    decreases |blocks|
  {
    if blocks == [] then 0 else BlockCost(blocks[..|blocks| - 1]) + if blocks[|blocks| - 1].listed then 0 else 1
  }

  /** All wanted blocks, as often as they are there, and no others. */
  lemma {:induction false} WantedAre(blocks: seq<Block>, b: Block)
    ensures multiset(Wanted(blocks))[b] == if b.wanted then multiset(blocks)[b] else 0
    decreases |blocks|
  {
    if blocks == [] {
    } else {
      var n := |blocks| - 1;
      WantedAre(blocks[..n], b);
      assert blocks == blocks[..n] + [blocks[n]];
    }
  }

  /** Each block that is not listed takes one ID. */
  lemma {:induction false} BlockCostIs(blocks: seq<Block>, unlisted: set<nat>)
    requires forall k: nat :: k in unlisted <==> k < |blocks| && !blocks[k].listed
    ensures BlockCost(blocks) == |unlisted|
    decreases |blocks|
  {
    if blocks == [] {
      assert unlisted == {};
    } else {
      var n := |blocks| - 1;
      BlockCostIs(blocks[..n], unlisted - {n});
    }
  }

  /** AFL_LLVM_INSTRUMENT=CTX, and the TracePCGuard option under which blocks get IDs. */
  datatype Options = Options(ctx: bool, guard: bool)

  /** Which blocks are picked at all: with contexts switched on, only those of functions with several callers. */
  function Chosen(o: Options, f: Function): seq<Block> {
    if o.ctx && f.callers <= 1 then [] else Wanted(f.blocks)
  }

  /** What the dry run counts. */
  function Counted(o: Options, f: Function): nat {
    DecisionCost(f.blocks) + BlockCost(Chosen(o, f))
  }

  /** The IDs that a function's own sites take. */
  function Sites(o: Options, f: Function): nat {
    DecisionCost(f.blocks) + if o.guard then BlockCost(Chosen(o, f)) else 0
  }

  /** A function gets a copy of its IDs for each caller, if it has several and takes more than one ID. */
  function Copies(o: Options, f: Function): nat {
    if o.ctx && f.callers > 1 && Counted(o, f) > 1 then f.callers else 1
  }

  /** A function that gets copies, and whose blocks are counted but get no ID. */
  ghost predicate BugExit(o: Options, f: Function) {
    o.ctx && f.callers > 1 && Counted(o, f) > 1 && !o.guard && BlockCost(Chosen(o, f)) > 0
  }

  // ----- The dry run -------------------------------------------------------

  /** The counting loop's body, branch by branch. */
  method CountInstruction(i: Instruction, inst: nat) returns (inst': nat)
    ensures inst' == inst + Cost(i)
  {
    inst' := inst;
    if i.Call? {
      if i.callee.Unknown? { return; }
      if i.callee.Intrinsic? { return; }
      if !i.ccallConv { return; }
      if !i.callee.CoverageInteresting? { return; }
      inst' := inst' + 1;
    }
    if !i.interesting { return; }
    match i {
      case Select(t, _) =>
        match t {
          case Integer => inst' := inst' + 2;
          case FixedVector(elements) => inst' := inst' + elements * 2;
          case ScalableVector => inst' := inst' + 2;
          case OtherType => return;
        }
      case Compare(isBool, _) =>
        if isBool { inst' := inst' + 2; }
      case CompareExchange(_) =>
        inst' := inst' + 2;
      case ReadModifyWrite(minMax, _) =>
        if minMax { inst' := inst' + 2; }
      case _ =>
    }
  }

  method FakeInjectCoverage(blocks: seq<Block>, inst: nat) returns (inst': nat)
    ensures inst' == inst + BlockCost(blocks)
  {
    inst' := inst;
    var b := 0;
    while b < |blocks|
      invariant b <= |blocks| && inst' == inst + BlockCost(blocks[..b])
    {
      if !blocks[b].listed { inst' := inst' + 1; }
      assert blocks[..b + 1][..b] == blocks[..b];
      b := b + 1;
    }
    assert blocks[..b] == blocks;
  }

  method DryRun(f: Function, inst: nat) returns (inst': nat, picked: seq<Block>)
    ensures picked == Wanted(f.blocks)
    ensures inst' == inst + DecisionCost(f.blocks) + BlockCost(picked)
  {
    inst', picked := inst, [];
    var b := 0;
    while b < |f.blocks|
      invariant b <= |f.blocks|
      invariant inst' == inst + DecisionCost(f.blocks[..b]) && picked == Wanted(f.blocks[..b])
    {
      var code := f.blocks[b].code;
      var k, before := 0, inst';
      while k < |code|
        invariant k <= |code| && inst' == before + CodeCost(code[..k])
      {
        inst' := CountInstruction(code[k], inst');
        assert code[..k + 1][..k] == code[..k];
        k := k + 1;
      }
      assert code[..k] == code && f.blocks[..b + 1][..b] == f.blocks[..b];
      if f.blocks[b].wanted { picked := picked + [f.blocks[b]]; }
      b := b + 1;
    }
    assert f.blocks[..b] == f.blocks;
    inst' := FakeInjectCoverage(picked, inst');
  }

  // ----- The real run ------------------------------------------------------

  /** The IDs after `from`, in order: what `++afl_global_id` hands out n times. */
  function Fresh(from: nat, n: nat): (ids: seq<nat>)
    ensures |ids| == n && forall k | 0 <= k < n :: ids[k] == from + 1 + k
  {
    seq(n, k => from + 1 + k)
  }

  lemma FreshJoin(from: nat, n: nat, m: nat)
    ensures Fresh(from, n) + Fresh(from + n, m) == Fresh(from, n + m)
  {
  }

  /** What the real run keeps: the last ID and the IDs written into the code so far. */
  datatype Emitter = Emitter(id: nat, ids: seq<nat>) {
    function Next(): Emitter { Emitter(id + 1, ids + [id + 1]) }
  }

  ghost predicate Emitted(before: Emitter, after: Emitter, n: nat) {
    after.id == before.id + n && after.ids == before.ids + Fresh(before.id, n)
  }

  lemma EmittedMore(a: Emitter, b: Emitter, c: Emitter, n: nat, m: nat)
    requires Emitted(a, b, n) && Emitted(b, c, m)
    ensures Emitted(a, c, n + m)
  {
    FreshJoin(a.id, n, m);
  }

  method EmitInstruction(i: Instruction, s: Emitter) returns (s': Emitter)
    ensures Emitted(s, s', Cost(i))
  {
    s' := s;
    if i.Call? {
      if i.callee.Unknown? { return; }
      if i.callee.Intrinsic? { return; }
      if !i.ccallConv { return; }
      if i.callee.Dlopen? { return; }
      if !i.callee.CoverageInteresting? { return; }
      s' := s'.Next();
    }
    if !i.interesting { return; }
    match i {
      case Select(t, _) =>
        match t {
          case Integer => s' := s'.Next().Next();
          case FixedVector(elements) =>
            if elements > 0 {
              s' := s'.Next().Next();
              var k := 1;
              while k < elements
                invariant k <= elements && Emitted(s, s', 2 * k)
              {
                s' := s'.Next().Next();
                k := k + 1;
              }
            }
          case ScalableVector => s' := s'.Next().Next();
          case OtherType => return;
        }
      case Compare(isBool, _) =>
        if !isBool { return; }
        s' := s'.Next().Next();
      case CompareExchange(_) =>
        s' := s'.Next().Next();
      case ReadModifyWrite(minMax, _) =>
        if !minMax { return; }
        s' := s'.Next().Next();
      case _ =>
    }
  }

  method EmitCode(code: seq<Instruction>, s: Emitter) returns (s': Emitter)
    ensures Emitted(s, s', CodeCost(code))
  {
    s' := s;
    var k := 0;
    while k < |code|
      invariant k <= |code| && Emitted(s, s', CodeCost(code[..k]))
    {
      var was := s';
      s' := EmitInstruction(code[k], s');
      EmittedMore(s, was, s', CodeCost(code[..k]), Cost(code[k]));
      assert code[..k + 1][..k] == code[..k];
      k := k + 1;
    }
    assert code[..k] == code;
  }

  method InjectCoverage(guard: bool, blocks: seq<Block>, s: Emitter) returns (s': Emitter)
    ensures Emitted(s, s', if guard then BlockCost(blocks) else 0)
  {
    s' := s;
    var b := 0;
    while b < |blocks|
      invariant b <= |blocks| && Emitted(s, s', if guard then BlockCost(blocks[..b]) else 0)
    {
      assert blocks[..b + 1][..b] == blocks[..b];
      if !blocks[b].listed && guard {
        EmittedMore(s, s', s'.Next(), BlockCost(blocks[..b]), 1);
        s' := s'.Next();
      }
      b := b + 1;
    }
    assert blocks[..b] == blocks;
  }

  method EmitDecisions(blocks: seq<Block>, s: Emitter) returns (s': Emitter, picked: seq<Block>)
    ensures Emitted(s, s', DecisionCost(blocks)) && picked == Wanted(blocks)
  {
    s', picked := s, [];
    var b := 0;
    while b < |blocks|
      invariant b <= |blocks| && Emitted(s, s', DecisionCost(blocks[..b])) && picked == Wanted(blocks[..b])
    {
      var was := s';
      s' := EmitCode(blocks[b].code, s');
      EmittedMore(s, was, s', DecisionCost(blocks[..b]), CodeCost(blocks[b].code));
      assert blocks[..b + 1][..b] == blocks[..b];
      if blocks[b].wanted { picked := picked + [blocks[b]]; }
      b := b + 1;
    }
    assert blocks[..b] == blocks;
  }

  // ----- Sites and the map indices they use --------------------------------

  /** A place in the code that counts in the map: its ID, and how far apart its copies for the contexts are. */
  datatype Site = Site(id: nat, stride: nat, contexts: nat) {
    /** The map index used in context c. */
    function At(c: nat): nat { id + stride * c }
  }

  /** The sites of one function whose IDs start after `from`. */
  function Layout(from: nat, n: nat, copies: nat): (sites: seq<Site>)
    ensures |sites| == n
  {
    seq(n, k requires 0 <= k < n => Site(from + 1 + k, if copies > 1 then n else 0, copies))
  }

  ghost predicate InRange(s: Site, lo: nat, hi: nat) {
    forall c | 0 <= c < s.contexts :: lo < s.At(c) <= hi
  }

  /** No two contexts of one site share an index. */
  ghost predicate Single(s: Site) {
    forall c, d | 0 <= c < d < s.contexts :: s.At(c) != s.At(d)
  }

  ghost predicate Apart(s: Site, t: Site) {
    forall c, d | 0 <= c < s.contexts && 0 <= d < t.contexts :: s.At(c) != t.At(d)
  }

  /** Every site has its own indices in every context, and all are above lo and up to hi. */
  ghost predicate Laid(sites: seq<Site>, lo: nat, hi: nat) {
    && lo <= hi
    && (forall i | 0 <= i < |sites| :: InRange(sites[i], lo, hi) && Single(sites[i]))
    && (forall i, j | 0 <= i < j < |sites| :: Apart(sites[i], sites[j]))
  }

  ghost predicate UsedAt(sites: seq<Site>, i: nat, c: nat, id: nat) {
    i < |sites| && c < sites[i].contexts && sites[i].At(c) == id
  }

  ghost predicate Uses(sites: seq<Site>, id: nat) {
    exists i: nat, c: nat :: UsedAt(sites, i, c, id)
  }

  /** k + n * c with k below n is below n * copies, and tells k and c. */
  lemma Position(n: nat, copies: nat, k: nat, c: nat)
    requires k < n && c < copies
    ensures k + n * c < n * copies
    ensures (k + n * c) % n == k && (k + n * c) / n == c
  {
    MulUp(c + 1, n, copies);
    ModUnique(k + n * c, n, c, k);
  }

  lemma LayoutAt(from: nat, n: nat, copies: nat, k: nat, c: nat)
    requires copies >= 1 && k < n && c < copies
    ensures Layout(from, n, copies)[k].At(c) == from + 1 + (k + n * c)
    ensures from < Layout(from, n, copies)[k].At(c) <= from + n * copies
  {
    Position(n, copies, k, c);
  }

  lemma LayoutDistinct(from: nat, n: nat, copies: nat, k: nat, c: nat, l: nat, d: nat)
    requires copies >= 1 && k < n && l < n && c < copies && d < copies && (k != l || c != d)
    ensures Layout(from, n, copies)[k].At(c) != Layout(from, n, copies)[l].At(d)
  {
    LayoutAt(from, n, copies, k, c);
    LayoutAt(from, n, copies, l, d);
    Position(n, copies, k, c);
    Position(n, copies, l, d);
  }

  lemma LayoutLaid(from: nat, n: nat, copies: nat)
    requires copies >= 1
    ensures Laid(Layout(from, n, copies), from, from + n * copies)
  {
    var sites, hi := Layout(from, n, copies), from + n * copies;
    forall k | 0 <= k < n
      ensures InRange(sites[k], from, hi) && Single(sites[k])
    {
      forall c | 0 <= c < copies
        ensures from < sites[k].At(c) <= hi
      {
        LayoutAt(from, n, copies, k, c);
      }
      forall c, d | 0 <= c < d < copies
        ensures sites[k].At(c) != sites[k].At(d)
      {
        LayoutDistinct(from, n, copies, k, c, k, d);
      }
    }
    forall k, l | 0 <= k < l < n
      ensures Apart(sites[k], sites[l])
    {
      forall c, d | 0 <= c < copies && 0 <= d < copies
        ensures sites[k].At(c) != sites[l].At(d)
      {
        LayoutDistinct(from, n, copies, k, c, l, d);
      }
    }
  }

  lemma Decompose(p: nat, n: nat, copies: nat)
    requires p < n * copies
    ensures n > 0 && p % n < n && p / n < copies && p == p % n + n * (p / n)
  {
    assert n > 0;
    QuotientFits(p, n);
    if p / n >= copies {
      MulUp(copies, n, p / n);
    }
  }

  /** No ID is left out: a function uses every index between its first and its last. */
  lemma LayoutUsesAll(from: nat, n: nat, copies: nat, id: nat)
    requires copies >= 1 && from < id <= from + n * copies
    ensures Uses(Layout(from, n, copies), id)
  {
    var p := id - from - 1;
    Decompose(p, n, copies);
    LayoutAt(from, n, copies, p % n, p / n);
    assert UsedAt(Layout(from, n, copies), p % n, p / n, id);
  }

  lemma LaidAppend(s: seq<Site>, t: seq<Site>, lo: nat, mid: nat, hi: nat)
    requires Laid(s, lo, mid) && Laid(t, mid, hi)
    ensures Laid(s + t, lo, hi)
  {
    var all := s + t;
    forall i | 0 <= i < |all|
      ensures InRange(all[i], lo, hi) && Single(all[i])
    {
      assert all[i] == if i < |s| then s[i] else t[i - |s|];
    }
    forall i, j | 0 <= i < j < |all|
      ensures Apart(all[i], all[j])
    {
      if i < |s| <= j {
        assert InRange(s[i], lo, mid) && InRange(t[j - |s|], mid, hi);
      } else if j < |s| {
        assert Apart(s[i], s[j]);
      } else {
        assert Apart(t[i - |s|], t[j - |s|]);
      }
    }
  }

  /** No index between lo and hi is left unused. */
  ghost predicate Dense(sites: seq<Site>, lo: nat, hi: nat) {
    forall id | lo < id <= hi :: Uses(sites, id)
  }

  lemma DenseAppend(s: seq<Site>, t: seq<Site>, lo: nat, mid: nat, hi: nat)
    requires Dense(s, lo, mid) && Dense(t, mid, hi)
    ensures Dense(s + t, lo, hi)
  {
    var all := s + t;
    forall id | lo < id <= hi
      ensures Uses(all, id)
    {
      if id <= mid {
        assert Uses(s, id);
        var i: nat, c: nat :| UsedAt(s, i, c, id);
        assert UsedAt(all, i, c, id);
      } else {
        assert Uses(t, id);
        var i: nat, c: nat :| UsedAt(t, i, c, id);
        assert UsedAt(all, |s| + i, c, id);
      }
    }
  }

  // ----- The pass ----------------------------------------------------------

  /** The part before the real run: `inst` is put back after the dry run. */
  method CountFunction(o: Options, f: Function, inst: nat)
      returns (instInThisFunc: nat, callCounter: nat, picked: seq<Block>)
    ensures callCounter == if o.ctx && f.callers > 1 then f.callers else 0
    ensures instInThisFunc == if o.ctx && f.callers > 1 && Counted(o, f) > 1 then Counted(o, f) else 0
    ensures o.ctx ==> picked == Chosen(o, f)
  {
    instInThisFunc, callCounter, picked := 0, 0, [];
    if o.ctx {
      callCounter := f.callers;
      if callCounter == 1 { callCounter := 0; }
      if callCounter > 1 {
        var inst';
        inst', picked := DryRun(f, inst);
        if inst' > inst + 1 { instInThisFunc := inst' - inst; }
      }
    }
  }

  method EmitFunction(o: Options, f: Function, picked: seq<Block>, from: nat) returns (s: Emitter)
    requires o.ctx ==> picked == Chosen(o, f)
    ensures s.id == from + Sites(o, f) && s.ids == Fresh(from, Sites(o, f))
  {
    var s0 := Emitter(from, []);
    var s1, all := EmitDecisions(f.blocks, s0);
    var blocks := if o.ctx then picked else all;
    s := InjectCoverage(o.guard, blocks, s1);
    EmittedMore(s0, s1, s, DecisionCost(f.blocks), if o.guard then BlockCost(blocks) else 0);
  }

  /** After the real run: the check against the dry run, and the IDs for the other contexts. */
  method AddContexts(instInThisFunc: nat, callCounter: nat, saveGlobal: nat, globalId: nat, extraCtx: nat,
                     ghost copies: nat)
      returns (ok: bool, globalId': nat, extraCtx': nat)
    requires saveGlobal <= globalId
    requires copies == if instInThisFunc > 0 && callCounter > 1 then callCounter else 1
    ensures ok <==> !(copies > 1 && instInThisFunc != globalId - saveGlobal)
    ensures ok ==> globalId' == saveGlobal + (globalId - saveGlobal) * copies
    ensures ok ==> extraCtx' == extraCtx + (globalId - saveGlobal) * (copies - 1)
  {
    ok, globalId', extraCtx' := true, globalId, extraCtx;
    if instInThisFunc > 0 && callCounter > 1 {
      if instInThisFunc != globalId - saveGlobal { return false, globalId, extraCtx; }
      var extra := instInThisFunc * (callCounter - 1);
      extraCtx' := extraCtx' + extra;
      globalId' := globalId' + extra;
    }
  }

  /** Without a context offset a site has one index only. */
  function Placed(ids: seq<nat>, instInThisFunc: nat, callCounter: nat): seq<Site> {
    var copies := if instInThisFunc > 0 then callCounter else 1;
    seq(|ids|, k requires 0 <= k < |ids| => Site(ids[k], instInThisFunc, copies))
  }

  lemma PlacedIs(from: nat, n: nat, stride: nat, callCounter: nat, copies: nat)
    requires if stride > 0 then stride == n && copies == callCounter > 1 else copies == 1
    ensures Placed(Fresh(from, n), stride, callCounter) == Layout(from, n, copies)
  {
  }

  class Pass {
    const options: Options
    var inst: nat
    var globalId: nat
    var extraCtx: nat
    var sites: seq<Site>

    /** AFL_LLVM_LTO_STARTID gives the least ID, but IDs up to 4 are never used; the layout of no functions holds. */
    constructor (o: Options, start: nat)
      ensures options == o && inst == 0 && extraCtx == 0 && sites == []
      ensures globalId >= 4 && globalId >= start && globalId in {4, start}
      ensures Laid(sites, globalId, globalId) && Dense(sites, globalId, globalId)
    {
      options, inst, extraCtx, sites := o, 0, 0, [];
      globalId := if start < 4 then 4 else start;
    }

    /**
      instrumentFunction.  False is the BUG exit: it happens exactly when
      blocks are counted in the dry run of a function that gets copies, but get
      no ID because TracePCGuard is off.
     */
    method InstrumentFunction(f: Function) returns (ok: bool)
      modifies this
      ensures ok <==> !BugExit(options, f)
      ensures ok ==> sites == old(sites) + Layout(old(globalId), Sites(options, f), Copies(options, f))
      ensures ok ==> globalId == old(globalId) + Sites(options, f) * Copies(options, f)
      ensures ok ==> extraCtx == old(extraCtx) + Sites(options, f) * (Copies(options, f) - 1)
      ensures ok ==> inst == old(inst) + Sites(options, f)
    {
      var instInThisFunc, callCounter, picked := CountFunction(options, f, inst);
      var s := EmitFunction(options, f, picked, globalId);
      inst := inst + |s.ids|;
      ok, globalId, extraCtx := AddContexts(instInThisFunc, callCounter, globalId, s.id, extraCtx, Copies(options, f));
      if ok {
        PlacedIs(old(globalId), Sites(options, f), instInThisFunc, callCounter, Copies(options, f));
        sites := sites + Placed(s.ids, instInThisFunc, callCounter);
      }
    }
  }

  /** The 8-aligned __afl_final_loc that is written at the end. */
  function FinalLoc(id: nat): (loc: nat)
    ensures id < loc <= id + 8 && loc % 8 == 0
  {
    (id + 8) / 8 * 8
  }

  /** The sites of the functions, one after the other, and the last ID. */
  ghost function Plan(o: Options, functions: seq<Function>, from: nat): (plan: (seq<Site>, nat))
    ensures plan.1 >= from
    decreases |functions|
  {
    if functions == [] then
      ([], from)
    else
      var n := |functions| - 1;
      var f, before := functions[n], Plan(o, functions[..n], from);
      (before.0 + Layout(before.1, Sites(o, f), Copies(o, f)), before.1 + Sites(o, f) * Copies(o, f))
  }

  /** No two sites share a map index in any contexts, and none is wasted. */
  lemma {:induction false} PlanLaid(o: Options, functions: seq<Function>, from: nat)
    ensures Laid(Plan(o, functions, from).0, from, Plan(o, functions, from).1)
    ensures Dense(Plan(o, functions, from).0, from, Plan(o, functions, from).1)
    decreases |functions|
  {
    if functions == [] {
    } else {
      var last := |functions| - 1;
      var f, before := functions[last], Plan(o, functions[..last], from);
      var n, copies, end := Sites(o, f), Copies(o, f), Plan(o, functions, from).1;
      PlanLaid(o, functions[..last], from);
      LayoutLaid(before.1, n, copies);
      LaidAppend(before.0, Layout(before.1, n, copies), from, before.1, end);
      forall id | before.1 < id <= end
        ensures Uses(Layout(before.1, n, copies), id)
      {
        LayoutUsesAll(before.1, n, copies, id);
      }
      DenseAppend(before.0, Layout(before.1, n, copies), from, before.1, end);
    }
  }

  lemma PlanStep(o: Options, functions: seq<Function>, k: nat, from: nat)
    requires k < |functions|
    ensures
      var f, before := functions[k], Plan(o, functions[..k], from);
      Plan(o, functions[..k + 1], from) ==
        (before.0 + Layout(before.1, Sites(o, f), Copies(o, f)), before.1 + Sites(o, f) * Copies(o, f))
  {
    assert functions[..k + 1][..k] == functions[..k];
  }

  method InstrumentAll(pass: Pass, functions: seq<Function>) returns (ok: bool)
    requires pass.sites == []
    modifies pass
    ensures ok <==> forall f | f in functions :: !BugExit(pass.options, f)
    ensures ok ==> (pass.sites, pass.globalId) == Plan(pass.options, functions, old(pass.globalId))
  {
    ghost var from := pass.globalId;
    var k := 0;
    while k < |functions|
      invariant k <= |functions|
      invariant forall i | 0 <= i < k :: !BugExit(pass.options, functions[i])
      invariant (pass.sites, pass.globalId) == Plan(pass.options, functions[..k], from)
    {
      PlanStep(pass.options, functions, k, from);
      ok := pass.InstrumentFunction(functions[k]);
      if !ok { return; }
      k := k + 1;
    }
    assert functions[..k] == functions;
    ok := true;
  }

  /**
    A whole pass.  It ends in the BUG exit exactly when some function makes it,
    so never with TracePCGuard.  Otherwise it takes the sites of all the
    functions in turn; no two of them share a map index in any contexts, no
    index up to the last ID is wasted, and all are below the final location.
   */
  method RunPass(o: Options, start: nat, functions: seq<Function>)
      returns (sites: seq<Site>, last: nat, finalLoc: nat, ok: bool, ghost from: nat)
    ensures from >= 4 && from >= start && from in {4, start}
    ensures ok <==> forall f | f in functions :: !BugExit(o, f)
    ensures o.guard ==> ok
    ensures ok ==> (sites, last) == Plan(o, functions, from)
    ensures ok ==> Laid(sites, from, last) && Dense(sites, from, last)
    ensures ok ==> last < finalLoc <= last + 8 && finalLoc % 8 == 0
  {
    var pass := new Pass(o, start);
    from := pass.globalId;
    ok := InstrumentAll(pass, functions);
    PlanLaid(o, functions, from);
    sites, last, finalLoc := pass.sites, pass.globalId, FinalLoc(pass.globalId);
  }
}

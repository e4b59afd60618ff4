/**
  The parallel trace collection of afl-cmin.py as a system of steps: a
  dispatcher, workers on one job queue, and main, which counts messages.
 */
module CminWorkers {
  import opened Arith
  import opened CminSelect
  import opened Sequences

  // ----- One worker --------------------------------------------------------

  /**
    `m[t]` is the smallest file index seen with tuple t, `pack` the tuples
    written so far and `packPos` the byte offset after them.  `batch` is what is
    left of the job in hand and `seen` records the files handled.
   */
  datatype Worker = Worker(m: seq<nat>, counter: multiset<nat>, crashes: seq<nat>, pack: seq<nat>, packPos: nat,
                           batch: seq<nat>, stopped: bool, seen: set<nat>)

  datatype Message = Skipped | Stored(file: nat, entry: Entry)

  /** In batch mode afl_showmap reports a crash exactly for an empty trace. */
  predicate Crashed(r: seq<nat>) {
    r == []
  }

  /** Whether the file lowers some entry of the table. */
  predicate Used(m: seq<nat>, f: nat, r: seq<nat>)
    requires forall t | t in r :: t < |m|
  {
    exists t | t in r :: f < m[t]
  }

  function Lower(m: seq<nat>, f: nat, r: seq<nat>): (m': seq<nat>)
    ensures |m'| == |m|
  {
    seq(|m|, t requires 0 <= t < |m| => if t in r && f < m[t] then f else m[t])
  }

  ghost predicate Fits(c: Corpus, w: Worker, f: nat) {
    f < |c.traces| && forall t | t in c.traces[f] :: t < |w.m|
  }

  /** Crashes are kept out of the table only when they go to a directory of their own. */
  predicate Applies(crashDir: bool, r: seq<nat>) {
    !Crashed(r) || !crashDir
  }

  predicate Reports(crashDir: bool, m: seq<nat>, f: nat, r: seq<nat>)
    requires forall t | t in r :: t < |m|
  {
    Applies(crashDir, r) && Used(m, f, r)
  }

  /** One round of the loop in Worker.run, for file `f`: the worker afterwards, and the message it sends. */
  function HandleFile(c: Corpus, crashDir: bool, w: Worker, f: nat): Worker
    requires Fits(c, w, f)
  {
    var r := c.traces[f];
    var reports := Reports(crashDir, w.m, f, r);
    Worker(if Applies(crashDir, r) then Lower(w.m, f, r) else w.m,
           w.counter + multiset(r),
           if Crashed(r) then w.crashes + [f] else w.crashes,
           if reports then w.pack + r else w.pack,
           if reports then w.packPos + |r| * c.itemSize else w.packPos,
           w.batch, w.stopped, w.seen + {f})
  }

  function MessageFor(c: Corpus, crashDir: bool, id: nat, w: Worker, f: nat): Message
    requires Fits(c, w, f)
  {
    if Reports(crashDir, w.m, f, c.traces[f]) then Stored(f, Entry(id, w.packPos, |c.traces[f]|)) else Skipped
  }

  function FreshWorker(c: Corpus): Worker {
    Worker(seq(c.maxTuple, _ => c.noFile), multiset{}, [], [], 0, [], false, {})
  }

  /** `b` is the smallest seen file that holds `t`, or `noFile`. */
  ghost predicate LeastSeen(c: Corpus, seen: set<nat>, t: nat, b: nat) {
    && (forall f | f in seen && c.Has(f, t) :: b <= f)
    && (b == c.noFile || (b in seen && c.Has(b, t)))
  }

  ghost predicate WorkerOk(c: Corpus, w: Worker) {
    && |w.m| == c.maxTuple
    && w.packPos == |w.pack| * c.itemSize
    && (forall t | 0 <= t < c.maxTuple :: LeastSeen(c, w.seen, t, w.m[t]))
  }

  ghost predicate EmptyTrace(c: Corpus, f: nat) {
    f < |c.traces| && c.traces[f] == []
  }

  /** The worker has noted each file it saw that has an empty trace, once. */
  ghost predicate CrashesOk(c: Corpus, w: Worker) {
    forall f: nat :: Count(w.crashes, f) == if f in w.seen && EmptyTrace(c, f) then 1 else 0
  }

  lemma FreshOk(c: Corpus)
    ensures WorkerOk(c, FreshWorker(c)) && CrashesOk(c, FreshWorker(c))
  {
    assert forall t | 0 <= t < c.maxTuple :: LeastSeen(c, {}, t, c.noFile);
  }

  /** The inner loop over the tuples of a trace. */
  method LowerAll(m: array<nat>, idx: nat, r: seq<nat>) returns (used: bool)
    requires forall t | t in r :: t < m.Length
    modifies m
    ensures m[..] == Lower(old(m[..]), idx, r)
    ensures used <==> Used(old(m[..]), idx, r)
  {
    ghost var was := m[..];
    used := false;
    for i := 0 to |r|
      invariant forall t | 0 <= t < m.Length :: m[t] == if t in r[..i] && idx < was[t] then idx else was[t]
      invariant used <==> exists k | 0 <= k < i && r[k] < |was| :: idx < was[r[k]]
    {
      assert r[i] in r && r[..i + 1] == r[..i] + [r[i]];
      if idx < m[r[i]] {
        m[r[i]] := idx;
        used := true;
      }
    }
    assert r[..|r|] == r;
  }

  /** The worker's own fields, updated in place as Worker.run does. */
  class WorkerProcess {
    const id: nat
    const m: array<nat>
    var counter: multiset<nat>
    var crashes: seq<nat>
    var pack: seq<nat>
    var packPos: nat

    /** A new process is the worker that the system starts with, and its table is right for no files. */
    constructor (id: nat, maxTuple: nat, noFile: nat, ghost c: Corpus)
      requires maxTuple == c.maxTuple && noFile == c.noFile
      ensures this.id == id && fresh(m)
      ensures Abstract([], {}) == FreshWorker(c)
      ensures WorkerOk(c, Abstract([], {})) && CrashesOk(c, Abstract([], {}))
    {
      this.id := id;
      m := new nat[maxTuple](_ => noFile);
      counter, crashes, pack, packPos := multiset{}, [], [], 0;
      FreshOk(c);
    }

    ghost function Abstract(batch: seq<nat>, seen: set<nat>): Worker
      reads this, m
    {
      Worker(m[..], counter, crashes, pack, packPos, batch, false, seen)
    }

    method Handle(c: Corpus, crashDir: bool, idx: nat, ghost batch: seq<nat>, ghost seen: set<nat>)
      returns (msg: Message)
      requires Fits(c, Abstract(batch, seen), idx)
      modifies this, m
      ensures Abstract(batch, seen + {idx}) == HandleFile(c, crashDir, old(Abstract(batch, seen)), idx)
      ensures msg == MessageFor(c, crashDir, id, old(Abstract(batch, seen)), idx)
    {
      var r := c.traces[idx];
      counter := counter + multiset(r);
      var used, crash := false, Crashed(r);
      if crash { crashes := crashes + [idx]; }
      if !crash || !crashDir {
        used := LowerAll(m, idx, r);
      }
      if used {
        msg := Stored(idx, Entry(id, packPos, |r|));
        pack, packPos := pack + r, packPos + |r| * c.itemSize;
      } else {
        msg := Skipped;
      }
    }
  }

  // ----- The system --------------------------------------------------------

  datatype Job = Batch(files: seq<nat>) | Sentinel

  datatype Result = Result(m: seq<nat>, counter: multiset<nat>, crashes: seq<nat>)

  /**
    `toSend` is what the dispatcher has still to put, `queue` the job queue,
    `progress` and `results` the messages under way (any one may arrive next),
    and `received`, `info`, `got` and `crashes` what main has taken from them.  `log`
    records the files in the order they were handled.
   */
  datatype State = State(toSend: seq<Job>, queue: seq<Job>, workers: seq<Worker>,
                         progress: multiset<Message>, results: map<nat, Result>,
                         received: nat, info: map<nat, Entry>, got: map<nat, Result>, crashes: seq<nat>,
                         log: seq<nat>)

  datatype Step = Dispatch | Take(w: nat) | Process(w: nat) | Receive(msg: Message) | Collect(w: nat)

  function Least(x: nat, y: nat): nat { if x < y then x else y }

  /** batched(enumerate(files), chunk), from file `from` on. */
  function Batches(from: nat, n: nat, chunk: nat): seq<Job>
    requires from <= n && chunk > 0
    decreases n - from
  {
    if from == n then [] else
    var to := Least(from + chunk, n);
    [Batch(Range(from, to))] + Batches(to, n, chunk)
  }

  function Sentinels(n: nat): (r: seq<Job>)
    ensures |r| == n && forall i | 0 <= i < n :: r[i] == Sentinel
  {
    seq(n, _ => Sentinel)
  }

  function Init(c: Corpus, workers: nat, chunk: nat): State
    requires chunk > 0
  {
    State(Batches(0, |c.traces|, chunk) + Sentinels(workers), [],
          seq(workers, _ => FreshWorker(c)),
          multiset{}, map[], 0, map[], map[], [], [])
  }

  predicate Enabled(c: Corpus, s: State, step: Step) {
    match step
    case Dispatch => s.toSend != []
    case Take(w) => w < |s.workers| && !s.workers[w].stopped && s.workers[w].batch == [] && s.queue != []
    case Process(w) => w < |s.workers| && s.workers[w].batch != []
                       && s.workers[w].batch[0] < |c.traces|
                       && forall t | t in c.traces[s.workers[w].batch[0]] :: t < |s.workers[w].m|
    case Receive(msg) => s.received < |c.traces| && msg in s.progress
    case Collect(w) => s.received == |c.traces| && |s.got| < |s.workers| && w in s.results
  }

  function Apply(c: Corpus, crashDir: bool, s: State, step: Step): State
    requires Enabled(c, s, step)
  {
    match step
    case Dispatch => s.(toSend := s.toSend[1..], queue := s.queue + [s.toSend[0]])
    case Take(w) =>
      var worker := s.workers[w];
      (match s.queue[0]
       case Sentinel =>
         s.(queue := s.queue[1..], workers := s.workers[w := worker.(stopped := true)],
            results := s.results[w := Result(worker.m, worker.counter, worker.crashes)])
       case Batch(files) => s.(queue := s.queue[1..], workers := s.workers[w := worker.(batch := files)]))
    case Process(w) =>
      var worker := s.workers[w];
      var f := worker.batch[0];
      var rest := worker.(batch := worker.batch[1..]);
      var next, msg := HandleFile(c, crashDir, rest, f), MessageFor(c, crashDir, w, rest, f);
      s.(workers := s.workers[w := next], progress := s.progress + multiset{msg}, log := s.log + [f])
    case Receive(msg) =>
      s.(progress := s.progress - multiset{msg}, received := s.received + 1,
         info := if msg.Stored? then s.info[msg.file := msg.entry] else s.info)
    case Collect(w) =>
      s.(results := s.results - {w}, got := s.got[w := s.results[w]], crashes := s.crashes + s.results[w].crashes)
  }

  /** main has everything it waits for. */
  predicate Done(c: Corpus, s: State) {
    s.received == |c.traces| && |s.got| == |s.workers|
  }

  // ----- Invariants: the jobs ----------------------------------------------

  /** How often file `f` occurs in the jobs, and in what the workers have in hand. */
  function InJobs(jobs: seq<Job>, f: nat): nat {
    if jobs == [] then 0 else (if jobs[0].Batch? then Count(jobs[0].files, f) else 0) + InJobs(jobs[1..], f)
  }

  function InHand(ws: seq<Worker>, f: nat): nat {
    if ws == [] then 0 else Count(ws[0].batch, f) + InHand(ws[1..], f)
  }

  function CountSentinels(jobs: seq<Job>): nat {
    if jobs == [] then 0 else (if jobs[0].Sentinel? then 1 else 0) + CountSentinels(jobs[1..])
  }

  function CountStopped(ws: seq<Worker>): nat {
    if ws == [] then 0 else (if ws[0].stopped then 1 else 0) + CountStopped(ws[1..])
  }

  /** The workers' counters added up, as counter.update does. */
  function Counted(ws: seq<Worker>, t: nat): nat {
    if ws == [] then 0 else ws[0].counter[t] + Counted(ws[1..], t)
  }

  /** No batch waits behind a sentinel, and no batch is empty. */
  ghost predicate Ordered(jobs: seq<Job>) {
    && (forall i, j | 0 <= i < j < |jobs| && jobs[i].Sentinel? :: jobs[j].Sentinel?)
    && (forall i | 0 <= i < |jobs| && jobs[i].Batch? :: jobs[i].files != [])
  }

  ghost predicate OnlySentinels(jobs: seq<Job>) {
    forall i | 0 <= i < |jobs| :: jobs[i].Sentinel?
  }

  /** File `f` is in exactly one place: handled, in some worker's hands, or waiting. */
  ghost predicate OnePlace(n: nat, log: seq<nat>, ws: seq<Worker>, waiting: seq<Job>, f: nat) {
    Count(log, f) + InHand(ws, f) + InJobs(waiting, f) == if f < n then 1 else 0
  }

  ghost predicate JobsOk(n: nat, log: seq<nat>, ws: seq<Worker>, waiting: seq<Job>) {
    && Ordered(waiting)
    && (forall f: nat :: OnePlace(n, log, ws, waiting, f))
    && CountSentinels(waiting) + CountStopped(ws) == |ws|
    && (forall w | 0 <= w < |ws| && ws[w].stopped :: ws[w].batch == [] && OnlySentinels(waiting))
  }

  ghost predicate JobInv(c: Corpus, s: State) {
    JobsOk(|c.traces|, s.log, s.workers, s.queue + s.toSend)
  }

  lemma {:induction false} UpdateInHand(ws: seq<Worker>, i: nat, w: Worker, f: nat)
    requires i < |ws|
    ensures InHand(ws[i := w], f) == InHand(ws, f) - Count(ws[i].batch, f) + Count(w.batch, f)
  {
    if i == 0 {
      assert ws[i := w][1..] == ws[1..];
    } else {
      assert ws[i := w][1..] == ws[1..][i - 1 := w];
      UpdateInHand(ws[1..], i - 1, w, f);
    }
  }

  lemma {:induction false} UpdateStopped(ws: seq<Worker>, i: nat, w: Worker)
    requires i < |ws| && !ws[i].stopped
    ensures CountStopped(ws[i := w]) == CountStopped(ws) + if w.stopped then 1 else 0
  {
    if i == 0 {
      assert ws[i := w][1..] == ws[1..];
    } else {
      assert ws[i := w][1..] == ws[1..][i - 1 := w];
      UpdateStopped(ws[1..], i - 1, w);
    }
  }

  lemma {:induction false} UpdateCounted(ws: seq<Worker>, i: nat, w: Worker, t: nat)
    requires i < |ws|
    ensures Counted(ws[i := w], t) == Counted(ws, t) - ws[i].counter[t] + w.counter[t]
  {
    if i == 0 {
      assert ws[i := w][1..] == ws[1..];
    } else {
      assert ws[i := w][1..] == ws[1..][i - 1 := w];
      UpdateCounted(ws[1..], i - 1, w, t);
    }
  }

  lemma {:induction false} CountStoppedBound(ws: seq<Worker>)
    ensures CountStopped(ws) <= |ws|
    ensures CountStopped(ws) == |ws| <==> forall w | 0 <= w < |ws| :: ws[w].stopped
  {
    if ws == [] {
    } else {
      CountStoppedBound(ws[1..]);
      assert forall w | 0 < w < |ws| :: ws[w] == ws[1..][w - 1];
      assert forall w | 0 <= w < |ws[1..]| :: ws[1..][w] == ws[w + 1];
    }
  }

  lemma {:induction false} OnlySentinelsCount(jobs: seq<Job>, f: nat)
    requires OnlySentinels(jobs)
    ensures InJobs(jobs, f) == 0 && CountSentinels(jobs) == |jobs|
  {
    if jobs == [] {
    } else {
      OnlySentinelsCount(jobs[1..], f);
    }
  }

  lemma TakeBatch(n: nat, log: seq<nat>, ws: seq<Worker>, waiting: seq<Job>, w: nat)
    requires JobsOk(n, log, ws, waiting) && waiting != [] && waiting[0].Batch?
    requires w < |ws| && !ws[w].stopped && ws[w].batch == []
    ensures JobsOk(n, log, ws[w := ws[w].(batch := waiting[0].files)], waiting[1..])
  {
    var next := ws[w].(batch := waiting[0].files);
    var us, rest := ws[w := next], waiting[1..];
    UpdateStopped(ws, w, next);
    forall f: nat
      ensures OnePlace(n, log, us, rest, f)
    {
      assert OnePlace(n, log, ws, waiting, f);
      UpdateInHand(ws, w, next, f);
    }
  }

  lemma TakeSentinel(n: nat, log: seq<nat>, ws: seq<Worker>, waiting: seq<Job>, w: nat)
    requires JobsOk(n, log, ws, waiting) && waiting != [] && waiting[0].Sentinel?
    requires w < |ws| && !ws[w].stopped && ws[w].batch == []
    ensures JobsOk(n, log, ws[w := ws[w].(stopped := true)], waiting[1..])
  {
    var next := ws[w].(stopped := true);
    var us, rest := ws[w := next], waiting[1..];
    UpdateStopped(ws, w, next);
    forall f: nat
      ensures OnePlace(n, log, us, rest, f)
    {
      assert OnePlace(n, log, ws, waiting, f);
      UpdateInHand(ws, w, next, f);
    }
  }

  lemma HandleOne(n: nat, log: seq<nat>, ws: seq<Worker>, waiting: seq<Job>, w: nat, next: Worker)
    requires JobsOk(n, log, ws, waiting) && w < |ws| && ws[w].batch != []
    requires next.batch == ws[w].batch[1..] && next.stopped == ws[w].stopped
    ensures JobsOk(n, log + [ws[w].batch[0]], ws[w := next], waiting)
  {
    assert !ws[w].stopped;
    var us, log' := ws[w := next], log + [ws[w].batch[0]];
    UpdateStopped(ws, w, next);
    forall f: nat
      ensures OnePlace(n, log', us, waiting, f)
    {
      assert OnePlace(n, log, ws, waiting, f);
      UpdateInHand(ws, w, next, f);
      CountSplit(ws[w].batch, f);
    }
  }

  lemma JobStep(c: Corpus, crashDir: bool, s: State, step: Step)
    requires JobInv(c, s) && Enabled(c, s, step)
    ensures JobInv(c, Apply(c, crashDir, s, step))
  {
    var s' := Apply(c, crashDir, s, step);
    var waiting := s.queue + s.toSend;
    match step
    case Dispatch =>
      assert s'.queue + s'.toSend == waiting;
    case Take(w) =>
      assert s'.queue + s'.toSend == waiting[1..];
      if waiting[0].Batch? {
        TakeBatch(|c.traces|, s.log, s.workers, waiting, w);
      } else {
        TakeSentinel(|c.traces|, s.log, s.workers, waiting, w);
      }
    case Process(w) => HandleOne(|c.traces|, s.log, s.workers, waiting, w, s'.workers[w]);
    case Receive(_) =>
    case Collect(_) =>
  }

  lemma {:induction false} BatchesCount(from: nat, n: nat, chunk: nat, f: nat)
    requires from <= n && chunk > 0
    ensures InJobs(Batches(from, n, chunk), f) == if from <= f < n then 1 else 0
    ensures CountSentinels(Batches(from, n, chunk)) == 0
    decreases n - from
  {
    if from == n {
    } else {
      var to := Least(from + chunk, n);
      BatchesCount(to, n, chunk, f);
      RangeCount(from, to, f);
      assert Batches(from, n, chunk)[1..] == Batches(to, n, chunk);
    }
  }

  /** Each batch has the next `chunk` files, the last one what is left. */
  lemma {:induction false} BatchesShape(from: nat, n: nat, chunk: nat, i: nat)
    requires from <= n && chunk > 0 && i < |Batches(from, n, chunk)|
    ensures from + i * chunk < n
    ensures Batches(from, n, chunk)[i] == Batch(Range(from + i * chunk, Least(from + (i + 1) * chunk, n)))
    ensures i + 1 == |Batches(from, n, chunk)| <==> n <= from + (i + 1) * chunk
    decreases n - from
  {
    var to := Least(from + chunk, n);
    if i == 0 {
    } else {
      BatchesShape(to, n, chunk, i - 1);
      assert (i - 1) * chunk + chunk == i * chunk;
      assert i * chunk + chunk == (i + 1) * chunk;
    }
  }

  lemma {:induction false} BatchesNonEmpty(from: nat, n: nat, chunk: nat)
    requires from <= n && chunk > 0
    ensures var jobs := Batches(from, n, chunk);
      forall i | 0 <= i < |jobs| :: jobs[i].Batch? && jobs[i].files != []
    decreases n - from
  {
    if from == n {
    } else {
      var to := Least(from + chunk, n);
      BatchesNonEmpty(to, n, chunk);
      assert Batches(from, n, chunk) == [Batch(Range(from, to))] + Batches(to, n, chunk);
    }
  }

  lemma {:induction false} JobsAppend(a: seq<Job>, b: seq<Job>, f: nat)
    ensures InJobs(a + b, f) == InJobs(a, f) + InJobs(b, f)
    ensures CountSentinels(a + b) == CountSentinels(a) + CountSentinels(b)
  {
    if a == [] {
      assert a + b == b;
    } else {
      assert (a + b)[1..] == a[1..] + b;
      JobsAppend(a[1..], b, f);
    }
  }

  lemma {:induction false} IdleWorkers(ws: seq<Worker>, f: nat)
    requires forall w | 0 <= w < |ws| :: ws[w].batch == [] && !ws[w].stopped && ws[w].counter == multiset{}
    ensures InHand(ws, f) == 0 && CountStopped(ws) == 0 && Counted(ws, f) == 0
  {
    if ws == [] {
    } else {
      IdleWorkers(ws[1..], f);
    }
  }

  lemma InitJobs(n: nat, ws: seq<Worker>, chunk: nat, f: nat)
    requires chunk > 0
    requires forall w | 0 <= w < |ws| :: ws[w].batch == [] && !ws[w].stopped && ws[w].counter == multiset{}
    ensures OnePlace(n, [], ws, Batches(0, n, chunk) + Sentinels(|ws|), f)
    ensures CountSentinels(Batches(0, n, chunk) + Sentinels(|ws|)) == |ws| && CountStopped(ws) == 0
  {
    BatchesCount(0, n, chunk, f);
    JobsAppend(Batches(0, n, chunk), Sentinels(|ws|), f);
    OnlySentinelsCount(Sentinels(|ws|), f);
    IdleWorkers(ws, f);
  }

  lemma JobInit(n: nat, ws: seq<Worker>, chunk: nat)
    requires chunk > 0
    requires forall w | 0 <= w < |ws| :: ws[w].batch == [] && !ws[w].stopped && ws[w].counter == multiset{}
    ensures JobsOk(n, [], ws, Batches(0, n, chunk) + Sentinels(|ws|))
  {
    var jobs := Batches(0, n, chunk) + Sentinels(|ws|);
    BatchesNonEmpty(0, n, chunk);
    InitJobs(n, ws, chunk, 0);
    forall f: nat
      ensures OnePlace(n, [], ws, jobs, f)
    {
      InitJobs(n, ws, chunk, f);
    }
  }

  // ----- Invariants: the tables --------------------------------------------

  function Packs(ws: seq<Worker>): (packs: seq<seq<nat>>)
    ensures |packs| == |ws|
  {
    seq(|ws|, i requires 0 <= i < |ws| => ws[i].pack)
  }

  lemma HandleKeeps(c: Corpus, crashDir: bool, w: Worker, f: nat)
    requires c.Valid() && WorkerOk(c, w) && f < |c.traces|
    ensures Fits(c, w, f)
    ensures WorkerOk(c, HandleFile(c, crashDir, w, f)) && w.pack <= HandleFile(c, crashDir, w, f).pack
  {
    var r := c.traces[f];
    assert forall t | t in r :: c.Has(f, t);
    var w' := HandleFile(c, crashDir, w, f);
    assert (|w.pack| + |r|) * c.itemSize == |w.pack| * c.itemSize + |r| * c.itemSize;
    forall t | 0 <= t < c.maxTuple
      ensures LeastSeen(c, w'.seen, t, w'.m[t])
    {
      assert LeastSeen(c, w.seen, t, w.m[t]);
      assert c.Has(f, t) <==> t in r;
    }
  }

  /** A message points at the trace it was written for. */
  lemma HandleStores(c: Corpus, crashDir: bool, id: nat, w: Worker, f: nat, packs: seq<seq<nat>>)
    requires c.Valid() && WorkerOk(c, w) && f < |c.traces| && Fits(c, w, f)
    requires id < |packs| && packs[id] == HandleFile(c, crashDir, w, f).pack
    ensures var msg := MessageFor(c, crashDir, id, w, f);
            msg.Stored? ==> msg.file == f && Stores(c, packs, f, msg.entry)
  {
    var r := c.traces[f];
    if MessageFor(c, crashDir, id, w, f).Stored? {
      assert w.packPos == c.itemSize * |w.pack| + 0;
      ModUnique(w.packPos, c.itemSize, |w.pack|, 0);
      assert (w.pack + r)[|w.pack|..|w.pack| + |r|] == r;
    }
  }

  /** Whenever a table entry is lowered, a message is sent. */
  lemma HandleReports(c: Corpus, crashDir: bool, id: nat, w: Worker, f: nat, t: nat)
    requires c.Valid() && WorkerOk(c, w) && f < |c.traces| && Fits(c, w, f) && t < c.maxTuple
    ensures var w', msg := HandleFile(c, crashDir, w, f), MessageFor(c, crashDir, id, w, f);
            |w'.m| == c.maxTuple && (w'.m[t] == w.m[t] || (w'.m[t] == f && msg.Stored?))
  {
  }

  lemma StoresGrows(c: Corpus, packs: seq<seq<nat>>, packs': seq<seq<nat>>, f: nat, e: Entry)
    requires Stores(c, packs, f, e)
    requires |packs| == |packs'| && forall w | 0 <= w < |packs| :: packs[w] <= packs'[w]
    ensures Stores(c, packs', f, e)
  {
    assert packs[e.worker] <= packs'[e.worker];
  }

  /** Main knows, or will be told, where the trace of `f` is stored. */
  ghost predicate Reported(s: State, f: nat) {
    f in s.info || exists e :: Stored(f, e) in s.progress
  }

  ghost predicate EntriesOk(c: Corpus, s: State) {
    && (forall f, e | Stored(f, e) in s.progress :: Stores(c, Packs(s.workers), f, e))
    && (forall f | f in s.info :: Stores(c, Packs(s.workers), f, s.info[f]))
  }

  ghost predicate AllReported(c: Corpus, s: State) {
    forall w, t | 0 <= w < |s.workers| && 0 <= t < |s.workers[w].m| && s.workers[w].m[t] != c.noFile ::
      Reported(s, s.workers[w].m[t])
  }

  ghost predicate TableInv(c: Corpus, s: State) {
    && c.Valid()
    && (forall w | 0 <= w < |s.workers| :: WorkerOk(c, s.workers[w]))
    && EntriesOk(c, s)
    && AllReported(c, s)
  }

  /** What a Process step does to the tables, message and packs. */
  ghost predicate Processed(c: Corpus, crashDir: bool, s: State, w: nat, s': State) {
    && w < |s.workers| && s.workers[w].batch != [] && Fits(c, s.workers[w], s.workers[w].batch[0])
    && var f := s.workers[w].batch[0];
       var rest := s.workers[w].(batch := s.workers[w].batch[1..]);
       && s'.workers == s.workers[w := HandleFile(c, crashDir, rest, f)]
       && s'.progress == s.progress + multiset{MessageFor(c, crashDir, w, rest, f)}
       && s'.info == s.info
  }

  lemma EntriesProcess(c: Corpus, crashDir: bool, s: State, w: nat, s': State)
    requires c.Valid() && EntriesOk(c, s) && Processed(c, crashDir, s, w, s') && WorkerOk(c, s.workers[w])
    ensures EntriesOk(c, s') && WorkerOk(c, s'.workers[w])
  {
    var f := s.workers[w].batch[0];
    var rest := s.workers[w].(batch := s.workers[w].batch[1..]);
    HandleKeeps(c, crashDir, rest, f);
    var packs, packs' := Packs(s.workers), Packs(s'.workers);
    assert forall v | 0 <= v < |packs| :: packs[v] <= packs'[v];
    HandleStores(c, crashDir, w, rest, f, packs');
    forall g, e | Stored(g, e) in s'.progress
      ensures Stores(c, packs', g, e)
    {
      if Stored(g, e) in s.progress { StoresGrows(c, packs, packs', g, e); }
    }
    forall g | g in s'.info
      ensures Stores(c, packs', g, s'.info[g])
    {
      StoresGrows(c, packs, packs', g, s.info[g]);
    }
  }

  lemma StillReported(s: State, s': State, f: nat)
    requires Reported(s, f) && s.info == s'.info && s.progress <= s'.progress
    ensures Reported(s', f)
  {
    if f !in s.info {
      var e :| Stored(f, e) in s.progress;
      assert Stored(f, e) in s'.progress;
    }
  }

  lemma ReportProcess(c: Corpus, crashDir: bool, s: State, w: nat, s': State)
    requires c.Valid() && AllReported(c, s) && Processed(c, crashDir, s, w, s') && WorkerOk(c, s.workers[w])
    ensures AllReported(c, s')
  {
    var f := s.workers[w].batch[0];
    var rest := s.workers[w].(batch := s.workers[w].batch[1..]);
    forall v, t | 0 <= v < |s'.workers| && 0 <= t < |s'.workers[v].m| && s'.workers[v].m[t] != c.noFile
      ensures Reported(s', s'.workers[v].m[t])
    {
      if v == w {
        HandleReports(c, crashDir, w, rest, f, t);
      }
      if s'.workers[v].m[t] == s.workers[v].m[t] {
        StillReported(s, s', s.workers[v].m[t]);
      } else {
        assert MessageFor(c, crashDir, w, rest, f) in s'.progress;
      }
    }
  }

  lemma TableProcess(c: Corpus, crashDir: bool, s: State, w: nat)
    requires TableInv(c, s) && Enabled(c, s, Process(w))
    ensures TableInv(c, Apply(c, crashDir, s, Process(w)))
  {
    var s' := Apply(c, crashDir, s, Process(w));
    EntriesProcess(c, crashDir, s, w, s');
    ReportProcess(c, crashDir, s, w, s');
  }

  lemma TableReceive(c: Corpus, crashDir: bool, s: State, msg: Message)
    requires TableInv(c, s) && Enabled(c, s, Receive(msg))
    ensures TableInv(c, Apply(c, crashDir, s, Receive(msg)))
  {
    var s' := Apply(c, crashDir, s, Receive(msg));
    forall f, e | Stored(f, e) in s'.progress
      ensures Stores(c, Packs(s'.workers), f, e)
    {
      assert Stored(f, e) in s.progress;
    }
    forall v, t | 0 <= v < |s'.workers| && 0 <= t < |s'.workers[v].m| && s'.workers[v].m[t] != c.noFile
      ensures Reported(s', s'.workers[v].m[t])
    {
      var f := s.workers[v].m[t];
      assert Reported(s, f);
      if f !in s.info {
        var e :| Stored(f, e) in s.progress;
        assert msg == Stored(f, e) || Stored(f, e) in s'.progress;
      }
    }
  }

  /** Steps that move jobs or results leave the tables alone. */
  lemma TableUnmoved(c: Corpus, s: State, s': State)
    requires TableInv(c, s) && s'.progress == s.progress && s'.info == s.info && |s'.workers| == |s.workers|
    requires forall w | 0 <= w < |s.workers| ::
               s'.workers[w] == s.workers[w].(batch := s'.workers[w].batch, stopped := s'.workers[w].stopped)
    ensures TableInv(c, s')
  {
    assert Packs(s'.workers) == Packs(s.workers);
    forall w | 0 <= w < |s'.workers|
      ensures WorkerOk(c, s'.workers[w])
    {
      assert WorkerOk(c, s.workers[w]);
    }
    forall v, t | 0 <= v < |s'.workers| && 0 <= t < |s'.workers[v].m| && s'.workers[v].m[t] != c.noFile
      ensures Reported(s', s'.workers[v].m[t])
    {
      StillReported(s, s', s.workers[v].m[t]);
    }
  }

  lemma TableStep(c: Corpus, crashDir: bool, s: State, step: Step)
    requires TableInv(c, s) && Enabled(c, s, step)
    ensures TableInv(c, Apply(c, crashDir, s, step))
  {
    match step
    case Process(w) => TableProcess(c, crashDir, s, w);
    case Receive(msg) => TableReceive(c, crashDir, s, msg);
    case _ => TableUnmoved(c, s, Apply(c, crashDir, s, step));
  }

  // ----- Invariants: what has been handled and what main has counted -------

  ghost predicate SeenBy(ws: seq<Worker>, w: nat, f: nat) {
    w < |ws| && f in ws[w].seen
  }

  ghost predicate Handled(ws: seq<Worker>, f: nat) {
    exists w: nat :: SeenBy(ws, w, f)
  }

  /** The files in the log are those the workers handled, each by one worker. */
  ghost predicate SeenOk(ws: seq<Worker>, log: seq<nat>) {
    && (forall w: nat, f: nat | SeenBy(ws, w, f) :: f in log)
    && (forall f | f in log :: Handled(ws, f))
    && (forall v: nat, w: nat, f: nat | SeenBy(ws, v, f) && SeenBy(ws, w, f) :: v == w)
  }

  ghost predicate CountersOk(c: Corpus, ws: seq<Worker>, log: seq<nat>) {
    forall t: nat :: Counted(ws, t) == Occurrences(c, log, t)
  }

  /** One message was sent per file handled. */
  ghost predicate CountInv(c: Corpus, s: State) {
    && s.received <= |c.traces|
    && s.received + |s.progress| == |s.log|
    && CountersOk(c, s.workers, s.log)
    && SeenOk(s.workers, s.log)
  }

  ghost function ResultOf(w: Worker): Result {
    Result(w.m, w.counter, w.crashes)
  }

  /** Each stopped worker has sent its result once. */
  ghost predicate ResultsOk(ws: seq<Worker>, results: map<nat, Result>, got: map<nat, Result>) {
    && results.Keys !! got.Keys
    && (forall w: nat :: w in results.Keys + got.Keys <==> w < |ws| && ws[w].stopped)
    && (forall w | w in results && w < |ws| :: results[w] == ResultOf(ws[w]))
    && (forall w | w in got && w < |ws| :: got[w] == ResultOf(ws[w]))
  }

  ghost predicate ResultInv(s: State) {
    ResultsOk(s.workers, s.results, s.got)
  }

  lemma SeenMore(ws: seq<Worker>, log: seq<nat>, w: nat, next: Worker, f: nat)
    requires SeenOk(ws, log) && w < |ws| && f !in log && next.seen == ws[w].seen + {f}
    ensures SeenOk(ws[w := next], log + [f])
  {
    var us := ws[w := next];
    forall v: nat, g: nat
      ensures SeenBy(us, v, g) <==> SeenBy(ws, v, g) || (v == w && g == f)
    {
    }
    forall g | g in log + [f]
      ensures Handled(us, g)
    {
      if g == f {
        assert SeenBy(us, w, f);
      } else {
        assert Handled(ws, g);
        var v: nat :| SeenBy(ws, v, g);
        assert SeenBy(us, v, g);
      }
    }
  }

  lemma CountedMore(c: Corpus, ws: seq<Worker>, log: seq<nat>, w: nat, next: Worker, f: nat)
    requires CountersOk(c, ws, log) && w < |ws| && f < |c.traces|
    requires next.counter == ws[w].counter + multiset(c.traces[f])
    ensures CountersOk(c, ws[w := next], log + [f])
  {
    var us, log' := ws[w := next], log + [f];
    assert log'[..|log|] == log;
    forall t: nat
      ensures Counted(us, t) == Occurrences(c, log', t)
    {
      assert Counted(ws, t) == Occurrences(c, log, t);
      UpdateCounted(ws, w, next, t);
    }
  }

  /** A file in a worker's hands has not been handled yet. */
  lemma NotYetHandled(n: nat, log: seq<nat>, ws: seq<Worker>, waiting: seq<Job>, w: nat)
    requires JobsOk(n, log, ws, waiting) && w < |ws| && ws[w].batch != []
    ensures ws[w].batch[0] < n && ws[w].batch[0] !in log
  {
    var f := ws[w].batch[0];
    assert OnePlace(n, log, ws, waiting, f);
    UpdateInHand(ws, w, ws[w].(batch := []), f);
    CountSplit(ws[w].batch, f);
  }

  lemma CountProcess(c: Corpus, crashDir: bool, s: State, w: nat)
    requires JobInv(c, s) && CountInv(c, s) && Enabled(c, s, Process(w))
    ensures CountInv(c, Apply(c, crashDir, s, Process(w)))
  {
    var f, next := s.workers[w].batch[0], Apply(c, crashDir, s, Process(w)).workers[w];
    NotYetHandled(|c.traces|, s.log, s.workers, s.queue + s.toSend, w);
    SeenMore(s.workers, s.log, w, next, f);
    CountedMore(c, s.workers, s.log, w, next, f);
  }

  lemma {:induction false} SameCounters(ws: seq<Worker>, us: seq<Worker>, t: nat)
    requires |ws| == |us| && forall w | 0 <= w < |ws| :: us[w].counter == ws[w].counter
    ensures Counted(us, t) == Counted(ws, t)
  {
    if ws == [] {
    } else {
      SameCounters(ws[1..], us[1..], t);
    }
  }

  lemma CountUnmoved(c: Corpus, ws: seq<Worker>, us: seq<Worker>, log: seq<nat>)
    requires CountersOk(c, ws, log) && SeenOk(ws, log) && |us| == |ws|
    requires forall w | 0 <= w < |ws| :: us[w].seen == ws[w].seen && us[w].counter == ws[w].counter
    ensures CountersOk(c, us, log) && SeenOk(us, log)
  {
    forall t: nat
      ensures Counted(us, t) == Occurrences(c, log, t)
    {
      assert Counted(ws, t) == Occurrences(c, log, t);
      SameCounters(ws, us, t);
    }
    assert forall w: nat, f: nat :: SeenBy(us, w, f) <==> SeenBy(ws, w, f);
    forall f | f in log
      ensures Handled(us, f)
    {
      assert Handled(ws, f);
      var w: nat :| SeenBy(ws, w, f);
      assert SeenBy(us, w, f);
    }
  }

  lemma CountTake(c: Corpus, crashDir: bool, s: State, w: nat)
    requires CountInv(c, s) && Enabled(c, s, Take(w))
    ensures CountInv(c, Apply(c, crashDir, s, Take(w)))
  {
    CountUnmoved(c, s.workers, Apply(c, crashDir, s, Take(w)).workers, s.log);
  }

  lemma CountReceive(c: Corpus, crashDir: bool, s: State, msg: Message)
    requires CountInv(c, s) && Enabled(c, s, Receive(msg))
    ensures CountInv(c, Apply(c, crashDir, s, Receive(msg)))
  {
  }

  lemma CountStep(c: Corpus, crashDir: bool, s: State, step: Step)
    requires JobInv(c, s) && CountInv(c, s) && Enabled(c, s, step)
    ensures CountInv(c, Apply(c, crashDir, s, step))
  {
    match step
    case Process(w) => CountProcess(c, crashDir, s, w);
    case Take(w) => CountTake(c, crashDir, s, w);
    case Receive(msg) => CountReceive(c, crashDir, s, msg);
    case _ =>
  }

  lemma ResultUnmoved(ws: seq<Worker>, us: seq<Worker>, results: map<nat, Result>, got: map<nat, Result>)
    requires ResultsOk(ws, results, got) && |us| == |ws|
    requires forall w | 0 <= w < |ws| :: us[w].stopped == ws[w].stopped && (ws[w].stopped ==> us[w] == ws[w])
    ensures ResultsOk(us, results, got)
  {
  }

  lemma ResultSent(ws: seq<Worker>, results: map<nat, Result>, got: map<nat, Result>, w: nat)
    requires ResultsOk(ws, results, got) && w < |ws| && !ws[w].stopped
    ensures ResultsOk(ws[w := ws[w].(stopped := true)], results[w := ResultOf(ws[w])], got)
  {
    assert w !in results.Keys + got.Keys;
    assert results[w := ResultOf(ws[w])].Keys == results.Keys + {w};
  }

  lemma ResultTaken(ws: seq<Worker>, results: map<nat, Result>, got: map<nat, Result>, w: nat)
    requires ResultsOk(ws, results, got) && w in results
    ensures ResultsOk(ws, results - {w}, got[w := results[w]])
  {
    assert w in results.Keys + got.Keys;
    assert (results - {w}).Keys == results.Keys - {w} && got[w := results[w]].Keys == got.Keys + {w};
  }

  lemma ResultTake(c: Corpus, crashDir: bool, s: State, w: nat)
    requires ResultInv(s) && Enabled(c, s, Take(w))
    ensures ResultInv(Apply(c, crashDir, s, Take(w)))
  {
    if s.queue[0].Sentinel? {
      ResultSent(s.workers, s.results, s.got, w);
    } else {
      ResultUnmoved(s.workers, s.workers[w := s.workers[w].(batch := s.queue[0].files)], s.results, s.got);
    }
  }

  lemma ResultProcess(c: Corpus, crashDir: bool, s: State, w: nat)
    requires ResultInv(s) && Enabled(c, s, Process(w)) && !s.workers[w].stopped
    ensures ResultInv(Apply(c, crashDir, s, Process(w)))
  {
    ResultUnmoved(s.workers, Apply(c, crashDir, s, Process(w)).workers, s.results, s.got);
  }

  lemma ResultStep(c: Corpus, crashDir: bool, s: State, step: Step)
    requires JobInv(c, s) && ResultInv(s) && Enabled(c, s, step)
    ensures ResultInv(Apply(c, crashDir, s, step))
  {
    match step
    case Take(w) => ResultTake(c, crashDir, s, w);
    case Process(w) => ResultProcess(c, crashDir, s, w);
    case Collect(w) => ResultTaken(s.workers, s.results, s.got, w);
    case _ =>
  }

  // ----- Invariants: crashes -----------------------------------------------

  /** Main has the result of the worker that handled the file. */
  ghost predicate FromGot(ws: seq<Worker>, got: map<nat, Result>, f: nat) {
    exists w: nat :: w in got && SeenBy(ws, w, f)
  }

  /** Main has noted each file with an empty trace that the workers it heard of have handled, once. */
  ghost predicate CrashesIn(c: Corpus, ws: seq<Worker>, got: map<nat, Result>, crashes: seq<nat>) {
    && (forall w | 0 <= w < |ws| :: CrashesOk(c, ws[w]))
    && (forall f: nat :: Count(crashes, f) == if FromGot(ws, got, f) && EmptyTrace(c, f) then 1 else 0)
  }

  ghost predicate CrashInv(c: Corpus, s: State) {
    CrashesIn(c, s.workers, s.got, s.crashes)
  }

  lemma CrashInit(c: Corpus, s: State)
    requires s.got == map[] && s.crashes == [] && forall w | 0 <= w < |s.workers| :: s.workers[w] == FreshWorker(c)
    ensures CrashInv(c, s)
  {
    FreshOk(c);
  }

  /** A file that a worker handles for the first time. */
  lemma CrashHandled(c: Corpus, crashDir: bool, w: Worker, f: nat)
    requires CrashesOk(c, w) && Fits(c, w, f) && f !in w.seen
    ensures CrashesOk(c, HandleFile(c, crashDir, w, f))
  {
    var next := HandleFile(c, crashDir, w, f);
    forall g: nat
      ensures Count(next.crashes, g) == if g in next.seen && EmptyTrace(c, g) then 1 else 0
    {
      assert Count(w.crashes, g) == if g in w.seen && EmptyTrace(c, g) then 1 else 0;
    }
  }

  /** Workers that main has not heard of may go on. */
  lemma CrashUnmoved(c: Corpus, ws: seq<Worker>, us: seq<Worker>, got: map<nat, Result>, crashes: seq<nat>)
    requires CrashesIn(c, ws, got, crashes) && |us| == |ws|
    requires forall w | 0 <= w < |ws| :: CrashesOk(c, us[w]) && (w in got ==> us[w].seen == ws[w].seen)
    ensures CrashesIn(c, us, got, crashes)
  {
    forall f: nat
      ensures FromGot(us, got, f) <==> FromGot(ws, got, f)
    {
      if w: nat :| w in got && SeenBy(us, w, f) {
        assert SeenBy(ws, w, f);
      }
      if w: nat :| w in got && SeenBy(ws, w, f) {
        assert SeenBy(us, w, f);
      }
    }
  }

  /** A file in a worker's hands is new to it, and main has not heard of that worker. */
  lemma FirstTime(c: Corpus, s: State, w: nat)
    requires JobInv(c, s) && SeenOk(s.workers, s.log) && ResultInv(s)
    requires w < |s.workers| && s.workers[w].batch != []
    ensures s.workers[w].batch[0] !in s.workers[w].seen && w !in s.got
  {
    var f := s.workers[w].batch[0];
    NotYetHandled(|c.traces|, s.log, s.workers, s.queue + s.toSend, w);
    assert !SeenBy(s.workers, w, f);
    assert w in s.results.Keys + s.got.Keys <==> s.workers[w].stopped;
  }

  lemma CrashProcess(c: Corpus, crashDir: bool, s: State, w: nat)
    requires CrashInv(c, s) && Enabled(c, s, Process(w))
    requires s.workers[w].batch[0] !in s.workers[w].seen && w !in s.got
    ensures CrashInv(c, Apply(c, crashDir, s, Process(w)))
  {
    var f, rest := s.workers[w].batch[0], s.workers[w].(batch := s.workers[w].batch[1..]);
    assert CrashesOk(c, s.workers[w]);
    CrashHandled(c, crashDir, rest, f);
    CrashUnmoved(c, s.workers, s.workers[w := HandleFile(c, crashDir, rest, f)], s.got, s.crashes);
  }

  lemma CrashCollect(c: Corpus, ws: seq<Worker>, log: seq<nat>, got: map<nat, Result>, crashes: seq<nat>, w: nat)
    requires CrashesIn(c, ws, got, crashes) && SeenOk(ws, log) && w < |ws| && w !in got
    ensures CrashesIn(c, ws, got[w := ResultOf(ws[w])], crashes + ws[w].crashes)
  {
    var got' := got[w := ResultOf(ws[w])];
    forall f: nat
      ensures Count(crashes + ws[w].crashes, f) == if FromGot(ws, got', f) && EmptyTrace(c, f) then 1 else 0
    {
      assert CrashesOk(c, ws[w]);
      if SeenBy(ws, w, f) {
        assert w in got';
        assert !FromGot(ws, got, f);
      }
      if v: nat :| v in got && SeenBy(ws, v, f) {
        assert v in got';
      }
    }
  }

  /** Batches and sentinels do not matter. */
  lemma CrashTake(c: Corpus, crashDir: bool, s: State, w: nat)
    requires CrashInv(c, s) && Enabled(c, s, Take(w))
    ensures CrashInv(c, Apply(c, crashDir, s, Take(w)))
  {
    var worker := s.workers[w];
    assert CrashesOk(c, worker);
    var next := if s.queue[0].Sentinel? then worker.(stopped := true) else worker.(batch := s.queue[0].files);
    CrashUnmoved(c, s.workers, s.workers[w := next], s.got, s.crashes);
  }

  lemma CrashStep(c: Corpus, crashDir: bool, s: State, step: Step)
    requires JobInv(c, s) && CountInv(c, s) && ResultInv(s) && CrashInv(c, s) && Enabled(c, s, step)
    ensures CrashInv(c, Apply(c, crashDir, s, step))
  {
    match step
    case Process(w) =>
      FirstTime(c, s, w);
      CrashProcess(c, crashDir, s, w);
    case Take(w) => CrashTake(c, crashDir, s, w);
    case Collect(w) =>
      assert w in s.results.Keys + s.got.Keys && w !in s.got.Keys;
      CrashCollect(c, s.workers, s.log, s.got, s.crashes, w);
    case _ =>
  }

  // ----- Whole runs --------------------------------------------------------

  ghost predicate Inv(c: Corpus, s: State) {
    JobInv(c, s) && TableInv(c, s) && CountInv(c, s) && ResultInv(s) && CrashInv(c, s)
  }

  lemma InitInv(c: Corpus, workers: nat, chunk: nat)
    requires c.Valid() && chunk > 0
    ensures Inv(c, Init(c, workers, chunk))
  {
    var s := Init(c, workers, chunk);
    JobInit(|c.traces|, s.workers, chunk);
    assert s.queue + s.toSend == Batches(0, |c.traces|, chunk) + Sentinels(workers);
    forall t: nat
      ensures Counted(s.workers, t) == 0
    {
      IdleWorkers(s.workers, t);
    }
    FreshOk(c);
    CrashInit(c, s);
  }

  lemma StepInv(c: Corpus, crashDir: bool, s: State, step: Step)
    requires Inv(c, s) && Enabled(c, s, step)
    ensures Inv(c, Apply(c, crashDir, s, step))
  {
    JobStep(c, crashDir, s, step);
    TableStep(c, crashDir, s, step);
    CountStep(c, crashDir, s, step);
    ResultStep(c, crashDir, s, step);
    CrashStep(c, crashDir, s, step);
  }

  /** The states a run can be in after the given steps. */
  ghost predicate Reaches(c: Corpus, crashDir: bool, s: State, steps: seq<Step>, end: State)
    decreases |steps|
  {
    if steps == [] then s == end
    else Enabled(c, s, steps[0]) && Reaches(c, crashDir, Apply(c, crashDir, s, steps[0]), steps[1..], end)
  }

  /** What is left to do: every step takes exactly one off. */
  ghost function Remaining(c: Corpus, s: State): int {
    2 * |s.toSend| + |s.queue| + (|c.traces| - |s.log|) + (|c.traces| - s.received) + (|s.workers| - |s.got|)
  }

  lemma StepRemaining(c: Corpus, crashDir: bool, s: State, step: Step)
    requires s.results.Keys !! s.got.Keys && Enabled(c, s, step)
    ensures Remaining(c, Apply(c, crashDir, s, step)) == Remaining(c, s) - 1
    ensures |Apply(c, crashDir, s, step).workers| == |s.workers|
  {
    if step.Collect? {
      assert step.w in s.results.Keys && step.w !in s.got.Keys;
    }
  }

  lemma {:induction false} RunInv(c: Corpus, crashDir: bool, s: State, steps: seq<Step>, end: State)
    requires Inv(c, s) && Reaches(c, crashDir, s, steps, end)
    ensures Inv(c, end) && Remaining(c, end) == Remaining(c, s) - |steps|
    ensures |end.workers| == |s.workers|
    decreases |steps|
  {
    if steps == [] {
    } else {
      var next := Apply(c, crashDir, s, steps[0]);
      StepInv(c, crashDir, s, steps[0]);
      StepRemaining(c, crashDir, s, steps[0]);
      RunInv(c, crashDir, next, steps[1..], end);
    }
  }

  // ----- Progress ----------------------------------------------------------

  lemma {:induction false} NothingInHand(ws: seq<Worker>, f: nat)
    requires forall w | 0 <= w < |ws| :: ws[w].batch == []
    ensures InHand(ws, f) == 0
  {
    if ws == [] {
    } else {
      NothingInHand(ws[1..], f);
    }
  }

  /** With no job waiting or in hand, every file has been handled once. */
  lemma AllHandled(c: Corpus, s: State)
    requires JobInv(c, s) && OnlySentinels(s.queue + s.toSend)
    requires forall w | 0 <= w < |s.workers| :: s.workers[w].batch == []
    ensures multiset(s.log) == multiset(Range(0, |c.traces|)) && |s.log| == |c.traces|
    ensures forall f: nat :: f in s.log <==> f < |c.traces|
  {
    forall f: nat
      ensures multiset(s.log)[f] == multiset(Range(0, |c.traces|))[f]
    {
      assert OnePlace(|c.traces|, s.log, s.workers, s.queue + s.toSend, f);
      NothingInHand(s.workers, f);
      OnlySentinelsCount(s.queue + s.toSend, f);
      RangeCount(0, |c.traces|, f);
    }
    assert multiset(s.log) == multiset(Range(0, |c.traces|));
    assert |multiset(s.log)| == |s.log| && |multiset(Range(0, |c.traces|))| == |c.traces|;
    forall f: nat
      ensures f in s.log <==> f < |c.traces|
    {
      RangeCount(0, |c.traces|, f);
      assert f in s.log <==> multiset(s.log)[f] > 0;
    }
  }

  lemma HandInRange(c: Corpus, s: State, w: nat)
    requires Inv(c, s) && w < |s.workers| && s.workers[w].batch != []
    ensures Enabled(c, s, Process(w))
  {
    var f := s.workers[w].batch[0];
    NotYetHandled(|c.traces|, s.log, s.workers, s.queue + s.toSend, w);
    assert WorkerOk(c, s.workers[w]);
    assert forall t | t in c.traces[f] :: c.Has(f, t);
  }

  ghost function Ids(n: nat): (ids: set<nat>)
    ensures |ids| == n && forall w: nat :: w in ids <==> w < n
  {
    if n == 0 then {} else Ids(n - 1) + {n - 1}
  }

  lemma {:induction false} SubsetSize(a: set<nat>, b: set<nat>)
    requires a <= b
    ensures |a| <= |b| && (|a| == |b| ==> a == b)
  {
    if a == {} {
    } else {
      var x :| x in a;
      SubsetSize(a - {x}, b - {x});
    }
  }

  lemma GotIds(ws: seq<Worker>, results: map<nat, Result>, got: map<nat, Result>)
    requires ResultsOk(ws, results, got)
    ensures |got| <= |ws| && (|got| == |ws| <==> got.Keys == Ids(|ws|))
  {
    forall w: nat | w in got.Keys
      ensures w in Ids(|ws|)
    {
      assert w in results.Keys + got.Keys;
    }
    SubsetSize(got.Keys, Ids(|ws|));
  }

  lemma ResultLeft(ws: seq<Worker>, results: map<nat, Result>, got: map<nat, Result>) returns (w: nat)
    requires ResultsOk(ws, results, got) && |got| != |ws|
    requires forall w | 0 <= w < |ws| :: ws[w].stopped
    ensures |got| < |ws| && w in results
  {
    GotIds(ws, results, got);
    w :| w in Ids(|ws|) && w !in got.Keys;
    assert w in results.Keys + got.Keys;
  }

  /** A run can only stop when main has everything: no interleaving deadlocks. */
  lemma NoDeadlock(c: Corpus, s: State) returns (step: Step)
    requires Inv(c, s) && |s.workers| > 0 && !Done(c, s)
    ensures Enabled(c, s, step)
  {
    if s.toSend != [] { return Dispatch; }
    if w: nat :| w < |s.workers| && s.workers[w].batch != [] {
      HandInRange(c, s, w);
      return Process(w);
    }
    CountStoppedBound(s.workers);
    assert s.queue + s.toSend == s.queue;
    if w: nat :| w < |s.workers| && !s.workers[w].stopped {
      if s.queue != [] { return Take(w); }
      assert false;
    }
    assert s.workers[0].stopped;
    AllHandled(c, s);
    if s.received < |c.traces| {
      assert |s.progress| > 0;
      var msg :| msg in s.progress;
      step := Receive(msg);
    } else {
      var w := ResultLeft(s.workers, s.results, s.got);
      step := Collect(w);
    }
  }

  // ----- The tables main selects from --------------------------------------

  lemma ResultsIn(s: State)
    requires ResultInv(s) && |s.got| == |s.workers|
    ensures forall w: nat | w < |s.workers| :: s.workers[w].stopped && w in s.got && s.got[w] == ResultOf(s.workers[w])
  {
    GotIds(s.workers, s.results, s.got);
    assert forall w: nat | w in Ids(|s.workers|) :: w in s.results.Keys + s.got.Keys;
  }

  lemma AllStopped(c: Corpus, s: State)
    requires JobInv(c, s) && |s.workers| > 0 && forall w | 0 <= w < |s.workers| :: s.workers[w].stopped
    ensures s.queue == [] && s.toSend == []
    ensures |s.log| == |c.traces| && forall f: nat :: f in s.log <==> f < |c.traces|
    ensures AtMostOnce(s.log)
  {
    CountStoppedBound(s.workers);
    assert s.workers[0].stopped;
    OnlySentinelsCount(s.queue + s.toSend, 0);
    AllHandled(c, s);
    forall f: nat
      ensures Count(s.log, f) <= 1
    {
      assert OnePlace(|c.traces|, s.log, s.workers, s.queue + s.toSend, f);
    }
  }

  /** Every complete run takes the same number of steps. */
  lemma DoneRemaining(c: Corpus, s: State)
    requires Inv(c, s) && Done(c, s) && |s.workers| > 0
    ensures Remaining(c, s) == 0
  {
    ResultsIn(s);
    AllStopped(c, s);
  }

  /** In the end main has noted every file with an empty trace once. */
  lemma AllCrashes(c: Corpus, s: State)
    requires Inv(c, s) && Done(c, s) && |s.workers| > 0
    ensures forall f: nat :: Count(s.crashes, f) == if EmptyTrace(c, f) then 1 else 0
  {
    ResultsIn(s);
    AllStopped(c, s);
    forall f: nat
      ensures Count(s.crashes, f) == if EmptyTrace(c, f) then 1 else 0
    {
      if EmptyTrace(c, f) {
        assert f in s.log && Handled(s.workers, f);
        var w: nat :| SeenBy(s.workers, w, f);
        assert w in s.got;
      }
    }
  }

  /**
    Every run of the system, under every interleaving: it keeps the invariants,
    it can go on until main is done, and it is done after exactly as many steps
    as the start prescribes.
   */
  lemma EveryRun(c: Corpus, crashDir: bool, workers: nat, chunk: nat, steps: seq<Step>, s: State)
    requires c.Valid() && workers > 0 && chunk > 0
    requires Reaches(c, crashDir, Init(c, workers, chunk), steps, s)
    ensures Inv(c, s) && |s.workers| == workers
    ensures !Done(c, s) ==> exists step :: Enabled(c, s, step)
    ensures Done(c, s) ==> |steps| == 2 * |Batches(0, |c.traces|, chunk)| + 2 * |c.traces| + 3 * workers
    ensures Done(c, s) ==> forall f: nat :: Count(s.crashes, f) == if EmptyTrace(c, f) then 1 else 0
  {
    InitInv(c, workers, chunk);
    RunInv(c, crashDir, Init(c, workers, chunk), steps, s);
    if Done(c, s) {
      DoneRemaining(c, s);
      AllCrashes(c, s);
    } else {
      var step := NoDeadlock(c, s);
    }
  }

  /** What main has collected when it starts selecting. */
  ghost predicate Collected(c: Corpus, s: State) {
    && |s.workers| > 0
    && (forall w: nat | w < |s.workers| ::
          w in s.got && s.got[w] == ResultOf(s.workers[w]) && WorkerOk(c, s.workers[w]))
    && (forall f: nat, t: nat | c.Has(f, t) :: Handled(s.workers, f))
    && (forall w, t | 0 <= w < |s.workers| && 0 <= t < |s.workers[w].m| && s.workers[w].m[t] != c.noFile ::
          s.workers[w].m[t] in s.info)
  }

  lemma EntriesIn(c: Corpus, s: State)
    requires AllReported(c, s) && |s.progress| == 0
    ensures forall w, t | 0 <= w < |s.workers| && 0 <= t < |s.workers[w].m| && s.workers[w].m[t] != c.noFile ::
              s.workers[w].m[t] in s.info
  {
    forall w, t | 0 <= w < |s.workers| && 0 <= t < |s.workers[w].m| && s.workers[w].m[t] != c.noFile
      ensures s.workers[w].m[t] in s.info
    {
      assert Reported(s, s.workers[w].m[t]);
    }
  }

  lemma DoneCollected(c: Corpus, s: State)
    requires Inv(c, s) && Done(c, s) && |s.workers| > 0
    ensures Collected(c, s)
  {
    ResultsIn(s);
    AllStopped(c, s);
    EntriesIn(c, s);
    forall f: nat, t: nat | c.Has(f, t)
      ensures Handled(s.workers, f)
    {
      assert f in s.log;
    }
  }

  /** list(map(min, zip(*ms))) */
  method MinColumns(ms: seq<seq<nat>>, n: nat) returns (best: seq<nat>)
    requires ms != [] && forall w | 0 <= w < |ms| :: |ms[w]| == n
    ensures |best| == n
    ensures forall w, t | 0 <= w < |ms| && 0 <= t < n :: best[t] <= ms[w][t]
    ensures forall t | 0 <= t < n :: exists w :: 0 <= w < |ms| && best[t] == ms[w][t]
  {
    best := ms[0];
    for k := 1 to |ms|
      invariant |best| == n
      invariant forall w, t | 0 <= w < k && 0 <= t < n :: best[t] <= ms[w][t]
      invariant forall t | 0 <= t < n :: exists w :: 0 <= w < k && best[t] == ms[w][t]
    {
      best := seq(n, t requires 0 <= t < n => if ms[k][t] < best[t] then ms[k][t] else best[t]);
    }
  }

  lemma LeastIsBest(c: Corpus, s: State, t: nat, b: nat, w: nat)
    requires Collected(c, s) && t < c.maxTuple && w < |s.workers|
    requires forall v | 0 <= v < |s.workers| :: |s.workers[v].m| == c.maxTuple && b <= s.workers[v].m[t]
    requires b == s.workers[w].m[t]
    ensures c.IsBest(t, b) && (b != c.noFile ==> b in s.info)
  {
    assert WorkerOk(c, s.workers[w]) && LeastSeen(c, s.workers[w].seen, t, b);
    forall f: nat | c.Has(f, t)
      ensures b <= f
    {
      assert Handled(s.workers, f);
      var v: nat :| SeenBy(s.workers, v, f);
      assert WorkerOk(c, s.workers[v]) && LeastSeen(c, s.workers[v].seen, t, s.workers[v].m[t]);
    }
  }

  /** best_idxes: the least of the workers' entries for each tuple. */
  method MergeBest(c: Corpus, s: State) returns (best: seq<nat>)
    requires Collected(c, s)
    ensures |best| == c.maxTuple
    ensures forall t | 0 <= t < c.maxTuple :: c.IsBest(t, best[t])
    ensures forall t | 0 <= t < c.maxTuple && best[t] != c.noFile :: best[t] in s.info
  {
    var ms := seq(|s.workers|, w requires 0 <= w < |s.workers| => s.got[w].m);
    assert forall w | 0 <= w < |ms| :: WorkerOk(c, s.workers[w]) && ms[w] == s.workers[w].m;
    best := MinColumns(ms, c.maxTuple);
    forall t | 0 <= t < c.maxTuple
      ensures c.IsBest(t, best[t]) && (best[t] != c.noFile ==> best[t] in s.info)
    {
      var w :| 0 <= w < |ms| && best[t] == ms[w][t];
      LeastIsBest(c, s, t, best[t], w);
    }
  }

  // ----- Counting tuples ---------------------------------------------------

  /** counter.most_common() on the sum of the workers' counters: all tuples counted, counts descending. */
  ghost predicate MostCommon(s: State, order: seq<(nat, nat)>) {
    && (forall i | 0 <= i < |order| :: order[i].1 == Counted(s.workers, order[i].0) > 0)
    && (forall t: nat | Counted(s.workers, t) > 0 :: exists i :: 0 <= i < |order| && order[i].0 == t)
    && (forall i, j | 0 <= i < j < |order| :: order[i].1 >= order[j].1)
  }

  /** Whatever worker had which file, the sum of their counters is that of the corpus. */
  lemma CountedIsTotal(c: Corpus, s: State, t: nat)
    requires Inv(c, s) && Done(c, s) && |s.workers| > 0
    ensures Counted(s.workers, t) == Total(c, t)
  {
    ResultsIn(s);
    AllStopped(c, s);
    AllHandled(c, s);
    OccurrencesPermute(c, s.log, Range(0, |c.traces|), t);
  }

  lemma RankingHolds(c: Corpus, s: State, order: seq<(nat, nat)>)
    requires Inv(c, s) && Done(c, s) && |s.workers| > 0 && MostCommon(s, order)
    ensures Ranking(c, order)
  {
    forall t: nat
      ensures Counted(s.workers, t) == Total(c, t)
      ensures Total(c, t) > 0 <==> c.Held(t)
    {
      CountedIsTotal(c, s, t);
      TotalMeaning(c, t);
    }
  }

  /**
    afl-cmin, start to end: for every interleaving of the workers that brings
    main to the selection, the kept files cover the corpus.
   */
  method Minimise(c: Corpus, crashDir: bool, workers: nat, chunk: nat, ghost steps: seq<Step>, s: State,
                  order: seq<(nat, nat)>)
    returns (saved: seq<nat>, forced: nat)
    requires c.Valid() && workers > 0 && chunk > 0
    requires Reaches(c, crashDir, Init(c, workers, chunk), steps, s) && Done(c, s)
    requires MostCommon(s, order)
    ensures c.Covers(saved) && Distinct(saved)
    ensures forall f | f in saved :: f < |c.traces|
    ensures forced <= |saved|
    ensures forall f: nat :: f in saved[..forced] <==> HoldsSingle(c, f)
    ensures forall i, files | 0 <= i < forced && c.Covers(files) :: saved[i] in files
    ensures forall i | forced <= i < |saved| :: ForRarest(c, saved, i)
  {
    EveryRun(c, crashDir, workers, chunk, steps, s);
    DoneCollected(c, s);
    RankingHolds(c, s, order);
    var best := MergeBest(c, s);
    saved, forced := Select(c, best, s.info, Packs(s.workers), order);
  }
}

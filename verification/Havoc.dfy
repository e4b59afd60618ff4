/**
  The havoc mutator, afl_mutate: a buffer rewritten in place whose length
  changes from step to step.  Every random number is an arbitrary value of its
  range.
 */
module Havoc {
  import opened Bytes
  import opened HavocNumber
  import opened HavocPoke
  import opened HavocShuffle

  const BLK_SMALL: nat := 32
  const BLK_MEDIUM: nat := 128
  const BLK_LARGE: nat := 1500
  const BLK_XL: nat := 32768

  /** What a call gets besides the buffer. */
  datatype Env = Env(maxLen: nat, splice: seq<byte>, extras: seq<seq<byte>>, autoExtras: seq<seq<byte>>,
                     queueCycle: nat, runOver10m: bool)

  datatype Kind =
    | Overwrite(poke: Poke)
    | CloneCopy | CloneFixed | OverwriteCopy | OverwriteFixed | Switch | Del | ShuffleBlock | DelOne | InsertOne
    | AsciiNum | InsertAsciiNum | ExtraOverwrite | ExtraInsert | AutoExtraOverwrite | AutoExtraInsert
    | SpliceOverwrite | SpliceInsert

  // ----- What a step does to the bytes -------------------------------------

  datatype Edit =
    | Keep
    | Replace(at: nat, n: nat, block: seq<byte>)
    | Exchange(i: nat, j: nat, n: nat)
    | Permute(off: nat, p: seq<nat>)

  ghost predicate EditFits(a: seq<byte>, e: Edit) {
    match e
    case Keep => true
    case Replace(at, n, _) => at + n <= |a|
    case Exchange(i, j, n) => i + n <= |a| && j + n <= |a| && (i + n <= j || j + n <= i)
    case Permute(off, p) => off + |p| <= |a| && forall k | 0 <= k < |p| :: p[k] < |p|
  }

  ghost function Exchanged(a: seq<byte>, i: nat, j: nat, n: nat): seq<byte>
    requires i + n <= |a| && j + n <= |a|
  {
    seq(|a|, k requires 0 <= k < |a| =>
      if i <= k < i + n then a[j + (k - i)] else if j <= k < j + n then a[i + (k - j)] else a[k])
  }

  /** Replace: head + block + tail.  Exchange: two disjoint blocks change places.  Permute: bytes of one block move. */
  ghost function ApplyEdit(a: seq<byte>, e: Edit): seq<byte>
    requires EditFits(a, e)
  {
    match e
    case Keep => a
    case Replace(at, n, block) => a[..at] + block + a[at + n..]
    case Exchange(i, j, n) => Exchanged(a, i, j, n)
    case Permute(off, p) =>
      seq(|a|, k requires 0 <= k < |a| => if off <= k < off + |p| then a[off + p[k - off]] else a[k])
  }

  ghost predicate Inserts(a: seq<byte>, e: Edit) {
    e.Replace? && e.n == 0 && e.at <= |a| && e.block != []
  }

  ghost predicate Overwrites(a: seq<byte>, e: Edit) {
    e.Replace? && e.n == |e.block| && e.at + e.n <= |a|
  }

  ghost predicate IsAt(block: seq<byte>, s: seq<byte>, i: nat) {
    i + |block| <= |s| && block == s[i..i + |block|]
  }

  ghost predicate PartOf(block: seq<byte>, s: seq<byte>) {
    exists i: nat :: IsAt(block, s, i)
  }

  ghost predicate Constant(block: seq<byte>) {
    forall i, j | 0 <= i < j < |block| :: block[i] == block[j]
  }

  ghost predicate PokeEdit(p: Poke, s: seq<byte>, t: seq<byte>) {
    exists item: nat :: Poked(p, s, t, item)
  }

  ghost predicate Changes(a: seq<byte>, e: Edit, off2: nat, strat: nat, r: nat, val: int)
    requires e.Replace? && e.at + e.n <= |a|
  {
    && LongestFit(a, e.at, off2)
    && e.at + e.n == (if TooFar(strat, SignedValue(a, e.at, off2)) then off2 - 1 else off2)
    && strat < 8 && INT64_MIN <= val <= INT64_MAX
    && Changed(strat, SignedValue(a, e.at, e.at + e.n), r, val)
    && e.block == Decimal(val)
  }

  /**
    The longest run of digits that fits 64 bits, less its last digit where the
    strategy could overflow, becomes the decimal of what the strategy makes of it.
   */
  ghost predicate NumberEdit(a: seq<byte>, e: Edit) {
    && e.Replace? && 0 < e.n && e.at + e.n <= |a|
    && exists off2: nat, strat: nat, r: nat, val: int :: Changes(a, e, off2, strat, r, val)
  }

  /** The last digits of some 64-bit number. */
  ghost predicate EndsNumber(block: seq<byte>) {
    exists val: nat :: val < TWO64 && |block| <= |Digits(val)| && block == Digits(val)[|Digits(val)| - |block|..]
  }

  /** The least and the largest block length of each tier. */
  function Tier(tier: nat): (nat, nat) {
    if tier == 0 then (1, 32) else if tier == 1 then (32, 128) else if tier == 2 then (128, 1500) else (1500, 32768)
  }

  /** Small blocks always, medium ones from the second queue cycle of a long campaign, large ones from the third. */
  predicate TierOpen(env: Env, tier: nat) {
    match tier
    case 0 => true
    case 1 => env.runOver10m && env.queueCycle >= 2
    case _ => tier <= 3 && env.runOver10m && env.queueCycle >= 3
  }

  /** A length within the tier, from 1 on if that has none up to the limit; 1 if the limit is 0. */
  ghost predicate InTier(limit: nat, tier: nat, n: nat) {
    var (lo, hi) := Tier(tier);
    if limit == 0 then n == 1 else (if lo < limit then lo else 1) <= n <= hi && n <= limit
  }

  ghost predicate BlockLen(env: Env, limit: nat, n: nat) {
    exists tier: nat :: TierOpen(env, tier) && InTier(limit, tier, n)
  }

  function Min(x: nat, y: nat): nat { if x < y then x else y }

  /** How long a block two places leave room for. */
  function Room(i: nat, j: nat, len: nat): nat
    requires i <= len && j <= len
  {
    if i < j then Min(j - i, len - j) else Min(i - j, len - i)
  }

  /** Which edits each mutation may make; a mutation that does not apply to a short buffer keeps it. */
  ghost predicate Effect(env: Env, kind: Kind, a: seq<byte>, e: Edit) {
    match kind
    case Overwrite(p) =>
      if |a| < p.Width().Bytes() then e == Keep else Overwrites(a, e) && PokeEdit(p, a[e.at..e.at + e.n], e.block)
    case CloneCopy =>
      if |a| + 32768 < env.maxLen then
        Inserts(a, e) && e.at < |a| && PartOf(e.block, a) && BlockLen(env, |a|, |e.block|)
      else
        e == Keep && |a| < 8
    case CloneFixed =>
      if |a| + 32768 < env.maxLen then
        Inserts(a, e) && e.at < |a| && Constant(e.block) && BlockLen(env, 32768, |e.block|)
      else
        e == Keep && |a| < 8
    case OverwriteCopy =>
      if |a| < 2 then e == Keep else Overwrites(a, e) && PartOf(e.block, a) && BlockLen(env, |a| - 1, e.n)
    case OverwriteFixed =>
      if |a| < 2 then e == Keep else Overwrites(a, e) && Constant(e.block) && BlockLen(env, |a| - 1, e.n)
    case Switch =>
      if |a| < 4 then e == Keep else
        e.Exchange? && e.i < |a| && e.j < |a| && e.i != e.j && BlockLen(env, Room(e.i, e.j, |a|), e.n)
    case Del => if |a| < 2 then e == Keep else e.Replace? && e.block == [] && BlockLen(env, |a| - 1, e.n)
    case ShuffleBlock =>
      if |a| < 4 then e == Keep else
        e.Permute? && BlockLen(env, |a| - 1, |e.p|) && exists c :: SingleCycle(e.p, c)
    case DelOne => if |a| < 2 then e == Keep else e.Replace? && e.block == [] && e.n == 1
    case InsertOne => if |a| < 2 then e == Keep else Inserts(a, e) && |e.block| == 1
    case AsciiNum =>
      if |a| < 4 then e == Keep
      else if e == Keep then |a| < 8 && forall k | 0 <= k < |a| :: !IsDigit(a[k])
      else NumberEdit(a, e)
    case InsertAsciiNum => if e == Keep then |a| < 8 else Overwrites(a, e) && 0 < e.n <= 8 && EndsNumber(e.block)
    case ExtraOverwrite => Overwrites(a, e) && e.block in env.extras
    case ExtraInsert => e.Replace? && e.n == 0 && e.block in env.extras
    case AutoExtraOverwrite => Overwrites(a, e) && e.block in env.autoExtras
    case AutoExtraInsert => e.Replace? && e.n == 0 && e.block in env.autoExtras
    case SpliceOverwrite =>
      && Overwrites(a, e) && env.splice != [] && PartOf(e.block, env.splice)
      && exists n: nat :: BlockLen(env, |env.splice| - 1, n) && e.n == Min(n, |a|)
    case SpliceInsert =>
      && |a| + 32768 <= env.maxLen && Inserts(a, e)
      && PartOf(e.block, env.splice) && BlockLen(env, |env.splice|, |e.block|)
  }

  /** When a mutation is given up for another one: never for a buffer too short for it, mostly for lack of room. */
  ghost predicate MayRetry(env: Env, kind: Kind, a: seq<byte>) {
    match kind
    case CloneCopy => |a| + 32768 >= env.maxLen && |a| >= 8
    case CloneFixed => |a| + 32768 >= env.maxLen && |a| >= 8
    case InsertOne => |a| >= 2 && |a| == env.maxLen
    case AsciiNum =>
      (|a| >= 8 && forall k | 0 <= k < |a| :: !IsDigit(a[k])) ||
      (|a| >= 4 && exists e :: NumberEdit(a, e) && |ApplyEdit(a, e)| > env.maxLen)
    case InsertAsciiNum => |a| >= 8
    case ExtraOverwrite => env.extras == [] || exists x | x in env.extras :: |x| > |a|
    case ExtraInsert => env.extras == [] || exists x | x in env.extras :: |a| + |x| > env.maxLen
    case AutoExtraOverwrite => env.autoExtras == [] || exists x | x in env.autoExtras :: |x| > |a|
    case AutoExtraInsert => env.autoExtras == [] || exists x | x in env.autoExtras :: |a| + |x| > env.maxLen
    case SpliceOverwrite => env.splice == []
    case SpliceInsert => env.splice == [] || |a| + 32768 > env.maxLen
    case _ => false
  }

  // ----- Random numbers ----------------------------------------------------

  /** rand_below: any value below the limit; 0 for a limit of 0 or 1. */
  method RandBelow(limit: nat) returns (r: nat)
    ensures limit <= 1 ==> r == 0
    ensures limit >= 1 ==> r < limit
  {
    if limit <= 1 { return 0; }
    r :| 0 <= r < limit;
  }

  /** u32 subtraction. */
  function Sub32(x: nat, y: nat): nat
    requires y < 0x1_0000_0000
  {
    if x >= y then x - y else x + 0x1_0000_0000 - y
  }

  /** choose_block_len: never zero, and no more than the limit unless that is 0. */
  method ChooseBlockLen(env: Env, limit: nat) returns (n: nat)
    requires limit < 0x1_0000_0000
    ensures BlockLen(env, limit, n)
    ensures 1 <= n <= BLK_XL && (limit > 0 ==> n <= limit)
  {
    var rlim := if env.queueCycle < 3 then env.queueCycle else 3;
    if !env.runOver10m { rlim := 1; }
    var pick := RandBelow(rlim);
    var lo, hi; ghost var tier: nat;
    if pick == 0 {
      lo, hi, tier := 1, BLK_SMALL, 0;
    } else if pick == 1 {
      lo, hi, tier := BLK_SMALL, BLK_MEDIUM, 1;
    } else {
      var often := RandBelow(10);
      if often != 0 {
        lo, hi, tier := BLK_MEDIUM, BLK_LARGE, 2;
      } else {
        lo, hi, tier := BLK_LARGE, BLK_XL, 3;
      }
    }
    if lo >= limit { lo := 1; }
    var top := if hi < limit then hi else limit;
    var span := Sub32(top, lo);
    var r := RandBelow(if span == 0xffff_ffff then 0 else span + 1);
    n := lo + r;
    assert TierOpen(env, tier) && InTier(limit, tier, n);
  }

  // ----- Copies ------------------------------------------------------------

  /** memcpy(dst + at, src + from, n): when both are one buffer the two ranges must not overlap. */
  method MemCpy(dst: array<byte>, at: nat, src: array<byte>, from: nat, n: nat)
    requires at + n <= dst.Length && from + n <= src.Length
    requires dst == src ==> at + n <= from || from + n <= at
    modifies dst
    ensures dst[..] == Splice(old(dst[..]), at, old(src[from..from + n]))
  {
    CopyInto(dst, at, src[from..from + n]);
  }

  lemma Slice(buf: array<byte>, lo: nat, hi: nat)
    requires lo <= hi <= buf.Length
    ensures buf[lo..hi] == buf[..][lo..hi] && buf[..hi] == buf[..][..hi]
  {
  }

  /** memmove(dst + at, dst + from, n) */
  method MemMove(dst: array<byte>, at: nat, from: nat, n: nat)
    requires at + n <= dst.Length && from + n <= dst.Length
    modifies dst
    ensures dst[..] == Splice(old(dst[..]), at, old(dst[..])[from..from + n])
  {
    Slice(dst, from, from + n);
    CopyInto(dst, at, dst[from..from + n]);
  }

  // ----- Edits on the buffer -----------------------------------------------

  /** The buffers of a call: `buf` has room for maxLen bytes and so has the scratch buffer. */
  ghost predicate Buffers(env: Env, buf: array<byte>, tmp: array<byte>, len: nat) {
    && buf != tmp
    && env.maxLen <= buf.Length && env.maxLen <= tmp.Length
    && 1 <= len <= env.maxLen
    && env.maxLen + BLK_XL < 0x1_0000_0000
  }

  lemma ThreeSplices(t: seq<byte>, head: seq<byte>, block: seq<byte>, tail: seq<byte>)
    requires |head| + |block| + |tail| <= |t|
    ensures Splice(Splice(Splice(t, 0, head), |head|, block), |head| + |block|, tail)[..|head| + |block| + |tail|]
         == head + block + tail
  {
    var t1 := Splice(t, 0, head);
    assert t1[..|head|] == head;
    var t2 := Splice(t1, |head|, block);
    assert t2[..|head| + |block|] == head + block;
  }

  /** Three copies, one behind the other. */
  method CopyThree(tmp: array<byte>, head: seq<byte>, block: seq<byte>, tail: seq<byte>)
    requires |head| + |block| + |tail| <= tmp.Length
    modifies tmp
    ensures tmp[..] == Splice(Splice(Splice(old(tmp[..]), 0, head), |head|, block), |head| + |block|, tail)
  {
    CopyInto(tmp, 0, head);
    CopyInto(tmp, |head|, block);
    CopyInto(tmp, |head| + |block|, tail);
  }

  /** Head, inserted part and tail, put together in the scratch buffer. */
  method Assemble(buf: array<byte>, tmp: array<byte>, len: nat, at: nat, n: nat, block: seq<byte>)
    requires buf != tmp && at + n <= len <= buf.Length && len - n + |block| <= tmp.Length
    modifies tmp
    ensures tmp[..][..len - n + |block|] == buf[0..at] + block + buf[at + n..len]
  {
    var head, tail := buf[0..at], buf[at + n..len];
    ThreeSplices(tmp[..], head, block, tail);
    CopyThree(tmp, head, block, tail);
  }

  lemma SpliceStart(t: seq<byte>, s: seq<byte>)
    requires |s| <= |t|
    ensures Splice(t, 0, s)[..|s|] == s
  {
  }

  method CopyBack(buf: array<byte>, tmp: array<byte>, n: nat)
    requires buf != tmp && n <= buf.Length && n <= tmp.Length
    modifies buf
    ensures buf[..n] == tmp[..][..n]
  {
    ghost var made := tmp[0..n];
    assert made == tmp[..][..n];
    SpliceStart(buf[..], made);
    MemCpy(buf, 0, tmp, 0, n);
    assert buf[..n] == buf[..][..n];
  }

  /** Insertion by way of the scratch buffer; the replaced part is dropped. */
  method ReplaceBlock(buf: array<byte>, tmp: array<byte>, len: nat, at: nat, n: nat, block: seq<byte>)
      returns (len': nat)
    requires buf != tmp && at + n <= len <= buf.Length
    requires len - n + |block| <= buf.Length && len - n + |block| <= tmp.Length
    modifies buf, tmp
    ensures len' == len - n + |block|
    ensures buf[..len'] == ApplyEdit(old(buf[..len]), Replace(at, n, block))
  {
    len' := len - n + |block|;
    ghost var a := buf[..len];
    assert buf[0..at] == a[..at] && buf[at + n..len] == a[at + n..];
    Assemble(buf, tmp, len, at, n, block);
    CopyBack(buf, tmp, len');
  }

  lemma SpliceAt(t: seq<byte>, at: nat, s: seq<byte>, k: nat)
    requires at + |s| <= |t| && k < |t|
    ensures Splice(t, at, s)[k] == if at <= k < at + |s| then s[k - at] else t[k]
  {
  }

  lemma TwoSplicesAt(t: seq<byte>, i: nat, j: nat, x: seq<byte>, y: seq<byte>, k: nat)
    requires |x| == |y| && i + |x| <= |t| && j + |x| <= |t| && (i + |x| <= j || j + |x| <= i) && k < |t|
    ensures Splice(Splice(t, i, y), j, x)[k]
         == if i <= k < i + |x| then y[k - i] else if j <= k < j + |x| then x[k - j] else t[k]
  {
    SpliceAt(t, i, y, k);
    SpliceAt(Splice(t, i, y), j, x, k);
  }

  lemma ExchangeAt(t: seq<byte>, len: nat, i: nat, j: nat, n: nat, k: nat, x: seq<byte>, y: seq<byte>)
    requires len <= |t| && i + n <= len && j + n <= len && k < len
    requires x == t[i..i + n] && y == t[j..j + n]
    ensures Exchanged(t[..len], i, j, n)[k]
         == if i <= k < i + n then y[k - i] else if j <= k < j + n then x[k - j] else t[k]
  {
  }

  lemma TwoSplices(t: seq<byte>, len: nat, i: nat, j: nat, n: nat)
    requires len <= |t| && i + n <= len && j + n <= len && (i + n <= j || j + n <= i)
    ensures Splice(Splice(t, i, t[j..j + n]), j, t[i..i + n])[..len] == Exchanged(t[..len], i, j, n)
  {
    var x, y := t[i..i + n], t[j..j + n];
    var r, e := Splice(Splice(t, i, y), j, x)[..len], Exchanged(t[..len], i, j, n);
    forall k | 0 <= k < len
      ensures r[k] == e[k]
    {
      TwoSplicesAt(t, i, j, x, y, k);
      ExchangeAt(t, len, i, j, n, k, x, y);
    }
  }

  lemma SpliceOverwrites(t: seq<byte>, len: nat, at: nat, b: seq<byte>)
    requires at + |b| <= len <= |t|
    ensures Splice(t, at, b)[..len] == ApplyEdit(t[..len], Replace(at, |b|, b))
  {
  }

  lemma SpliceDeletes(t: seq<byte>, len: nat, from: nat, n: nat)
    requires from + n <= len <= |t|
    ensures Splice(t, from, t[from + n..len])[..len - n] == ApplyEdit(t[..len], Replace(from, n, []))
  {
    assert t[from + n..len] == t[..len][from + n..];
  }

  lemma SpliceInserts(t: seq<byte>, len: nat, at: nat, b: seq<byte>)
    requires at <= len && len + |b| <= |t|
    ensures Splice(Splice(t, at + |b|, t[at..len]), at, b)[..len + |b|] == ApplyEdit(t[..len], Replace(at, 0, b))
  {
    var t1 := Splice(t, at + |b|, t[at..len]);
    assert t1[..at] == t[..len][..at];
    assert t1[at + |b|..len + |b|] == t[..len][at..];
    var t2 := Splice(t1, at, b);
    assert t2[..at + |b|] == t1[..at] + b;
    assert t2[at + |b|..len + |b|] == t1[at + |b|..len + |b|];
    assert t2[..len + |b|] == t2[..at + |b|] + t2[at + |b|..len + |b|];
  }

  /** memmove of the tail over the deleted bytes. */
  method DeleteBlock(buf: array<byte>, len: nat, from: nat, n: nat) returns (len': nat)
    requires from + n <= len <= buf.Length
    modifies buf
    ensures len' == len - n
    ensures buf[..len'] == ApplyEdit(old(buf[..len]), Replace(from, n, []))
  {
    ghost var t := buf[..];
    Slice(buf, 0, len);
    SpliceDeletes(t, len, from, n);
    MemMove(buf, from, from + n, len - from - n);
    len' := len - n;
    Slice(buf, 0, len');
  }

  /** memmove of the tail, then memcpy of the inserted part. */
  method InsertInPlace(buf: array<byte>, len: nat, at: nat, block: seq<byte>) returns (len': nat)
    requires at <= len && len + |block| <= buf.Length
    modifies buf
    ensures len' == len + |block|
    ensures buf[..len'] == ApplyEdit(old(buf[..len]), Replace(at, 0, block))
  {
    ghost var t := buf[..];
    Slice(buf, 0, len);
    SpliceInserts(t, len, at, block);
    MemMove(buf, at + |block|, at, len - at);
    CopyInto(buf, at, block);
    len' := len + |block|;
    Slice(buf, 0, len');
  }

  method OverwriteBlock(buf: array<byte>, len: nat, at: nat, block: seq<byte>)
    requires at + |block| <= len <= buf.Length
    modifies buf
    ensures buf[..len] == ApplyEdit(old(buf[..len]), Replace(at, |block|, block))
  {
    ghost var t := buf[..];
    Slice(buf, 0, len);
    SpliceOverwrites(t, len, at, block);
    CopyInto(buf, at, block);
    Slice(buf, 0, len);
  }

  /** memmove within the buffer. */
  method MoveBlock(buf: array<byte>, len: nat, to: nat, from: nat, n: nat)
    requires to + n <= len <= buf.Length && from + n <= len
    modifies buf
    ensures buf[..len] == ApplyEdit(old(buf[..len]), Replace(to, n, old(buf[..len])[from..from + n]))
  {
    ghost var t := buf[..];
    ghost var block := t[..len][from..from + n];
    SpliceOverwrites(t, len, to, block);
    assert buf[from..from + n] == block && buf[..len] == t[..len];
    MemMove(buf, to, from, n);
    assert buf[..len] == buf[..][..len];
  }

  /** Backup, switch 1, switch 2. */
  method SwitchBlocks(buf: array<byte>, tmp: array<byte>, len: nat, i: nat, j: nat, n: nat)
    requires buf != tmp && len <= buf.Length && n <= tmp.Length
    requires i + n <= len && j + n <= len && (i + n <= j || j + n <= i)
    modifies buf, tmp
    ensures buf[..len] == ApplyEdit(old(buf[..len]), Exchange(i, j, n))
  {
    TwoSplices(buf[..], len, i, j, n);
    ghost var t := buf[..];
    SpliceStart(tmp[..], buf[i..i + n]);
    MemCpy(tmp, 0, buf, i, n);
    assert tmp[0..n] == tmp[..][..n] == t[i..i + n];
    assert buf[j..j + n] == t[j..j + n];
    MemCpy(buf, i, buf, j, n);
    MemCpy(buf, j, tmp, 0, n);
    assert buf[..len] == buf[..][..len];
    assert t[..len] == old(buf[..len]);
  }

  // ----- One step ----------------------------------------------------------

  /** `Retry` is the jump to retry_havoc_step: another mutation is drawn for the same step. */
  datatype Outcome = Made | Retry

  /** The place to delete at, or to copy to: anywhere the block still fits. */
  method Place(len: nat, n: nat) returns (at: nat)
    requires n <= len
    ensures at + n <= len
  {
    at := RandBelow(len - n + 1);
  }

  /** Either a random byte, or the byte before the place. */
  method PickItem(buf: array<byte>, at: nat) returns (item: byte)
    requires at < buf.Length
  {
    var strat := RandBelow(2);
    if strat != 0 {
      item := RandBelow(256);
    } else {
      item := buf[if at > 0 then at - 1 else 0];
    }
  }

  /** How a step ends: the new bytes are an edit the mutation may make, and the length stays in range. */
  ghost predicate Done(env: Env, kind: Kind, a: seq<byte>, b: seq<byte>, o: Outcome, e: Edit) {
    && 1 <= |b| <= env.maxLen
    && EditFits(a, e) && b == ApplyEdit(a, e)
    && (o.Made? ==> Effect(env, kind, a, e))
    && (o.Retry? ==> e == Keep && MayRetry(env, kind, a))
  }

  lemma PokeEffect(env: Env, p: Poke, a: seq<byte>, pos: nat, block: seq<byte>, item: nat)
    requires pos + p.Width().Bytes() <= |a| && Poked(p, a[pos..pos + p.Width().Bytes()], block, item)
    ensures Effect(env, Overwrite(p), a, Replace(pos, |block|, block))
  {
  }

  /** The random part of a poke. */
  method DrawItem(p: Poke) returns (item: nat)
    ensures Drawn(p, item)
  {
    item := 0;
    match p {
      case FlipBit => item := RandBelow(8);
      case Rand8 =>
        var r := RandBelow(255);
        item := 1 + r;
      case Interesting(w, _) => item := RandBelow(|w.Interesting()|);
      case Arith(_, _, _) =>
        var r := RandBelow(ARITH_MAX);
        item := 1 + r;
      case _ =>
    }
  }

  method StepOverwrite(env: Env, kind: Kind, buf: array<byte>, tmp: array<byte>, len: nat) returns (ghost e: Edit)
    requires Buffers(env, buf, tmp, len) && kind.Overwrite?
    modifies buf
    ensures Done(env, kind, old(buf[..len]), buf[..len], Made, e)
  {
    var a := buf[..len];
    var w := kind.poke.Width().Bytes();
    e := Keep;
    if len >= w {
      var pos := Place(len, w);
      var item := DrawItem(kind.poke);
      var block := NewBytes(kind.poke, a[pos..pos + w], item);
      PokeEffect(env, kind.poke, a, pos, block, item);
      OverwriteBlock(buf, len, pos, block);
      e := Replace(pos, |block|, block);
    }
  }

  method StepClone(env: Env, kind: Kind, buf: array<byte>, tmp: array<byte>, len: nat)
      returns (len': nat, o: Outcome, ghost e: Edit)
    requires Buffers(env, buf, tmp, len) && (kind.CloneCopy? || kind.CloneFixed?)
    modifies buf, tmp
    ensures len' <= buf.Length && Done(env, kind, old(buf[..len]), buf[..len'], o, e)
  {
    var a := buf[..len];
    if len + BLK_XL < env.maxLen {
      var block, to;
      if kind.CloneCopy? {
        var n := ChooseBlockLen(env, len);
        var from := Place(len, n);
        to := RandBelow(len);
        block := a[from..from + n];
        assert IsAt(block, a, from);
      } else {
        var n := ChooseBlockLen(env, BLK_XL);
        to := RandBelow(len);
        var item := PickItem(buf, to);
        block := seq(n, _ => item);
      }
      len' := ReplaceBlock(buf, tmp, len, to, 0, block);
      o, e := Made, Replace(to, 0, block);
    } else {
      len', o, e := len, if len < 8 then Made else Retry, Keep;
    }
  }

  lemma Unchanged(a: seq<byte>, to: nat, n: nat)
    requires to + n <= |a|
    ensures a == a[..to] + a[to..to + n] + a[to + n..]
  {
  }

  /** The block at `from` is copied over the one at `to`, unless these are the same. */
  method CopyWithin(buf: array<byte>, len: nat, to: nat, from: nat, n: nat)
    requires len <= buf.Length && from + n <= len && to + n <= len
    modifies buf
    ensures buf[..len] == ApplyEdit(old(buf[..len]), Replace(to, n, old(buf[..len])[from..from + n]))
  {
    if from != to {
      MoveBlock(buf, len, to, from, n);
    } else {
      Unchanged(buf[..len], to, n);
    }
  }

  method StepOverwriteCopy(env: Env, buf: array<byte>, tmp: array<byte>, len: nat) returns (ghost e: Edit)
    requires Buffers(env, buf, tmp, len)
    modifies buf
    ensures Done(env, OverwriteCopy, old(buf[..len]), buf[..len], Made, e)
  {
    ghost var a := buf[..len];
    e := Keep;
    if len < 2 { return; }
    var n := ChooseBlockLen(env, len - 1);
    var from := Place(len, n);
    var to := Place(len, n);
    ghost var block := a[from..from + n];
    assert IsAt(block, a, from);
    e := Replace(to, n, block);
    CopyWithin(buf, len, to, from, n);
  }

  method StepOverwriteFixed(env: Env, buf: array<byte>, tmp: array<byte>, len: nat) returns (ghost e: Edit)
    requires Buffers(env, buf, tmp, len)
    modifies buf
    ensures Done(env, OverwriteFixed, old(buf[..len]), buf[..len], Made, e)
  {
    e := Keep;
    if len < 2 { return; }
    var n := ChooseBlockLen(env, len - 1);
    var to := Place(len, n);
    var item := PickItem(buf, to);
    var block := seq(n, _ => item);
    OverwriteBlock(buf, len, to, block);
    e := Replace(to, n, block);
  }

  /** Two places and the length of the blocks there that change places. */
  method ChooseSwitch(env: Env, len: nat) returns (from: nat, to: nat, n: nat)
    requires 4 <= len < 0x1_0000_0000
    ensures from < len && to < len && from != to && BlockLen(env, Room(from, to, len), n)
    ensures from + n <= len && to + n <= len && (from + n <= to || to + n <= from)
  {
    from := RandBelow(len);
    to :| to < len && to != from by { assert from != 0 ==> 0 != from; assert from == 0 ==> 1 != from; }
    var limit, toEnd;
    if from < to {
      limit, toEnd := to - from, len - to;
    } else {
      limit, toEnd := from - to, len - from;
    }
    n := ChooseBlockLen(env, if limit < toEnd then limit else toEnd);
  }

  method StepSwitch(env: Env, buf: array<byte>, tmp: array<byte>, len: nat) returns (ghost e: Edit)
    requires Buffers(env, buf, tmp, len)
    modifies buf, tmp
    ensures Done(env, Switch, old(buf[..len]), buf[..len], Made, e)
  {
    e := Keep;
    if len < 4 { return; }
    var from, to, n := ChooseSwitch(env, len);
    SwitchBlocks(buf, tmp, len, from, to, n);
    e := Exchange(from, to, n);
  }

  method StepDelete(env: Env, kind: Kind, buf: array<byte>, tmp: array<byte>, len: nat)
      returns (len': nat, ghost e: Edit)
    requires Buffers(env, buf, tmp, len) && (kind.Del? || kind.DelOne?)
    modifies buf
    ensures len' <= buf.Length && Done(env, kind, old(buf[..len]), buf[..len'], Made, e)
  {
    len', e := len, Keep;
    if len < 2 { return; }
    var n := 1;
    if kind.Del? { n := ChooseBlockLen(env, len - 1); }
    var from := Place(len, n);
    len' := DeleteBlock(buf, len, from, n);
    e := Replace(from, n, []);
  }

  method StepShuffle(env: Env, buf: array<byte>, tmp: array<byte>, len: nat) returns (ghost e: Edit)
    requires Buffers(env, buf, tmp, len)
    modifies buf
    ensures Done(env, ShuffleBlock, old(buf[..len]), buf[..len], Made, e)
  {
    e := Keep;
    if len < 4 { return; }
    var n := ChooseBlockLen(env, len - 1);
    var off := Place(len, n);
    ghost var p, c := Shuffle(buf, off, n);
    e := Permute(off, p);
  }

  method StepInsertOne(env: Env, buf: array<byte>, tmp: array<byte>, len: nat)
      returns (len': nat, o: Outcome, ghost e: Edit)
    requires Buffers(env, buf, tmp, len)
    modifies buf, tmp
    ensures len' <= buf.Length && Done(env, InsertOne, old(buf[..len]), buf[..len'], o, e)
  {
    len', o, e := len, Made, Keep;
    if len < 2 { return; }
    if len + 1 > env.maxLen { o := Retry; return; }
    var to := RandBelow(len);
    var item := PickItem(buf, to);
    len' := ReplaceBlock(buf, tmp, len, to, 0, [item]);
    e := Replace(to, 0, [item]);
  }

  lemma IsNumberEdit(a: seq<byte>, off: nat, off2: nat, end: nat, strat: nat, r: nat, val: int)
    requires LongestFit(a, off, off2) && strat < 8 && INT64_MIN <= val <= INT64_MAX
    requires off < end == if TooFar(strat, SignedValue(a, off, off2)) then off2 - 1 else off2
    requires Changed(strat, SignedValue(a, off, end), r, val)
    ensures NumberEdit(a, Replace(off, end - off, Decimal(val)))
  {
    assert Changes(a, Replace(off, end - off, Decimal(val)), off2, strat, r, val);
  }

  /** The number that is written, and where: none is found in a buffer without digits. */
  method NewNumber(a: seq<byte>) returns (r: Option<(nat, nat, seq<byte>)>)
    requires a != []
    ensures r.None? ==> forall k | 0 <= k < |a| :: !IsDigit(a[k])
    ensures r.Some? ==> r.value.0 + r.value.1 <= |a| && NumberEdit(a, Replace(r.value.0, r.value.1, r.value.2))
  {
    var start := RandBelow(|a|);
    var off := FindNumber(a, start);
    if off == |a| { return None; }
    var val, off2 := ReadNumber(a, off);
    if off > 0 && a[off - 1] == MINUS { val := -val; }
    var strat := RandBelow(8);
    var pick := RandBelow(Spread(strat, val));
    var val', end := Change(a, off, off2, strat, val, pick);
    IsNumberEdit(a, off, off2, end, strat, pick, val');
    r := Some((off, end - off, Decimal(val')));
  }

  method StepAsciiNum(env: Env, buf: array<byte>, tmp: array<byte>, len: nat)
      returns (len': nat, o: Outcome, ghost e: Edit)
    requires Buffers(env, buf, tmp, len)
    modifies buf, tmp
    ensures len' <= buf.Length && Done(env, AsciiNum, old(buf[..len]), buf[..len'], o, e)
  {
    len', o, e := len, Made, Keep;
    if len < 4 { return; }
    var found := NewNumber(buf[..len]);
    if found.None? {
      o := if len < 8 then Made else Retry;
      return;
    }
    var (off, n, text) := found.value;
    if n != |text| && len - n + |text| > env.maxLen {
      o := Retry;
      return;
    }
    if n == |text| {
      OverwriteBlock(buf, len, off, text);
    } else {
      len' := ReplaceBlock(buf, tmp, len, off, n, text);
    }
    e := Replace(off, n, text);
  }

  /** The last n digits of a random number, or all of them if it has fewer. */
  method NumberTail(n: nat) returns (block: seq<byte>)
    requires n > 0
    ensures 0 < |block| <= n && EndsNumber(block)
  {
    var val: nat := RandBelow(TWO64);
    var text := Digits(val);
    var m := if n > |text| then |text| else n;
    block := text[|text| - m..];
  }

  method StepInsertAsciiNum(env: Env, buf: array<byte>, tmp: array<byte>, len: nat) returns (o: Outcome, ghost e: Edit)
    requires Buffers(env, buf, tmp, len)
    modifies buf
    ensures Done(env, InsertAsciiNum, old(buf[..len]), buf[..len], o, e)
  {
    o, e := Made, Keep;
    var n := RandBelow(8);
    n := n + 1;
    var pos := RandBelow(len);
    if len < pos + n {
      o := if len < 8 then Made else Retry;
      return;
    }
    var block := NumberTail(n);
    OverwriteBlock(buf, len, pos, block);
    e := Replace(pos, |block|, block);
  }

  method StepExtra(env: Env, kind: Kind, buf: array<byte>, tmp: array<byte>, len: nat)
      returns (len': nat, o: Outcome, ghost e: Edit)
    requires Buffers(env, buf, tmp, len)
    requires kind.ExtraOverwrite? || kind.ExtraInsert? || kind.AutoExtraOverwrite? || kind.AutoExtraInsert?
    modifies buf
    ensures len' <= buf.Length && Done(env, kind, old(buf[..len]), buf[..len'], o, e)
  {
    len', o, e := len, Retry, Keep;
    var extras := if kind.ExtraOverwrite? || kind.ExtraInsert? then env.extras else env.autoExtras;
    if extras == [] { return; }
    var use := RandBelow(|extras|);
    var block := extras[use];
    if kind.ExtraOverwrite? || kind.AutoExtraOverwrite? {
      if |block| > len { return; }
      var at := Place(len, |block|);
      OverwriteBlock(buf, len, at, block);
      o, e := Made, Replace(at, |block|, block);
    } else {
      if len + |block| > env.maxLen { return; }
      var at := RandBelow(len + 1);
      len' := InsertInPlace(buf, len, at, block);
      o, e := Made, Replace(at, 0, block);
    }
  }

  method StepSpliceOverwrite(env: Env, buf: array<byte>, len: nat) returns (o: Outcome, ghost e: Edit)
    requires env.maxLen <= buf.Length && 1 <= len <= env.maxLen && |env.splice| < 0x1_0000_0000
    modifies buf
    ensures Done(env, SpliceOverwrite, old(buf[..len]), buf[..len], o, e)
  {
    o, e := Retry, Keep;
    var other := env.splice;
    if other == [] { return; }
    var n := ChooseBlockLen(env, |other| - 1);
    ghost var chosen := n;
    if n > len { n := len; }
    assert BlockLen(env, |other| - 1, chosen) && n == Min(chosen, len);
    var from := Place(|other|, n);
    var to := Place(len, n);
    var block := other[from..from + n];
    assert IsAt(block, other, from);
    OverwriteBlock(buf, len, to, block);
    o, e := Made, Replace(to, n, block);
  }

  method StepSpliceInsert(env: Env, buf: array<byte>, tmp: array<byte>, len: nat)
      returns (len': nat, o: Outcome, ghost e: Edit)
    requires Buffers(env, buf, tmp, len) && |env.splice| < 0x1_0000_0000
    modifies buf, tmp
    ensures len' <= buf.Length && Done(env, SpliceInsert, old(buf[..len]), buf[..len'], o, e)
  {
    len', o, e := len, Retry, Keep;
    var other := env.splice;
    if other == [] { return; }
    if len + BLK_XL > env.maxLen { return; }
    var n := ChooseBlockLen(env, |other|);
    var from := Place(|other|, n);
    var to := RandBelow(len + 1);
    var block := other[from..from + n];
    assert IsAt(block, other, from);
    len' := ReplaceBlock(buf, tmp, len, to, 0, block);
    o, e := Made, Replace(to, 0, block);
  }

  /** The switch over the mutations. */
  method Step(env: Env, kind: Kind, buf: array<byte>, tmp: array<byte>, len: nat)
      returns (len': nat, o: Outcome, ghost e: Edit)
    requires Buffers(env, buf, tmp, len) && |env.splice| < 0x1_0000_0000
    modifies buf, tmp
    ensures len' <= buf.Length && Done(env, kind, old(buf[..len]), buf[..len'], o, e)
  {
    len', o := len, Made;
    match kind {
      case Overwrite(_) => e := StepOverwrite(env, kind, buf, tmp, len);
      case CloneCopy => len', o, e := StepClone(env, kind, buf, tmp, len);
      case CloneFixed => len', o, e := StepClone(env, kind, buf, tmp, len);
      case OverwriteCopy => e := StepOverwriteCopy(env, buf, tmp, len);
      case OverwriteFixed => e := StepOverwriteFixed(env, buf, tmp, len);
      case Switch => e := StepSwitch(env, buf, tmp, len);
      case Del => len', e := StepDelete(env, kind, buf, tmp, len);
      case ShuffleBlock => e := StepShuffle(env, buf, tmp, len);
      case DelOne => len', e := StepDelete(env, kind, buf, tmp, len);
      case InsertOne => len', o, e := StepInsertOne(env, buf, tmp, len);
      case AsciiNum => len', o, e := StepAsciiNum(env, buf, tmp, len);
      case InsertAsciiNum => o, e := StepInsertAsciiNum(env, buf, tmp, len);
      case SpliceOverwrite => o, e := StepSpliceOverwrite(env, buf, len);
      case SpliceInsert => len', o, e := StepSpliceInsert(env, buf, tmp, len);
      case _ => len', o, e := StepExtra(env, kind, buf, tmp, len);
    }
  }

  // ----- Whole runs --------------------------------------------------------

  datatype Mutation = Mutation(kind: Kind, edit: Edit)

  /** The bytes that a trail of edits makes of `a`. */
  ghost function Replay(a: seq<byte>, trail: seq<Mutation>): seq<byte>
    decreases |trail|
  {
    if trail == [] then
      a
    else
      var n := |trail| - 1;
      var b, e := Replay(a, trail[..n]), trail[n].edit;
      if EditFits(b, e) then ApplyEdit(b, e) else b
  }

  /** The last mutation of the trail is one that it may be on the bytes it met. */
  ghost predicate LastMade(env: Env, a: seq<byte>, trail: seq<Mutation>, kind: Kind) {
    trail != [] &&
    var n := |trail| - 1;
    var b, m := Replay(a, trail[..n]), trail[n];
    m.kind == kind && EditFits(b, m.edit) && Effect(env, kind, b, m.edit)
  }

  /** The trail is what the drawn mutations make of `a`, in their order: each was made, or given up with reason. */
  ghost predicate Drives(env: Env, a: seq<byte>, choices: seq<Kind>, trail: seq<Mutation>)
    decreases |choices|
  {
    if choices == [] then
      trail == []
    else
      var n := |choices| - 1;
      || (MayRetry(env, choices[n], Replay(a, trail)) && Drives(env, a, choices[..n], trail))
      || (LastMade(env, a, trail, choices[n]) && Drives(env, a, choices[..n], trail[..|trail| - 1]))
  }

  lemma Retried(env: Env, a: seq<byte>, choices: seq<Kind>, trail: seq<Mutation>, kind: Kind)
    requires Drives(env, a, choices, trail) && MayRetry(env, kind, Replay(a, trail))
    ensures Drives(env, a, choices + [kind], trail)
  {
    assert (choices + [kind])[..|choices|] == choices;
  }

  lemma MadeOne(env: Env, a: seq<byte>, choices: seq<Kind>, trail: seq<Mutation>, kind: Kind, e: Edit)
    requires Drives(env, a, choices, trail)
    requires EditFits(Replay(a, trail), e) && Effect(env, kind, Replay(a, trail), e)
    ensures Drives(env, a, choices + [kind], trail + [Mutation(kind, e)])
    ensures Replay(a, trail + [Mutation(kind, e)]) == ApplyEdit(Replay(a, trail), e)
  {
    var more := trail + [Mutation(kind, e)];
    assert (choices + [kind])[..|choices|] == choices;
    assert more[..|trail|] == trail;
    assert LastMade(env, a, more, kind);
  }

  /** The bytes `b` are what the drawn mutations made of `a`. */
  ghost predicate Ran(env: Env, a: seq<byte>, choices: seq<Kind>, trail: seq<Mutation>, b: seq<byte>) {
    Drives(env, a, choices, trail) && b == Replay(a, trail)
  }

  lemma RanMore(env: Env, a: seq<byte>, choices: seq<Kind>, trail: seq<Mutation>, b: seq<byte>, kind: Kind,
                b': seq<byte>, o: Outcome, e: Edit)
    requires Ran(env, a, choices, trail, b) && Done(env, kind, b, b', o, e)
    ensures Ran(env, a, choices + [kind], if o.Made? then trail + [Mutation(kind, e)] else trail, b')
  {
    if o.Made? {
      MadeOne(env, a, choices, trail, kind, e);
    } else {
      Retried(env, a, choices, trail, kind);
    }
  }

  /** One more mutation is drawn. */
  method Draw(env: Env, kind: Kind, buf: array<byte>, tmp: array<byte>, len: nat,
              ghost a: seq<byte>, ghost choices: seq<Kind>, ghost trail: seq<Mutation>)
      returns (len': nat, o: Outcome, ghost trail': seq<Mutation>)
    requires Buffers(env, buf, tmp, len) && |env.splice| < 0x1_0000_0000
    requires Ran(env, a, choices, trail, buf[..len])
    modifies buf, tmp
    ensures Buffers(env, buf, tmp, len') && Ran(env, a, choices + [kind], trail', buf[..len'])
    ensures if o.Made? then |trail'| == |trail| + 1 && trail'[..|trail|] == trail else trail' == trail
  {
    ghost var b := buf[..len];
    ghost var e;
    len', o, e := Step(env, kind, buf, tmp, len);
    RanMore(env, a, choices, trail, b, kind, buf[..len'], o, e);
    trail' := if o.Made? then trail + [Mutation(kind, e)] else trail;
  }

  /**
    A run over the given mutations: it ends early only when they run out, and
    draws none after its last step, so that without the last one drawn there
    is a step less.
   */
  ghost predicate Complete(env: Env, a: seq<byte>, steps: nat, choices: seq<Kind>, drawn: nat, trail: seq<Mutation>,
                           b: seq<byte>) {
    && drawn <= |choices| && |trail| <= steps
    && Ran(env, a, choices[..drawn], trail, b)
    && (|trail| < steps ==> drawn == |choices|)
    && (|trail| == steps && drawn > 0 ==> steps > 0 && Drives(env, a, choices[..drawn - 1], trail[..steps - 1]))
  }

  method MutateSteps(env: Env, buf: array<byte>, tmp: array<byte>, len0: nat, steps: nat, choices: seq<Kind>)
      returns (len: nat, step: nat, drawn: nat, ghost trail: seq<Mutation>)
    requires Buffers(env, buf, tmp, len0) && |env.splice| < 0x1_0000_0000
    modifies buf, tmp
    ensures Buffers(env, buf, tmp, len) && step == |trail|
    ensures Complete(env, old(buf[..len0]), steps, choices, drawn, trail, buf[..len])
  {
    len, step, drawn, trail := len0, 0, 0, [];
    ghost var a := buf[..len0];
    ghost var before := trail;
    while step < steps && drawn < |choices|
      invariant step == |trail| <= steps && drawn <= |choices| && Buffers(env, buf, tmp, len)
      invariant Ran(env, a, choices[..drawn], trail, buf[..len])
      invariant drawn > 0 && step == steps ==>
        step > 0 && Drives(env, a, choices[..drawn - 1], before) && before == trail[..step - 1]
      decreases |choices| - drawn
    {
      before := trail;
      var o;
      len, o, trail := Draw(env, choices[drawn], buf, tmp, len, a, choices[..drawn], before);
      assert choices[..drawn + 1] == choices[..drawn] + [choices[drawn]];
      if o.Made? { step := step + 1; }
      drawn := drawn + 1;
    }
  }

  /**
    afl_mutate.  `choices` are the mutations drawn, retries included.  The bytes
    at the end are what the drawn mutations make of the given bytes, one edit
    per finished step, and their number stays in range.
   */
  method Mutate(env: Env, buf: array<byte>, tmp: array<byte>, len0: nat, steps: nat, choices: seq<Kind>)
      returns (len: nat, finished: bool, drawn: nat, ghost trail: seq<Mutation>)
    requires buf != tmp && env.maxLen <= buf.Length && env.maxLen <= tmp.Length
    requires len0 <= env.maxLen && env.maxLen + BLK_XL < 0x1_0000_0000 && |env.splice| < 0x1_0000_0000
    modifies buf, tmp
    ensures len0 == 0 ==> len == 0 && finished && buf[..] == old(buf[..])
    ensures len0 > 0 ==> 1 <= len <= env.maxLen && (finished <==> |trail| == steps)
    ensures len0 > 0 ==> Complete(env, old(buf[..len0]), steps, choices, drawn, trail, buf[..len])
  {
    len, finished, drawn, trail := len0, true, 0, [];
    if len0 == 0 { return; }
    var step;
    len, step, drawn, trail := MutateSteps(env, buf, tmp, len0, steps, choices);
    finished := step == steps;
  }
}

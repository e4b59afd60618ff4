/**
  XXH3: the one-shot hash and the buffered streaming state of xxhash.h.

  The round functions enter both sides only through function pointers in the
  source (f_acc, f_scramble), so the model takes them as a `Kernel` value and
  every theorem below holds for every kernel.  The concrete scalar and vector
  kernels live in module Xxh3Kernels.
 */
module Xxh3 {
  import opened Arith
  import opened Bytes

  const STRIPE_LEN := 64
  const LASTACC_START := 7
  const SECRET_SIZE_MIN := 136
  const SECRET_DEFAULT_SIZE := 192
  const BUFFER_SIZE := 256
  const BUFFER_STRIPES := 4
  const MIDSIZE_MAX := 240

  /**
    What the streaming and the one-shot code have in common.
    `A` are the eight accumulator lanes and `H` is the hash: 64 or 128 bits.
   */
  datatype Kernel<!A, !H> = Kernel(
    initAcc: A,
    accumulate512: (A, seq<byte>, seq<byte>) -> A,
    scramble: (A, seq<byte>) -> A,
    mergeAccs: (A, seq<byte>, nat) -> H,
    hashShort: (seq<byte>, seq<byte>, u64) -> H,
    defaultSecret: seq<byte>,
    deriveSecret: u64 -> seq<byte>)
  {
    ghost predicate Valid() {
      && |defaultSecret| == 192
      && forall seed :: |deriveSecret(seed)| == 192
    }
  }

  /** The four ways a hash can be asked for, one per public entry point. */
  datatype Mode =
    | Default
    | WithSecret(secret: seq<byte>)
    | WithSeed(seed: u64)
    | WithSecretAndSeed(secret: seq<byte>, seed: u64)
  {
    predicate Valid() {
      (WithSecret? || WithSecretAndSeed?) ==> |secret| >= 136
    }
  }

  // ----- Reference: one stripe at a time, with the sizes written out --------

  function StripesPerBlock(secretSize: nat): (n: nat)
    requires secretSize >= SECRET_SIZE_MIN
    ensures n >= 9
    ensures 8 * n + STRIPE_LEN <= secretSize < 8 * (n + 1) + STRIPE_LEN
  {
    (secretSize - STRIPE_LEN) / 8
  }

  /** A block has as many stripes as have a key of their own within the secret, and no more. */
  lemma StripesFit(secretSize: nat, n: nat)
    requires secretSize >= SECRET_SIZE_MIN
    ensures 8 * n + STRIPE_LEN <= secretSize <==> n <= StripesPerBlock(secretSize)
  {
  }

  /** The first `n` stripes of `data`. */
  function Cut(data: seq<byte>, n: nat): (stripes: seq<seq<byte>>)
    requires 64 * n <= |data|
    ensures |stripes| == n
  {
    seq(n, i requires 0 <= i < n => data[64 * i..64 * i + 64])
  }

  /** The part of the secret mixed with the stripe at position `pos` of its block. */
  function StripeKey(secret: seq<byte>, pos: nat): (key: seq<byte>)
    requires |secret| >= SECRET_SIZE_MIN && pos < StripesPerBlock(|secret|)
    ensures |key| == STRIPE_LEN
  {
    secret[8 * pos..8 * pos + STRIPE_LEN]
  }

  /** Where stripe `n` falls in its block; PositionIsModulo gives the closed form. */
  function Position(n: nat, spb: nat): (pos: nat)
    requires spb > 0
    ensures pos < spb
  {
    if n == 0 then 0 else
    var prev := Position(n - 1, spb);
    if prev + 1 == spb then 0 else prev + 1
  }

  /**
    The accumulators after the given stripes: each stripe is keyed by its
    position in its block, and every block ends with a scramble.
   */
  ghost function AccAfter<A, H>(k: Kernel<A, H>, secret: seq<byte>, stripes: seq<seq<byte>>): A
    requires |secret| >= SECRET_SIZE_MIN
    decreases |stripes|
  {
    if stripes == [] then k.initAcc else
    var n := |stripes| - 1;
    var spb := StripesPerBlock(|secret|);
    var acc := k.accumulate512(AccAfter(k, secret, stripes[..n]), stripes[n], StripeKey(secret, Position(n, spb)));
    if Position(n + 1, spb) == 0 then k.scramble(acc, secret[|secret| - STRIPE_LEN..]) else acc
  }

  ghost function LongAcc<A, H>(k: Kernel<A, H>, secret: seq<byte>, input: seq<byte>): A
    requires |secret| >= SECRET_SIZE_MIN && |input| > STRIPE_LEN
  {
    k.accumulate512(
      AccAfter(k, secret, Cut(input, (|input| - 1) / 64)),
      input[|input| - STRIPE_LEN..],
      secret[|secret| - 71..|secret| - 7])
  }

  ghost function LongHash<A, H>(k: Kernel<A, H>, secret: seq<byte>, input: seq<byte>): H
    requires |secret| >= SECRET_SIZE_MIN && |input| > STRIPE_LEN
  {
    k.mergeAccs(LongAcc(k, secret, input), secret, |input|)
  }

  /** The secret that long inputs are hashed with. */
  function LongSecret<A, H>(k: Kernel<A, H>, mode: Mode): seq<byte> {
    match mode
    case Default => k.defaultSecret
    case WithSecret(secret) => secret
    case WithSeed(seed) => if seed == 0 then k.defaultSecret else k.deriveSecret(seed)
    case WithSecretAndSeed(secret, _) => secret
  }

  function ShortSecret<A, H>(k: Kernel<A, H>, mode: Mode): seq<byte> {
    if mode.WithSecret? then mode.secret else k.defaultSecret
  }

  function ShortSeed(mode: Mode): u64 {
    if mode.WithSeed? || mode.WithSecretAndSeed? then mode.seed else 0
  }

  /** The hash every entry point promises for `input`. */
  ghost function Hash<A, H>(k: Kernel<A, H>, mode: Mode, input: seq<byte>): H
    requires k.Valid() && mode.Valid()
  {
    if |input| <= 240 then
      k.hashShort(input, ShortSecret(k, mode), ShortSeed(mode))
    else
      LongHash(k, LongSecret(k, mode), input)
  }

  /** The hash that 128-bit streaming returns. */
  ghost function Streamed128<A, H>(k: Kernel<A, H>, mode: Mode, input: seq<byte>): H
    requires k.Valid() && mode.Valid()
  {
    if |input| > 240 then LongHash(k, LongSecret(k, mode), input)
    else if ShortSeed(mode) != 0 then k.hashShort(input, k.defaultSecret, ShortSeed(mode))
    else k.hashShort(input, LongSecret(k, mode), 0)
  }

  // ----- Lemmas about the reference ---------------------------------------

  lemma {:induction false} PositionAt(q: nat, r: nat, spb: nat)
    requires r < spb
    ensures Position(spb * q + r, spb) == r
    decreases q, r
  {
    if r > 0 {
      PositionAt(q, r - 1, spb);
    } else if q > 0 {
      PositionAt(q - 1, spb - 1, spb);
      assert spb * (q - 1) + (spb - 1) == spb * q - 1;
    }
  }

  lemma PositionIsModulo(n: nat, spb: nat)
    requires spb > 0
    ensures Position(n, spb) == n % spb
  {
    PositionAt(n / spb, n % spb, spb);
  }

  lemma CutPlus(data: seq<byte>, n: nat, m: nat)
    requires 64 * (n + m) <= |data|
    ensures Cut(data, n + m) == Cut(data, n) + Cut(data[64 * n..], m)
  {
    forall i | 0 <= i < m
      ensures Cut(data, n + m)[n + i] == Cut(data[64 * n..], m)[i]
    {
      assert data[64 * n..][64 * i..64 * i + 64] == data[64 * (n + i)..64 * (n + i) + 64];
    }
  }

  lemma CutPrefix(a: seq<byte>, b: seq<byte>, n: nat)
    requires 64 * n <= |a|
    ensures Cut(a + b, n) == Cut(a, n)
  {
    forall i | 0 <= i < n
      ensures Cut(a + b, n)[i] == Cut(a, n)[i]
    {
      assert (a + b)[64 * i..64 * i + 64] == a[64 * i..64 * i + 64];
    }
  }

  // ----- Consuming stripes -------------------------------------------------

  /** `acc` and `soFar` stand for exactly the given stripes. */
  ghost predicate Folded<A, H>(k: Kernel<A, H>, secret: seq<byte>, stripes: seq<seq<byte>>, acc: A, soFar: nat) {
    && |secret| >= SECRET_SIZE_MIN
    && acc == AccAfter(k, secret, stripes)
    && soFar == Position(|stripes|, StripesPerBlock(|secret|))
  }

  /** The same while the scramble at a block's end is still to come. */
  ghost predicate BlockFolded<A, H>(k: Kernel<A, H>, secret: seq<byte>, stripes: seq<seq<byte>>, acc: A, pos: nat) {
    && |secret| >= SECRET_SIZE_MIN
    && if pos < StripesPerBlock(|secret|) then Folded(k, secret, stripes, acc, pos)
       else Folded(k, secret, stripes, k.scramble(acc, secret[|secret| - STRIPE_LEN..]), 0)
  }

  lemma FoldStripe<A, H>(k: Kernel<A, H>, secret: seq<byte>, done: seq<seq<byte>>, stripe: seq<byte>, acc: A, pos: nat)
    requires Folded(k, secret, done, acc, pos)
    ensures BlockFolded(k, secret, done + [stripe], k.accumulate512(acc, stripe, StripeKey(secret, pos)), pos + 1)
  {
    assert (done + [stripe])[..|done|] == done;
  }

  /**
    XXH3_accumulate on stripes that stay in one block; the scramble of a
    completed block is left to the caller.
   */
  method Accumulate<A, H>(k: Kernel<A, H>, acc0: A, stripes: seq<seq<byte>>, secret: seq<byte>, pos: nat,
                          ghost done: seq<seq<byte>>)
    returns (acc: A)
    requires Folded(k, secret, done, acc0, pos)
    requires pos + |stripes| <= StripesPerBlock(|secret|)
    ensures BlockFolded(k, secret, done + stripes, acc, pos + |stripes|)
  {
    acc := acc0;
    ghost var so := done;
    for n := 0 to |stripes|
      invariant so == done + stripes[..n] && BlockFolded(k, secret, so, acc, pos + n)
    {
      FoldStripe(k, secret, so, stripes[n], acc, pos + n);
      acc := k.accumulate512(acc, stripes[n], StripeKey(secret, pos + n));
      so := so + [stripes[n]];
    }
    assert so == done + stripes;
  }

  /** XXH3_consumeStripes: stripes over any block boundaries. */
  method ConsumeStripes<A, H>(k: Kernel<A, H>, acc0: A, soFar0: nat, stripesPerBlock: nat, stripes: seq<seq<byte>>,
                              secret: seq<byte>, secretLimit: nat, ghost done: seq<seq<byte>>)
    returns (acc: A, soFar: nat)
    requires Folded(k, secret, done, acc0, soFar0)
    requires stripesPerBlock == StripesPerBlock(|secret|) && secretLimit == |secret| - STRIPE_LEN
    ensures Folded(k, secret, done + stripes, acc, soFar)
  {
    acc, soFar := acc0, soFar0;
    var rest := stripes;
    ghost var d := done;
    if |rest| >= stripesPerBlock - soFar {
      var thisIter := stripesPerBlock - soFar;
      while true
        invariant 0 < thisIter <= |rest| && thisIter <= stripesPerBlock
        invariant d + rest == done + stripes
        invariant Folded(k, secret, d, acc, stripesPerBlock - thisIter)
        decreases |rest|
      {
        acc := Accumulate(k, acc, rest[..thisIter], secret, stripesPerBlock - thisIter, d);
        acc := k.scramble(acc, secret[secretLimit..]);
        assert d + rest == (d + rest[..thisIter]) + rest[thisIter..];
        d, rest := d + rest[..thisIter], rest[thisIter..];
        thisIter := stripesPerBlock;
        if |rest| < stripesPerBlock { break; }
      }
      soFar := 0;
    }
    if |rest| > 0 {
      acc := Accumulate(k, acc, rest, secret, soFar, d);
      soFar := soFar + |rest|;
    } else {
      assert d + rest == d;
    }
  }

  // ----- One-shot ----------------------------------------------------------

  lemma NextBlock(spb: nat, n: nat, blocks: nat)
    requires n < blocks
    ensures spb * (n + 1) == spb * n + spb <= spb * blocks
  {
    assert spb * blocks == spb * (n + 1) + spb * (blocks - n - 1);
  }

  /** The whole blocks of XXH3_hashLong_internal_loop. */
  method AccumulateBlocks<A, H>(k: Kernel<A, H>, input: seq<byte>, secret: seq<byte>, stripesPerBlock: nat, blocks: nat)
    returns (acc: A)
    requires |secret| >= SECRET_SIZE_MIN && stripesPerBlock == StripesPerBlock(|secret|)
    requires 64 * (stripesPerBlock * blocks) <= |input|
    ensures Folded(k, secret, Cut(input, stripesPerBlock * blocks), acc, 0)
  {
    acc := k.initAcc;
    var at := 0;
    for n := 0 to blocks
      invariant at == stripesPerBlock * n <= stripesPerBlock * blocks
      invariant Folded(k, secret, Cut(input, at), acc, 0)
    {
      NextBlock(stripesPerBlock, n, blocks);
      CutPlus(input, at, stripesPerBlock);
      acc := Accumulate(k, acc, Cut(input[64 * at..], stripesPerBlock), secret, 0, Cut(input, at));
      acc := k.scramble(acc, secret[|secret| - STRIPE_LEN..]);
      at := at + stripesPerBlock;
    }
  }

  lemma ScaleProduct(a: nat, b: nat)
    ensures (64 * a) * b == 64 * (a * b)
  {
  }

  lemma StripesLeft(m: nat, used: nat, at: nat, spb: nat)
    requires used == 64 * at && 0 <= m - used < 64 * spb
    ensures (m - used) / 64 < spb && at + (m - used) / 64 == m / 64
  {
  }

  /** How the loop above cuts `m` bytes into blocks and left-over stripes. */
  method SplitBlocks(m: nat, stripesPerBlock: nat) returns (blocks: nat, at: nat, stripes: nat)
    requires stripesPerBlock > 0
    ensures at == stripesPerBlock * blocks && 64 * at <= m
    ensures stripes < stripesPerBlock && at + stripes == m / 64
  {
    var blockLen := 64 * stripesPerBlock;
    QuotientFits(m, blockLen);
    blocks := m / blockLen;
    at := stripesPerBlock * blocks;
    var used := blockLen * blocks;
    assert used == 64 * at by { ScaleProduct(stripesPerBlock, blocks); }
    stripes := (m - used) / 64;
    StripesLeft(m, used, at, stripesPerBlock);
  }

  /** The whole blocks, then the last partial block. */
  method AccumulateInput<A, H>(k: Kernel<A, H>, input: seq<byte>, secret: seq<byte>) returns (acc: A)
    requires |secret| >= SECRET_SIZE_MIN && |input| > 0
    ensures acc == AccAfter(k, secret, Cut(input, (|input| - 1) / 64))
  {
    var stripesPerBlock := StripesPerBlock(|secret|);
    var blocks, at, stripes := SplitBlocks(|input| - 1, stripesPerBlock);
    acc := AccumulateBlocks(k, input, secret, stripesPerBlock, blocks);
    CutPlus(input, at, stripes);
    acc := Accumulate(k, acc, Cut(input[64 * at..], stripes), secret, 0, Cut(input, at));
  }

  /** XXH3_hashLong_internal_loop: all whole stripes, then the last stripe. */
  method HashLongLoop<A, H>(k: Kernel<A, H>, input: seq<byte>, secret: seq<byte>) returns (acc: A)
    requires |secret| >= SECRET_SIZE_MIN && |input| > MIDSIZE_MAX
    ensures acc == LongAcc(k, secret, input)
  {
    acc := AccumulateInput(k, input, secret);
    acc := k.accumulate512(acc, input[|input| - STRIPE_LEN..],
                           secret[|secret| - STRIPE_LEN - LASTACC_START..|secret| - LASTACC_START]);
  }

  /** XXH3_64bits and its _withSecret, _withSeed and _withSecretandSeed forms. */
  method OneShot<A, H>(k: Kernel<A, H>, mode: Mode, input: seq<byte>) returns (h: H)
    requires k.Valid() && mode.Valid()
    ensures h == Hash(k, mode, input)
  {
    if |input| <= MIDSIZE_MAX {
      match mode
      case Default => h := k.hashShort(input, k.defaultSecret, 0);
      case WithSecret(secret) => h := k.hashShort(input, secret, 0);
      case WithSeed(seed) => h := k.hashShort(input, k.defaultSecret, seed);
      case WithSecretAndSeed(_, seed) => h := k.hashShort(input, k.defaultSecret, seed);
    } else {
      var secret := LongSecret(k, mode);
      var acc := HashLongLoop(k, input, secret);
      h := k.mergeAccs(acc, secret, |input|);
    }
  }

  // ----- Streaming ---------------------------------------------------------

  /**
    The internal buffer between two calls: its first `size` bytes are what
    follows the consumed stripes, and while they leave room for it, its last 64
    bytes are the stripe consumed last.
   */
  ghost predicate Buffers(buf: seq<byte>, size: nat, total: seq<byte>, stripes: seq<seq<byte>>) {
    && |buf| == BUFFER_SIZE && size <= BUFFER_SIZE
    && |total| == 64 * |stripes| + size
    && (total != [] ==> size > 0)
    && (stripes != [] ==> |total| > BUFFER_SIZE)
    && stripes == Cut(total, |stripes|)
    && buf[..size] == total[64 * |stripes|..]
    && (|stripes| > 0 && size <= BUFFER_SIZE - STRIPE_LEN ==> buf[BUFFER_SIZE - STRIPE_LEN..] == stripes[|stripes| - 1])
  }

  lemma BufferFill(buf: seq<byte>, size: nat, fed: seq<byte>, stripes: seq<seq<byte>>, input: seq<byte>)
    requires Buffers(buf, size, fed, stripes) && size + |input| <= BUFFER_SIZE
    ensures Buffers(Splice(buf, size, input), size + |input|, fed + input, stripes)
  {
    var n, buf' := |stripes|, Splice(buf, size, input);
    CutPrefix(fed, input, n);
    assert buf'[..size + |input|] == buf[..size] + input;
    assert (fed + input)[64 * n..] == fed[64 * n..] + input;
    if size + |input| <= BUFFER_SIZE - STRIPE_LEN {
      assert buf'[BUFFER_SIZE - STRIPE_LEN..] == buf[BUFFER_SIZE - STRIPE_LEN..];
    }
  }

  /** A buffer topped up to 256 bytes holds the next four stripes of the input. */
  lemma BufferFull(buf: seq<byte>, size: nat, fed: seq<byte>, stripes: seq<seq<byte>>, input: seq<byte>)
    requires Buffers(buf, size, fed, stripes) && size + |input| > BUFFER_SIZE
    ensures var full := Splice(buf, size, input[..BUFFER_SIZE - size]);
            && stripes + Cut(full, 4) == Cut(fed + input, |stripes| + 4)
            && full[BUFFER_SIZE - STRIPE_LEN..] == Cut(full, 4)[3]
  {
    var n, load := |stripes|, input[..BUFFER_SIZE - size];
    var full, total := Splice(buf, size, load), fed + input;
    CutPrefix(fed, input, n);
    CutPlus(total, n, 4);
    assert full == buf[..size] + load;
    assert total[64 * n..] == full + input[BUFFER_SIZE - size..];
    CutPrefix(full, input[BUFFER_SIZE - size..], 4);
  }

  /**
    Inside an update, with nothing buffered: `p` bytes of `input` have been
    used, everything up to there is in whole stripes, and the last of them is
    still at the end of the buffer.
   */
  ghost predicate Drained(buf: seq<byte>, fed: seq<byte>, input: seq<byte>, p: nat, stripes: seq<seq<byte>>) {
    && |buf| == BUFFER_SIZE && |fed| + p == 64 * |stripes| && p < |input| && |fed + input| > BUFFER_SIZE
    && stripes == Cut(fed + input, |stripes|)
    && (|stripes| > 0 ==> buf[BUFFER_SIZE - STRIPE_LEN..] == stripes[|stripes| - 1])
  }

  lemma DropFed(fed: seq<byte>, input: seq<byte>, p: nat)
    requires p <= |input|
    ensures (fed + input)[|fed| + p..] == input[p..]
  {
  }

  lemma LastCut(input: seq<byte>, p: nat, count: nat)
    requires 0 < count && p + 64 * count <= |input|
    ensures Cut(input[p..], count)[count - 1] == input[p + 64 * count - 64..p + 64 * count]
  {
  }

  lemma MoreStripes(fed: seq<byte>, input: seq<byte>, p: nat, stripes: seq<seq<byte>>, count: nat)
    requires p + 64 * count < |input| && |fed| + p == 64 * |stripes| && stripes == Cut(fed + input, |stripes|)
    ensures stripes + Cut(input[p..], count) == Cut(fed + input, |stripes| + count)
  {
    CutPlus(fed + input, |stripes|, count);
    DropFed(fed, input, p);
  }

  /** Whole stripes read straight from the input, the last of them kept in the buffer. */
  lemma InputDrained(buf: seq<byte>, fed: seq<byte>, input: seq<byte>, p: nat, stripes: seq<seq<byte>>, count: nat)
    requires Drained(buf, fed, input, p, stripes) && 0 < count && p + 64 * count < |input|
    ensures
      var q := p + 64 * count;
      Drained(Splice(buf, BUFFER_SIZE - STRIPE_LEN, input[q - STRIPE_LEN..q]), fed, input, q,
              stripes + Cut(input[p..], count))
  {
    var q := p + 64 * count;
    MoreStripes(fed, input, p, stripes, count);
    LastCut(input, p, count);
    SpliceEnd(buf, BUFFER_SIZE - STRIPE_LEN, input[q - STRIPE_LEN..q]);
  }

  lemma KeptForLater(len: nat, count: nat)
    requires len > BUFFER_SIZE && count == (len - 1) / 64
    ensures 0 < count && 64 * count < len <= 64 * count + 64
  {
  }

  lemma TailStored(buf: seq<byte>, fed: seq<byte>, input: seq<byte>, p: nat, stripes: seq<seq<byte>>)
    requires Drained(buf, fed, input, p, stripes) && |input| - p <= BUFFER_SIZE
    ensures Buffers(Splice(buf, 0, input[p..]), |input| - p, fed + input, stripes)
  {
    var buf' := Splice(buf, 0, input[p..]);
    assert buf'[..|input| - p] == input[p..] == (fed + input)[64 * |stripes|..];
    if |input| - p <= BUFFER_SIZE - STRIPE_LEN {
      assert buf'[BUFFER_SIZE - STRIPE_LEN..] == buf[BUFFER_SIZE - STRIPE_LEN..];
    }
  }

  /** The members a reset chooses and no update changes. */
  datatype Config = Config(seed: u64, useSeed: bool, extSecret: Option<seq<byte>>, secretLimit: nat,
                           nbStripesPerBlock: nat)

  /** The members an update works on. */
  datatype Running<A> = Running(acc: A, bufferedSize: nat, nbStripesSoFar: nat, totalLen: nat)

  /** Top up the internal buffer and consume it. */
  method FlushBuffer<A, H>(k: Kernel<A, H>, cfg: Config, secret: seq<byte>, buffer: array<byte>, run: Running<A>,
                           input: seq<byte>, ghost fed: seq<byte>, ghost stripes: seq<seq<byte>>)
    returns (acc: A, soFar: nat, p: nat, ghost done: seq<seq<byte>>)
    requires Folded(k, secret, stripes, run.acc, run.nbStripesSoFar)
    requires cfg.nbStripesPerBlock == StripesPerBlock(|secret|) && cfg.secretLimit == |secret| - STRIPE_LEN
    requires buffer.Length == BUFFER_SIZE && Buffers(buffer[..], run.bufferedSize, fed, stripes)
    requires run.bufferedSize + |input| > BUFFER_SIZE
    modifies buffer
    ensures Folded(k, secret, done, acc, soFar)
    ensures Drained(buffer[..], fed, input, p, done)
  {
    acc, soFar, p, done := run.acc, run.nbStripesSoFar, 0, stripes;
    CutPrefix(fed, input, |stripes|);
    if run.bufferedSize != 0 {
      p := BUFFER_SIZE - run.bufferedSize;
      BufferFull(buffer[..], run.bufferedSize, fed, stripes, input);
      CopyInto(buffer, run.bufferedSize, input[..p]);
      var four := Cut(buffer[..], BUFFER_STRIPES);
      acc, soFar := ConsumeStripes(k, acc, soFar, cfg.nbStripesPerBlock, four, secret, cfg.secretLimit, stripes);
      done := stripes + four;
    }
  }

  /** Moves on to the tail, and keeps the last stripe before it. */
  method KeepStripe(buffer: array<byte>, ghost fed: seq<byte>, input: seq<byte>, p0: nat,
                    ghost stripes: seq<seq<byte>>, count: nat)
    returns (p: nat)
    requires buffer.Length == BUFFER_SIZE && Drained(buffer[..], fed, input, p0, stripes)
    requires 0 < count && p0 + 64 * count < |input|
    modifies buffer
    ensures p == p0 + 64 * count
    ensures Drained(buffer[..], fed, input, p, stripes + Cut(input[p0..], count))
  {
    InputDrained(buffer[..], fed, input, p0, stripes, count);
    p := p0 + 64 * count;
    CopyInto(buffer, BUFFER_SIZE - STRIPE_LEN, input[p - STRIPE_LEN..p]);
  }

  /** Consume a long run straight from the input, keeping its last stripe at the end of the buffer. */
  method ConsumeInput<A, H>(k: Kernel<A, H>, cfg: Config, secret: seq<byte>, buffer: array<byte>, acc0: A, soFar0: nat,
                            input: seq<byte>, p0: nat, ghost fed: seq<byte>, ghost stripes: seq<seq<byte>>)
    returns (acc: A, soFar: nat, p: nat, ghost done: seq<seq<byte>>)
    requires Folded(k, secret, stripes, acc0, soFar0)
    requires cfg.nbStripesPerBlock == StripesPerBlock(|secret|) && cfg.secretLimit == |secret| - STRIPE_LEN
    requires buffer.Length == BUFFER_SIZE && Drained(buffer[..], fed, input, p0, stripes)
    modifies buffer
    ensures Folded(k, secret, done, acc, soFar)
    ensures Drained(buffer[..], fed, input, p, done) && |input| - p <= BUFFER_SIZE
  {
    acc, soFar, p, done := acc0, soFar0, p0, stripes;
    if |input| - p > BUFFER_SIZE {
      var nbStripes := (|input| - 1 - p) / 64;
      KeptForLater(|input| - p, nbStripes);
      var more := Cut(input[p..], nbStripes);
      acc, soFar := ConsumeStripes(k, acc, soFar, cfg.nbStripesPerBlock, more, secret, cfg.secretLimit, stripes);
      p := KeepStripe(buffer, fed, input, p, stripes, nbStripes);
      done := stripes + more;
    }
  }

  /** The last stripe of a long input, and the stripes still to consume, are both in the buffer. */
  lemma LastStripe(buf: seq<byte>, size: nat, fed: seq<byte>, stripes: seq<seq<byte>>)
    requires Buffers(buf, size, fed, stripes) && |fed| > MIDSIZE_MAX
    ensures size >= STRIPE_LEN ==>
              && stripes + Cut(buf, (size - 1) / 64) == Cut(fed, (|fed| - 1) / 64)
              && buf[size - STRIPE_LEN..size] == fed[|fed| - STRIPE_LEN..]
    ensures size < STRIPE_LEN ==>
              && stripes == Cut(fed, (|fed| - 1) / 64)
              && buf[BUFFER_SIZE - (STRIPE_LEN - size)..] + buf[..size] == fed[|fed| - STRIPE_LEN..]
  {
    var n := |stripes|;
    if size >= STRIPE_LEN {
      var m := (size - 1) / 64;
      CutPlus(fed, n, m);
      CutPrefix(buf[..size], buf[size..], m);
      assert buf == buf[..size] + buf[size..];
      assert buf[size - STRIPE_LEN..size] == buf[..size][size - STRIPE_LEN..];
    } else {
      var catchup := STRIPE_LEN - size;
      assert stripes[n - 1] == fed[64 * n - 64..64 * n];
      assert buf[BUFFER_SIZE - catchup..] == buf[BUFFER_SIZE - STRIPE_LEN..][size..] == fed[64 * n - catchup..64 * n];
    }
  }

  /** secretSize - XXH_STRIPE_LEN in size_t arithmetic. */
  function SecretLimit(secretSize: nat): nat {
    if secretSize >= STRIPE_LEN then secretSize - STRIPE_LEN else secretSize + TWO64 - STRIPE_LEN
  }

  /** A length as a 64-bit number holds it. */
  function Wrapped(len: nat): (w: nat)
    ensures w <= len && (len < TWO64 ==> w == len)
  {
    len % 0x1_0000_0000_0000_0000
  }

  /** totalLen += len on 64 bits. */
  function AddLength(totalLen: nat, len: nat): nat {
    if totalLen + len < TWO64 then totalLen + len else (totalLen + len) % 0x1_0000_0000_0000_0000
  }

  lemma LengthAdded(fed: nat, len: nat)
    ensures AddLength(Wrapped(fed), len) == Wrapped(fed + len)
  {
    ModAdd(fed, len, 0x1_0000_0000_0000_0000);
  }

  /** What the last reset asked for, the bytes fed since, and the stripes of them already in `acc`. */
  datatype Log = Log(mode: Mode, fed: seq<byte>, stripes: seq<seq<byte>>)

  function ActiveSecret(cfg: Config, customSecret: seq<byte>): seq<byte> {
    if cfg.extSecret.None? then customSecret else cfg.extSecret.value
  }

  /** The configuration is the one the mode stands for. */
  ghost predicate Configured<A, H>(k: Kernel<A, H>, mode: Mode, cfg: Config, customSecret: seq<byte>) {
    && k.Valid() && mode.Valid()
    && ActiveSecret(cfg, customSecret) == LongSecret(k, mode)
    && cfg.useSeed == (mode.WithSecretAndSeed? || (mode.WithSeed? && mode.seed != 0))
    && cfg.seed == ShortSeed(mode)
    && cfg.secretLimit == |LongSecret(k, mode)| - STRIPE_LEN
    && cfg.nbStripesPerBlock == StripesPerBlock(|LongSecret(k, mode)|)
  }

  /** Seed, secret and size are those that the mode hashes with. */
  ghost predicate Fits<A, H>(k: Kernel<A, H>, mode: Mode, seed: u64, secret: Option<seq<byte>>, secretSize: nat,
                             customSecret: seq<byte>) {
    && k.Valid() && mode.Valid()
    && seed == ShortSeed(mode) && secretSize == |LongSecret(k, mode)|
    && (if secret.None? then customSecret else secret.value) == LongSecret(k, mode)
  }

  /** Flush the buffer, consume the input, and buffer what remains. */
  method ConsumeAll<A, H>(k: Kernel<A, H>, cfg: Config, secret: seq<byte>, buffer: array<byte>, run: Running<A>,
                          input: seq<byte>, ghost fed: seq<byte>, ghost stripes: seq<seq<byte>>)
    returns (run': Running<A>, ghost done: seq<seq<byte>>)
    requires Folded(k, secret, stripes, run.acc, run.nbStripesSoFar)
    requires cfg.nbStripesPerBlock == StripesPerBlock(|secret|) && cfg.secretLimit == |secret| - STRIPE_LEN
    requires buffer.Length == BUFFER_SIZE && Buffers(buffer[..], run.bufferedSize, fed, stripes)
    requires run.bufferedSize + |input| > BUFFER_SIZE
    modifies buffer
    ensures Folded(k, secret, done, run'.acc, run'.nbStripesSoFar) && run'.totalLen == run.totalLen
    ensures Buffers(buffer[..], run'.bufferedSize, fed + input, done)
  {
    var acc, soFar, p;
    acc, soFar, p, done := FlushBuffer(k, cfg, secret, buffer, run, input, fed, stripes);
    acc, soFar, p, done := ConsumeInput(k, cfg, secret, buffer, acc, soFar, input, p, fed, done);
    TailStored(buffer[..], fed, input, p, done);
    CopyInto(buffer, 0, input[p..]);
    run' := run.(acc := acc, nbStripesSoFar := soFar, bufferedSize := |input| - p);
  }

  /** What XXH3_digest_long takes out of the buffer: the stripes still to consume, and the last stripe. */
  method Remaining<A, H>(k: Kernel<A, H>, cfg: Config, secret: seq<byte>, buf: seq<byte>, run: Running<A>,
                         ghost fed: seq<byte>, ghost stripes: seq<seq<byte>>)
    returns (acc: A, lastStripe: seq<byte>)
    requires Folded(k, secret, stripes, run.acc, run.nbStripesSoFar)
    requires cfg.nbStripesPerBlock == StripesPerBlock(|secret|) && cfg.secretLimit == |secret| - STRIPE_LEN
    requires Buffers(buf, run.bufferedSize, fed, stripes) && |fed| > MIDSIZE_MAX
    ensures acc == AccAfter(k, secret, Cut(fed, (|fed| - 1) / 64))
    ensures lastStripe == fed[|fed| - STRIPE_LEN..]
  {
    var size := run.bufferedSize;
    acc := run.acc;
    LastStripe(buf, size, fed, stripes);
    if size >= STRIPE_LEN {
      var soFar;
      acc, soFar := ConsumeStripes(k, acc, run.nbStripesSoFar, cfg.nbStripesPerBlock, Cut(buf, (size - 1) / 64),
                                   secret, cfg.secretLimit, stripes);
      lastStripe := buf[size - STRIPE_LEN..size];
    } else {
      lastStripe := buf[BUFFER_SIZE - (STRIPE_LEN - size)..] + buf[..size];
    }
  }

  /** XXH3_digest_long: works on a copy of the accumulators, so the state is not altered. */
  method DigestLong<A, H>(k: Kernel<A, H>, cfg: Config, secret: seq<byte>, buf: seq<byte>, run: Running<A>,
                          ghost fed: seq<byte>, ghost stripes: seq<seq<byte>>)
    returns (acc: A)
    requires Folded(k, secret, stripes, run.acc, run.nbStripesSoFar)
    requires cfg.nbStripesPerBlock == StripesPerBlock(|secret|) && cfg.secretLimit == |secret| - STRIPE_LEN
    requires Buffers(buf, run.bufferedSize, fed, stripes) && |fed| > MIDSIZE_MAX
    ensures acc == LongAcc(k, secret, fed)
  {
    var lastStripe;
    acc, lastStripe := Remaining(k, cfg, secret, buf, run, fed, stripes);
    var at := cfg.secretLimit - LASTACC_START;
    acc := k.accumulate512(acc, lastStripe, secret[at..at + STRIPE_LEN]);
  }

  class State<A, H> {
    const k: Kernel<A, H>
    const buffer: array<byte>
    var customSecret: seq<byte>
    var cfg: Config
    var run: Running<A>
    ghost var log: Log

    /** A derived secret that would be reused is never stale. */
    ghost predicate CacheValid()
      reads this
    {
      && k.Valid()
      && buffer.Length == BUFFER_SIZE
      && (cfg.extSecret.None? && cfg.seed != 0 ==> customSecret == k.deriveSecret(cfg.seed))
    }

    ghost predicate Valid()
      reads this, buffer
    {
      && CacheValid()
      && Configured(k, log.mode, cfg, customSecret)
      && Buffers(buffer[..], run.bufferedSize, log.fed, log.stripes)
      && Folded(k, LongSecret(k, log.mode), log.stripes, run.acc, run.nbStripesSoFar)
      && run.totalLen == Wrapped(|log.fed|)
    }

    /** XXH3_createState: nothing to hash with before a reset, but the cache rule holds. */
    constructor (k: Kernel<A, H>)
      requires k.Valid()
      ensures CacheValid() && this.k == k && fresh(buffer)
    {
      this.k := k;
      buffer := new byte[BUFFER_SIZE];
      customSecret := k.defaultSecret;
      cfg := Config(0, false, None, 0, 0);
      run := Running(k.initAcc, 0, 0, 0);
      log := Log(Default, [], []);
    }

    /**
      XXH3_reset_internal, from whatever state: the state stands for no bytes in
      the mode whose seed and secret it is given, once `useSeed` is set where
      the mode asks for it; and the cached secret is no more stale than before.
     */
    method ResetInternal(seed: u64, secret: Option<seq<byte>>, secretSize: nat, ghost mode: Mode)
      requires k.Valid() && buffer.Length == BUFFER_SIZE
      requires secret.None? && seed != 0 ==> customSecret == k.deriveSecret(seed)
      modifies this`run, this`cfg, this`log
      ensures CacheValid() && log == Log(mode, [], [])
      ensures Fits(k, mode, seed, secret, secretSize, customSecret) ==>
        && Configured(k, mode, cfg.(useSeed := mode.WithSecretAndSeed? || cfg.useSeed), customSecret)
        && Buffers(buffer[..], run.bufferedSize, [], [])
        && Folded(k, LongSecret(k, mode), [], run.acc, run.nbStripesSoFar)
        && run.totalLen == 0
    {
      run := Running(k.initAcc, 0, 0, 0);
      cfg := Config(seed, seed != 0, secret, SecretLimit(secretSize), SecretLimit(secretSize) / 8);
      log := Log(mode, [], []);
    }

    method Reset()
      requires CacheValid()
      modifies this
      ensures Valid() && log == Log(Default, [], [])
    {
      ResetInternal(0, Some(k.defaultSecret), SECRET_DEFAULT_SIZE, Default);
    }

    /** On an error the state has been overwritten, yet the cache rule still holds. */
    method ResetWithSecret(secret: Option<seq<byte>>, secretSize: nat) returns (ok: bool)
      requires CacheValid()
      requires secret.Some? ==> secretSize == |secret.value|
      modifies this
      ensures CacheValid()
      ensures ok <==> secret.Some? && secretSize >= 136
      ensures ok ==> Valid() && log == Log(WithSecret(secret.value), [], [])
    {
      ResetInternal(0, secret, secretSize, if secret.Some? then WithSecret(secret.value) else Default);
      if secret.None? { return false; }
      if secretSize < SECRET_SIZE_MIN { return false; }
      ok := true;
    }

    /** The derived secret is rebuilt only when the cached one cannot be reused. */
    method ResetWithSeed(seed: u64)
      requires CacheValid()
      modifies this
      ensures Valid() && log == Log(if seed == 0 then Default else WithSeed(seed), [], [])
    {
      if seed == 0 {
        Reset();
        return;
      }
      if seed != cfg.seed || cfg.extSecret.Some? {
        customSecret := k.deriveSecret(seed);
      }
      ResetInternal(seed, None, SECRET_DEFAULT_SIZE, WithSeed(seed));
    }

    method ResetWithSecretAndSeed(secret: Option<seq<byte>>, secretSize: nat, seed: u64) returns (ok: bool)
      requires CacheValid()
      requires secret.Some? ==> secretSize == |secret.value|
      modifies this
      ensures CacheValid()
      ensures ok <==> secret.Some? && secretSize >= 136
      ensures ok ==> Valid() && log == Log(WithSecretAndSeed(secret.value, seed), [], [])
      ensures !ok ==> unchanged(this)
    {
      if secret.None? { return false; }
      if secretSize < SECRET_SIZE_MIN { return false; }
      ResetInternal(seed, secret, secretSize, WithSecretAndSeed(secret.value, seed));
      cfg := cfg.(useSeed := true);
      ok := true;
    }

    /** XXH3_update. */
    method Update(input: seq<byte>)
      requires Valid()
      modifies this`run, this`log, buffer
      ensures Valid() && log.mode == old(log.mode)
      ensures log.fed == old(log.fed) + input
    {
      LengthAdded(|log.fed|, |input|);
      run := run.(totalLen := AddLength(run.totalLen, |input|));
      if |input| <= BUFFER_SIZE - run.bufferedSize {
        UpdateShort(input);
      } else {
        UpdateLong(input);
      }
    }

    /** The part of XXH3_update that only fills the buffer. */
    method UpdateShort(input: seq<byte>)
      requires buffer.Length == BUFFER_SIZE && Buffers(buffer[..], run.bufferedSize, log.fed, log.stripes)
      requires |input| <= BUFFER_SIZE - run.bufferedSize
      modifies this`run, this`log, buffer
      ensures Buffers(buffer[..], run.bufferedSize, log.fed, log.stripes)
      ensures log == old(log).(fed := old(log.fed) + input)
      ensures run == old(run).(bufferedSize := old(run.bufferedSize) + |input|)
    {
      BufferFill(buffer[..], run.bufferedSize, log.fed, log.stripes, input);
      CopyInto(buffer, run.bufferedSize, input);
      run := run.(bufferedSize := run.bufferedSize + |input|);
      log := log.(fed := log.fed + input);
    }

    /** The part of XXH3_update that consumes stripes; accumulators are worked on in locals. */
    method UpdateLong(input: seq<byte>)
      requires Configured(k, log.mode, cfg, customSecret)
      requires Buffers(buffer[..], run.bufferedSize, log.fed, log.stripes)
      requires Folded(k, LongSecret(k, log.mode), log.stripes, run.acc, run.nbStripesSoFar)
      requires |input| > BUFFER_SIZE - run.bufferedSize
      modifies this`run, this`log, buffer
      ensures Buffers(buffer[..], run.bufferedSize, log.fed, log.stripes)
      ensures Folded(k, LongSecret(k, log.mode), log.stripes, run.acc, run.nbStripesSoFar)
      ensures log.mode == old(log.mode) && run.totalLen == old(run.totalLen)
      ensures log.fed == old(log.fed) + input
    {
      var secret := ActiveSecret(cfg, customSecret);
      var run'; ghost var done;
      run', done := ConsumeAll(k, cfg, secret, buffer, run, input, log.fed, log.stripes);
      run := run';
      log := log.(fed := log.fed + input, stripes := done);
    }

    /** XXH3_64bits_digest: the one-shot hash of everything fed since the reset. */
    method Digest64() returns (h: H)
      requires Valid()
      ensures |log.fed| < TWO64 ==> h == Hash(k, log.mode, log.fed)
      ensures Wrapped(|log.fed|) > 240 ==>
        var secret := LongSecret(k, log.mode);
        h == k.mergeAccs(LongAcc(k, secret, log.fed), secret, Wrapped(|log.fed|))
    {
      var secret := ActiveSecret(cfg, customSecret);
      if run.totalLen > MIDSIZE_MAX {
        var acc := DigestLong(k, cfg, secret, buffer[..], run, log.fed, log.stripes);
        return k.mergeAccs(acc, secret, run.totalLen);
      }
      if cfg.useSeed {
        return k.hashShort(buffer[..run.totalLen], k.defaultSecret, cfg.seed);
      }
      return k.hashShort(buffer[..run.totalLen], secret, 0);
    }

    /**
      XXH3_128bits_digest: as Digest64, except that short inputs test `seed`
      instead of `useSeed`.
     */
    method Digest128() returns (h: H)
      requires Valid()
      ensures |log.fed| < TWO64 ==> h == Streamed128(k, log.mode, log.fed)
      ensures Wrapped(|log.fed|) > 240 ==>
        var secret := LongSecret(k, log.mode);
        h == k.mergeAccs(LongAcc(k, secret, log.fed), secret, Wrapped(|log.fed|))
    {
      var secret := ActiveSecret(cfg, customSecret);
      if run.totalLen > MIDSIZE_MAX {
        var acc := DigestLong(k, cfg, secret, buffer[..], run, log.fed, log.stripes);
        return k.mergeAccs(acc, secret, run.totalLen);
      }
      if cfg.seed != 0 {
        return k.hashShort(buffer[..run.totalLen], k.defaultSecret, cfg.seed);
      }
      return k.hashShort(buffer[..run.totalLen], secret, 0);
    }
  }

  // ----- Whole runs of the streaming interface -----------------------------

  datatype Command =
    | DoReset
    | DoResetWithSecret(secret: Option<seq<byte>>, size: nat)
    | DoResetWithSeed(seed: u64)
    | DoResetWithSecretAndSeed(secret: Option<seq<byte>>, size: nat, seed: u64)
    | DoUpdate(bytes: seq<byte>)
    | DoDigest
    | DoDigest128

  /** What a caller may think a state is: a mode and the bytes fed since. */
  datatype Abstract = Unready | Ready(mode: Mode, fed: seq<byte>)

  predicate GoodSecret(secret: Option<seq<byte>>, size: nat) {
    secret.Some? && size >= 136
  }

  /** A pointer comes with the size of what it points to; updates and digests follow a successful reset. */
  predicate Allowed(a: Abstract, c: Command) {
    match c
    case DoResetWithSecret(secret, size) => secret.Some? ==> size == |secret.value|
    case DoResetWithSecretAndSeed(secret, size, _) => secret.Some? ==> size == |secret.value|
    case DoUpdate(_) => a.Ready?
    case DoDigest => a.Ready? && |a.fed| < TWO64
    case DoDigest128 => a.Ready? && |a.fed| < TWO64
    case _ => true
  }

  function Next(a: Abstract, c: Command): (b: Abstract)
    requires Allowed(a, c)
    requires a.Ready? ==> a.mode.Valid()
    ensures b.Ready? ==> b.mode.Valid()
  {
    match c
    case DoReset => Ready(Default, [])
    case DoResetWithSecret(secret, size) =>
      if GoodSecret(secret, size) then Ready(WithSecret(secret.value), []) else Unready
    case DoResetWithSeed(seed) => Ready(WithSeed(seed), [])
    case DoResetWithSecretAndSeed(secret, size, seed) =>
      if GoodSecret(secret, size) then Ready(WithSecretAndSeed(secret.value, seed), []) else a
    case DoUpdate(bytes) => Ready(a.mode, a.fed + bytes)
    case DoDigest => a
    case DoDigest128 => a
  }

  ghost predicate AllAllowed(a: Abstract, cmds: seq<Command>)
    requires a.Ready? ==> a.mode.Valid()
    decreases |cmds|
  {
    cmds != [] ==> Allowed(a, cmds[0]) && AllAllowed(Next(a, cmds[0]), cmds[1..])
  }

  /** A digest gives the one-shot hash of what was fed since the last reset, or what 128-bit streaming makes of it. */
  ghost function Output<A, H>(k: Kernel<A, H>, a: Abstract, c: Command): seq<H>
    requires k.Valid() && (a.Ready? ==> a.mode.Valid()) && Allowed(a, c)
  {
    match c
    case DoDigest => [Hash(k, a.mode, a.fed)]
    case DoDigest128 => [Streamed128(k, a.mode, a.fed)]
    case _ => []
  }

  /** The digests a run returns. */
  ghost function Outputs<A, H>(k: Kernel<A, H>, a: Abstract, cmds: seq<Command>): seq<H>
    requires k.Valid() && (a.Ready? ==> a.mode.Valid()) && AllAllowed(a, cmds)
    decreases |cmds|
  {
    if cmds == [] then [] else
    Output(k, a, cmds[0]) + Outputs(k, Next(a, cmds[0]), cmds[1..])
  }

  /** Resetting with seed 0 is the plain reset, and hashes like it. */
  predicate SameMode(m: Mode, n: Mode) {
    m == n || (m == Default && n == WithSeed(0))
  }

  ghost predicate Represents<A, H>(st: State<A, H>, a: Abstract)
    reads st, st.buffer
  {
    && st.CacheValid()
    && (a.Ready? ==> a.mode.Valid() && st.Valid() && SameMode(st.log.mode, a.mode) && st.log.fed == a.fed)
  }

  method Execute<A, H>(st: State<A, H>, c: Command, ghost a: Abstract) returns (out: seq<H>)
    requires Represents(st, a) && Allowed(a, c)
    modifies st, st.buffer
    ensures Represents(st, Next(a, c))
    ensures out == Output(st.k, a, c)
  {
    out := [];
    match c
    case DoReset => st.Reset();
    case DoResetWithSecret(secret, size) => var _ := st.ResetWithSecret(secret, size);
    case DoResetWithSeed(seed) => st.ResetWithSeed(seed);
    case DoResetWithSecretAndSeed(secret, size, seed) => var _ := st.ResetWithSecretAndSeed(secret, size, seed);
    case DoUpdate(bytes) => st.Update(bytes);
    case DoDigest => var h := st.Digest64(); out := [h];
    case DoDigest128 => var h := st.Digest128(); out := [h];
  }

  method RunFrom<A, H>(st: State<A, H>, cmds: seq<Command>, ghost a: Abstract) returns (out: seq<H>)
    requires Represents(st, a) && AllAllowed(a, cmds)
    modifies st, st.buffer
    ensures out == Outputs(st.k, a, cmds)
    decreases |cmds|
  {
    if cmds == [] { return []; }
    var first := Execute(st, cmds[0], a);
    var later := RunFrom(st, cmds[1..], Next(a, cmds[0]));
    out := first + later;
  }

  /** Every allowed run of resets, updates and digests on one state returns these. */
  method Run<A, H>(k: Kernel<A, H>, cmds: seq<Command>) returns (out: seq<H>)
    requires k.Valid() && AllAllowed(Unready, cmds)
    ensures out == Outputs(k, Unready, cmds)
  {
    var st := new State(k);
    out := RunFrom(st, cmds, Unready);
  }

  function Updates(chunks: seq<seq<byte>>): (cmds: seq<Command>)
    ensures |cmds| == |chunks|
  {
    seq(|chunks|, i requires 0 <= i < |chunks| => DoUpdate(chunks[i]))
  }

  /** However an input is cut, feeding the pieces and taking either digest gives that of the whole. */
  lemma {:induction false} ChunkingIsIrrelevant<A, H>(k: Kernel<A, H>, mode: Mode, fed: seq<byte>,
                                                      chunks: seq<seq<byte>>, digest: Command)
    requires k.Valid() && mode.Valid() && |fed + Concat(chunks)| < TWO64
    requires digest.DoDigest? || digest.DoDigest128?
    ensures AllAllowed(Ready(mode, fed), Updates(chunks) + [digest])
    ensures Outputs(k, Ready(mode, fed), Updates(chunks) + [digest]) ==
      Output(k, Ready(mode, fed + Concat(chunks)), digest)
    decreases |chunks|
  {
    var cmds := Updates(chunks) + [digest];
    if chunks == [] {
      assert fed + Concat(chunks) == fed;
      assert cmds[1..] == [];
    } else {
      assert fed + Concat(chunks) == (fed + chunks[0]) + Concat(chunks[1..]);
      ChunkingIsIrrelevant(k, mode, fed + chunks[0], chunks[1..], digest);
      assert cmds[1..] == Updates(chunks[1..]) + [digest];
    }
  }

  /**
    The 128-bit digest is the 128-bit one-shot hash whatever the kernel, exactly
    outside one family of calls: a state reset with a secret other than the
    default one and with seed 0, fed at most 240 bytes.
   */
  lemma Digest128Exact(defaultSecret: seq<byte>, mode: Mode, input: seq<byte>)
    requires |defaultSecret| == SECRET_DEFAULT_SIZE && mode.Valid()
    ensures (forall k: Kernel<(), bool> | k.Valid() && k.defaultSecret == defaultSecret ::
               Streamed128(k, mode, input) == Hash(k, mode, input))
            <==> !(mode.WithSecretAndSeed? && mode.seed == 0 && mode.secret != defaultSecret && |input| <= MIDSIZE_MAX)
  {
    if mode.WithSecretAndSeed? && mode.seed == 0 && mode.secret != defaultSecret && |input| <= MIDSIZE_MAX {
      var k := Kernel((), (_, _, _) => (), (_, _) => (), (_, _, _) => false, (_, secret, _) => secret == defaultSecret,
                      defaultSecret, _ => defaultSecret);
      assert k.Valid();
      assert Streamed128(k, mode, input) != Hash(k, mode, input);
    }
  }

  /** Outside that family the two agree for the 64-bit and the 128-bit kernel alike. */
  lemma Digest128Agrees<A, H>(k: Kernel<A, H>, mode: Mode, input: seq<byte>)
    requires k.Valid() && mode.Valid()
    requires !(mode.WithSecretAndSeed? && mode.seed == 0 && mode.secret != k.defaultSecret && |input| <= MIDSIZE_MAX)
    ensures Streamed128(k, mode, input) == Hash(k, mode, input)
  {
  }

  /** What the two compute there: each takes another secret. */
  lemma SeedZero<A, H>(k: Kernel<A, H>, secret: seq<byte>, input: seq<byte>)
    requires k.Valid() && |secret| >= SECRET_SIZE_MIN && |input| <= MIDSIZE_MAX
    ensures Hash(k, WithSecretAndSeed(secret, 0), input) == k.hashShort(input, k.defaultSecret, 0)
    ensures Streamed128(k, WithSecretAndSeed(secret, 0), input) == k.hashShort(input, secret, 0)
  {
  }

  /** A secret generated from a seed, used together with that seed, hashes like the seed alone. */
  lemma SecretFromSeed<A, H>(k: Kernel<A, H>, seed: u64, input: seq<byte>)
    requires k.Valid() && k.deriveSecret(0) == k.defaultSecret
    ensures Hash(k, WithSecretAndSeed(k.deriveSecret(seed), seed), input) == Hash(k, WithSeed(seed), input)
  {
  }
}

/**
  The growing buffers of alloc-inl.h: next_pow2, and afl_realloc over any run of
  requests.
 */
module AflAlloc {
  import opened Binary
  import opened BitOps
  import opened Bytes

  const SIZE_OFFSET: nat := 8
  const INITIAL_GROWTH_SIZE: nat := 64

  // ----- next_pow2 ---------------------------------------------------------

  /** out |= out >> k */
  function Smear(x: u64, k: nat): u64 {
    Pow64();
    BitsBound(Or, x, ShiftRight(x, k), 64);
    Bits(Or, x, ShiftRight(x, k))
  }

  /** x + 1 and x - 1 on 64 bits. */
  function Inc(x: u64): u64 { if x == TWO64 - 1 then 0 else x + 1 }
  function Dec(x: u64): u64 { if x == 0 then TWO64 - 1 else x - 1 }

  /** The smearing steps from k on; the last one is by 16. */
  function SmearFrom(x: u64, k: nat): u64
    requires k > 0
    decreases 32 - k
  {
    if k >= 32 then x else SmearFrom(Smear(x, k), 2 * k)
  }

  function Rounded(n: u64): u64 {
    Inc(SmearFrom(Dec(n), 1))
  }

  /** next_pow2 */
  method NextPow2(n: u64) returns (r: u64)
    ensures r == Rounded(n)
  {
    var out := Dec(n);
    ghost var all := SmearFrom(out, 1);
    out := Smear(out, 1);
    assert all == SmearFrom(out, 2);
    out := Smear(out, 2);
    assert all == SmearFrom(out, 4);
    out := Smear(out, 4);
    assert all == SmearFrom(out, 8);
    out := Smear(out, 8);
    assert all == SmearFrom(out, 16);
    out := Smear(out, 16);
    assert all == SmearFrom(out, 32);
    r := Inc(out);
  }

  lemma BitOfSmear(x: u64, k: nat, i: nat)
    ensures BitAt(Smear(x, k), i) == (BitAt(x, i) || BitAt(x, i + k))
  {
    BitOfBits(Or, x, ShiftRight(x, k), i);
    BitOfShift(x, k, i);
  }

  /** One of the w bits from i on is set. */
  ghost predicate SomeBit(x: nat, i: nat, w: nat) {
    exists j: nat :: i <= j < i + w && BitAt(x, j)
  }

  /** y has a bit exactly where x has one among the next w. */
  ghost predicate Spread(x: nat, y: nat, w: nat) {
    forall i: nat :: BitAt(y, i) <==> SomeBit(x, i, w)
  }

  /** Each smearing doubles the reach. */
  lemma SpreadTwice(x: nat, y: u64, w: nat)
    requires Spread(x, y, w)
    ensures Spread(x, Smear(y, w), 2 * w)
  {
    forall i: nat
      ensures BitAt(Smear(y, w), i) <==> SomeBit(x, i, 2 * w)
    {
      BitOfSmear(y, w, i);
      assert BitAt(y, i) <==> SomeBit(x, i, w);
      assert BitAt(y, i + w) <==> SomeBit(x, i + w, w);
    }
  }

  lemma {:induction false} SpreadOn(x: nat, y: u64, k: nat)
    requires Spread(x, y, k) && k in {1, 2, 4, 8, 16, 32}
    ensures Spread(x, SmearFrom(y, k), 32)
    decreases 32 - k
  {
    if k == 32 {
    } else {
      SpreadTwice(x, y, k);
      SpreadOn(x, Smear(y, k), 2 * k);
    }
  }

  /** After the five steps a bit reaches 31 places down, and no further. */
  lemma SmearedSpreads(x: u64)
    ensures Spread(x, SmearFrom(x, 1), 32)
  {
    forall i: nat
      ensures BitAt(x, i) <==> SomeBit(x, i, 1)
    {
      if SomeBit(x, i, 1) {
        var j: nat :| i <= j < i + 1 && BitAt(x, j);
        assert j == i;
      }
    }
    SpreadOn(x, x, 1);
  }

  // ----- Lengths in bits ---------------------------------------------------

  lemma {:induction false} NoBitsAbove(x: nat, n: nat, i: nat)
    requires x < Pow2(n) && n <= i
    ensures !BitAt(x, i)
    decreases i
  {
    if n > 0 {
      NoBitsAbove(x / 2, n - 1, i - 1);
    } else if i > 0 {
      NoBitsAbove(x / 2, 0, i - 1);
    }
  }

  lemma {:induction false} PowMonotone(a: nat, b: nat)
    requires a <= b
    ensures Pow2(a) <= Pow2(b)
    decreases b
  {
    if a == b {
    } else {
      PowMonotone(a, b - 1);
    }
  }

  // ----- When next_pow2 is the next power of two ---------------------------

  /** Below its top bit x has no 32 zero bits in a row. */
  ghost predicate NoLongGap(x: nat) {
    forall i: nat | i < BitLength(x) :: SomeBit(x, i, 32)
  }

  lemma SpreadBits(x: nat, y: nat, i: nat)
    requires Spread(x, y, 32)
    ensures BitAt(y, i) ==> i < BitLength(x)
    ensures BitAt(y, i) <==> SomeBit(x, i, 32)
    ensures BitAt(Pow2(BitLength(x)) - 1, i) <==> i < BitLength(x)
  {
    var m := BitLength(x);
    BitLengthBounds(x);
    if m <= i {
      NoBitsAbove(Pow2(m) - 1, m, i);
      forall j: nat | i <= j
        ensures !BitAt(x, j)
      {
        NoBitsAbove(x, m, j);
      }
    } else {
      OneBits(m, i);
    }
  }

  lemma SpreadIsOnes(x: nat, y: nat, n: nat)
    requires Spread(x, y, 32) && x < Pow2(n) && y < Pow2(n)
    ensures y == Pow2(BitLength(x)) - 1 <==> NoLongGap(x)
    ensures Pow2(BitLength(x)) <= Pow2(n)
  {
    var m := BitLength(x);
    BitLengthFits(x, n);
    PowMonotone(m, n);
    forall i: nat
      ensures BitAt(y, i) ==> i < m
      ensures BitAt(y, i) <==> SomeBit(x, i, 32)
      ensures BitAt(Pow2(m) - 1, i) <==> i < m
    {
      SpreadBits(x, y, i);
    }
    if NoLongGap(x) {
      SameBits(y, Pow2(m) - 1, n);
    }
  }

  /** A power of two as a 64-bit number. */
  function Wrapped(p: nat): nat { if p == TWO64 then 0 else p }

  lemma IncPow(y: u64, p: nat)
    requires 1 <= p <= TWO64
    ensures Inc(y) == Wrapped(p) <==> y == p - 1
  {
  }

  /**
    For n >= 1 the result is the least power of two that is at least n (0 if
    that is 2^64) exactly when n - 1 has no gap of 32 zero bits.
   */
  lemma NextPow2Exact(n: u64)
    requires n >= 1
    ensures Rounded(n) == Wrapped(Pow2(BitLength(n - 1))) <==> NoLongGap(n - 1)
    ensures Pow2(BitLength(n - 1)) <= TWO64
  {
    var x: u64 := n - 1;
    var y := SmearFrom(x, 1);
    Pow64();
    SmearedSpreads(x);
    SpreadIsOnes(x, y, 64);
    IncPow(y, Pow2(BitLength(x)));
  }

  /** Pow2(BitLength(n - 1)) is the least power of two that is at least n. */
  lemma LeastPower(n: nat, k: nat)
    requires n >= 1
    ensures n <= Pow2(BitLength(n - 1))
    ensures n <= Pow2(k) ==> Pow2(BitLength(n - 1)) <= Pow2(k)
  {
    BitLengthBounds(n - 1);
    if n <= Pow2(k) {
      BitLengthFits(n - 1, k);
      PowMonotone(BitLength(n - 1), k);
    }
  }

  /** Up to 2^32 there is no room for such a gap. */
  lemma SmallHasNoGap(n: u64)
    requires 1 <= n <= 0x1_0000_0000
    ensures NoLongGap(n - 1)
    ensures Rounded(n) == Pow2(BitLength(n - 1)) <= 0x1_0000_0000
  {
    var x := n - 1;
    Pow32();
    BitLengthFits(x, 32);
    LeastPower(n, 32);
    BitLengthBounds(x);
    forall i: nat | i < BitLength(x)
      ensures SomeBit(x, i, 32)
    {
      assert BitAt(x, BitLength(x) - 1);
    }
    NextPow2Exact(n);
  }

  lemma LowBitsZero(k: nat)
    requires 32 <= k
    ensures !SomeBit(Pow2(k), 0, 32)
  {
    forall j: nat | j < 32
      ensures !BitAt(Pow2(k), j)
    {
      BitOfPow(k, j);
    }
  }

  lemma OneLess(p: nat, k: nat)
    requires p == Pow2(k) && Pow2(k + 1) <= TWO64
    ensures p < TWO64 - 1
  {
  }

  lemma Length2(p: nat)
    requires p > 0
    ensures BitLength(2 * p) == 1 + BitLength(p)
  {
    assert 2 * p / 2 == p;
  }

  lemma {:induction false} LengthOfPow(k: nat)
    ensures BitLength(Pow2(k)) == k + 1
  {
    if k == 0 {
    } else {
      LengthOfPow(k - 1);
      Length2(Pow2(k - 1));
    }
  }

  /** Just above a power of two from 2^32 on, the result is not the next one. */
  lemma GapAboveTwo32(k: nat)
    requires 32 <= k < 64
    ensures Pow2(k) < TWO64 - 1
    ensures BitLength(Pow2(k)) == k + 1 && Rounded(Pow2(k) + 1) != Wrapped(Pow2(k + 1))
  {
    Pow64();
    PowMonotone(k + 1, 64);
    OneLess(Pow2(k), k);
    LengthOfPow(k);
    LowBitsZero(k);
    NextPow2Exact(Pow2(k) + 1);
  }

  lemma {:induction false} MoreBits(x: nat, y: nat, n: nat)
    requires x < Pow2(n) && forall i: nat | i < n && BitAt(x, i) :: BitAt(y, i)
    ensures x <= y
  {
    if n == 0 {
    } else {
      forall i: nat | i < n - 1 && BitAt(x / 2, i)
        ensures BitAt(y / 2, i)
      {
        assert BitAt(x, i + 1);
      }
      MoreBits(x / 2, y / 2, n - 1);
      assert BitAt(x, 0) ==> BitAt(y, 0);
    }
  }

  lemma SpreadCovers(x: nat, y: nat, n: nat)
    requires Spread(x, y, 32) && x < Pow2(n)
    ensures x <= y
  {
    forall i: nat | i < n && BitAt(x, i)
      ensures BitAt(y, i)
    {
      assert SomeBit(x, i, 32);
    }
    MoreBits(x, y, n);
  }

  /** For every n >= 1 the result is at least n, or 0. */
  lemma RoundedCovers(n: u64)
    requires n >= 1
    ensures Rounded(n) >= n || Rounded(n) == 0
  {
    var x: u64 := n - 1;
    Pow64();
    SmearedSpreads(x);
    SpreadCovers(x, SmearFrom(x, 1), 64);
  }

  // ----- afl_realloc -------------------------------------------------------

  /** The size of a new allocation for `total` bytes, header included. */
  ghost function NextSizeOf(total: u64): u64 {
    if total < INITIAL_GROWTH_SIZE then INITIAL_GROWTH_SIZE
    else if Rounded(total) == 0 then total
    else Rounded(total)
  }

  method NextSize(total: u64) returns (r: u64)
    requires total >= 1
    ensures r == NextSizeOf(total) && r >= total
  {
    if total < INITIAL_GROWTH_SIZE {
      r := INITIAL_GROWTH_SIZE;
    } else {
      r := NextPow2(total);
      RoundedCovers(total);
      if r == 0 { r := total; }
    }
  }

  ghost predicate IsPow2(n: nat) {
    exists k: nat :: n == Pow2(k)
  }

  /** Between two powers of two there is a factor of at least two. */
  lemma PowersApart(a: nat, b: nat)
    requires IsPow2(a) && IsPow2(b) && a < b
    ensures 2 * a <= b
  {
    var i: nat :| a == Pow2(i);
    var j: nat :| b == Pow2(j);
    if j <= i {
      PowMonotone(j, i);
    } else {
      PowMonotone(i + 1, j);
    }
  }

  /** After `grown` reallocations, each of which may have moved the bytes there were. */
  datatype Account = Account(size: nat, grown: nat, moved: nat)

  /** The sizes are powers of two, so their growth pays for the moves and bounds their number. */
  ghost predicate Amortised(a: Account) {
    a.size > 0 ==>
      && IsPow2(a.size) && a.size <= 0x1_0000_0000
      && a.grown >= 1 && 64 * Pow2(a.grown - 1) <= a.size
      && a.moved + 64 <= a.size
  }

  function Charge(a: Account, next: nat): Account {
    Account(next, a.grown + 1, a.moved + a.size)
  }

  lemma DoublePow(k: nat)
    ensures Pow2(k + 1) == 2 * Pow2(k)
  {
  }

  /** Each growth after the first at least doubles the size, and keeps the account. */
  lemma Growth(a: Account, total: nat, next: nat)
    requires Amortised(a) && a.size < total <= next
    requires a.size == 0 ==> a.grown == 0 && a.moved == 0
    requires IsPow2(next) && 64 <= next <= 0x1_0000_0000
    ensures Amortised(Charge(a, next))
    ensures a.size > 0 ==> next >= 2 * a.size
  {
    if a.size > 0 {
      PowersApart(a.size, next);
      DoublePow(a.grown - 1);
    } else {
      assert Pow2(0) == 1;
    }
  }

  lemma FirstSize()
    ensures IsPow2(INITIAL_GROWTH_SIZE)
  {
    assert INITIAL_GROWTH_SIZE == Pow2(6);
  }

  lemma PowerCovers(n: nat)
    requires n > 1
    ensures var p := Pow2(BitLength(n - 1)); IsPow2(p) && n <= p < 2 * n
  {
    BitLengthBounds(n - 1);
  }

  /** Requests of up to 2^32 bytes, header included, get a power of two, less than twice of what they need or 64. */
  lemma NextSizeIsPow2(total: u64)
    requires 1 <= total <= 0x1_0000_0000
    ensures IsPow2(NextSizeOf(total)) && 64 <= NextSizeOf(total) <= 0x1_0000_0000
    ensures NextSizeOf(total) < 2 * total || NextSizeOf(total) == 64
  {
    if total < INITIAL_GROWTH_SIZE {
      FirstSize();
    } else {
      SmallHasNoGap(total);
      PowerCovers(total);
    }
  }

  /** size_needed += AFL_ALLOC_SIZE_OFFSET on 64 bits. */
  function Total(needed: u64): u64 {
    if needed + SIZE_OFFSET < TWO64 then needed + SIZE_OFFSET else needed + SIZE_OFFSET - TWO64
  }

  /** The old bytes are kept and the new ones are zero. */
  ghost predicate Extended(before: seq<byte>, after: seq<byte>) {
    && |before| < |after| && after[..|before|] == before
    && forall k | |before| <= k < |after| :: after[k] == 0
  }

  /** The old bytes, and zeros up to the new size: the header counts as part of a new allocation. */
  method Zeroed(data: seq<byte>, currentSize: nat, nextSize: nat) returns (data': seq<byte>)
    requires if currentSize == 0 then data == [] else |data| == currentSize - SIZE_OFFSET
    requires SIZE_OFFSET < nextSize && currentSize < nextSize
    ensures |data'| == nextSize - SIZE_OFFSET && Extended(data, data')
  {
    var room := nextSize - (if currentSize == 0 then SIZE_OFFSET else currentSize);
    data' := data + seq(room, _ => 0);
  }

  /** A buffer of afl_realloc: `size` is complete_size, 0 for a NULL pointer. */
  class Buffer {
    var size: u64
    var data: seq<byte>
    ghost var account: Account

    ghost predicate Valid()
      reads this
    {
      && account.size == size
      && if size == 0 then data == [] && account.grown == 0 && account.moved == 0
         else size >= INITIAL_GROWTH_SIZE && |data| == size - SIZE_OFFSET
    }

    constructor ()
      ensures Valid() && Amortised(account) && size == 0
    {
      size, data, account := 0, [], Account(0, 0, 0);
    }

    /** afl_realloc; `granted` is whether realloc can give the memory, `ok` that the result is not NULL. */
    method Realloc(needed: u64, granted: bool) returns (ok: bool)
      requires Valid()
      modifies this
      ensures Valid() && (ok <==> size > 0)
      ensures ok <==> if old(size) >= Total(needed) then old(size) > 0 else granted
      ensures ok && needed + SIZE_OFFSET < TWO64 ==> |data| >= needed
      ensures old(size) >= Total(needed) ==> size == old(size) && data == old(data) && account == old(account)
      ensures ok && old(size) < Total(needed) ==>
        && size == NextSizeOf(Total(needed)) && Extended(old(data), data)
        && account.grown == old(account.grown) + 1 && account.moved == old(account.moved) + old(size)
      ensures Amortised(old(account)) && needed + SIZE_OFFSET <= 0x1_0000_0000 ==>
        Amortised(account) && (ok && 0 < old(size) < size ==> size >= 2 * old(size))
    {
      var currentSize, total := size, Total(needed);
      if currentSize >= total { return currentSize > 0; }
      var nextSize := NextSize(total);
      if !granted {
        size, data, account := 0, [], Account(0, 0, 0);
        return false;
      }
      if total <= 0x1_0000_0000 {
        NextSizeIsPow2(total);
        if Amortised(account) {
          Growth(account, total, nextSize);
        }
      }
      data := Zeroed(data, currentSize, nextSize);
      account := Charge(account, nextSize);
      size := nextSize;
      ok := true;
    }
  }

  /** A request of less than 56 bytes, 0 of them too, is not refused: a new buffer gets 64 bytes. */
  method RequestLittle(needed: u64) returns (buffer: Buffer, ok: bool)
    requires needed < INITIAL_GROWTH_SIZE - SIZE_OFFSET
    ensures ok && fresh(buffer) && buffer.size == 64 && |buffer.data| == 56
  {
    buffer := new Buffer();
    ok := buffer.Realloc(needed, true);
  }

  /** The size after a request that is granted. */
  ghost function SizeAfter(size: u64, needed: u64): u64 {
    if size >= Total(needed) then size else NextSizeOf(Total(needed))
  }

  ghost function SizeAfterAll(requests: seq<u64>): u64
    decreases |requests|
  {
    if requests == [] then 0 else SizeAfter(SizeAfterAll(requests[..|requests| - 1]), requests[|requests| - 1])
  }

  lemma OneMoreRequest(requests: seq<u64>, k: nat)
    requires k < |requests|
    ensures SizeAfterAll(requests[..k + 1]) == SizeAfter(SizeAfterAll(requests[..k]), requests[k])
  {
    assert requests[..k + 1][..k] == requests[..k];
  }

  /** The next of the requests, below 2^32 bytes and granted. */
  method Request(buffer: Buffer, requests: seq<u64>, k: nat)
    requires k < |requests| && requests[k] + SIZE_OFFSET <= 0x1_0000_0000
    requires buffer.Valid() && Amortised(buffer.account) && buffer.size == SizeAfterAll(requests[..k])
    modifies buffer
    ensures buffer.Valid() && Amortised(buffer.account) && buffer.size == SizeAfterAll(requests[..k + 1])
    ensures |buffer.data| >= requests[k] && |buffer.data| >= |old(buffer.data)|
  {
    OneMoreRequest(requests, k);
    var ok := buffer.Realloc(requests[k], true);
  }

  /** Any run of requests that stay below 2^32 bytes, from an empty buffer. */
  method RunRequests(requests: seq<u64>) returns (buffer: Buffer)
    requires forall i | 0 <= i < |requests| :: requests[i] + SIZE_OFFSET <= 0x1_0000_0000
    ensures fresh(buffer) && buffer.Valid() && Amortised(buffer.account) && buffer.size == SizeAfterAll(requests)
    ensures forall i | 0 <= i < |requests| :: |buffer.data| >= requests[i]
  {
    buffer := new Buffer();
    var k := 0;
    while k < |requests|
      invariant 0 <= k <= |requests| && fresh(buffer) && buffer.Valid() && Amortised(buffer.account)
      invariant buffer.size == SizeAfterAll(requests[..k])
      invariant forall i | 0 <= i < k :: |buffer.data| >= requests[i]
    {
      Request(buffer, requests, k);
      k := k + 1;
    }
    assert requests[..k] == requests;
  }
}

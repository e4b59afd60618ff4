/**
  XXH32 and XXH64: the one-shot hashes and the streaming states of xxhash.h.

  The two share one shape: four lanes, stripes of `stripeLen` bytes, a buffer
  for an unfinished stripe, and a final mix of the length and the left-over
  bytes.  A `Rounds` value holds what differs, and the theorems hold for any.
 */
module XxhStripes {
  import opened Arith
  import opened Bytes

  /**
    `init` makes the lanes from a seed, `round` folds one stripe into them,
    `converge` and `small` start the hash of a long and of a short input, and
    `finalize` mixes in the length counter and the left-over bytes.
   */
  datatype Rounds<!A, !H> = Rounds(
    stripeLen: nat,
    lengthModulus: nat,
    init: u64 -> A,
    round: (A, seq<byte>) -> A,
    converge: A -> H,
    small: A -> H,
    finalize: (H, nat, seq<byte>) -> H)
  {
    ghost predicate Valid() {
      0 < 2 * stripeLen <= lengthModulus
    }
  }

  // ----- Reference ---------------------------------------------------------

  function Stripes(data: seq<byte>, len: nat): seq<seq<byte>>
    requires len > 0
    decreases |data|
  {
    if |data| < len then [] else [data[..len]] + Stripes(data[len..], len)
  }

  function Rest(data: seq<byte>, len: nat): (r: seq<byte>)
    requires len > 0
    ensures |r| < len
    decreases |data|
  {
    if |data| < len then data else Rest(data[len..], len)
  }

  function Fold<A, H>(k: Rounds<A, H>, acc: A, stripes: seq<seq<byte>>): A
    decreases |stripes|
  {
    if stripes == [] then acc else Fold(k, k.round(acc, stripes[0]), stripes[1..])
  }

  /** The hash of `input`: all whole stripes, then the length and the rest. */
  function Hash<A, H>(k: Rounds<A, H>, seed: u64, input: seq<byte>): H
    requires k.Valid()
  {
    var acc := Fold(k, k.init(seed), Stripes(input, k.stripeLen));
    var h := if |input| >= k.stripeLen then k.converge(acc) else k.small(k.init(seed));
    k.finalize(h, |input| % k.lengthModulus, Rest(input, k.stripeLen))
  }

  // ----- Lemmas about the reference ----------------------------------------

  lemma CutFirst(first: seq<byte>, more: seq<byte>, len: nat)
    requires |first| == len > 0
    ensures Stripes(first + more, len) == [first] + Stripes(more, len)
    ensures Rest(first + more, len) == Rest(more, len)
  {
    assert (first + more)[..len] == first && (first + more)[len..] == more;
  }

  /** Cutting what is left over together with what follows is cutting the whole. */
  lemma {:induction false} CutAppend(a: seq<byte>, b: seq<byte>, len: nat)
    requires len > 0
    ensures Stripes(a + b, len) == Stripes(a, len) + Stripes(Rest(a, len) + b, len)
    ensures Rest(a + b, len) == Rest(Rest(a, len) + b, len)
    decreases |a|
  {
    if |a| >= len {
      var first, more := a[..len], a[len..];
      CutAppend(more, b, len);
      assert a + b == first + (more + b);
      CutFirst(first, more + b, len);
      CutFirst(first, more, len);
      assert a == first + more;
      var tail := Stripes(Rest(a, len) + b, len);
      assert [first] + (Stripes(more, len) + tail) == ([first] + Stripes(more, len)) + tail;
    } else {
      assert [] + Stripes(a + b, len) == Stripes(a + b, len);
    }
  }

  lemma {:induction false} FoldAppend<A, H>(k: Rounds<A, H>, acc: A, s: seq<seq<byte>>, t: seq<seq<byte>>)
    ensures Fold(k, acc, s + t) == Fold(k, Fold(k, acc, s), t)
    decreases |s|
  {
    if s == [] {
      assert s + t == t;
    } else {
      assert (s + t)[1..] == s[1..] + t;
      FoldAppend(k, k.round(acc, s[0]), s[1..], t);
    }
  }

  lemma SmallMod(n: nat, d: nat)
    requires n < d
    ensures n % d == n
  {
  }

  /** The buffer holds total mod stripe length bytes. */
  lemma {:induction false} RestLength(data: seq<byte>, len: nat)
    requires len > 0
    ensures |Rest(data, len)| == |data| % len
    decreases |data|
  {
    if |data| < len {
      SmallMod(|data|, len);
    } else {
      RestLength(data[len..], len);
      AddMod(|data| - len, len);
    }
  }

  // ----- One-shot ----------------------------------------------------------

  /** XXH32_endian_align and XXH64_endian_align. */
  method OneShot<A, H>(k: Rounds<A, H>, seed: u64, input: seq<byte>) returns (h: H)
    requires k.Valid()
    ensures h == Hash(k, seed, input)
  {
    var len := k.stripeLen;
    var p := 0;
    if |input| >= len {
      var v := k.init(seed);
      assert input[0..] == input;
      while true
        invariant p + len <= |input|
        invariant Fold(k, v, Stripes(input[p..], len)) == Fold(k, k.init(seed), Stripes(input, len))
        invariant Rest(input[p..], len) == Rest(input, len)
        decreases |input| - p
      {
        assert input[p..][..len] == input[p..p + len] && input[p..][len..] == input[p + len..];
        v := k.round(v, input[p..p + len]);
        p := p + len;
        if |input| < p + len { break; }
      }
      h := k.converge(v);
    } else {
      h := k.small(k.init(seed));
      assert input[p..] == input;
    }
    h := k.finalize(h, |input| % k.lengthModulus, input[p..]);
  }

  // ----- Streaming ---------------------------------------------------------

  /** All whole stripes of the input from `p0` on. */
  method FoldAll<A, H>(k: Rounds<A, H>, v0: A, input: seq<byte>, p0: nat) returns (v: A, p: nat)
    requires k.Valid() && p0 <= |input|
    ensures p0 <= p <= |input| && input[p..] == Rest(input[p0..], k.stripeLen)
    ensures v == Fold(k, v0, Stripes(input[p0..], k.stripeLen))
  {
    var len := k.stripeLen;
    v, p := v0, p0;
    while p + len <= |input|
      invariant p0 <= p <= |input|
      invariant Fold(k, v, Stripes(input[p..], len)) == Fold(k, v0, Stripes(input[p0..], len))
      invariant Rest(input[p..], len) == Rest(input[p0..], len)
    {
      assert input[p..][..len] == input[p..p + len] && input[p..][len..] == input[p + len..];
      v := k.round(v, input[p..p + len]);
      p := p + len;
    }
  }

  /** The part both states share: lanes, and a buffer for an unfinished stripe. */
  class Absorber<A, H> {
    const k: Rounds<A, H>
    const mem: array<byte>
    var v: A
    var memsize: nat
    ghost var seed: u64
    ghost var fed: seq<byte>

    ghost predicate Valid()
      reads this, mem
    {
      && k.Valid()
      && mem.Length == k.stripeLen
      && memsize == |Rest(fed, k.stripeLen)|
      && mem[..memsize] == Rest(fed, k.stripeLen)
      && v == Fold(k, k.init(seed), Stripes(fed, k.stripeLen))
    }

    constructor (k: Rounds<A, H>, seed: u64)
      requires k.Valid()
      ensures Valid() && this.k == k && this.seed == seed && fed == [] && fresh(mem)
    {
      this.k := k;
      mem := new byte[k.stripeLen];
      v := k.init(seed);
      memsize := 0;
      this.seed, fed := seed, [];
    }

    /** The body of XXH32_update and XXH64_update after the length counters. */
    method Absorb(input: seq<byte>)
      requires Valid()
      modifies this`v, this`memsize, this`fed, mem
      ensures Valid()
      ensures fed == old(fed) + input
    {
      var len := k.stripeLen;
      ghost var x := Rest(fed, len) + input;
      CutAppend(fed, input, len);
      FoldAppend(k, k.init(seed), Stripes(fed, len), Stripes(x, len));
      if memsize + |input| < len {
        assert Splice(mem[..], memsize, input)[..memsize + |input|] == x;
        CopyInto(mem, memsize, input);
        memsize, fed := memsize + |input|, fed + input;
        assert Stripes(x, len) == [];
        return;
      }
      var w, p := v, 0;
      if memsize != 0 {
        p := len - memsize;
        assert Splice(mem[..], memsize, input[..p]) == x[..len];
        assert x[len..] == input[p..];
        CopyInto(mem, memsize, input[..p]);
        w := k.round(w, mem[..]);
      } else {
        assert x == input == input[p..];
      }
      w, p := FoldAll(k, w, input, p);
      assert Splice(mem[..], 0, input[p..])[..|input| - p] == input[p..];
      CopyInto(mem, 0, input[p..]);
      v, memsize, fed := w, |input| - p, fed + input;
    }
  }

  /** The wrapped counter and the flag never miss an input that is long in total. */
  lemma LargeLength(total: nat, more: nat, len: nat, modulus: nat)
    requires 0 < 2 * len <= modulus
    ensures (total % modulus + more) % modulus == (total + more) % modulus
    ensures total + more >= len <==> total >= len || more >= len || (total % modulus + more) % modulus >= len
  {
    ModAdd(total, more, modulus);
    if total < len && more < len {
      SmallMod(total, modulus);
      SmallMod(total + more, modulus);
    }
  }

  lemma ShortStripes(data: seq<byte>, len: nat)
    requires len > 0
    ensures |data| < len ==> Stripes(data, len) == []
  {
  }

  /** XXH32_state_t: a wrapping length, and a flag that remembers a long input. */
  class State32<A, H> {
    const abs: Absorber<A, H>
    var totalLen32: nat
    var largeLen: bool

    ghost predicate Valid()
      reads this, abs, abs.mem
    {
      && abs.Valid()
      && totalLen32 == |abs.fed| % abs.k.lengthModulus
      && largeLen == (|abs.fed| >= abs.k.stripeLen)
    }

    /** XXH32_reset */
    constructor (k: Rounds<A, H>, seed: u64)
      requires k.Valid()
      ensures Valid() && abs.k == k && abs.seed == seed && abs.fed == [] && fresh(abs) && fresh(abs.mem)
    {
      abs := new Absorber(k, seed);
      totalLen32, largeLen := 0, false;
      new;
      SmallMod(0, k.lengthModulus);
    }

    /** XXH32_update */
    method Update(input: seq<byte>)
      requires Valid()
      modifies this, abs`v, abs`memsize, abs`fed, abs.mem
      ensures Valid() && abs.fed == old(abs.fed) + input
    {
      var k := abs.k;
      LargeLength(|abs.fed|, |input|, k.stripeLen, k.lengthModulus);
      totalLen32 := (totalLen32 + |input|) % k.lengthModulus;
      largeLen := largeLen || |input| >= k.stripeLen || totalLen32 >= k.stripeLen;
      abs.Absorb(input);
    }

    /** XXH32_digest: the one-shot hash of everything fed, however long. */
    method Digest() returns (h: H)
      requires Valid()
      ensures h == Hash(abs.k, abs.seed, abs.fed)
    {
      ShortStripes(abs.fed, abs.k.stripeLen);
      h := if largeLen then abs.k.converge(abs.v) else abs.k.small(abs.v);
      h := abs.k.finalize(h, totalLen32, abs.mem[..abs.memsize]);
    }
  }

  lemma ModBound(n: nat, d: nat)
    requires d > 0
    ensures 0 <= n % d < d
  {
  }

  /** XXH64_state_t: one 64-bit length counter serves as length, flag and buffer size. */
  class State64<A, H> {
    const abs: Absorber<A, H>
    var totalLen: nat

    ghost predicate Valid()
      reads this, abs, abs.mem
    {
      && abs.Valid()
      && totalLen == |abs.fed| % abs.k.lengthModulus
    }

    /** XXH64_reset */
    constructor (k: Rounds<A, H>, seed: u64)
      requires k.Valid()
      ensures Valid() && abs.k == k && abs.seed == seed && abs.fed == [] && fresh(abs) && fresh(abs.mem)
    {
      abs := new Absorber(k, seed);
      totalLen := 0;
      new;
      SmallMod(0, k.lengthModulus);
    }

    /** XXH64_update */
    method Update(input: seq<byte>)
      requires Valid()
      modifies this, abs`v, abs`memsize, abs`fed, abs.mem
      ensures Valid() && abs.fed == old(abs.fed) + input
    {
      ModAdd(|abs.fed|, |input|, abs.k.lengthModulus);
      totalLen := (totalLen + |input|) % abs.k.lengthModulus;
      abs.Absorb(input);
    }

    /** XXH64_digest: the one-shot hash, for every total the counter can hold. */
    method Digest() returns (h: H)
      requires Valid()
      ensures |abs.fed| < abs.k.lengthModulus ==> h == Hash(abs.k, abs.seed, abs.fed)
    {
      var len := abs.k.stripeLen;
      ShortStripes(abs.fed, len);
      RestLength(abs.fed, len);
      h := if totalLen >= len then abs.k.converge(abs.v) else abs.k.small(abs.v);
      ModBound(totalLen, len);
      if |abs.fed| < abs.k.lengthModulus {
        SmallMod(|abs.fed|, abs.k.lengthModulus);
      }
      h := abs.k.finalize(h, totalLen, abs.mem[..totalLen % len]);
    }
  }

  /** However the input is cut, 32-bit streaming gives the hash of the whole; there is no length bound. */
  method HashChunks32<A, H>(k: Rounds<A, H>, seed: u64, chunks: seq<seq<byte>>) returns (h: H)
    requires k.Valid()
    ensures h == Hash(k, seed, Concat(chunks))
  {
    var st := new State32(k, seed);
    var rest := chunks;
    while rest != []
      invariant st.Valid() && st.abs.k == k && st.abs.seed == seed && fresh(st) && fresh(st.abs) && fresh(st.abs.mem)
      invariant st.abs.fed + Concat(rest) == Concat(chunks)
      decreases |rest|
    {
      assert st.abs.fed + (rest[0] + Concat(rest[1..])) == (st.abs.fed + rest[0]) + Concat(rest[1..]);
      st.Update(rest[0]);
      rest := rest[1..];
    }
    assert st.abs.fed + [] == st.abs.fed;
    h := st.Digest();
  }

  /** The same for 64-bit streaming, for every total below the counter's modulus. */
  method HashChunks64<A, H>(k: Rounds<A, H>, seed: u64, chunks: seq<seq<byte>>) returns (h: H)
    requires k.Valid() && |Concat(chunks)| < k.lengthModulus
    ensures h == Hash(k, seed, Concat(chunks))
  {
    var st := new State64(k, seed);
    var rest := chunks;
    while rest != []
      invariant st.Valid() && st.abs.k == k && st.abs.seed == seed && fresh(st) && fresh(st.abs) && fresh(st.abs.mem)
      invariant st.abs.fed + Concat(rest) == Concat(chunks)
      decreases |rest|
    {
      assert st.abs.fed + (rest[0] + Concat(rest[1..])) == (st.abs.fed + rest[0]) + Concat(rest[1..]);
      st.Update(rest[0]);
      rest := rest[1..];
    }
    assert st.abs.fed + [] == st.abs.fed;
    h := st.Digest();
  }
}

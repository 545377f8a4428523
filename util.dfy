/**
 * The small helpers of runners/bench_runner.c: the growable array behind
 * `mappend`, the `bench_prng` generator, `bench_factorial`,
 * `bench_permutation` and the step filter at the top of `perm_run`.
 */
module Util {
  import opened Base

  /** A power of two. */
  predicate IsPow2(n: nat)
    decreases n
  {
    if n <= 1 then n == 1 else n % 2 == 0 && IsPow2(n / 2)
  }

  /** The capacity `mappend` asks for once the count passes it: double it, but at least 4, in `size_t`. */
  function Grown(capacity: nat): (r: nat)
    ensures 4 <= r < U64
    ensures 4 <= 2 * capacity < U64 ==> r == 2 * capacity
  {
    var doubled := (2 * capacity) % U64;
    if doubled < 4 then 4 else doubled
  }

  /** A capacity reached by doubling from nothing: 0, or 4 doubled some number of times. */
  predicate DoubledCapacity(capacity: nat)
  {
    capacity == 0 || (capacity >= 4 && IsPow2(capacity))
  }

  /** Growing a doubled capacity gives a doubled capacity, twice the old one or 4. */
  lemma GrownShape(capacity: nat)
    requires DoubledCapacity(capacity) && 2 * capacity < U64
    ensures DoubledCapacity(Grown(capacity))
    ensures Grown(capacity) == if capacity == 0 then 4 else 2 * capacity
  {
    if capacity == 0 {
      assert IsPow2(2) && IsPow2(4);
    } else {
      assert (2 * capacity) / 2 == capacity;
    }
  }

  /**
   * An array grown with `mappend`: the elements stored so far and the
   * allocated capacity. The count of the source is the length of `elems`.
   */
  class Buffer<T> {
    var elems: seq<T>
    var capacity: nat

    /**
     * The count fits the allocation, the capacity is 0 or 4 doubled, and
     * the amortised doubling never leaves more than twice the count (or 4).
     */
    ghost predicate Valid()
      reads this
    {
      && |elems| <= capacity < U64
      && DoubledCapacity(capacity)
      && capacity <= Max(4, 2 * |elems|)
    }

    /** An empty array: a null pointer with count and capacity 0. */
    constructor ()
      ensures Valid() && elems == [] && capacity == 0
    {
      elems := [];
      capacity := 0;
    }

    /**
     * `mappend` and the caller's store of x into the slot it returns. When
     * the count passes the capacity the array is reallocated at `Grown`
     * capacity; `allocFails` says the reallocation returns NULL, in which
     * case `mappend` returns NULL and changes nothing.
     */
    method Append(x: T, allocFails: bool) returns (ok: bool)
      requires Valid() && 2 * capacity < U64
      modifies this
      ensures Valid()
      ensures ok <==> |old(elems)| < old(capacity) || !allocFails
      ensures ok ==> elems == old(elems) + [x]
      ensures ok ==> capacity == if |old(elems)| < old(capacity) then old(capacity) else Grown(old(capacity))
      ensures !ok ==> elems == old(elems) && capacity == old(capacity)
    {
      var count := |elems| + 1;
      var newCapacity := capacity;
      if count > capacity {
        GrownShape(capacity);
        newCapacity := Grown(capacity);
        if allocFails {
          return false;
        }
      }
      elems := elems + [x];
      capacity := newCapacity;
      ok := true;
    }
  }

  /**
   * `bench_prng`: the xorshift32 step (shifts 13, 17 and 5), with a zero
   * state replaced by 0xffffffff first since xorshift would stay at 0. The
   * result is never 0.
   */
  function Xorshift32(state: bv32): (r: bv32)
    ensures r != 0
  {
    var x := if state == 0 then 0xffff_ffff else state;
    var x1 := x ^ (x << 13);
    var x2 := x1 ^ (x1 >> 17);
    x2 ^ (x2 << 5)
  }

  /** Seed 0 behaves as seed 0xffffffff, and so differently from seed 1. */
  lemma SeedZero()
    ensures Xorshift32(0) == Xorshift32(0xffff_ffff) != Xorshift32(1)
  {
  }

  /** The state a caller of `bench_prng` keeps. */
  class Prng {
    var state: bv32

    constructor (seed: bv32)
      ensures state == seed
    {
      state := seed;
    }

    /** `bench_prng(&state)`: the next value, which is also the new state. */
    method Next() returns (x: bv32)
      modifies this
      ensures x == state == Xorshift32(old(state)) && x != 0
    {
      state := Xorshift32(state);
      x := state;
    }
  }

  /** x!, unbounded. */
  function Fact(x: nat): (r: nat)
    ensures r >= 1
  {
    if x <= 1 then 1 else x * Fact(x - 1)
  }

  /**
   * `bench_factorial`: the product 2 * 3 * ... * x in `size_t`, that is x!
   * modulo 2^64. For x = SIZE_MAX the source's `i <= x` never fails, so that
   * one input is excluded.
   */
  method Factorial(x: nat) returns (y: nat)
    requires x < U64 - 1
    ensures y == Fact(x) % U64
  {
    y := 1;
    var i := 2;
    while i <= x
      invariant 2 <= i && (x >= 1 ==> i <= x + 1) && (x < 2 ==> i == 2)
      invariant y == Fact(i - 1) % U64
    {
      FactStep(i, y);
      y := (y * i) % U64;
      i := i + 1;
    }
    if x < 2 {
      assert Fact(x) == 1;
    }
  }

  /** One multiplication of the loop: from (i-1)! to i!, modulo 2^64. */
  lemma FactStep(i: nat, y: nat)
    requires i >= 2 && y == Fact(i - 1) % U64
    ensures (y * i) % U64 == Fact(i) % U64
  {
    ModMulAbsorb(Fact(i - 1), i, U64);
    assert Fact(i) == Fact(i - 1) * i;
  }

  /** Factorials grow: x! <= y! for x <= y. */
  lemma {:induction false} FactMonotone(x: nat, y: nat)
    requires x <= y
    ensures Fact(x) <= Fact(y)
    decreases y - x
  {
    if x < y {
      FactMonotone(x, y - 1);
      FactGrows(y);
    }
  }

  /** One more factor never makes the factorial smaller. */
  lemma FactGrows(y: nat)
    requires y >= 1
    ensures Fact(y - 1) <= Fact(y)
  {
    if y >= 2 {
      assert Fact(y) == y * Fact(y - 1);
      MulGrows(y, Fact(y - 1));
    }
  }

  /** 20! is the last factorial that fits in 64 bits, so `bench_factorial` is exact up to 20 and wraps from 21. */
  lemma FactorialExactUpTo20(x: nat)
    ensures x <= 20 ==> Fact(x) % U64 == Fact(x)
    ensures Fact(21) >= U64
  {
    assert Fact(20) == 2432902008176640000 by {
      assert Fact(10) == 3628800;
      assert Fact(15) == 1307674368000;
    }
    if x <= 20 {
      FactMonotone(x, 20);
    }
  }

  /** 0, 1, ..., n-1. */
  function Iota(n: nat): (s: seq<nat>)
    ensures |s| == n && forall j :: 0 <= j < n ==> s[j] == j
  {
    seq(n, j => j)
  }

  /** The exchange `bench_permutation` performs: element b takes a's value, then a takes b's old value. */
  function Swap(s: seq<nat>, a: nat, b: nat): (r: seq<nat>)
    requires a < |s| && b < |s|
    ensures |r| == |s| && r[a] == s[b] && r[b] == s[a]
  {
    s[b := s[a]][a := s[b]]
  }

  /**
   * The swap loop of `bench_permutation` from position j with remaining
   * index i: position j exchanges with j + i % (n - j), and i is divided by
   * n - j, the number of positions left.
   */
  function Shuffle(s: seq<nat>, j: nat, i: nat): (r: seq<nat>)
    requires j <= |s|
    ensures |r| == |s|
    decreases |s| - j
  {
    if j == |s| then s else Shuffle(Swap(s, j, j + i % (|s| - j)), j + 1, i / (|s| - j))
  }

  /** The array `bench_permutation(i, buffer, n)` leaves. */
  function Permutation(i: nat, n: nat): (r: seq<nat>)
    ensures |r| == n
  {
    Shuffle(Iota(n), 0, i)
  }

  /**
   * `bench_permutation(i, buffer, size)`: fill the buffer with 0..size-1,
   * then swap each position with a later one chosen by the next digit of i.
   * The entries are `uint32_t`, so the buffer holds at most 2^32 of them.
   */
  method PermuteInto(i: nat, buffer: array<nat>)
    requires IsU64(i) && buffer.Length <= 0x1_0000_0000
    modifies buffer
    ensures buffer[..] == Permutation(i, buffer.Length)
  {
    var n := buffer.Length;
    for j := 0 to n
      invariant forall k :: 0 <= k < j ==> buffer[k] == k
    {
      buffer[j] := j;
    }
    assert buffer[..] == Iota(n);
    var rest: nat := i;
    var j: nat := 0;
    while j < n
      invariant j <= n
      invariant Shuffle(buffer[..], j, rest) == Permutation(i, n)
    {
      var left: nat := n - j;
      DivBounds(rest, left);
      var b := j + rest % left;
      ShuffleStep(buffer[..], j, rest);
      SwapAt(buffer, j, b);
      rest := rest / left;
      j := j + 1;
    }
  }

  /** One round of the swap loop: exchange position j, then go on with the quotient. */
  lemma ShuffleStep(s: seq<nat>, j: nat, i: nat)
    requires j < |s|
    ensures Shuffle(s, j, i) == Shuffle(Swap(s, j, j + i % (|s| - j)), j + 1, i / (|s| - j))
  {
  }

  /** The digit and the quotient of a division by the positions left. */
  lemma DivBounds(i: nat, left: nat)
    requires left > 0
    ensures 0 <= i % left < left && 0 <= i / left
  {
  }

  /** One exchange of the swap loop, in place. */
  method SwapAt(buffer: array<nat>, a: nat, b: nat)
    requires a < buffer.Length && b < buffer.Length
    modifies buffer
    ensures buffer[..] == Swap(old(buffer[..]), a, b)
  {
    var t := buffer[b];
    buffer[b] := buffer[a];
    buffer[a] := t;
  }

  /** Index 0 leaves the identity: every swap is with the position itself. */
  lemma {:induction false} ShuffleZero(s: seq<nat>, j: nat)
    requires j <= |s|
    ensures Shuffle(s, j, 0) == s
    decreases |s| - j
  {
    if j < |s| {
      assert Swap(s, j, j) == s;
      ShuffleZero(s, j + 1);
    }
  }

  lemma PermutationIdentity(n: nat)
    ensures Permutation(0, n) == Iota(n)
  {
    ShuffleZero(Iota(n), 0);
  }

  /** A swap only rearranges the elements. */
  lemma SwapMultiset(s: seq<nat>, a: nat, b: nat)
    requires a < |s| && b < |s|
    ensures multiset(Swap(s, a, b)) == multiset(s)
  {
    if a == b {
      assert Swap(s, a, b) == s;
    } else {
      var u := s[b := s[a]];
      UpdateMultiset(s, b, s[a]);
      assert u[a] == s[a];
      UpdateMultiset(u, a, s[b]);
      TradeBack(multiset(s), s[b], s[a]);
    }
  }

  /** Trading x for y and then y back for x restores a multiset holding x. */
  lemma TradeBack(m: multiset<nat>, x: nat, y: nat)
    requires x in m
    ensures m - multiset{x} + multiset{y} - multiset{y} + multiset{x} == m
  {
  }

  /** Overwriting one entry trades its old value for the new one. */
  lemma UpdateMultiset(s: seq<nat>, k: nat, v: nat)
    requires k < |s|
    ensures multiset(s[k := v]) == multiset(s) - multiset{s[k]} + multiset{v}
  {
  }

  /** The swaps only rearrange the elements, and keep them pairwise distinct. */
  lemma {:induction false} ShuffleMultiset(s: seq<nat>, j: nat, i: nat)
    requires j <= |s|
    ensures multiset(Shuffle(s, j, i)) == multiset(s)
    ensures |Shuffle(s, j, i)| == |s|
    decreases |s| - j
  {
    if j < |s| {
      DivBounds(i, |s| - j);
      var b := j + i % (|s| - j);
      var t := Swap(s, j, b);
      ShuffleStep(s, j, i);
      SwapMultiset(s, j, b);
      ShuffleMultiset(t, j + 1, i / (|s| - j));
    }
  }

  /** Pairwise distinct elements. */
  predicate Distinct(s: seq<nat>)
  {
    forall a, b :: 0 <= a < b < |s| ==> s[a] != s[b]
  }

  /** Swapping keeps the elements pairwise distinct. */
  lemma {:induction false} ShuffleDistinct(s: seq<nat>, j: nat, i: nat)
    requires j <= |s| && Distinct(s)
    ensures Distinct(Shuffle(s, j, i))
    decreases |s| - j
  {
    if j < |s| {
      DivBounds(i, |s| - j);
      var b := j + i % (|s| - j);
      var t := Swap(s, j, b);
      forall x, y | 0 <= x < y < |t|
        ensures t[x] != t[y]
      {
        var x' := if x == j then b else if x == b then j else x;
        var y' := if y == j then b else if y == b then j else y;
        assert t[x] == s[x'] && t[y] == s[y'];
      }
      ShuffleDistinct(t, j + 1, i / (|s| - j));
    }
  }

  /**
   * Whatever the index, `bench_permutation` leaves each of 0..n-1 exactly
   * once: the entries are a rearrangement of 0..n-1, pairwise distinct and
   * all below n.
   */
  lemma PermutationValid(i: nat, n: nat)
    ensures |Permutation(i, n)| == n
    ensures multiset(Permutation(i, n)) == multiset(Iota(n))
    ensures Distinct(Permutation(i, n))
    ensures forall k :: 0 <= k < n ==> Permutation(i, n)[k] < n
  {
    ShuffleMultiset(Iota(n), 0, i);
    ShuffleDistinct(Iota(n), 0, i);
    var p := Permutation(i, n);
    forall k | 0 <= k < n
      ensures p[k] < n
    {
      assert p[k] in multiset(p);
      assert p[k] in Iota(n);
    }
  }

  /** The `--step` window: start, stop and stride, all `size_t`. */
  datatype StepWindow = StepWindow(start: nat, stop: nat, stride: nat)

  /** The window without `--step`: start 0, stop SIZE_MAX, stride 1. */
  const AllSteps: StepWindow := StepWindow(0, U64 - 1, 1)

  /**
   * The filter of `perm_run` at step s: inside [start, stop) and a whole
   * number of strides past start. A zero stride divides by zero once the
   * range test passes (`None`).
   */
  function StepRuns(w: StepWindow, s: nat): (r: Option<bool>)
    ensures r.None? <==> w.start <= s < w.stop && w.stride == 0
    ensures r == Some(true) ==> w.start <= s < w.stop
  {
    if !(s >= w.start && s < w.stop) then Some(false)
    else if w.stride == 0 then None
    else Some((s - w.start) % w.stride == 0)
  }

  /** With a nonzero stride, step s runs exactly when it is start + j * stride below stop. */
  lemma StepRunsIff(w: StepWindow, s: nat)
    requires w.stride > 0
    ensures StepRuns(w, s) == Some(true) <==> s < w.stop && exists j: nat :: s == w.start + j * w.stride
  {
    if s >= w.start && s < w.stop && (s - w.start) % w.stride == 0 {
      var j := (s - w.start) / w.stride;
      assert s == w.start + j * w.stride;
    }
    if s < w.stop && exists j: nat :: s == w.start + j * w.stride {
      var j: nat :| s == w.start + j * w.stride;
      assert s - w.start == j * w.stride;
      ModAddMultiple(0, w.stride, j);
    }
  }

  /** Without `--step` every step below SIZE_MAX runs. */
  lemma AllStepsRun(s: nat)
    requires s < U64 - 1
    ensures StepRuns(AllSteps, s) == Some(true)
  {
  }

  /** The global `bench_step` counter. */
  class StepCounter {
    var step: nat

    constructor ()
      ensures step == 0
    {
      step := 0;
    }

    /**
     * The head of `perm_run`: decide whether the current step runs and
     * advance the counter in `size_t` either way. `None` is the division by
     * zero of a zero stride.
     */
    method Admit(w: StepWindow) returns (r: Option<bool>)
      requires IsU64(step) && IsU64(w.start) && IsU64(w.stop) && IsU64(w.stride)
      modifies this
      ensures r == StepRuns(w, old(step))
      ensures r.Some? ==> step == (old(step) + 1) % U64
    {
      if !(step >= w.start && step < w.stop) {
        step := (step + 1) % U64;
        return Some(false);
      }
      if w.stride == 0 {
        return None;
      }
      r := Some((step - w.start) % w.stride == 0);
      step := (step + 1) % U64;
    }
  }
}

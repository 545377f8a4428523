/**
 * Override value lists: what a `--define NAME=...` request evaluates to
 * (`bench_override_value_t`, `bench_override_cb` in runners/bench_runner.c).
 *
 * An override is a list of entries; an entry with step 0 is one value
 * (`start`), any other entry is a range `range(start, stop, step)`. The
 * override's i-th permutation is the i-th element of the concatenation of
 * its entries.
 */
module Overrides {
  import opened Base

  datatype OverrideValue = OverrideValue(start: int, stop: int, step: int)

  /** The three fields are `intmax_t`. */
  predicate WellFormedValue(v: OverrideValue)
  {
    IsI64(v.start) && IsI64(v.stop) && IsI64(v.step)
  }

  /**
   * The number of elements of a range entry, as both `bench_override_cb` and
   * the `--define` parser compute it: C's truncating division of the
   * distance by the step, plus one, stored into a `size_t`.
   */
  function RangeCount(v: OverrideValue): (n: nat)
    requires v.step != 0
    ensures IsU64(n)
  {
    ToU64(if v.step > 0 then TruncDiv(v.stop - 1 - v.start, v.step) + 1
          else TruncDiv(v.start - 1 - v.stop, -v.step) + 1)
  }

  /** How many elements an entry contributes. */
  function ValueCount(v: OverrideValue): (n: nat)
    ensures IsU64(n)
  {
    if v.step == 0 then 1 else RangeCount(v)
  }

  /**
   * The j-th element of an entry. For a range the source computes
   * `i*v->step + v->start` in `uintmax_t` and returns it as `intmax_t`.
   */
  function Element(v: OverrideValue, j: nat): (r: int)
    ensures IsI64(v.start) ==> IsI64(r)
  {
    if v.step == 0 then v.start else ToI64(ToU64(j * v.step + v.start))
  }

  /**
   * A range element is `start + j*step` up to wrap-around: equal to it
   * modulo 2^64, and equal outright when that fits in an `intmax_t`.
   */
  lemma ElementWraps(v: OverrideValue, j: nat)
    requires v.step != 0
    ensures IsI64(Element(v, j)) && ToU64(Element(v, j)) == ToU64(j * v.step + v.start)
    ensures IsI64(j * v.step + v.start) ==> Element(v, j) == j * v.step + v.start
  {
    var x := j * v.step + v.start;
    if IsI64(x) {
      SignedRoundTrip(x);
    }
  }

  /** All elements of an entry, in order. */
  function Elements(v: OverrideValue): (s: seq<int>)
    ensures |s| == ValueCount(v)
  {
    seq(ValueCount(v), j requires 0 <= j => Element(v, j))
  }

  /** The concatenation of the entries' elements: the override's permutations in order. */
  function Flatten(values: seq<OverrideValue>): (s: seq<int>)
    ensures |s| == SumCounts(values)
    decreases |values|
  {
    if |values| == 0 then [] else Elements(values[0]) + Flatten(values[1..])
  }

  /**
   * `bench_override_cb(data, i)` as a function: None where the source reaches
   * its `assert(false)` (an index past the last element).
   */
  function OverrideAt(values: seq<OverrideValue>, i: nat): (r: Option<int>)
    ensures r.Some? <==> i < SumCounts(values)
    decreases |values|
  {
    if |values| == 0 then None
    else if i < ValueCount(values[0]) then Some(Element(values[0], i))
    else OverrideAt(values[1..], i - ValueCount(values[0]))
  }

  /** The loop of `bench_override_cb`, proved to compute OverrideAt. */
  method OverrideCb(values: seq<OverrideValue>, i: nat) returns (r: Option<int>)
    ensures r == OverrideAt(values, i)
  {
    var j := 0;
    var k := i;
    while j < |values|
      invariant 0 <= j <= |values|
      invariant OverrideAt(values[j..], k) == OverrideAt(values, i)
    {
      var v := values[j];
      assert values[j..][1..] == values[j + 1..];
      if v.step != 0 {
        var rangeCount := RangeCount(v);
        if k < rangeCount {
          return Some(Element(v, k));
        }
        k := k - rangeCount;
      } else {
        if k == 0 {
          return Some(v.start);
        }
        k := k - 1;
      }
      j := j + 1;
    }
    return None;
  }

  /**
   * `override_permutations` as the `--define` parser accumulates it into a
   * `size_t`: one per single value, the range count per range.
   */
  function DeclaredPermutations(values: seq<OverrideValue>): (n: nat)
    ensures IsU64(n)
  {
    if |values| == 0 then 0
    else (DeclaredPermutations(values[..|values| - 1]) + ValueCount(values[|values| - 1])) % U64
  }

  /**
   * An entry as the `--define` parser reads it: a single value, or
   * `range(start, stop, step)` with the defaults already filled in.
   */
  datatype Entry = Single(value: int) | Range(start: int, stop: int, step: int)

  /** `range(..., 0)`: the parser divides by the negated step, so a zero step traps. */
  predicate ZeroStep(e: Entry)
  {
    e.Range? && e.step == 0
  }

  /**
   * The record the parser appends for an entry: a single value has step 0
   * and so reads as itself alone, a range keeps its three fields.
   */
  function Stored(e: Entry): (v: OverrideValue)
    ensures e.Single? ==> v.step == 0 && Elements(v) == [e.value]
    ensures e.Range? ==> v.start == e.start && v.stop == e.stop && v.step == e.step
  {
    match e
    case Single(x) =>
      var v := OverrideValue(x, 0, 0);
      assert Elements(v) == [Element(v, 0)];
      v
    case Range(start, stop, step) => OverrideValue(start, stop, step)
  }

  function StoredValues(entries: seq<Entry>): (vs: seq<OverrideValue>)
    ensures |vs| == |entries| && forall i :: 0 <= i < |entries| ==> vs[i] == Stored(entries[i])
  {
    seq(|entries|, i requires 0 <= i < |entries| => Stored(entries[i]))
  }

  /** What the parser adds to `override_permutations` for one entry; None where it divides by zero. */
  function EntryCount(e: Entry): (r: Option<nat>)
    ensures r.None? <==> ZeroStep(e)
    ensures r.Some? ==> r.value == ValueCount(Stored(e))
  {
    match e
    case Single(_) => Some(1)
    case Range(start, stop, step) =>
      if step > 0 then Some(ToU64(TruncDiv(stop - 1 - start, step) + 1))
      else if step == 0 then None
      else Some(ToU64(TruncDiv(start - 1 - stop, -step) + 1))
  }

  /**
   * `override_permutations` after the parser's loop over the entries: a
   * `size_t` sum of the entry counts, None when some range has a zero step
   * (the division by zero that ends the program). When it has a value, that
   * value is the count of the records stored.
   */
  function ParsedPermutations(entries: seq<Entry>): (r: Option<nat>)
    ensures r.None? <==> exists i :: 0 <= i < |entries| && ZeroStep(entries[i])
    ensures r.Some? ==> r.value == DeclaredPermutations(StoredValues(entries))
    decreases |entries|
  {
    if |entries| == 0 then Some(0)
    else
      var init, last := entries[..|entries| - 1], entries[|entries| - 1];
      assert StoredValues(entries)[..|entries| - 1] == StoredValues(init);
      match ParsedPermutations(init)
      case None => None
      case Some(n) =>
        match EntryCount(last)
        case None => None
        case Some(k) => Some((n + k) % U64)
  }

  /**
   * `range(0,4,0)` ends the program while the count is computed, although
   * the record it would store reads as the single value 0.
   */
  lemma ZeroStepRange()
    ensures ParsedPermutations([Single(1), Range(0, 4, 0)]) == None
    ensures Elements(Stored(Range(0, 4, 0))) == [0]
  {
    assert ZeroStep([Single(1), Range(0, 4, 0)][1]);
    var v := Stored(Range(0, 4, 0));
    assert Elements(v) == [Element(v, 0)];
  }

  /**
   * A `--define` value list that parses counts exactly the elements the
   * evaluator enumerates, modulo the `size_t` width.
   */
  lemma ParsedIsFlattenLength(entries: seq<Entry>)
    requires forall i :: 0 <= i < |entries| ==> !ZeroStep(entries[i])
    ensures ParsedPermutations(entries) == Some(|Flatten(StoredValues(entries))| % U64)
  {
    DeclaredIsFlattenLength(StoredValues(entries));
  }

  function SumCounts(values: seq<OverrideValue>): nat
    decreases |values|
  {
    if |values| == 0 then 0 else ValueCount(values[0]) + SumCounts(values[1..])
  }

  lemma {:induction false} SumCountsSnoc(values: seq<OverrideValue>, v: OverrideValue)
    ensures SumCounts(values + [v]) == SumCounts(values) + ValueCount(v)
    decreases |values|
  {
    if |values| > 0 {
      assert (values + [v])[1..] == values[1..] + [v];
      SumCountsSnoc(values[1..], v);
    }
  }

  /**
   * The evaluator and the parser agree: the declared permutation count is
   * the number of elements of the concatenation, modulo the `size_t` width.
   */
  lemma {:induction false} DeclaredIsFlattenLength(values: seq<OverrideValue>)
    ensures DeclaredPermutations(values) == |Flatten(values)| % U64
    decreases |values|
  {
    if |values| > 0 {
      var init := values[..|values| - 1];
      var last := values[|values| - 1];
      assert values == init + [last];
      DeclaredIsFlattenLength(init);
      SumCountsSnoc(init, last);
      ModAddAbsorb(SumCounts(init), ValueCount(last), U64);
    }
  }

  /** The i-th permutation of an override is the i-th element of the concatenation. */
  lemma {:induction false} OverrideAtFlatten(values: seq<OverrideValue>, i: nat)
    ensures OverrideAt(values, i) == if i < |Flatten(values)| then Some(Flatten(values)[i]) else None
    decreases |values|
  {
    if |values| > 0 {
      var v := values[0];
      OverrideAtFlatten(values[1..], if i < ValueCount(v) then 0 else i - ValueCount(v));
    }
  }

  /** Every index below the declared count has a value, so the `assert(false)` is unreachable. */
  lemma DeclaredIndicesEvaluate(values: seq<OverrideValue>, i: nat)
    requires i < DeclaredPermutations(values)
    ensures OverrideAt(values, i).Some?
  {
    DeclaredIsFlattenLength(values);
    ModAtMost(|Flatten(values)|, U64);
  }

  /**
   * An ascending range with start < stop holds exactly the values
   * start, start+step, ... below stop, and as many as there are.
   */
  lemma AscendingRange(v: OverrideValue, j: nat)
    requires WellFormedValue(v) && v.step > 0 && v.start < v.stop
    ensures RangeCount(v) == (v.stop - v.start + v.step - 1) / v.step
    ensures j < RangeCount(v) ==> Element(v, j) == v.start + j * v.step && v.start <= Element(v, j) < v.stop
  {
    var a := v.stop - 1 - v.start;
    var n := a / v.step + 1;
    CountOfDistance(a, v.step);
    assert RangeCount(v) == n;
    if j < n {
      BelowQuotient(a, v.step, j);
      ElementWraps(v, j);
    }
  }

  /** A descending range with stop < start holds start, start+step, ... above stop. */
  lemma DescendingRange(v: OverrideValue, j: nat)
    requires WellFormedValue(v) && v.step < 0 && v.stop < v.start
    ensures RangeCount(v) == (v.start - v.stop - v.step - 1) / -v.step
    ensures j < RangeCount(v) ==> Element(v, j) == v.start + j * v.step && v.stop < Element(v, j) <= v.start
  {
    var a := v.start - 1 - v.stop;
    var n := a / -v.step + 1;
    CountOfDistance(a, -v.step);
    assert RangeCount(v) == n;
    if j < n {
      StepsBelow(a, v.step, j);
      ElementWraps(v, j);
    }
  }

  /** Below the quotient, j negative steps stay within a of the start. */
  /** A nonnegative distance a below 2^64 - 1 and a positive step b count a/b + 1 elements. */
  lemma CountOfDistance(a: int, b: int)
    requires 0 <= a && a + 1 < U64 && b > 0
    ensures ToU64(TruncDiv(a, b) + 1) == a / b + 1
    ensures (a + b) / b == a / b + 1
  {
    QuotientSucc(a, b);
    assert TruncDiv(a, b) == a / b;
  }

  lemma StepsBelow(a: int, step: int, j: nat)
    requires a >= 0 && step < 0 && j <= a / -step
    ensures -a <= j * step <= 0
  {
    BelowQuotient(a, -step, j);
    assert j * step == -(j * -step);
  }

  /** `range(0,3)` yields 0, 1, 2. */
  lemma RangeZeroToThree()
    ensures Flatten([OverrideValue(0, 3, 1)]) == [0, 1, 2]
  {
    var v := OverrideValue(0, 3, 1);
    assert RangeCount(v) == 3;
    assert Elements(v) == [0, 1, 2];
    assert Flatten([v]) == Elements(v) + Flatten([]);
  }

  /**
   * The count formula rounds toward zero: `range(0,0,2)` is counted as one
   * element (0) although the range is empty, and `range(5,2)` produces a
   * negative count that becomes 2^64-3 as a `size_t`.
   */
  lemma EmptyRangeCounts()
    ensures RangeCount(OverrideValue(0, 0, 2)) == 1
    ensures Flatten([OverrideValue(0, 0, 2)]) == [0]
    ensures RangeCount(OverrideValue(5, 2, 1)) == U64 - 3
  {
    var v := OverrideValue(0, 0, 2);
    assert TruncDiv(-1, 2) == 0;
    assert Elements(v) == [0];
    assert Flatten([v]) == Elements(v) + Flatten([]);
  }
}

/**
 * The mutable define state of runners/bench_runner.c and the operations
 * that change it: installing a suite (`bench_define_suite`), a case row
 * (`bench_define_case`) or a replay layer (`bench_define_explicit`),
 * selecting a flat permutation (`bench_define_permutation`), reading a define
 * (`bench_define`), recording the resolved tuple in the dedup trie
 * (`bench_seen_insert`), printing the permutation identity
 * (`perm_printid`) and enumerating a case's permutations (`case_forperm`).
 */
module Engine {
  import opened Base
  import opened Overrides
  import opened Leb16
  import opened Defines
  import opened Registry
  import opened Evaluation
  import opened SeenTrie
  import opened Dedup
  import opened Identity

  /**
   * The tuple `bench_seen_insert` walks for slots 0..n-1: the value of each
   * slot that is a permutation define, 0 for the others, or the first fatal
   * error of reading one.
   */
  ghost function TupleKey(m: Maps, c: seq<CacheEntry>, rank: seq<nat>, n: nat): (r: Result<seq<int>>)
    requires Ranked(c, rank) && n <= |c|
    ensures r.Ok? ==> |r.value| == n
  {
    if n == 0 then Ok([])
    else
      match TupleKey(m, c, rank, n - 1)
      case Err(e) => Err(e)
      case Ok(k) =>
        if IsPermutation(m, n - 1) then
          (match Value(c, rank, n - 1)
           case Err(e) => Err(e)
           case Ok(v) => Ok(k + [v]))
        else Ok(k + [0])
  }

  /** Once reading slot n-1 fails, the tuple of any longer prefix fails the same way. */
  lemma {:induction false} TupleKeyErr(m: Maps, c: seq<CacheEntry>, rank: seq<nat>, n: nat, n': nat)
    requires Ranked(c, rank) && n <= n' <= |c| && TupleKey(m, c, rank, n).Err?
    ensures TupleKey(m, c, rank, n') == TupleKey(m, c, rank, n)
    decreases n' - n
  {
    if n' > n {
      TupleKeyErr(m, c, rank, n, n' - 1);
    }
  }

  /**
   * The (slot, value) pairs `perm_printid` prints for slots 0..n-1: one per
   * permutation define, in slot order, or the first fatal error.
   */
  ghost function VaryingPairs(m: Maps, c: seq<CacheEntry>, rank: seq<nat>, n: nat): (r: Result<seq<Pair>>)
    requires Ranked(c, rank) && n <= |c|
    ensures r.Ok? ==> forall i :: 0 <= i < |r.value| ==> r.value[i].slot < n
  {
    if n == 0 then Ok([])
    else
      match VaryingPairs(m, c, rank, n - 1)
      case Err(e) => Err(e)
      case Ok(ps) =>
        if IsPermutation(m, n - 1) then
          (match Value(c, rank, n - 1)
           case Err(e) => Err(e)
           case Ok(v) => Ok(ps + [Pair(n - 1, v)]))
        else Ok(ps)
  }

  lemma {:induction false} VaryingPairsErr(m: Maps, c: seq<CacheEntry>, rank: seq<nat>, n: nat, n': nat)
    requires Ranked(c, rank) && n <= n' <= |c| && VaryingPairs(m, c, rank, n).Err?
    ensures VaryingPairs(m, c, rank, n') == VaryingPairs(m, c, rank, n)
    decreases n' - n
  {
    if n' > n {
      VaryingPairsErr(m, c, rank, n, n' - 1);
    }
  }

  /** Every printed pair is a permutation define below n with the value reading it gives. */
  lemma {:induction false} VaryingPairsSlots(m: Maps, c: seq<CacheEntry>, rank: seq<nat>, n: nat)
    requires Ranked(c, rank) && n <= |c| && VaryingPairs(m, c, rank, n).Ok?
    ensures var ps := VaryingPairs(m, c, rank, n).value;
      forall i :: 0 <= i < |ps| ==> ps[i].slot < n && IsPermutation(m, ps[i].slot) && Value(c, rank, ps[i].slot) == Ok(ps[i].value)
    decreases n
  {
    if n > 0 {
      VaryingPairsSlots(m, c, rank, n - 1);
    }
  }

  /** The printed pairs are in strictly increasing slot order. */
  lemma {:induction false} VaryingPairsOrdered(m: Maps, c: seq<CacheEntry>, rank: seq<nat>, n: nat)
    requires Ranked(c, rank) && n <= |c| && VaryingPairs(m, c, rank, n).Ok?
    ensures var ps := VaryingPairs(m, c, rank, n).value;
      forall i, j :: 0 <= i < j < |ps| ==> ps[i].slot < ps[j].slot
    decreases n
  {
    if n > 0 {
      VaryingPairsOrdered(m, c, rank, n - 1);
    }
  }

  /** Every permutation define below n is printed. */
  lemma VaryingPairsComplete(m: Maps, c: seq<CacheEntry>, rank: seq<nat>, n: nat)
    requires Ranked(c, rank) && n <= |c| && VaryingPairs(m, c, rank, n).Ok?
    ensures var ps := VaryingPairs(m, c, rank, n).value;
      forall d :: 0 <= d < n && IsPermutation(m, d) ==> exists i :: 0 <= i < |ps| && ps[i].slot == d
  {
    forall d | 0 <= d < n && IsPermutation(m, d)
      ensures exists i :: 0 <= i < |VaryingPairs(m, c, rank, n).value| && VaryingPairs(m, c, rank, n).value[i].slot == d
    {
      var i := PairOf(m, c, rank, n, d);
    }
  }

  /** Where the pair of permutation define d stands among the printed pairs. */
  lemma {:induction false} PairOf(m: Maps, c: seq<CacheEntry>, rank: seq<nat>, n: nat, d: nat) returns (i: nat)
    requires Ranked(c, rank) && d < n <= |c| && VaryingPairs(m, c, rank, n).Ok? && IsPermutation(m, d)
    ensures i < |VaryingPairs(m, c, rank, n).value| && VaryingPairs(m, c, rank, n).value[i].slot == d
    decreases n
  {
    var ps := VaryingPairs(m, c, rank, n - 1).value;
    if d == n - 1 {
      i := |ps|;
    } else {
      i := PairOf(m, c, rank, n - 1, d);
    }
  }

  lemma TupleKeyStep(m: Maps, c: seq<CacheEntry>, rank: seq<nat>, d: nat, k: seq<int>, key: int)
    requires Ranked(c, rank) && d < |c| && TupleKey(m, c, rank, d) == Ok(k)
    requires IsPermutation(m, d) ==> Value(c, rank, d) == Ok(key)
    requires !IsPermutation(m, d) ==> key == 0
    ensures TupleKey(m, c, rank, d + 1) == Ok(k + [key])
  {
  }

  lemma VaryingPairsStep(m: Maps, c: seq<CacheEntry>, rank: seq<nat>, d: nat, ps: seq<Pair>, v: int)
    requires Ranked(c, rank) && d < |c| && VaryingPairs(m, c, rank, d) == Ok(ps)
    requires IsPermutation(m, d) && Value(c, rank, d) == Ok(v)
    ensures VaryingPairs(m, c, rank, d + 1) == Ok(ps + [Pair(d, v)])
  {
  }

  /** The identity printed for slots 0..d-1: the head, then the encoding of their varying pairs. */
  ghost predicate Printed(m: Maps, c: seq<CacheEntry>, rank: seq<nat>, d: nat, head: string, ps: seq<Pair>, id: string)
  {
    && Ranked(c, rank) && d <= |c|
    && VaryingPairs(m, c, rank, d) == Ok(ps)
    && WellFormedPairs(ps) && id == head + EncodePairs(ps)
  }

  /** Printing a permutation define extends the identity by its pair. */
  lemma PrintedStep(m: Maps, c: seq<CacheEntry>, rank: seq<nat>, d: nat, head: string, ps: seq<Pair>, id: string, v: int)
    requires Printed(m, c, rank, d, head, ps, id) && d < |c| && IsU64(d)
    requires IsPermutation(m, d) && Value(c, rank, d) == Ok(v)
    ensures Printed(m, c, rank, d + 1, head, ps + [Pair(d, v)], id + Print(d) + Print(ToU64(v)))
  {
    VaryingPairsStep(m, c, rank, d, ps, v);
    PrintIdStep(head, ps, Pair(d, v));
  }

  /** A slot that is not a permutation define prints nothing. */
  lemma PrintedSkip(m: Maps, c: seq<CacheEntry>, rank: seq<nat>, d: nat, head: string, ps: seq<Pair>, id: string)
    requires Printed(m, c, rank, d, head, ps, id) && d < |c| && !IsPermutation(m, d)
    ensures Printed(m, c, rank, d + 1, head, ps, id)
  {
  }

  /**
   * Replaying a printed identity: when no define below n varies, the
   * identity replays no layer, so the case is enumerated in full again;
   * otherwise the explicit layer decoded from it holds, at every permutation
   * define below n, the literal of the value that define read (as
   * `intmax_t`), and a null define at every other slot.
   */
  lemma ReplayVarying(m: Maps, c: seq<CacheEntry>, rank: seq<nat>, n: nat, name: string)
    requires Ranked(c, rank) && n <= |c| && IsU64(n) && VaryingPairs(m, c, rank, n).Ok?
    requires forall j :: 0 <= j < |name| ==> name[j] != ':'
    ensures var ps := VaryingPairs(m, c, rank, n).value;
      && WellFormedPairs(ps)
      && (IdentityDefines(name + ":" + EncodePairs(ps)).None? <==> forall d :: 0 <= d < n ==> !IsPermutation(m, d))
      && (IdentityDefines(name + ":" + EncodePairs(ps)).Some? ==>
        var layer := IdentityDefines(name + ":" + EncodePairs(ps)).value;
        && (forall d :: 0 <= d < n && IsPermutation(m, d) ==>
              d < |layer| && Value(c, rank, d).Ok? && layer[d] == LitDefine(ToI64(ToU64(Value(c, rank, d).value))))
        && (forall d :: 0 <= d < |layer| && (d >= n || !IsPermutation(m, d)) ==> layer[d] == NullDefine))
  {
    var ps := VaryingPairs(m, c, rank, n).value;
    VaryingPairsSlots(m, c, rank, n);
    assert WellFormedPairs(ps);
    ReplayIdentity(name, ps);
    if |ps| == 0 {
      NoneVarying(m, c, rank, n);
    } else {
      assert ps[0].slot < n && IsPermutation(m, ps[0].slot);
      VaryingLayer(m, c, rank, n);
    }
  }

  /** With no pair printed, no define below n is a permutation define. */
  lemma NoneVarying(m: Maps, c: seq<CacheEntry>, rank: seq<nat>, n: nat)
    requires Ranked(c, rank) && n <= |c| && VaryingPairs(m, c, rank, n) == Ok([])
    ensures forall d :: 0 <= d < n ==> !IsPermutation(m, d)
  {
    forall d | 0 <= d < n
      ensures !IsPermutation(m, d)
    {
      if IsPermutation(m, d) {
        var i := PairOf(m, c, rank, n, d);
      }
    }
  }

  /** The layer installing the printed pairs: their literals at their slots, null elsewhere. */
  lemma VaryingLayer(m: Maps, c: seq<CacheEntry>, rank: seq<nat>, n: nat)
    requires Ranked(c, rank) && n <= |c| && IsU64(n) && VaryingPairs(m, c, rank, n).Ok?
    ensures var ps := VaryingPairs(m, c, rank, n).value;
      var layer := Install([], ps);
      && (forall d :: 0 <= d < n && IsPermutation(m, d) ==>
            d < |layer| && Value(c, rank, d).Ok? && layer[d] == LitDefine(ToI64(ToU64(Value(c, rank, d).value))))
      && (forall d :: 0 <= d < |layer| && (d >= n || !IsPermutation(m, d)) ==> layer[d] == NullDefine)
  {
    var ps := VaryingPairs(m, c, rank, n).value;
    VaryingPairsSlots(m, c, rank, n);
    VaryingPairsOrdered(m, c, rank, n);
    InstallContents([], ps);
    var layer := Install([], ps);
    forall d | 0 <= d < n && IsPermutation(m, d)
      ensures d < |layer| && Value(c, rank, d).Ok? && layer[d] == LitDefine(ToI64(ToU64(Value(c, rank, d).value)))
    {
      var i := PairOf(m, c, rank, n, d);
    }
  }

  /** Printing one more pair extends the identity by that pair's encoding. */
  lemma PrintIdStep(head: string, ps: seq<Pair>, p: Pair)
    requires WellFormedPairs(ps) && IsU64(p.slot)
    ensures WellFormedPairs(ps + [p])
    ensures head + EncodePairs(ps) + Print(p.slot) + Print(ToU64(p.value)) == head + EncodePairs(ps + [p])
  {
    EncodePairsSnoc(ps, p);
    AppendAssoc(head, EncodePairs(ps), Print(p.slot), Print(ToU64(p.value)));
  }

  lemma AppendAssoc(w: string, x: string, y: string, z: string)
    ensures w + x + y + z == w + (x + (y + z))
  {
  }

  /** Every prefix of every tuple in s. */
  ghost function Closure(s: set<seq<int>>): set<seq<int>>
  {
    set t, j | t in s && 0 <= j <= |t| :: t[..j]
  }

  lemma ClosureAdd(s: set<seq<int>>, k: seq<int>)
    ensures Closure(s + {k}) == Closure(s) + Prefixes(k)
  {
  }

  /**
   * With every recorded tuple of length n >= 1, a tuple of length n is a
   * path of the trie exactly when it was recorded.
   */
  lemma ClosureMember(s: set<seq<int>>, n: nat, k: seq<int>)
    requires n >= 1 && |k| == n && forall t :: t in s ==> |t| == n
    ensures k in {[]} + Closure(s) <==> k in s
  {
    if k in Closure(s) {
      var t, j :| t in s && 0 <= j <= |t| && k == t[..j];
      assert t[..|t|] == t;
    }
    if k in s {
      assert k[..|k|] == k;
    }
  }

  /** The rows `case_forperm` enumerates: the case's permutations, at least one. */
  function Rows(c: Case): (n: nat)
    ensures n >= 1 && (c.permutations > 0 ==> n == c.permutations)
  {
    if c.permutations == 0 then 1 else c.permutations
  }

  /** Row k of the case's define matrix lies inside the matrix. */
  predicate RowInMatrix(suite: Suite, c: Case, k: nat)
  {
    c.defines.Some? ==> (k + 1) * |suite.defineNames| <= |c.defines.value|
  }

  /** The registry while row k is installed. */
  function RowMaps(m: Maps, suite: Suite, c: Case, k: nat): (m': Maps)
    requires RowInMatrix(suite, c, k)
    ensures m'.overrideMap == m.overrideMap && m'.explicitMap == m.explicitMap && m'.implicitMap == m.implicitMap
    ensures m'.caseMap == CaseRow(suite, c, k)
  {
    m.(caseMap := CaseRow(suite, c, k))
  }

  /**
   * What `case_forperm` needs from every row: the row lies in the matrix,
   * no covering define has a zero `permutations` field and the computed
   * defines read downward in the rank.
   */
  ghost predicate RowsReady(m: Maps, suite: Suite, c: Case, count: nat, rank: seq<nat>)
  {
    forall k :: 0 <= k < Rows(c) ==>
      RowInMatrix(suite, c, k) && NonzeroMaps(RowMaps(m, suite, c, k)) && RankedMaps(RowMaps(m, suite, c, k), count, rank)
  }

  /** The tuple flat permutation p of a registry resolves to. */
  ghost function SelectedKey(m: Maps, count: nat, rank: seq<nat>, p: nat): (r: Result<seq<int>>)
    requires RankedMaps(m, count, rank)
    ensures r.Ok? ==> |r.value| == count
  {
    SelectionRanked(m, count, p, rank);
    TupleKey(m, Selection(m, count, p), rank, count)
  }

  /** The candidates (row, 0) .. (row, n-1), in order. */
  function Flat(row: nat, n: nat): (cs: seq<Run>)
    ensures |cs| == n && forall p :: 0 <= p < n ==> cs[p] == Run(row, p)
  {
    if n == 0 then [] else Flat(row, n - 1) + [Run(row, n - 1)]
  }

  /** The tuples flat permutations 0 .. n-1 of a registry resolve to. */
  ghost function KeyRun(m: Maps, count: nat, rank: seq<nat>, n: nat): (ks: seq<Result<seq<int>>>)
    requires RankedMaps(m, count, rank)
    ensures |ks| == n && forall p :: 0 <= p < n ==> ks[p] == SelectedKey(m, count, rank, p)
  {
    if n == 0 then [] else KeyRun(m, count, rank, n - 1) + [SelectedKey(m, count, rank, n - 1)]
  }

  /** The first k rows of a matrix, one after another. */
  function Concat<T>(xss: seq<seq<T>>, k: nat): seq<T>
    requires k <= |xss|
  {
    if k == 0 then [] else xss[0] + Concat(xss[1..], k - 1)
  }

  /** The first k + 1 rows are the first k rows followed by row k. */
  lemma {:induction false} ConcatSnoc<T>(xss: seq<seq<T>>, k: nat)
    requires k < |xss|
    ensures Concat(xss, k + 1) == Concat(xss, k) + xss[k]
    decreases k
  {
    if k > 0 {
      ConcatSnoc(xss[1..], k - 1);
      assert xss[1..][k - 1] == xss[k];
    }
  }

  /** The first k rows begin the first K >= k rows. */
  lemma {:induction false} ConcatPrefix<T>(xss: seq<seq<T>>, k: nat, K: nat)
    requires k <= K <= |xss|
    ensures |Concat(xss, k)| <= |Concat(xss, K)| && Concat(xss, K)[..|Concat(xss, k)|] == Concat(xss, k)
    decreases K
  {
    if k < K {
      ConcatPrefix(xss, k, K - 1);
      ConcatSnoc(xss, K - 1);
      TakeAppend(Concat(xss, K - 1), xss[K - 1], |Concat(xss, k)|);
    } else {
      assert Concat(xss, K)[..|Concat(xss, K)|] == Concat(xss, K);
    }
  }

  /** Two matrices whose rows have the same lengths concatenate to the same length. */
  lemma {:induction false} ConcatLengths<T, U>(xss: seq<seq<T>>, yss: seq<seq<U>>, k: nat)
    requires k <= |xss| == |yss| && forall j :: 0 <= j < |xss| ==> |xss[j]| == |yss[j]|
    ensures |Concat(xss, k)| == |Concat(yss, k)|
    decreases k
  {
    if k > 0 {
      ConcatLengths(xss, yss, k - 1);
      ConcatSnoc(xss, k - 1);
      ConcatSnoc(yss, k - 1);
    }
  }

  /** Appending does not change a prefix. */
  lemma TakeAppend<T>(a: seq<T>, b: seq<T>, n: nat)
    requires n <= |a|
    ensures (a + b)[..n] == a[..n]
  {
  }

  /** For each row of the case, its candidates: the row with every flat index. */
  ghost function RowCands(m: Maps, suite: Suite, c: Case, count: nat, rank: seq<nat>): (rs: seq<seq<Run>>)
    requires RowsReady(m, suite, c, count, rank)
    ensures |rs| == Rows(c)
  {
    seq(Rows(c), j requires 0 <= j < Rows(c) => Flat(j, WrappedProduct(RowMaps(m, suite, c, j), count)))
  }

  /** For each row of the case, the tuples its candidates resolve to. */
  ghost function RowKeys(m: Maps, suite: Suite, c: Case, count: nat, rank: seq<nat>): (rs: seq<seq<Result<seq<int>>>>)
    requires RowsReady(m, suite, c, count, rank)
    ensures |rs| == Rows(c)
    ensures forall j :: 0 <= j < Rows(c) ==> |rs[j]| == |RowCands(m, suite, c, count, rank)[j]|
  {
    seq(Rows(c), j requires 0 <= j < Rows(c) =>
      var m' := RowMaps(m, suite, c, j);
      KeyRun(m', count, rank, WrappedProduct(m', count)))
  }

  /** The candidates of rows 0..k-1, rows outermost and flat indices innermost. */
  ghost function Cands(m: Maps, suite: Suite, c: Case, count: nat, rank: seq<nat>, k: nat): seq<Run>
    requires k <= Rows(c) && RowsReady(m, suite, c, count, rank)
  {
    Concat(RowCands(m, suite, c, count, rank), k)
  }

  /** The tuples the candidates of rows 0..k-1 resolve to. */
  ghost function Keys(m: Maps, suite: Suite, c: Case, count: nat, rank: seq<nat>, k: nat): (ks: seq<Result<seq<int>>>)
    requires k <= Rows(c) && RowsReady(m, suite, c, count, rank)
    ensures |ks| == |Cands(m, suite, c, count, rank, k)|
  {
    ConcatLengths(RowCands(m, suite, c, count, rank), RowKeys(m, suite, c, count, rank), k);
    Concat(RowKeys(m, suite, c, count, rank), k)
  }

  /** Every tuple the candidates of rows 0..k-1 resolve to has one value per define. */
  lemma KeysLengths(m: Maps, suite: Suite, c: Case, count: nat, rank: seq<nat>, k: nat)
    requires k <= Rows(c) && RowsReady(m, suite, c, count, rank)
    ensures KeyLengths(Keys(m, suite, c, count, rank, k), count)
  {
    var rows := RowKeys(m, suite, c, count, rank);
    forall j | 0 <= j < |rows|
      ensures KeyLengths(rows[j], count)
    {
      var m' := RowMaps(m, suite, c, j);
      assert RankedMaps(m', count, rank);
      KeyRunLengths(m', count, rank, WrappedProduct(m', count));
    }
    ConcatKeyLengths(rows, k, count);
  }

  /** Every tuple of a run of flat indices has one value per define. */
  lemma KeyRunLengths(m: Maps, count: nat, rank: seq<nat>, n: nat)
    requires RankedMaps(m, count, rank)
    ensures KeyLengths(KeyRun(m, count, rank, n), count)
  {
    var ks := KeyRun(m, count, rank, n);
    forall i | 0 <= i < |ks| && ks[i].Ok?
      ensures |ks[i].value| == count
    {
      assert ks[i] == SelectedKey(m, count, rank, i);
    }
  }

  /** Rows whose tuples all have one value per define concatenate to such tuples. */
  lemma {:induction false} ConcatKeyLengths(rows: seq<seq<Result<seq<int>>>>, k: nat, count: nat)
    requires k <= |rows| && forall j :: 0 <= j < |rows| ==> KeyLengths(rows[j], count)
    ensures KeyLengths(Concat(rows, k), count)
    decreases k
  {
    if k > 0 {
      ConcatKeyLengths(rows, k - 1, count);
      ConcatSnoc(rows, k - 1);
      KeyLengthsAppend(Concat(rows, k - 1), rows[k - 1], count);
    }
  }

  lemma KeyLengthsAppend(ks: seq<Result<seq<int>>>, ys: seq<Result<seq<int>>>, count: nat)
    requires KeyLengths(ks, count) && KeyLengths(ys, count)
    ensures KeyLengths(ks + ys, count)
  {
    forall i | 0 <= i < |ks + ys| && (ks + ys)[i].Ok?
      ensures |(ks + ys)[i].value| == count
    {
      if i >= |ks| {
        assert (ks + ys)[i] == ys[i - |ks|];
      }
    }
  }

  /** The runs of a successful enumeration, or its fatal error. */
  ghost function Enumerated(cands: seq<Run>, keys: seq<Result<seq<int>>>): Result<seq<Run>>
    requires |cands| == |keys|
  {
    match Filter(cands, keys)
    case Err(e) => Err(e)
    case Ok(pr) =>
      FilterKeptBound(cands, keys);
      Ok(KeptRuns(cands, pr.kept))
  }

  /** Rows of the form (j, 0), (j, 1), ... put (0, 0) only at the very front. */
  lemma {:induction false} ConcatFirst(rs: seq<seq<Run>>, k: nat)
    requires k <= |rs| && forall j :: 0 <= j < |rs| ==> rs[j] == Flat(j, |rs[j]|)
    ensures forall i :: 0 < i < |Concat(rs, k)| ==> !IsFirst(Concat(rs, k)[i])
    decreases k
  {
    if k > 0 {
      ConcatFirst(rs, k - 1);
      ConcatSnoc(rs, k - 1);
      var before := Concat(rs, k - 1);
      forall i | 0 < i < |Concat(rs, k)|
        ensures !IsFirst(Concat(rs, k)[i])
      {
        if i >= |before| {
          assert Concat(rs, k)[i] == rs[k - 1][i - |before|];
        }
      }
    }
  }

  /** Among the candidates of `case_forperm`, only the first can be (0, 0). */
  lemma CandsFirst(m: Maps, suite: Suite, c: Case, count: nat, rank: seq<nat>)
    requires RowsReady(m, suite, c, count, rank)
    ensures var cs := Cands(m, suite, c, count, rank, Rows(c));
      forall i :: 0 < i < |cs| ==> !IsFirst(cs[i])
  {
    var rs := RowCands(m, suite, c, count, rank);
    forall j | 0 <= j < |rs|
      ensures rs[j] == Flat(j, |rs[j]|)
    {
      assert rs[j] == Flat(j, WrappedProduct(RowMaps(m, suite, c, j), count));
    }
    ConcatFirst(rs, Rows(c));
  }

  /**
   * Exactly one run per distinct tuple over the whole of `case_forperm`:
   * the runs resolve to pairwise distinct tuples, and every candidate's
   * tuple is that of a run at or before it.
   */
  lemma ForPermDedup(m: Maps, suite: Suite, c: Case, count: nat, rank: seq<nat>)
    requires RowsReady(m, suite, c, count, rank)
    requires Filter(Cands(m, suite, c, count, rank, Rows(c)), Keys(m, suite, c, count, rank, Rows(c))).Ok?
    ensures OneRunPerTuple(Keys(m, suite, c, count, rank, Rows(c)),
      Filter(Cands(m, suite, c, count, rank, Rows(c)), Keys(m, suite, c, count, rank, Rows(c))).value.kept)
  {
    var cs, ks := Cands(m, suite, c, count, rank, Rows(c)), Keys(m, suite, c, count, rank, Rows(c));
    CandsFirst(m, suite, c, count, rank);
    OnePerTuple(cs, ks);
  }

  /**
   * The row loop so far: the enumeration succeeded with these runs, and the
   * trie holds exactly the prefixes of the tuples recorded.
   */
  ghost predicate Progressed(cs: seq<Run>, ks: seq<Result<seq<int>>>, runs: seq<Run>, paths: set<seq<int>>)
  {
    && |cs| == |ks|
    && Enumerated(cs, ks) == Ok(runs)
    && Filter(cs, ks).Ok?
    && paths == {[]} + Closure(Filter(cs, ks).value.seen)
  }

  /** Two registries that differ at most in their case layer. */
  predicate SameLayers(m: Maps, m0: Maps)
  {
    m.overrideMap == m0.overrideMap && m.explicitMap == m0.explicitMap && m.implicitMap == m0.implicitMap
  }

  /** Every tuple that resolved has one value per define. */
  predicate KeyLengths(ks: seq<Result<seq<int>>>, count: nat)
  {
    forall i :: 0 <= i < |ks| && ks[i].Ok? ==> |ks[i].value| == count
  }

  /** The row loop of `case_forperm` after k rows, with the runs so far and the trie's paths. */
  ghost predicate RowsDone(m: Maps, suite: Suite, c: Case, count: nat, rank: seq<nat>, k: nat, runs: seq<Run>, paths: set<seq<int>>)
  {
    && k <= Rows(c) && RowsReady(m, suite, c, count, rank)
    && Progressed(Cands(m, suite, c, count, rank, k), Keys(m, suite, c, count, rank, k), runs, paths)
  }

  /** Before the first row nothing has run and the trie holds only the root. */
  lemma RowsStart(m: Maps, suite: Suite, c: Case, count: nat, rank: seq<nat>)
    requires RowsReady(m, suite, c, count, rank)
    ensures RowsDone(m, suite, c, count, rank, 0, [], {[]})
  {
    assert KeptRuns([], []) == [];
    assert Closure({}) == {};
  }

  /** After the last row the runs are those of the whole enumeration. */
  lemma RowsEnd(m: Maps, suite: Suite, c: Case, count: nat, rank: seq<nat>, runs: seq<Run>, paths: set<seq<int>>)
    requires RowsDone(m, suite, c, count, rank, Rows(c), runs, paths)
    ensures Enumerated(Cands(m, suite, c, count, rank, Rows(c)), Keys(m, suite, c, count, rank, Rows(c))) == Ok(runs)
  {
  }

  /**
   * One more candidate whose tuple resolved: the filter admits it, and it
   * joins the runs when it is (0, 0) or its tuple is new.
   */
  lemma EnumeratedStep(cs: seq<Run>, ks: seq<Result<seq<int>>>, cand: Run, key: seq<int>, runs: seq<Run>)
    requires |cs| == |ks| && Enumerated(cs, ks) == Ok(runs)
    ensures Filter(cs, ks).Ok?
    ensures var pr := Filter(cs, ks).value;
      && Filter(cs + [cand], ks + [Ok(key)]) == Ok(Admit(pr, |cs|, cand, key))
      && Enumerated(cs + [cand], ks + [Ok(key)]) == Ok(if IsFirst(cand) || key !in pr.seen then runs + [cand] else runs)
  {
    FilterSnoc(cs, ks, cand, Ok(key));
    FilterKeptBound(cs, ks);
    var pr := Filter(cs, ks).value;
    KeptRunsSnoc(cs, cand, pr.kept);
    FilterKeptBound(cs + [cand], ks + [Ok(key)]);
  }

  /** Appending a candidate leaves the runs of earlier indices alone, and keeping it appends it. */
  lemma KeptRunsSnoc(cands: seq<Run>, cand: Run, kept: seq<nat>)
    requires forall j :: 0 <= j < |kept| ==> kept[j] < |cands|
    ensures KeptRuns(cands + [cand], kept) == KeptRuns(cands, kept)
    ensures KeptRuns(cands + [cand], kept + [|cands|]) == KeptRuns(cands, kept) + [cand]
  {
  }

  /**
   * The step of the row loop against the trie: with every tuple of length
   * `count` >= 1, asking the trie whether the new tuple is a path is asking
   * whether it was recorded, and adding its prefixes keeps the trie in step.
   */
  lemma DedupStep(cs: seq<Run>, ks: seq<Result<seq<int>>>, runs: seq<Run>, paths: set<seq<int>>, cand: Run, key: seq<int>, count: nat)
    requires Progressed(cs, ks, runs, paths) && KeyLengths(ks, count) && count >= 1 && |key| == count
    ensures Progressed(cs + [cand], ks + [Ok(key)], if IsFirst(cand) || key !in paths then runs + [cand] else runs, paths + Prefixes(key))
    ensures KeyLengths(ks + [Ok(key)], count)
  {
    var pr := Filter(cs, ks).value;
    FilterShape(cs, ks);
    ClosureMember(pr.seen, count, key);
    ClosureAdd(pr.seen, key);
    EnumeratedStep(cs, ks, cand, key, runs);
  }

  /**
   * One permutation of a row that resolved: the row's prefix grows by one
   * candidate, which runs exactly when it is the first one or its tuple is new.
   */
  lemma RowAdvance(before: seq<Run>, beforeKeys: seq<Result<seq<int>>>, row: seq<Run>, rowKeys: seq<Result<seq<int>>>,
                   p: nat, q: nat, runs: seq<Run>, runs': seq<Run>, paths: set<seq<int>>, paths': set<seq<int>>,
                   count: nat, run: Run, kept: bool)
    requires |row| == |rowKeys| && p < |row| && q == p + 1 && row[p] == run
    requires rowKeys[p].Ok? && |rowKeys[p].value| == count && count >= 1
    requires Progressed(before + row[..p], beforeKeys + rowKeys[..p], runs, paths) && KeyLengths(beforeKeys + rowKeys[..p], count)
    requires kept == (IsFirst(run) || rowKeys[p].value !in paths)
    requires runs' == (if kept then runs + [run] else runs) && paths' == paths + Prefixes(rowKeys[p].value)
    ensures Progressed(before + row[..q], beforeKeys + rowKeys[..q], runs', paths')
    ensures KeyLengths(beforeKeys + rowKeys[..q], count)
  {
    DedupStep(before + row[..p], beforeKeys + rowKeys[..p], runs, paths, run, rowKeys[p].value, count);
    RowSnoc(before, row, p);
    RowSnoc(beforeKeys, rowKeys, p);
  }

  /** Once a prefix of the candidates fails, the whole enumeration fails the same way. */
  lemma {:induction false} FilterPrefixErr(cs: seq<Run>, ks: seq<Result<seq<int>>>, n: nat)
    requires |cs| == |ks| && n <= |cs| && Filter(cs[..n], ks[..n]).Err?
    ensures Filter(cs, ks) == Filter(cs[..n], ks[..n])
    decreases |cs|
  {
    if n < |cs| {
      var l := |cs| - 1;
      assert cs[..l][..n] == cs[..n] && ks[..l][..n] == ks[..n];
      FilterPrefixErr(cs[..l], ks[..l], n);
    } else {
      assert cs[..n] == cs && ks[..n] == ks;
    }
  }

  /**
   * A row whose flat index p fails, after a successful prefix, makes the
   * whole row fail the same way.
   */
  lemma RowFails(cs: seq<Run>, ks: seq<Result<seq<int>>>, row: seq<Run>, rowKeys: seq<Result<seq<int>>>, p: nat, e: Error)
    requires |cs| == |ks| && |row| == |rowKeys| && p < |row|
    requires Filter(cs + row[..p], ks + rowKeys[..p]).Ok? && rowKeys[p] == Err(e)
    ensures Enumerated(cs + row, ks + rowKeys) == Err(e)
  {
    var n := |cs| + p;
    RowPrefix(cs, row, p, n);
    RowPrefix(ks, rowKeys, p, n);
    FailsAt(cs + row, ks + rowKeys, n);
  }

  /** The prefix of a concatenation that stops at element p of its second part, and that element. */
  lemma RowPrefix<T>(before: seq<T>, row: seq<T>, p: nat, n: nat)
    requires p < |row| && n == |before| + p
    ensures (before + row)[..n] == before + row[..p] && (before + row)[n] == row[p]
  {
  }

  /** A candidate whose tuple fails, after a successful prefix, ends the enumeration with that failure. */
  lemma FailsAt(cs: seq<Run>, ks: seq<Result<seq<int>>>, n: nat)
    requires |cs| == |ks| && n < |cs| && Filter(cs[..n], ks[..n]).Ok? && ks[n].Err?
    ensures Enumerated(cs, ks) == Err(ks[n].error)
  {
    assert cs[..n + 1][..n] == cs[..n] && ks[..n + 1][..n] == ks[..n];
    assert Filter(cs[..n + 1], ks[..n + 1]) == Err(ks[n].error);
    FilterPrefixErr(cs, ks, n + 1);
    EnumeratedErr(cs, ks);
  }

  /** The enumeration fails exactly when the filter does, with its error. */
  lemma EnumeratedErr(cs: seq<Run>, ks: seq<Result<seq<int>>>)
    requires |cs| == |ks|
    ensures Enumerated(cs, ks).Err? <==> Filter(cs, ks).Err?
    ensures Filter(cs, ks).Err? ==> Enumerated(cs, ks) == Err(Filter(cs, ks).error)
  {
  }

  /** Extending a row prefix by its next element. */
  lemma RowSnoc<T>(before: seq<T>, row: seq<T>, p: nat)
    requires p < |row|
    ensures before + row[..p] + [row[p]] == before + row[..p + 1]
  {
    assert row[..p + 1] == row[..p] + [row[p]];
  }

  /** The enumeration of k + 1 rows extends that of k rows by row k, whose registry is ready. */
  lemma RowStep(m: Maps, suite: Suite, c: Case, count: nat, rank: seq<nat>, k: nat)
    requires k < Rows(c) && RowsReady(m, suite, c, count, rank)
    ensures RowInMatrix(suite, c, k) && NonzeroMaps(RowMaps(m, suite, c, k)) && RankedMaps(RowMaps(m, suite, c, k), count, rank)
    ensures var m' := RowMaps(m, suite, c, k);
      var total := WrappedProduct(m', count);
      && Cands(m, suite, c, count, rank, k + 1) == Cands(m, suite, c, count, rank, k) + Flat(k, total)
      && Keys(m, suite, c, count, rank, k + 1) == Keys(m, suite, c, count, rank, k) + KeyRun(m', count, rank, total)
  {
    ConcatSnoc(RowCands(m, suite, c, count, rank), k);
    ConcatSnoc(RowKeys(m, suite, c, count, rank), k);
  }

  /** A row that fails ends the whole enumeration with its failure. */
  lemma RowsFail(m: Maps, suite: Suite, c: Case, count: nat, rank: seq<nat>, k: nat)
    requires k < Rows(c) && RowsReady(m, suite, c, count, rank)
    requires Enumerated(Cands(m, suite, c, count, rank, k + 1), Keys(m, suite, c, count, rank, k + 1)).Err?
    ensures Enumerated(Cands(m, suite, c, count, rank, Rows(c)), Keys(m, suite, c, count, rank, Rows(c))) ==
      Enumerated(Cands(m, suite, c, count, rank, k + 1), Keys(m, suite, c, count, rank, k + 1))
  {
    EnumeratedErr(Cands(m, suite, c, count, rank, k + 1), Keys(m, suite, c, count, rank, k + 1));
    CandsPrefixErr(m, suite, c, count, rank, k + 1, Rows(c));
    EnumeratedErr(Cands(m, suite, c, count, rank, Rows(c)), Keys(m, suite, c, count, rank, Rows(c)));
  }

  /** Once the enumeration of the first k rows fails, the enumeration of more rows fails the same way. */
  lemma CandsPrefixErr(m: Maps, suite: Suite, c: Case, count: nat, rank: seq<nat>, k: nat, K: nat)
    requires k <= K <= Rows(c) && RowsReady(m, suite, c, count, rank)
    requires Filter(Cands(m, suite, c, count, rank, k), Keys(m, suite, c, count, rank, k)).Err?
    ensures Filter(Cands(m, suite, c, count, rank, K), Keys(m, suite, c, count, rank, K)) ==
      Filter(Cands(m, suite, c, count, rank, k), Keys(m, suite, c, count, rank, k))
  {
    var n := |Cands(m, suite, c, count, rank, k)|;
    CandsPrefix(m, suite, c, count, rank, k, K);
    FilterPrefixErr(Cands(m, suite, c, count, rank, K), Keys(m, suite, c, count, rank, K), n);
  }

  /** The candidates and tuples of k rows begin those of K >= k rows. */
  lemma CandsPrefix(m: Maps, suite: Suite, c: Case, count: nat, rank: seq<nat>, k: nat, K: nat)
    requires k <= K <= Rows(c) && RowsReady(m, suite, c, count, rank)
    ensures var n := |Cands(m, suite, c, count, rank, k)|;
      && n <= |Cands(m, suite, c, count, rank, K)|
      && Cands(m, suite, c, count, rank, K)[..n] == Cands(m, suite, c, count, rank, k)
      && Keys(m, suite, c, count, rank, K)[..n] == Keys(m, suite, c, count, rank, k)
  {
    ConcatPrefix(RowCands(m, suite, c, count, rank), k, K);
    ConcatPrefix(RowKeys(m, suite, c, count, rank), k, K);
  }

  /** A failing filter fails the same way whatever is appended. */
  lemma FilterAppendErr(cs: seq<Run>, ks: seq<Result<seq<int>>>, xs: seq<Run>, ys: seq<Result<seq<int>>>)
    requires |cs| == |ks| && |xs| == |ys| && Filter(cs, ks).Err?
    ensures Filter(cs + xs, ks + ys) == Filter(cs, ks)
  {
    assert (cs + xs)[..|cs|] == cs && (ks + ys)[..|cs|] == ks;
    FilterPrefixErr(cs + xs, ks + ys, |cs|);
  }

  /**
   * One slot of `bench_define_permutation`: after the layer search stopped at
   * i, the entry built is the selection's entry for d, and dividing the
   * remaining index by the slot's count leaves the index for the next slot.
   */
  lemma SelectStep(m: Maps, d: nat, p: nat, perm: nat, i: nat)
    requires NonzeroMaps(m) && perm == p / Radix(m, d) && i <= MapCount
    requires forall j :: 0 <= j < i ==> !Covers(Layer(m, j), d)
    requires i < MapCount ==> Covers(Layer(m, i), d)
    ensures i < MapCount ==> Layer(m, i)[d].permutations > 0
    ensures i < MapCount ==> SelectionEntry(m, d, p) == Pending(Layer(m, i)[d], perm % Layer(m, i)[d].permutations)
    ensures i < MapCount ==> perm / Layer(m, i)[d].permutations == p / Radix(m, d + 1)
    ensures i == MapCount ==> SelectionEntry(m, d, p) == Unset && perm == p / Radix(m, d + 1)
  {
    OwnerFromFound(m, d, 0, i);
    MixedRadixStep(p, Radix(m, d), Factor(m, d));
    if i < MapCount {
      NonzeroWinner(m, d);
    }
  }

  /**
   * The slot loop of `bench_define_permutation(p)`: for each slot, search the
   * layers in priority order, and store the winning define with the slot's
   * digit of the remaining index, dividing it by the slot's count, or a null
   * entry when no layer covers the slot.
   */
  method SelectEntries(m: Maps, count: nat, p: nat) returns (entries: seq<CacheEntry>)
    requires NonzeroMaps(m)
    ensures entries == Selection(m, count, p)
  {
    var perm := p;
    entries := [];
    var d := 0;
    while d < count
      invariant d <= count && |entries| == d
      invariant perm == p / Radix(m, d)
      invariant forall e :: 0 <= e < d ==> entries[e] == SelectionEntry(m, e, p)
    {
      var i := 0;
      while i < MapCount && !Covers(Layer(m, i), d)
        invariant i <= MapCount
        invariant forall j :: 0 <= j < i ==> !Covers(Layer(m, j), d)
      {
        i := i + 1;
      }
      SelectStep(m, d, p, perm, i);
      if i < MapCount {
        var define := Layer(m, i)[d];
        entries := entries + [Pending(define, perm % define.permutations)];
        perm := perm / define.permutations;
      } else {
        entries := entries + [Unset];
      }
      d := d + 1;
    }
  }

  /**
   * The override loop of `bench_define_suite`: for each override in order,
   * each slot whose name it names takes its define, so the last one wins.
   */
  method BuildOverrideLayer(overrides: seq<Override>, names: seq<Option<string>>, count: nat) returns (layer: seq<Define>)
    ensures layer == OverrideLayer(overrides, names, count)
  {
    layer := seq(count, _ => NullDefine);
    var i := 0;
    while i < |overrides|
      invariant i <= |overrides|
      invariant layer == OverrideLayer(overrides[..i], names, count)
    {
      var d := 0;
      while d < count
        invariant d <= count && |layer| == count
        invariant forall e :: 0 <= e < d ==> layer[e] == LastMatch(overrides[..i + 1], Name(names, e))
        invariant forall e :: d <= e < count ==> layer[e] == LastMatch(overrides[..i], Name(names, e))
      {
        assert overrides[..i + 1][..i] == overrides[..i];
        if Name(names, d) == Some(overrides[i].name) {
          layer := layer[d := overrides[i].define];
        }
        d := d + 1;
      }
      i := i + 1;
    }
    assert overrides[..|overrides|] == overrides;
  }

  class BenchState {
    /** `bench_overrides`: the `--define` requests, fixed for the whole run. */
    var overrides: seq<Override>
    /** `bench_define_maps`. */
    var maps: Maps
    /** The suite layer of `bench_define_names`. */
    var names: seq<Option<string>>
    /** `bench_define_count`. */
    var defineCount: nat
    /** `bench_define_cache`, one entry per slot of the last selection. */
    var cache: seq<CacheEntry>
    /** The cache as the last selection left it. */
    ghost var selection: seq<CacheEntry>
    /** The rank the last selection was made under. */
    ghost var rank: seq<nat>
    /** The slots whose callback has run since the last selection, in order. */
    ghost var evalLog: seq<nat>

    /**
     * The cache is the last selection with some pending entries replaced by
     * their values; the log lists each replaced slot once.
     */
    ghost predicate Valid()
      reads this
    {
      && |selection| == |cache|
      && (forall d :: 0 <= d < |selection| ==> !selection[d].Cached?)
      && Ranked(selection, rank)
      && Consistent(selection, cache, rank)
      && (forall i :: 0 <= i < |evalLog| ==> evalLog[i] < |cache| && cache[evalLog[i]].Cached? && selection[evalLog[i]].Pending?)
      && (forall i, j :: 0 <= i < j < |evalLog| ==> evalLog[i] != evalLog[j])
      && (forall d :: 0 <= d < |cache| && cache[d] != selection[d] ==> d in evalLog)
    }

    /** What the suite declares: the overrides, the define names and the slot count. */
    ghost function Declared(): (seq<Override>, seq<Option<string>>, int)
      reads this
    {
      (overrides, names, defineCount)
    }

    /** The parts of the state that reading defines leaves alone. */
    ghost function Setup(): (Maps, seq<Override>, seq<Option<string>>, nat, seq<CacheEntry>, seq<nat>, int)
      reads this
    {
      (maps, overrides, names, defineCount, selection, rank, |cache|)
    }

    /** The state before the first suite: only the implicit layer, no slots. */
    constructor (overrides: seq<Override>)
      ensures this.overrides == overrides && maps == InitialMaps() && names == [] && defineCount == 0
      ensures cache == [] && Valid()
    {
      this.overrides := overrides;
      maps := InitialMaps();
      names := [];
      defineCount := 0;
      cache := [];
      selection := [];
      rank := [];
      evalLog := [];
    }

    /**
     * `bench_define_suite`: the suite's names, max(suite count, 16) slots and,
     * when there are overrides, an override layer over all the slots where
     * each slot gets the last override naming it.
     */
    method DefineSuite(suite: Suite)
      modifies this
      ensures names == suite.defineNames
      ensures defineCount == Max(|suite.defineNames|, ImplicitDefineCount)
      ensures |overrides| > 0 ==> maps == old(maps).(overrideMap := OverrideLayer(overrides, names, defineCount))
      ensures |overrides| == 0 ==> maps == old(maps)
      ensures overrides == old(overrides) && cache == old(cache)
      ensures selection == old(selection) && rank == old(rank) && evalLog == old(evalLog)
    {
      names := suite.defineNames;
      defineCount := if |suite.defineNames| > ImplicitDefineCount then |suite.defineNames| else ImplicitDefineCount;
      if |overrides| > 0 {
        var layer := BuildOverrideLayer(overrides, names, defineCount);
        maps := maps.(overrideMap := layer);
      }
    }

    /** `bench_define_case`: the case layer becomes row k of the case's matrix. */
    method DefineCase(suite: Suite, c: Case, k: nat)
      requires RowInMatrix(suite, c, k)
      modifies this
      ensures maps == old(maps).(caseMap := CaseRow(suite, c, k))
      ensures Declared() == old(Declared())
    {
      maps := maps.(caseMap := CaseRow(suite, c, k));
    }

    /** `bench_define_explicit`: the explicit layer becomes the replayed defines. */
    method DefineExplicit(layer: seq<Define>)
      modifies this
      ensures maps == old(maps).(explicitMap := layer)
      ensures Declared() == old(Declared())
    {
      maps := maps.(explicitMap := layer);
    }

    /**
     * `bench_define_permutationpermutations`: the number of flat
     * permutations, the product of the nonzero slot counts modulo 2^64.
     */
    method PermutationPermutations() returns (total: nat)
      ensures total == WrappedProduct(maps, defineCount)
      ensures total == Radix(maps, defineCount) % U64
    {
      total := 1;
      var d := 0;
      while d < defineCount
        invariant d <= defineCount && total == WrappedProduct(maps, d)
      {
        var n := Permutations(maps, d);
        if n > 0 {
          total := (total * n) % U64;
        }
        d := d + 1;
      }
      WrappedProductIsRadix(maps, defineCount);
    }

    /**
     * `bench_define_permutation(p)`: one pending entry per covered slot, with
     * the winning define and the slot's mixed-radix digit of p, and a null
     * entry per uncovered slot. The log starts afresh.
     */
    method SelectPermutation(p: nat, ghost rank': seq<nat>)
      requires NonzeroMaps(maps) && RankedMaps(maps, defineCount, rank')
      modifies this
      ensures Valid()
      ensures cache == Selection(maps, defineCount, p) && selection == cache && rank == rank' && evalLog == []
      ensures maps == old(maps) && Declared() == old(Declared())
    {
      var entries := SelectEntries(maps, defineCount, p);
      cache := entries;
      selection := entries;
      rank := rank';
      evalLog := [];
      SelectionRanked(maps, defineCount, p, rank');
      ConsistentRefl(entries, rank');
    }

    /**
     * `bench_define(d)`: the value slot d has under the last selection.
     * A pending entry runs its callback once and caches the result; a cached
     * entry is returned as it is, with nothing evaluated; reading a slot no
     * layer covers is a fatal error. Only slots of lower rank than d, and d
     * itself, change.
     */
    method Define(d: nat) returns (r: Result<int>)
      requires Valid() && d < |cache|
      modifies this
      ensures Valid() && Setup() == old(Setup())
      ensures r == Value(selection, rank, d)
      ensures r.Ok? ==> cache[d] == Cached(r.value) && d in evalLog
      ensures old(cache[d]).Cached? ==> cache == old(cache) && evalLog == old(evalLog) && r == Ok(old(cache[d]).value)
      ensures forall x :: 0 <= x < |cache| && x != d && rank[x] >= rank[d] ==> cache[x] == old(cache[x])
      ensures |old(evalLog)| <= |evalLog| && evalLog[..|old(evalLog)|] == old(evalLog)
      decreases rank[d], 1
    {
      match cache[d]
      case Cached(v) =>
        ValueOfCached(d);
        r := Ok(v);
      case Unset =>
        assert cache[d] == selection[d];
        r := Err(Undefined(d));
      case Pending(define, sub) =>
        assert cache[d] == selection[d];
        match define.cb {
          case Null =>
            r := Err(Undefined(d));
          case Lit(v) =>
            r := Ok(v);
          case OverrideList(values) =>
            var x := OverrideCb(values, sub);
            r := if x.None? then Err(OverrideIndex(d)) else Ok(x.value);
          case Computed(e) =>
            r := EvalExpr(e, rank[d], d);
        }
        if r.Ok? {
          Cache(d, r.value);
        }
    }

    /** A cached entry that differs from the selection holds the slot's value. */
    lemma ValueOfCached(d: nat)
      requires Valid() && d < |cache| && cache[d].Cached?
      ensures Value(selection, rank, d) == Ok(cache[d].value) && d in evalLog
    {
    }

    /** Store the value of a pending slot in the cache and log the call. */
    method Cache(d: nat, v: int)
      requires Valid() && d < |cache| && cache[d].Pending? && cache[d] == selection[d]
      requires Value(selection, rank, d) == Ok(v)
      modifies this
      ensures Valid() && cache == old(cache)[d := Cached(v)] && evalLog == old(evalLog) + [d]
      ensures Setup() == old(Setup())
    {
      assert d !in evalLog;
      cache := cache[d := Cached(v)];
      evalLog := evalLog + [d];
    }

    /**
     * A computed define's expression, read through `bench_define` left to
     * right: the value it has under the last selection. Only slots of rank
     * below `top` change. Left to right is one of the orders C allows for
     * the operands of `/` and `lfs_max`; the calls and the cache writes
     * recorded in `evalLog` follow it.
     */
    method EvalExpr(e: Expr, ghost top: nat, owner: nat) returns (r: Result<int>)
      requires Valid() && Below(e, |cache|, rank, top)
      modifies this
      ensures Valid() && Setup() == old(Setup())
      ensures r == ExprValue(selection, rank, e, top, owner)
      ensures forall x :: 0 <= x < |cache| && rank[x] >= top ==> cache[x] == old(cache[x])
      ensures |old(evalLog)| <= |evalLog| && evalLog[..|old(evalLog)|] == old(evalLog)
      decreases top, 0, e
    {
      match e
      case Const(v) =>
        r := Ok(v);
      case Read(s) =>
        assert s in Reads(e);
        r := Define(s);
      case Quot(a, b) =>
        BelowOperands(a, b, |cache|, rank, top);
        var x := EvalExpr(a, top, owner);
        if x.Err? {
          return x;
        }
        var y := EvalExpr(b, top, owner);
        r := Divide(x, y, owner);
      case MaxOf(a, b) =>
        BelowOperands(a, b, |cache|, rank, top);
        var x := EvalExpr(a, top, owner);
        if x.Err? {
          return x;
        }
        var y := EvalExpr(b, top, owner);
        r := Larger(x, y);
    }

    /** The key slot d contributes to the tuple: its value if it is a permutation define, else 0. */
    method SlotKey(d: nat) returns (r: Result<int>)
      requires Valid() && d < |cache|
      modifies this
      ensures Valid() && Setup() == old(Setup())
      ensures IsPermutation(maps, d) ==> r == Value(selection, rank, d)
      ensures !IsPermutation(maps, d) ==> r == Ok(0)
    {
      if IsPermutation(maps, d) {
        r := Define(d);
      } else {
        r := Ok(0);
      }
    }

    /** One level of `bench_seen_insert`, once slot d has given its key. */
    method InsertSlot(seen: Seen, d: nat, cur: nat, key: int, ghost k: seq<int>, ghost p0: set<seq<int>>) returns (next: nat, found: bool)
      requires Valid() && d < |cache| && TupleKey(maps, selection, rank, d) == Ok(k)
      requires IsPermutation(maps, d) ==> Value(selection, rank, d) == Ok(key)
      requires !IsPermutation(maps, d) ==> key == 0
      requires Walking(seen, cur, k, p0)
      modifies seen
      ensures TupleKey(maps, selection, rank, d + 1) == Ok(k + [key])
      ensures Walking(seen, next, k + [key], p0)
      ensures found <==> k + [key] in p0
      ensures found ==> k in p0
    {
      TupleKeyStep(maps, selection, rank, d, k, key);
      next, found := seen.Walk(cur, key, k, p0);
    }

    /**
     * One level of `bench_seen_insert`: read slot d's key (the define's value
     * for a permutation define, 0 otherwise) and walk one branch down. A
     * failing read makes the whole tuple fail.
     */
    method InsertLevel(seen: Seen, d: nat, cur: nat, ghost k: seq<int>, ghost p0: set<seq<int>>) returns (x: Result<int>, next: nat, found: bool)
      requires Valid() && d < defineCount <= |cache| && TupleKey(maps, selection, rank, d) == Ok(k)
      requires Walking(seen, cur, k, p0)
      modifies this, seen
      ensures Valid() && Setup() == old(Setup())
      ensures seen.Valid()
      ensures x.Err? ==> TupleKey(maps, selection, rank, defineCount) == Err(x.error)
      ensures x.Ok? ==> TupleKey(maps, selection, rank, d + 1) == Ok(k + [x.value])
      ensures x.Ok? ==> Walking(seen, next, k + [x.value], p0)
      ensures x.Ok? ==> (found <==> k + [x.value] in p0) && (found ==> k in p0)
    {
      x := SlotKey(d);
      if x.Err? {
        TupleKeyErr(maps, selection, rank, d + 1, defineCount);
        return x, cur, false;
      }
      next, found := InsertSlot(seen, d, cur, x.value, k, p0);
    }

    /**
     * `bench_seen_insert`: walk the trie along the current tuple, adding the
     * missing part of the path. The result says whether the whole tuple was
     * already a path of the trie; reading a define may fail fatally instead.
     */
    method SeenInsert(seen: Seen) returns (r: Result<bool>)
      requires Valid() && seen.Valid() && defineCount <= |cache|
      modifies this, seen
      ensures Valid() && seen.Valid() && Setup() == old(Setup())
      ensures var key := TupleKey(maps, selection, rank, defineCount);
        && (r.Err? <==> key.Err?)
        && (r.Err? ==> r.error == key.error)
        && (r.Ok? ==> (r.value <==> key.value in old(seen.Paths())))
        && (r.Ok? ==> seen.Paths() == old(seen.Paths()) + Prefixes(key.value))
    {
      ghost var p0 := seen.Paths();
      seen.PathsClosed();
      PrefixesEmpty();
      var wasSeen := true;
      var cur: nat := 0;
      ghost var k: seq<int> := [];
      var d := 0;
      while d < defineCount
        invariant d <= defineCount && Valid() && Setup() == old(Setup())
        invariant TupleKey(maps, selection, rank, d) == Ok(k)
        invariant Walking(seen, cur, k, p0) && (wasSeen <==> k in p0)
      {
        var x, next, found := InsertLevel(seen, d, cur, k, p0);
        if x.Err? {
          r := Err(x.error);
          break;
        }
        cur := next;
        wasSeen := wasSeen && found;
        k := k + [x.value];
        d := d + 1;
      }
      if d == defineCount {
        r := Ok(wasSeen);
      }
    }

    /**
     * `perm_printid`: the case name, a colon, and leb16(slot) leb16(value)
     * for each permutation define in slot order, the value printed as
     * `uintmax_t`; reading a define may fail fatally instead.
     */
    method PrintId(c: Case) returns (r: Result<string>)
      requires Valid() && defineCount <= |cache| && IsU64(defineCount)
      modifies this
      ensures Valid() && Setup() == old(Setup())
      ensures match VaryingPairs(maps, selection, rank, defineCount)
        case Err(e) => r == Err(e)
        case Ok(ps) => r == Ok(c.name + ":" + EncodePairs(ps))
    {
      ghost var ps;
      r, ps := PrintPairs(c.name + ":");
    }

    /** The slot loop of `perm_printid`, printing after the given head. */
    method PrintPairs(head: string) returns (r: Result<string>, ghost ps: seq<Pair>)
      requires Valid() && defineCount <= |cache| && IsU64(defineCount)
      modifies this
      ensures Valid() && Setup() == old(Setup())
      ensures r.Err? ==> VaryingPairs(maps, selection, rank, defineCount) == Err(r.error)
      ensures r.Ok? ==> Printed(maps, selection, rank, defineCount, head, ps, r.value)
    {
      var id := head;
      ps := [];
      var d := 0;
      while d < defineCount
        invariant d <= defineCount
        invariant Valid() && Setup() == old(Setup())
        invariant Printed(maps, selection, rank, d, head, ps, id)
      {
        var next, ps' := PrintSlot(d, head, id, ps);
        if next.Err? {
          return next, ps;
        }
        id, ps := next.value, ps';
        d := d + 1;
      }
      r := Ok(id);
    }

    /** One slot of `perm_printid`: a permutation define appends its pair. */
    method PrintSlot(d: nat, head: string, id: string, ghost ps: seq<Pair>) returns (r: Result<string>, ghost ps': seq<Pair>)
      requires Valid() && d < defineCount <= |cache| && IsU64(defineCount)
      requires Printed(maps, selection, rank, d, head, ps, id)
      modifies this
      ensures Valid() && Setup() == old(Setup())
      ensures r.Err? ==> VaryingPairs(maps, selection, rank, defineCount) == Err(r.error)
      ensures r.Ok? ==> Printed(maps, selection, rank, d + 1, head, ps', r.value)
    {
      if !IsPermutation(maps, d) {
        PrintedSkip(maps, selection, rank, d, head, ps, id);
        return Ok(id), ps;
      }
      var x := Define(d);
      if x.Err? {
        VaryingPairsErr(maps, selection, rank, d + 1, defineCount);
        return Err(x.error), ps;
      }
      PrintedStep(maps, selection, rank, d, head, ps, id, x.value);
      r, ps' := Ok(id + Print(d) + Print(ToU64(x.value))), ps + [Pair(d, x.value)];
    }

    /**
     * `case_forperm`: the runs of the case's callback, in order. With replayed
     * defines, the explicit layer is installed and every flat permutation
     * runs once, with no deduplication. Otherwise rows run outermost and flat
     * indices innermost, and a permutation runs when it is the very first one
     * or its resolved tuple is new to the trie; reading a define may fail
     * fatally instead.
     */
    method CaseForPerm(suite: Suite, c: Case, explicit: Option<seq<Define>>, ghost rank': seq<nat>) returns (r: Result<seq<Run>>)
      requires defineCount >= 1
      requires explicit.Some? ==>
        NonzeroMaps(maps.(explicitMap := explicit.value)) && RankedMaps(maps.(explicitMap := explicit.value), defineCount, rank')
      requires explicit.None? ==> RowsReady(maps, suite, c, defineCount, rank')
      modifies this
      ensures Declared() == old(Declared())
      ensures explicit.Some? ==> r == Ok(Flat(0, WrappedProduct(old(maps).(explicitMap := explicit.value), defineCount)))
      ensures explicit.None? ==>
        r == Enumerated(Cands(old(maps), suite, c, defineCount, rank', Rows(c)), Keys(old(maps), suite, c, defineCount, rank', Rows(c)))
    {
      if explicit.Some? {
        r := ForPermExplicit(explicit.value, rank');
      } else {
        r := ForPermRows(suite, c, rank');
      }
    }

    /** The deduplicating branch of `case_forperm`: every row of the case in turn. */
    method ForPermRows(suite: Suite, c: Case, ghost rank': seq<nat>) returns (r: Result<seq<Run>>)
      requires defineCount >= 1 && RowsReady(maps, suite, c, defineCount, rank')
      modifies this
      ensures Declared() == old(Declared())
      ensures r == Enumerated(Cands(old(maps), suite, c, defineCount, rank', Rows(c)), Keys(old(maps), suite, c, defineCount, rank', Rows(c)))
    {
      ghost var m0 := maps;
      var seen := new Seen();
      var runs: seq<Run> := [];
      RowsStart(m0, suite, c, defineCount, rank');
      var rows := Rows(c);
      var k := 0;
      while k < rows
        invariant k <= rows && SameLayers(maps, m0)
        invariant Declared() == old(Declared())
        invariant seen.Valid()
        invariant RowsDone(m0, suite, c, defineCount, rank', k, runs, seen.Paths())
      {
        var rowRuns := ForPermStep(suite, c, k, seen, runs, m0, rank');
        if rowRuns.Err? {
          r := rowRuns;
          break;
        }
        runs := rowRuns.value;
        k := k + 1;
      }
      if k == rows {
        RowsEnd(m0, suite, c, defineCount, rank', runs, seen.Paths());
        r := Ok(runs);
      }
    }

    /**
     * One pass of the row loop of `case_forperm`: install row k and run its
     * permutations; a failure ends the whole enumeration with that failure.
     */
    method ForPermStep(suite: Suite, c: Case, k: nat, seen: Seen, runs: seq<Run>, ghost m0: Maps, ghost rank': seq<nat>)
      returns (r: Result<seq<Run>>)
      requires defineCount >= 1 && k < Rows(c) && seen.Valid() && SameLayers(maps, m0)
      requires RowsDone(m0, suite, c, defineCount, rank', k, runs, seen.Paths())
      modifies this, seen
      ensures SameLayers(maps, m0) && Declared() == old(Declared())
      ensures seen.Valid()
      ensures r.Err? ==> r == Enumerated(Cands(m0, suite, c, defineCount, rank', Rows(c)), Keys(m0, suite, c, defineCount, rank', Rows(c)))
      ensures r.Ok? ==> RowsDone(m0, suite, c, defineCount, rank', k + 1, r.value, seen.Paths())
    {
      RowStep(m0, suite, c, defineCount, rank', k);
      KeysLengths(m0, suite, c, defineCount, rank', k);
      DefineCase(suite, c, k);
      assert maps == RowMaps(m0, suite, c, k);
      r := ForPermRow(k, seen, runs, Cands(m0, suite, c, defineCount, rank', k), Keys(m0, suite, c, defineCount, rank', k), rank');
      if r.Err? {
        RowsFail(m0, suite, c, defineCount, rank', k);
      }
    }

    /** The replay branch of `case_forperm`. */
    method ForPermExplicit(layer: seq<Define>, ghost rank': seq<nat>) returns (r: Result<seq<Run>>)
      requires NonzeroMaps(maps.(explicitMap := layer)) && RankedMaps(maps.(explicitMap := layer), defineCount, rank')
      modifies this
      ensures Declared() == old(Declared())
      ensures r == Ok(Flat(0, WrappedProduct(old(maps).(explicitMap := layer), defineCount)))
    {
      DefineExplicit(layer);
      var total := PermutationPermutations();
      var runs: seq<Run> := [];
      var p := 0;
      while p < total
        invariant p <= total && runs == Flat(0, p)
        invariant maps == old(maps).(explicitMap := layer)
        invariant Declared() == old(Declared())
      {
        SelectPermutation(p, rank');
        runs := runs + [Run(0, p)];
        p := p + 1;
      }
      r := Ok(runs);
    }

    /**
     * One row of the deduplicating branch of `case_forperm`, the row already
     * installed: for each flat index select it, record its tuple in the trie
     * and run it when it is (0, 0) or new.
     */
    method ForPermRow(k: nat, seen: Seen, runs: seq<Run>, ghost before: seq<Run>, ghost beforeKeys: seq<Result<seq<int>>>, ghost rank': seq<nat>)
      returns (r: Result<seq<Run>>)
      requires defineCount >= 1 && NonzeroMaps(maps) && RankedMaps(maps, defineCount, rank')
      requires seen.Valid() && Progressed(before, beforeKeys, runs, seen.Paths()) && KeyLengths(beforeKeys, defineCount)
      modifies this, seen
      ensures maps == old(maps) && Declared() == old(Declared())
      ensures seen.Valid()
      ensures var total := WrappedProduct(maps, defineCount);
        var cs, ks := before + Flat(k, total), beforeKeys + KeyRun(maps, defineCount, rank', total);
        && |cs| == |ks| && r == Enumerated(cs, ks)
        && (r.Ok? ==> Progressed(cs, ks, r.value, seen.Paths()))
    {
      ghost var m := maps;
      ghost var count := defineCount;
      var total := PermutationPermutations();
      ghost var row, rowKeys := Flat(k, total), KeyRun(m, count, rank', total);
      var acc := runs;
      assert before + row[..0] == before && beforeKeys + rowKeys[..0] == beforeKeys;
      var p := 0;
      while p < total
        invariant p <= total
        invariant maps == m && overrides == old(overrides) && names == old(names) && defineCount == count
        invariant seen.Valid()
        invariant Progressed(before + row[..p], beforeKeys + rowKeys[..p], acc, seen.Paths())
        invariant KeyLengths(beforeKeys + rowKeys[..p], count)
      {
        ghost var paths, acc0, p0 := seen.Paths(), acc, p;
        SelectPermutation(p, rank');
        var wasSeen := SeenInsert(seen);
        assert rowKeys[p] == TupleKey(maps, selection, rank, defineCount);
        if wasSeen.Err? {
          RowFails(before, beforeKeys, row, rowKeys, p, wasSeen.error);
          return Err(wasSeen.error);
        }
        var kept := (k == 0 && p == 0) || !wasSeen.value;
        if kept {
          acc := acc + [Run(k, p)];
        }
        p := p + 1;
        RowAdvance(before, beforeKeys, row, rowKeys, p0, p, acc0, acc, paths, seen.Paths(), count, Run(k, p0), kept);
      }
      assert row[..p] == row && rowKeys[..p] == rowKeys;
      r := Ok(acc);
    }
  }
}

/**
 * Which permutations `case_forperm` runs when it deduplicates
 * (runners/bench_runner.c, the row loop of `case_forperm`).
 *
 * The candidates are the (row, flat index) pairs in enumeration order, each
 * with the define tuple it resolves to (or the fatal error resolving it
 * meets). A candidate runs when it is the very first one, (0, 0), or when its
 * tuple has not been seen before; either way its tuple is recorded.
 */
module Dedup {
  import opened Evaluation

  /** One invocation of the case's callback: the case row and the flat permutation index. */
  datatype Run = Run(row: nat, perm: nat)

  /** The state of the row loop: the indices of the candidates run so far and the tuples seen. */
  datatype Progress = Progress(kept: seq<nat>, seen: set<seq<int>>)

  predicate IsFirst(r: Run)
  {
    r.row == 0 && r.perm == 0
  }

  /** One candidate: run it if first or new, and record its tuple. */
  function Admit(pr: Progress, i: nat, cand: Run, key: seq<int>): (r: Progress)
    ensures r.seen == pr.seen + {key}
    ensures r.kept == pr.kept || r.kept == pr.kept + [i]
    ensures r.kept == pr.kept + [i] <==> IsFirst(cand) || key !in pr.seen
  {
    Progress(if IsFirst(cand) || key !in pr.seen then pr.kept + [i] else pr.kept, pr.seen + {key})
  }

  /** The row loop over the candidates, stopping at the first fatal error. */
  function Filter(cands: seq<Run>, keys: seq<Result<seq<int>>>): (r: Result<Progress>)
    requires |cands| == |keys|
    ensures r.Ok? ==> |r.value.kept| <= |cands|
    decreases |cands|
  {
    if |cands| == 0 then Ok(Progress([], {}))
    else
      var n := |cands| - 1;
      match Filter(cands[..n], keys[..n])
      case Err(e) => Err(e)
      case Ok(pr) =>
        match keys[n]
        case Err(e) => Err(e)
        case Ok(key) => Ok(Admit(pr, n, cands[n], key))
  }

  /** The runs a successful filter produces, in enumeration order. */
  function KeptRuns(cands: seq<Run>, kept: seq<nat>): seq<Run>
    requires forall j :: 0 <= j < |kept| ==> kept[j] < |cands|
  {
    seq(|kept|, j requires 0 <= j < |kept| => cands[kept[j]])
  }

  /** Appending one candidate extends the filter by one step. */
  lemma FilterSnoc(cands: seq<Run>, keys: seq<Result<seq<int>>>, cand: Run, key: Result<seq<int>>)
    requires |cands| == |keys|
    ensures Filter(cands + [cand], keys + [key]) ==
      match Filter(cands, keys)
      case Err(e) => Err(e)
      case Ok(pr) =>
        match key
        case Err(e) => Err(e)
        case Ok(k) => Ok(Admit(pr, |cands|, cand, k))
  {
    assert (cands + [cand])[..|cands|] == cands;
    assert (keys + [key])[..|keys|] == keys;
  }

  /**
   * On success every tuple resolved, the seen set holds exactly those
   * tuples, and the kept indices are increasing candidate indices.
   */
  lemma FilterShape(cands: seq<Run>, keys: seq<Result<seq<int>>>)
    requires |cands| == |keys| && Filter(cands, keys).Ok?
    ensures forall i :: 0 <= i < |keys| ==> keys[i].Ok?
    ensures forall s :: s in Filter(cands, keys).value.seen <==> exists i :: 0 <= i < |keys| && keys[i] == Ok(s)
    ensures var kept := Filter(cands, keys).value.kept;
      forall j1, j2 :: 0 <= j1 < j2 < |kept| ==> kept[j1] < kept[j2] < |cands|
    ensures var kept := Filter(cands, keys).value.kept;
      forall j :: 0 <= j < |kept| ==> kept[j] < |cands|
  {
    FilterAllOk(cands, keys);
    FilterSeen(cands, keys);
    FilterKept(cands, keys);
  }

  /** A successful filter met no failing tuple. */
  lemma {:induction false} FilterAllOk(cands: seq<Run>, keys: seq<Result<seq<int>>>)
    requires |cands| == |keys| && Filter(cands, keys).Ok?
    ensures forall i :: 0 <= i < |keys| ==> keys[i].Ok?
    decreases |cands|
  {
    if |cands| > 0 {
      var n := |cands| - 1;
      FilterAllOk(cands[..n], keys[..n]);
      assert forall i :: 0 <= i < n ==> keys[..n][i] == keys[i];
    }
  }

  /** A failing filter fails with the error of the first tuple that did not resolve. */
  lemma {:induction false} FilterError(cands: seq<Run>, keys: seq<Result<seq<int>>>) returns (i: nat)
    requires |cands| == |keys| && Filter(cands, keys).Err?
    ensures i < |keys| && keys[i] == Err(Filter(cands, keys).error)
    ensures forall k :: 0 <= k < i ==> keys[k].Ok?
    decreases |cands|
  {
    var n := |cands| - 1;
    if Filter(cands[..n], keys[..n]).Err? {
      i := FilterError(cands[..n], keys[..n]);
      assert forall k :: 0 <= k <= i ==> keys[..n][k] == keys[k];
    } else {
      FilterAllOk(cands[..n], keys[..n]);
      assert forall k :: 0 <= k < n ==> keys[..n][k] == keys[k];
      i := n;
    }
  }

  /** The seen set of a successful filter holds exactly the tuples met. */
  lemma {:induction false} FilterSeen(cands: seq<Run>, keys: seq<Result<seq<int>>>)
    requires |cands| == |keys| && Filter(cands, keys).Ok?
    ensures forall s :: s in Filter(cands, keys).value.seen <==> exists i :: 0 <= i < |keys| && keys[i] == Ok(s)
    decreases |cands|
  {
    if |cands| > 0 {
      var n := |cands| - 1;
      FilterSeen(cands[..n], keys[..n]);
      var seen := Filter(cands, keys).value.seen;
      assert seen == Filter(cands[..n], keys[..n]).value.seen + {keys[n].value};
      forall s | s in seen
        ensures exists i :: 0 <= i < |keys| && keys[i] == Ok(s)
      {
        if s != keys[n].value {
          var i :| 0 <= i < n && keys[..n][i] == Ok(s);
          assert keys[i] == Ok(s);
        }
      }
      forall s, i | 0 <= i < |keys| && keys[i] == Ok(s)
        ensures s in seen
      {
        if i < n {
          assert keys[..n][i] == Ok(s);
        }
      }
    }
  }

  /** The kept indices of a successful filter are candidate indices. */
  lemma FilterKeptBound(cands: seq<Run>, keys: seq<Result<seq<int>>>)
    requires |cands| == |keys| && Filter(cands, keys).Ok?
    ensures forall j :: 0 <= j < |Filter(cands, keys).value.kept| ==> Filter(cands, keys).value.kept[j] < |cands|
  {
    FilterKept(cands, keys);
  }

  /** The kept indices of a successful filter are increasing candidate indices. */
  lemma {:induction false} FilterKept(cands: seq<Run>, keys: seq<Result<seq<int>>>)
    requires |cands| == |keys| && Filter(cands, keys).Ok?
    ensures var kept := Filter(cands, keys).value.kept;
      forall j1, j2 :: 0 <= j1 < j2 < |kept| ==> kept[j1] < kept[j2] < |cands|
    ensures var kept := Filter(cands, keys).value.kept;
      forall j :: 0 <= j < |kept| ==> kept[j] < |cands|
    decreases |cands|
  {
    if |cands| > 0 {
      var n := |cands| - 1;
      FilterKept(cands[..n], keys[..n]);
    }
  }

  /**
   * Candidate i runs exactly when it is (0, 0) or no earlier candidate
   * resolved to the same tuple.
   */
  lemma {:induction false} FilterKeeps(cands: seq<Run>, keys: seq<Result<seq<int>>>, i: nat)
    requires |cands| == |keys| && Filter(cands, keys).Ok? && i < |cands|
    ensures forall i' :: 0 <= i' < |keys| ==> keys[i'].Ok?
    ensures i in Filter(cands, keys).value.kept <==>
      IsFirst(cands[i]) || forall i' :: 0 <= i' < i ==> keys[i'].value != keys[i].value
    decreases |cands|
  {
    FilterShape(cands, keys);
    var n := |cands| - 1;
    FilterShape(cands[..n], keys[..n]);
    var pr := Filter(cands[..n], keys[..n]).value;
    if i < n {
      FilterKeeps(cands[..n], keys[..n], i);
      assert cands[..n][i] == cands[i];
      assert forall i' :: 0 <= i' < i ==> keys[..n][i'] == keys[i'];
    } else {
      assert i !in pr.kept;
      if keys[n].value in pr.seen {
        var i' :| 0 <= i' < n && keys[..n][i'] == Ok(keys[n].value);
        assert keys[i'] == keys[n];
      } else {
        forall i' | 0 <= i' < n
          ensures keys[i'].value != keys[n].value
        {
          assert keys[..n][i'] == keys[i'];
        }
      }
    }
  }

  /**
   * Exactly one run per distinct tuple, first half: when only the first
   * candidate can be (0, 0), the runs resolve to pairwise distinct tuples.
   */
  lemma RunsDistinct(cands: seq<Run>, keys: seq<Result<seq<int>>>, j1: nat, j2: nat)
    requires |cands| == |keys| && Filter(cands, keys).Ok?
    requires forall i :: 0 < i < |cands| ==> !IsFirst(cands[i])
    requires j1 < j2 < |Filter(cands, keys).value.kept|
    ensures var kept := Filter(cands, keys).value.kept;
      kept[j1] < kept[j2] < |keys| && keys[kept[j1]] != keys[kept[j2]]
  {
    FilterShape(cands, keys);
    var kept := Filter(cands, keys).value.kept;
    FilterKeeps(cands, keys, kept[j2]);
    assert kept[j2] in kept;
  }

  /**
   * Exactly one run per distinct tuple, second half: every candidate's
   * tuple is the tuple of a run at or before it.
   */
  lemma RunsCover(cands: seq<Run>, keys: seq<Result<seq<int>>>, i: nat)
    requires |cands| == |keys| && Filter(cands, keys).Ok? && i < |keys|
    ensures CoveredBy(keys, Filter(cands, keys).value.kept, i)
  {
    FilterShape(cands, keys);
    var kept := Filter(cands, keys).value.kept;
    var i0 := FirstWithKey(keys, i);
    FilterKeeps(cands, keys, i0);
    var j :| 0 <= j < |kept| && kept[j] == i0;
  }

  /**
   * The kept indices pick one index per distinct tuple: the kept tuples are
   * pairwise distinct, and every tuple is that of a kept index at or before it.
   */
  ghost predicate OneRunPerTuple(keys: seq<Result<seq<int>>>, kept: seq<nat>)
  {
    && (forall j :: 0 <= j < |kept| ==> kept[j] < |keys|)
    && (forall j1, j2 :: 0 <= j1 < j2 < |kept| ==> keys[kept[j1]] != keys[kept[j2]])
    && (forall i :: 0 <= i < |keys| ==> CoveredBy(keys, kept, i))
  }

  /** Index i resolves to the tuple of a kept index at or before it. */
  ghost predicate CoveredBy(keys: seq<Result<seq<int>>>, kept: seq<nat>, i: nat)
  {
    i < |keys| && exists j :: 0 <= j < |kept| && kept[j] <= i && keys[kept[j]] == keys[i]
  }

  /**
   * When only the first candidate can be (0, 0), the filter keeps exactly
   * one candidate per distinct tuple: the kept tuples are pairwise
   * distinct, and every tuple is that of a kept candidate at or before it.
   */
  lemma OnePerTuple(cands: seq<Run>, keys: seq<Result<seq<int>>>)
    requires |cands| == |keys| && Filter(cands, keys).Ok?
    requires forall i :: 0 < i < |cands| ==> !IsFirst(cands[i])
    ensures OneRunPerTuple(keys, Filter(cands, keys).value.kept)
  {
    FilterShape(cands, keys);
    KeptDistinct(cands, keys);
    KeptCover(cands, keys);
  }

  lemma KeptDistinct(cands: seq<Run>, keys: seq<Result<seq<int>>>)
    requires |cands| == |keys| && Filter(cands, keys).Ok?
    requires forall i :: 0 < i < |cands| ==> !IsFirst(cands[i])
    ensures var kept := Filter(cands, keys).value.kept;
      forall j1, j2 :: 0 <= j1 < j2 < |kept| ==> kept[j1] < kept[j2] < |keys| && keys[kept[j1]] != keys[kept[j2]]
  {
    var kept := Filter(cands, keys).value.kept;
    forall j1, j2 | 0 <= j1 < j2 < |kept|
      ensures kept[j1] < kept[j2] < |keys| && keys[kept[j1]] != keys[kept[j2]]
    {
      RunsDistinct(cands, keys, j1, j2);
    }
    assert forall j1, j2 :: 0 <= j1 < j2 < |kept| ==> kept[j1] < kept[j2] < |keys| && keys[kept[j1]] != keys[kept[j2]];
  }

  lemma KeptCover(cands: seq<Run>, keys: seq<Result<seq<int>>>)
    requires |cands| == |keys| && Filter(cands, keys).Ok?
    ensures forall i :: 0 <= i < |keys| ==> CoveredBy(keys, Filter(cands, keys).value.kept, i)
  {
    forall i | 0 <= i < |keys|
      ensures CoveredBy(keys, Filter(cands, keys).value.kept, i)
    {
      RunsCover(cands, keys, i);
    }
  }

  /** The earliest index resolving to the same tuple as index i. */
  lemma FirstWithKey(keys: seq<Result<seq<int>>>, i: nat) returns (i0: nat)
    requires i < |keys| && forall i' :: 0 <= i' < |keys| ==> keys[i'].Ok?
    ensures i0 <= i && keys[i0] == keys[i]
    ensures forall i' :: 0 <= i' < i0 ==> keys[i'].value != keys[i0].value
  {
    var j := 0;
    while j < i
      invariant 0 <= j <= i
      invariant forall i' :: 0 <= i' < j ==> keys[i'].value != keys[i].value
    {
      if keys[j].value == keys[i].value {
        assert keys[j] == keys[i];
        return j;
      }
      j := j + 1;
    }
    return i;
  }

  /** The first candidate always runs. */
  lemma FirstCandidateRuns(cands: seq<Run>, keys: seq<Result<seq<int>>>)
    requires |cands| == |keys| && |cands| > 0 && Filter(cands, keys).Ok?
    ensures 0 in Filter(cands, keys).value.kept
  {
    FilterKeeps(cands, keys, 0);
  }
}

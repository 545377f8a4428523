/**
 * The layered define registry (`bench_define_maps`, `bench_define_names`
 * and the read-only scans over them in runners/bench_runner.c).
 *
 * Four layers are consulted in a fixed priority: the override layer built
 * from `--define` requests, the explicit layer replayed from a permutation
 * identity, the case layer holding one row of the case's define matrix, and
 * the implicit layer. A layer covers a slot when the slot is inside it and
 * its define has a non-NULL `cb`.
 */
module Registry {
  import opened Base
  import opened Overrides
  import opened Defines

  const MapOverride: nat := 0
  const MapExplicit: nat := 1
  const MapCase: nat := 2
  const MapImplicit: nat := 3
  const MapCount: nat := 4

  datatype Maps = Maps(overrideMap: seq<Define>, explicitMap: seq<Define>, caseMap: seq<Define>, implicitMap: seq<Define>)

  /** The registry before any suite, case or replay is installed. */
  function InitialMaps(): Maps
  {
    Maps([], [], [], ImplicitDefines())
  }

  function Layer(m: Maps, i: nat): seq<Define>
    requires i < MapCount
  {
    if i == MapOverride then m.overrideMap
    else if i == MapExplicit then m.explicitMap
    else if i == MapCase then m.caseMap
    else m.implicitMap
  }

  predicate Covers(layer: seq<Define>, d: nat)
  {
    d < |layer| && !layer[d].cb.Null?
  }

  /** The first layer at index i or later that covers slot d. */
  function OwnerFrom(m: Maps, d: nat, i: nat): (r: Option<nat>)
    requires i <= MapCount
    ensures r.Some? ==> i <= r.value < MapCount && Covers(Layer(m, r.value), d)
    decreases MapCount - i
  {
    if i == MapCount then None
    else if Covers(Layer(m, i), d) then Some(i)
    else OwnerFrom(m, d, i + 1)
  }

  /** The layer OwnerFrom finds is the first covering one from i on, and None means none covers. */
  lemma {:induction false} OwnerFromFirst(m: Maps, d: nat, i: nat)
    requires i <= MapCount
    ensures OwnerFrom(m, d, i).Some? ==> forall j :: i <= j < OwnerFrom(m, d, i).value ==> !Covers(Layer(m, j), d)
    ensures OwnerFrom(m, d, i).None? ==> forall j :: i <= j < MapCount ==> !Covers(Layer(m, j), d)
    decreases MapCount - i
  {
    if i < MapCount && !Covers(Layer(m, i), d) {
      OwnerFromFirst(m, d, i + 1);
    }
  }

  /** The layer whose define slot d uses: the highest-priority covering layer. */
  function Owner(m: Maps, d: nat): (r: Option<nat>)
    ensures r.Some? ==> r.value < MapCount && Covers(Layer(m, r.value), d)
  {
    OwnerFrom(m, d, 0)
  }

  /** No layer of higher priority than the owner covers slot d, and None means no layer does. */
  lemma OwnerFirst(m: Maps, d: nat)
    ensures Owner(m, d).Some? ==> forall j :: 0 <= j < Owner(m, d).value ==> !Covers(Layer(m, j), d)
    ensures Owner(m, d).None? ==> forall j :: 0 <= j < MapCount ==> !Covers(Layer(m, j), d)
  {
    OwnerFromFirst(m, d, 0);
  }

  /**
   * The search of `bench_define_permutation` finds the owner: the first
   * index i whose layer covers d, or MapCount when none does.
   */
  lemma {:induction false} OwnerFromFound(m: Maps, d: nat, k: nat, i: nat)
    requires k <= i <= MapCount
    requires forall j :: k <= j < i ==> !Covers(Layer(m, j), d)
    requires i < MapCount ==> Covers(Layer(m, i), d)
    ensures OwnerFrom(m, d, k) == if i < MapCount then Some(i) else None
    decreases i - k
  {
    if k < i {
      OwnerFromFound(m, d, k + 1, i);
    }
  }

  /** The define slot d uses. */
  function Winner(m: Maps, d: nat): (r: Define)
    requires Owner(m, d).Some?
    ensures !r.cb.Null?
  {
    Layer(m, Owner(m, d).value)[d]
  }

  /** `bench_define_ispermutation`: is slot d set by a layer other than the implicit one? */
  function IsPermutation(m: Maps, d: nat): (b: bool)
    ensures b <==> Owner(m, d).Some? && Owner(m, d).value != MapImplicit
  {
    Covers(m.overrideMap, d) || Covers(m.explicitMap, d) || Covers(m.caseMap, d)
  }

  /** A declared count of 0 is read as 1. */
  function AtLeastOne(n: nat): nat
  {
    if n == 0 then 1 else n
  }

  /** `bench_define_permutations`: the scan over the four layers in priority order. */
  function Permutations(m: Maps, d: nat): (n: nat)
    ensures Owner(m, d).None? <==> n == 0
    ensures Owner(m, d).Some? ==> n == AtLeastOne(Winner(m, d).permutations)
  {
    if Covers(m.overrideMap, d) then AtLeastOne(m.overrideMap[d].permutations)
    else if Covers(m.explicitMap, d) then AtLeastOne(m.explicitMap[d].permutations)
    else if Covers(m.caseMap, d) then AtLeastOne(m.caseMap[d].permutations)
    else if Covers(m.implicitMap, d) then AtLeastOne(m.implicitMap[d].permutations)
    else 0
  }

  /** The factor slot d contributes to the total: its count, or 1 for an uncovered slot. */
  function Factor(m: Maps, d: nat): (c: nat)
    ensures c >= 1
  {
    if Permutations(m, d) > 0 then Permutations(m, d) else 1
  }

  /**
   * The product of the nonzero counts of slots 0..n-1, in unbounded
   * integers: the weight of slot n in the mixed-radix flat index.
   */
  function Radix(m: Maps, n: nat): (r: nat)
    ensures r >= 1
  {
    if n == 0 then 1 else Radix(m, n - 1) * Factor(m, n - 1)
  }

  /** With no slot counting more than one, there is exactly one permutation. */
  lemma {:induction false} RadixOfSingletons(m: Maps, n: nat)
    requires forall d :: 0 <= d < n ==> Permutations(m, d) <= 1
    ensures Radix(m, n) == 1
  {
    if n > 0 {
      RadixOfSingletons(m, n - 1);
    }
  }

  /** The total counts every permutation of every covered slot. */
  lemma {:induction false} RadixCoversCounts(m: Maps, n: nat, d: nat)
    requires d < n
    ensures Radix(m, d) * Permutations(m, d) <= Radix(m, n)
  {
    if d < n - 1 {
      RadixCoversCounts(m, n - 1, d);
      MulGrows(Factor(m, n - 1), Radix(m, n - 1));
    }
  }

  /**
   * The product as `bench_define_permutationpermutations` accumulates it in
   * a `size_t` from slot 0 upward, one wrapping multiplication per nonzero count.
   */
  function WrappedProduct(m: Maps, n: nat): (r: nat)
    ensures IsU64(r)
  {
    if n == 0 then 1
    else if Permutations(m, n - 1) > 0 then (WrappedProduct(m, n - 1) * Permutations(m, n - 1)) % U64
    else WrappedProduct(m, n - 1)
  }

  /** The wrapping product is the true total modulo 2^64. */
  lemma {:induction false} WrappedProductIsRadix(m: Maps, n: nat)
    ensures WrappedProduct(m, n) == Radix(m, n) % U64
  {
    if n > 0 {
      WrappedProductIsRadix(m, n - 1);
      ModMulAbsorb(Radix(m, n - 1), Factor(m, n - 1), U64);
      if Permutations(m, n - 1) == 0 {
        assert Radix(m, n - 1) % U64 % U64 == Radix(m, n - 1) % U64;
      }
    }
  }

  /** The sub-index slot d takes in flat permutation p. */
  function SubIndex(m: Maps, d: nat, p: nat): (s: nat)
    requires Owner(m, d).Some?
    ensures s < Permutations(m, d)
  {
    (p / Radix(m, d)) % Permutations(m, d)
  }

  /** Weighting each covered slot's sub-index by its radix, summed over slots 0..n-1. */
  function Recompose(m: Maps, n: nat, p: nat): int
  {
    if n == 0 then 0
    else Recompose(m, n - 1, p) + (if Owner(m, n - 1).Some? then SubIndex(m, n - 1, p) * Radix(m, n - 1) else 0)
  }

  /** The sub-indices are the mixed-radix digits of p below the total, slot 0 least significant. */
  lemma {:induction false} RecomposeDigits(m: Maps, n: nat, p: nat)
    ensures Recompose(m, n, p) == p % Radix(m, n)
  {
    if n > 0 {
      RecomposeDigits(m, n - 1, p);
      var owned := Owner(m, n - 1).Some?;
      DigitStep(p, Radix(m, n - 1), Factor(m, n - 1), Recompose(m, n - 1, p), owned, if owned then SubIndex(m, n - 1, p) else 0);
    }
  }

  /** One more mixed-radix digit: a slot with c choices and weight r extends p % r to p % (r * c). */
  lemma DigitStep(p: nat, r: nat, c: nat, low: nat, owned: bool, digit: nat)
    requires r >= 1 && c >= 1 && low == p % r
    requires owned ==> digit == (p / r) % c
    requires !owned ==> c == 1
    ensures low + (if owned then digit * r else 0) == p % (r * c)
  {
    MixedRadixStep(p, r, c);
    if owned {
      assert digit * r == r * digit;
    } else {
      assert (p / r) % c == 0;
    }
  }

  /** Slots 0..n-1 take the same sub-indices under p and q. */
  predicate SameSubIndices(m: Maps, n: nat, p: nat, q: nat)
  {
    forall d :: 0 <= d < n && Owner(m, d).Some? ==> SubIndex(m, d, p) == SubIndex(m, d, q)
  }

  lemma {:induction false} RecomposeCongruent(m: Maps, n: nat, p: nat, q: nat)
    requires SameSubIndices(m, n, p, q)
    ensures Recompose(m, n, p) == Recompose(m, n, q)
  {
    if n > 0 {
      RecomposeCongruent(m, n - 1, p, q);
    }
  }

  /** Distinct flat indices below the total select distinct sub-index vectors. */
  lemma SubIndicesInjective(m: Maps, n: nat, p: nat, q: nat)
    requires p < Radix(m, n) && q < Radix(m, n)
    requires SameSubIndices(m, n, p, q)
    ensures p == q
  {
    RecomposeCongruent(m, n, p, q);
    RecomposeDigits(m, n, p);
    RecomposeDigits(m, n, q);
    SmallMod(p, Radix(m, n));
    SmallMod(q, Radix(m, n));
  }

  /**
   * `bench_define_name`: the suite's name for slot d if it has one, otherwise
   * the implicit name, otherwise none.
   */
  function Name(names: seq<Option<string>>, d: nat): (r: Option<string>)
    ensures r.Some? <==> (d < |names| && names[d].Some?) || d < ImplicitDefineCount
    ensures d < |names| && names[d].Some? ==> r == names[d]
    ensures r.Some? && !(d < |names| && names[d].Some?) ==> d < ImplicitDefineCount && r.value == ImplicitNames[d]
  {
    if d < |names| && names[d].Some? then names[d]
    else if d < ImplicitDefineCount then Some(ImplicitNames[d])
    else None
  }

  /** The sixteen implicit names are pairwise different. */
  lemma ImplicitNamesDistinct()
    ensures forall i, j :: 0 <= i < j < ImplicitDefineCount ==> ImplicitNames[i] != ImplicitNames[j]
  {
  }

  /**
   * Where the suite names no implicit slot, an implicit name resolves to
   * exactly one slot, so a `--define` of that name reaches only that slot.
   */
  lemma ImplicitNameSlot(names: seq<Option<string>>, d: nat, i: nat)
    requires i < ImplicitDefineCount && d < ImplicitDefineCount
    requires forall k :: 0 <= k < |names| ==> names[k].None?
    requires Name(names, d) == Some(ImplicitNames[i])
    ensures d == i
  {
    ImplicitNamesDistinct();
    assert Name(names, d) == Some(ImplicitNames[d]);
  }

  /** `bench_override_t`: a `--define NAME=...` request. */
  datatype Override = Override(name: string, define: Define)

  /**
   * The override the `--define NAME=...` parser builds from the entries it
   * read: the stored records and the count accumulated beside them. None
   * where computing that count divides by a zero step.
   */
  function ParsedOverride(name: string, entries: seq<Entry>): (o: Option<Override>)
    ensures o.None? <==> exists i :: 0 <= i < |entries| && ZeroStep(entries[i])
    ensures o.Some? ==> o.value.name == name && o.value.define.cb == OverrideList(StoredValues(entries))
    ensures o.Some? ==> o.value.define.permutations == |Flatten(StoredValues(entries))| % U64
  {
    match ParsedPermutations(entries)
    case None => None
    case Some(n) =>
      ParsedIsFlattenLength(entries);
      Some(Override(name, Define(OverrideList(StoredValues(entries)), n)))
  }

  /** The define of the last override named `name`, or a null define. */
  function LastMatch(overrides: seq<Override>, name: Option<string>): (r: Define)
    ensures r != NullDefine ==> exists i :: 0 <= i < |overrides| && Some(overrides[i].name) == name && overrides[i].define == r
  {
    if |overrides| == 0 then NullDefine
    else if name == Some(overrides[|overrides| - 1].name) then overrides[|overrides| - 1].define
    else LastMatch(overrides[..|overrides| - 1], name)
  }

  /**
   * The override layer `bench_define_suite` builds over `count` slots:
   * each slot gets the define of the last override whose name equals the
   * slot's name, or a null define.
   */
  function OverrideLayer(overrides: seq<Override>, names: seq<Option<string>>, count: nat): (layer: seq<Define>)
    ensures |layer| == count
  {
    seq(count, d requires 0 <= d < count => LastMatch(overrides, Name(names, d)))
  }

  /** Among several overrides for the same name, the latest one is installed. */
  lemma {:induction false} LastOverrideWins(overrides: seq<Override>, i: nat, name: Option<string>)
    requires i < |overrides| && Some(overrides[i].name) == name
    requires forall j :: i < j < |overrides| ==> Some(overrides[j].name) != name
    ensures LastMatch(overrides, name) == overrides[i].define
    decreases |overrides|
  {
    if i < |overrides| - 1 {
      var init := overrides[..|overrides| - 1];
      assert forall j :: i < j < |init| ==> init[j] == overrides[j];
      LastOverrideWins(init, i, name);
    }
  }

  /** A slot whose name no override mentions is not covered by the override layer. */
  lemma {:induction false} UnmatchedSlotUncovered(overrides: seq<Override>, name: Option<string>)
    requires forall j :: 0 <= j < |overrides| ==> Some(overrides[j].name) != name
    ensures LastMatch(overrides, name) == NullDefine
    decreases |overrides|
  {
    if |overrides| > 0 {
      UnmatchedSlotUncovered(overrides[..|overrides| - 1], name);
    }
  }

  /** An override whose name matches no slot changes nothing. */
  lemma InertOverride(overrides: seq<Override>, o: Override, names: seq<Option<string>>, count: nat)
    requires forall d :: 0 <= d < count ==> Name(names, d) != Some(o.name)
    ensures OverrideLayer(overrides + [o], names, count) == OverrideLayer(overrides, names, count)
  {
    var extended := overrides + [o];
    assert extended[..|extended| - 1] == overrides;
  }

  /**
   * `bench_define_case(suite, case, k)`: the case layer becomes row k of the
   * case's define matrix, one define per suite slot, or empty when the case
   * has no matrix.
   */
  function CaseRow(suite: Suite, c: Case, k: nat): (row: seq<Define>)
    requires c.defines.Some? ==> (k + 1) * |suite.defineNames| <= |c.defines.value|
    ensures c.defines.None? ==> row == []
    ensures c.defines.Some? ==> |row| == |suite.defineNames|
    ensures c.defines.Some? ==> forall i :: 0 <= i < |row| ==> row[i] == c.defines.value[k * |suite.defineNames| + i]
  {
    if c.defines.Some? then
      var n := |suite.defineNames|;
      assert k * n + n == (k + 1) * n;
      c.defines.value[k * n..k * n + n]
    else []
  }

  /** Every covering define in a layer has a nonzero raw `permutations` field. */
  predicate NonzeroLayer(layer: seq<Define>)
  {
    forall d :: 0 <= d < |layer| && !layer[d].cb.Null? ==> layer[d].permutations > 0
  }

  predicate NonzeroMaps(m: Maps)
  {
    NonzeroLayer(m.overrideMap) && NonzeroLayer(m.explicitMap) && NonzeroLayer(m.caseMap) && NonzeroLayer(m.implicitMap)
  }

  /** Under NonzeroMaps the raw field of the winning define is its count. */
  lemma NonzeroWinner(m: Maps, d: nat)
    requires NonzeroMaps(m) && Owner(m, d).Some?
    ensures Winner(m, d).permutations == Permutations(m, d)
  {
  }
}

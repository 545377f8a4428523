/**
 * The permutation cache and what reading a define means
 * (`bench_define_cache_entry_t`, `bench_define_permutation` and
 * `bench_define` in runners/bench_runner.c).
 *
 * Selecting flat permutation p fills the cache with one pending entry per
 * covered slot (the winning define and the slot's sub-index) and a null entry
 * per uncovered slot. Reading a pending entry evaluates its callback, which
 * may read other slots, and the result replaces the pending entry.
 *
 * The source puts no bound on the recursion between slots. Here a ghost
 * rank over slots orders the reads: a computed define may only read slots of
 * lower rank. Under that hypothesis Value below is the meaning of reading a slot.
 */
module Evaluation {
  import opened Base
  import opened Overrides
  import opened Defines
  import opened Registry

  /** A cache entry: not defined, pending (define and sub-index), or cached. */
  datatype CacheEntry = Unset | Pending(define: Define, sub: nat) | Cached(value: int)

  /**
   * The fatal errors of evaluation: reading a slot no layer defines
   * (`error: undefined define`), an override index past the last element (the
   * `assert(false)` of `bench_override_cb`), and division by zero in a
   * computed define.
   */
  datatype Error = Undefined(slot: nat) | OverrideIndex(slot: nat) | DivideByZero(slot: nat)

  datatype Result<T> = Ok(value: T) | Err(error: Error)

  /** The entry `bench_define_permutation(p)` stores for slot d. */
  function SelectionEntry(m: Maps, d: nat, p: nat): CacheEntry
  {
    if Owner(m, d).Some? then Pending(Winner(m, d), SubIndex(m, d, p)) else Unset
  }

  /** The whole cache after `bench_define_permutation(p)`, one entry per slot. */
  function Selection(m: Maps, count: nat, p: nat): (c: seq<CacheEntry>)
    ensures |c| == count
    ensures forall d :: 0 <= d < count ==> c[d] == SelectionEntry(m, d, p)
  {
    seq(count, d requires 0 <= d => SelectionEntry(m, d, p))
  }

  /** Two flat indices below the total that select the same cache are equal. */
  lemma SelectionInjective(m: Maps, count: nat, p: nat, q: nat)
    requires p < Radix(m, count) && q < Radix(m, count)
    requires Selection(m, count, p) == Selection(m, count, q)
    ensures p == q
  {
    forall d | 0 <= d < count && Owner(m, d).Some?
      ensures SubIndex(m, d, p) == SubIndex(m, d, q)
    {
      assert Selection(m, count, p)[d] == Selection(m, count, q)[d];
    }
    SubIndicesInjective(m, count, p, q);
  }

  /** Every slot e reads is a slot below `count` of rank below `top`. */
  ghost predicate Below(e: Expr, count: nat, rank: seq<nat>, top: nat)
  {
    forall r :: r in Reads(e) ==> r < count && r < |rank| && rank[r] < top
  }

  /** Both operands of a binary expression read what the expression reads. */
  lemma BelowOperands(a: Expr, b: Expr, count: nat, rank: seq<nat>, top: nat)
    requires Below(Quot(a, b), count, rank, top) || Below(MaxOf(a, b), count, rank, top)
    ensures Below(a, count, rank, top) && Below(b, count, rank, top)
  {
    assert Reads(Quot(a, b)) == Reads(a) + Reads(b) == Reads(MaxOf(a, b));
  }

  /** Every pending computed entry reads only lower-ranked slots of the cache. */
  ghost predicate Ranked(c: seq<CacheEntry>, rank: seq<nat>)
  {
    && |rank| >= |c|
    && forall d :: 0 <= d < |c| && c[d].Pending? && c[d].define.cb.Computed? ==>
         Below(c[d].define.cb.expr, |c|, rank, rank[d])
  }

  /**
   * Quotient of two evaluated operands, rounded toward zero as C's `/` is;
   * a zero divisor is the fatal error of the slot being evaluated, and an
   * operand's error, the left one first, is passed on unchanged. C leaves
   * the order in which the operands are evaluated unspecified; left to right
   * is one order it allows, and the only one modelled.
   */
  function Divide(x: Result<int>, y: Result<int>, owner: nat): (r: Result<int>)
    ensures x.Ok? && y.Ok? && y.value != 0 ==> r.Ok? && TruncQuotient(x.value, y.value, r.value)
    ensures x.Ok? && y.Ok? && y.value == 0 ==> r == Err(DivideByZero(owner))
    ensures x.Err? ==> r == x
    ensures x.Ok? && y.Err? ==> r == y
  {
    match x
    case Err(e) => Err(e)
    case Ok(a) =>
      match y
      case Err(e) => Err(e)
      case Ok(b) => if b == 0 then Err(DivideByZero(owner)) else Ok(TruncDiv(a, b))
  }

  /**
   * The larger of two evaluated operands: at least both and equal to one of
   * them; an operand's error, the left one first, is passed on unchanged
   * (left to right, as for `Divide`).
   */
  function Larger(x: Result<int>, y: Result<int>): (r: Result<int>)
    ensures x.Ok? && y.Ok? ==> r.Ok? && r.value >= x.value && r.value >= y.value
    ensures x.Ok? && y.Ok? ==> r.Ok? && (r.value == x.value || r.value == y.value)
    ensures x.Err? ==> r == x
    ensures x.Ok? && y.Err? ==> r == y
  {
    match x
    case Err(e) => Err(e)
    case Ok(a) =>
      match y
      case Err(e) => Err(e)
      case Ok(b) => Ok(Max(a, b))
  }

  /**
   * A fatal error names the slot whose entry caused it: an unset or null
   * slot for an undefined read, an override list read past its end for a
   * bad override index, a computed define for a division by zero.
   */
  predicate Blames(c: seq<CacheEntry>, err: Error)
  {
    && err.slot < |c|
    && match err
       case Undefined(s) => c[s].Unset? || (c[s].Pending? && c[s].define.cb.Null?)
       case OverrideIndex(s) =>
         c[s].Pending? && c[s].define.cb.OverrideList? && OverrideAt(c[s].define.cb.values, c[s].sub).None?
       case DivideByZero(s) => c[s].Pending? && c[s].define.cb.Computed?
  }

  /** What `bench_define(d)` returns when the cache is c, or the fatal error it meets. */
  ghost function Value(c: seq<CacheEntry>, rank: seq<nat>, d: nat): (r: Result<int>)
    requires Ranked(c, rank) && d < |c|
    decreases rank[d], 1
  {
    match c[d]
    case Unset => Err(Undefined(d))
    case Cached(v) => Ok(v)
    case Pending(def, sub) =>
      match def.cb
      case Null => Err(Undefined(d))
      case Lit(v) => Ok(v)
      case OverrideList(values) =>
        (match OverrideAt(values, sub)
         case None => Err(OverrideIndex(d))
         case Some(v) => Ok(v))
      case Computed(e) => ExprValue(c, rank, e, rank[d], d)
  }

  /** The value of a computed define's expression; `owner` is the slot it defines. */
  ghost function ExprValue(c: seq<CacheEntry>, rank: seq<nat>, e: Expr, top: nat, owner: nat): (r: Result<int>)
    requires Ranked(c, rank) && Below(e, |c|, rank, top)
    decreases top, 0, e
  {
    match e
    case Const(v) => Ok(v)
    case Read(r) =>
      assert r in Reads(e);
      Value(c, rank, r)
    case Quot(a, b) =>
      BelowOperands(a, b, |c|, rank, top);
      Divide(ExprValue(c, rank, a, top, owner), ExprValue(c, rank, b, top, owner), owner)
    case MaxOf(a, b) =>
      BelowOperands(a, b, |c|, rank, top);
      Larger(ExprValue(c, rank, a, top, owner), ExprValue(c, rank, b, top, owner))
  }

  /** Every fatal error of reading slot d is blamed on the cache entry that caused it. */
  lemma {:induction false} ValueBlames(c: seq<CacheEntry>, rank: seq<nat>, d: nat)
    requires Ranked(c, rank) && d < |c|
    ensures Value(c, rank, d).Err? ==> Blames(c, Value(c, rank, d).error)
    decreases rank[d], 1
  {
    if c[d].Pending? && c[d].define.cb.Computed? {
      ExprValueBlames(c, rank, c[d].define.cb.expr, rank[d], d);
    }
  }

  /**
   * A fatal error of an expression is blamed on a cache entry, or is a
   * division by zero of the define being evaluated.
   */
  lemma {:induction false} ExprValueBlames(c: seq<CacheEntry>, rank: seq<nat>, e: Expr, top: nat, owner: nat)
    requires Ranked(c, rank) && Below(e, |c|, rank, top)
    ensures var r := ExprValue(c, rank, e, top, owner);
      r.Err? ==> Blames(c, r.error) || r.error == DivideByZero(owner)
    decreases top, 0, e
  {
    match e
    case Const(_) =>
    case Read(r) =>
      assert r in Reads(e);
      ValueBlames(c, rank, r);
    case Quot(a, b) =>
      BelowOperands(a, b, |c|, rank, top);
      ExprValueBlames(c, rank, a, top, owner);
      ExprValueBlames(c, rank, b, top, owner);
    case MaxOf(a, b) =>
      BelowOperands(a, b, |c|, rank, top);
      ExprValueBlames(c, rank, a, top, owner);
      ExprValueBlames(c, rank, b, top, owner);
  }

  /**
   * c' is c with some pending entries replaced by their values: what
   * evaluating defines does to the cache.
   */
  ghost predicate Consistent(c: seq<CacheEntry>, c': seq<CacheEntry>, rank: seq<nat>)
    requires Ranked(c, rank)
  {
    && |c'| == |c|
    && forall r :: 0 <= r < |c| ==>
         c'[r] == c[r] || (c[r].Pending? && Value(c, rank, r).Ok? && c'[r] == Cached(Value(c, rank, r).value))
  }

  lemma ConsistentRefl(c: seq<CacheEntry>, rank: seq<nat>)
    requires Ranked(c, rank)
    ensures Consistent(c, c, rank)
  {
  }

  lemma ConsistentRanked(c: seq<CacheEntry>, c': seq<CacheEntry>, rank: seq<nat>)
    requires Ranked(c, rank) && Consistent(c, c', rank)
    ensures Ranked(c', rank)
  {
    forall d | 0 <= d < |c'| && c'[d].Pending? && c'[d].define.cb.Computed?
      ensures Below(c'[d].define.cb.expr, |c'|, rank, rank[d])
    {
      assert c'[d] == c[d];
    }
  }

  /** Caching values never changes what any slot reads as. */
  lemma {:induction false} ValuePreserved(c: seq<CacheEntry>, c': seq<CacheEntry>, rank: seq<nat>, d: nat)
    requires Ranked(c, rank) && Consistent(c, c', rank) && d < |c|
    ensures Ranked(c', rank) && Value(c', rank, d) == Value(c, rank, d)
    decreases rank[d], 1
  {
    ConsistentRanked(c, c', rank);
    if c'[d] == c[d] && c[d].Pending? && c[d].define.cb.Computed? {
      ExprValuePreserved(c, c', rank, c[d].define.cb.expr, rank[d], d);
    }
  }

  lemma {:induction false} ExprValuePreserved(c: seq<CacheEntry>, c': seq<CacheEntry>, rank: seq<nat>, e: Expr, top: nat, owner: nat)
    requires Ranked(c, rank) && Consistent(c, c', rank) && Below(e, |c|, rank, top)
    ensures Ranked(c', rank) && ExprValue(c', rank, e, top, owner) == ExprValue(c, rank, e, top, owner)
    decreases top, 0, e
  {
    ConsistentRanked(c, c', rank);
    match e
    case Const(_) =>
    case Read(r) =>
      assert r in Reads(e);
      ValuePreserved(c, c', rank, r);
    case Quot(a, b) =>
      BelowOperands(a, b, |c|, rank, top);
      ExprValuePreserved(c, c', rank, a, top, owner);
      ExprValuePreserved(c, c', rank, b, top, owner);
    case MaxOf(a, b) =>
      BelowOperands(a, b, |c|, rank, top);
      ExprValuePreserved(c, c', rank, a, top, owner);
      ExprValuePreserved(c, c', rank, b, top, owner);
  }

  lemma ConsistentTrans(c1: seq<CacheEntry>, c2: seq<CacheEntry>, c3: seq<CacheEntry>, rank: seq<nat>)
    requires Ranked(c1, rank) && Consistent(c1, c2, rank)
    requires Ranked(c2, rank) && Consistent(c2, c3, rank)
    ensures Consistent(c1, c3, rank)
  {
    forall r | 0 <= r < |c1|
      ensures c3[r] == c1[r] || (c1[r].Pending? && Value(c1, rank, r).Ok? && c3[r] == Cached(Value(c1, rank, r).value))
    {
      ValuePreserved(c1, c2, rank, r);
    }
  }

  /** Every winning computed define of slots below `count` reads only lower-ranked slots below `count`. */
  ghost predicate RankedMaps(m: Maps, count: nat, rank: seq<nat>)
  {
    && |rank| >= count
    && forall d :: 0 <= d < count && Owner(m, d).Some? && Winner(m, d).cb.Computed? ==>
         Below(Winner(m, d).cb.expr, count, rank, rank[d])
  }

  lemma SelectionRanked(m: Maps, count: nat, p: nat, rank: seq<nat>)
    requires RankedMaps(m, count, rank)
    ensures Ranked(Selection(m, count, p), rank)
  {
  }

  /**
   * A slot whose winning define is `BENCH_LIT(v)` counts one permutation and
   * reads as v whichever flat permutation is selected.
   */
  lemma LiteralSlot(m: Maps, count: nat, rank: seq<nat>, p: nat, d: nat, v: int)
    requires RankedMaps(m, count, rank) && d < count
    requires Owner(m, d).Some? && Winner(m, d) == LitDefine(v)
    ensures Permutations(m, d) == 1
    ensures Ranked(Selection(m, count, p), rank) && Value(Selection(m, count, p), rank, d) == Ok(v)
  {
    SelectionRanked(m, count, p, rank);
  }

  /**
   * A slot won by the define the `--define` parser builds reads the selected
   * element of its value list, so `bench_override_cb` never reaches its
   * `assert(false)` for it.
   */
  lemma ParsedOverrideSlot(m: Maps, count: nat, rank: seq<nat>, p: nat, d: nat, name: string, entries: seq<Entry>)
    requires RankedMaps(m, count, rank) && NonzeroMaps(m) && d < count
    requires ParsedOverride(name, entries).Some? && Owner(m, d).Some?
    requires Winner(m, d) == ParsedOverride(name, entries).value.define
    ensures SubIndex(m, d, p) < |Flatten(StoredValues(entries))|
    ensures Ranked(Selection(m, count, p), rank)
    ensures Value(Selection(m, count, p), rank, d) == Ok(Flatten(StoredValues(entries))[SubIndex(m, d, p)])
  {
    var values := StoredValues(entries);
    SelectionRanked(m, count, p, rank);
    NonzeroWinner(m, d);
    ModAtMost(|Flatten(values)|, U64);
    OverrideAtFlatten(values, SubIndex(m, d, p));
  }

  /** The implicit ranks, extended with rank 0 for suite slots. */
  function ImplicitRanks(count: nat): (rank: seq<nat>)
    ensures |rank| == count
  {
    seq(count, d requires 0 <= d => if d < ImplicitDefineCount then ImplicitRank[d] else 0)
  }

  /** No layer above the implicit one holds a computed define. */
  predicate LiteralUpperLayers(m: Maps)
  {
    forall i, d :: 0 <= i < MapImplicit && 0 <= d < |Layer(m, i)| ==> !Layer(m, i)[d].cb.Computed?
  }

  /**
   * The implicit dependency graph is acyclic: with the implicit table as the
   * bottom layer, literal or override defines above it and at least the
   * sixteen implicit slots, every read of a slot has a value or a fatal error.
   */
  lemma ImplicitRanked(m: Maps, count: nat)
    requires m.implicitMap == ImplicitDefines() && LiteralUpperLayers(m) && count >= ImplicitDefineCount
    ensures RankedMaps(m, count, ImplicitRanks(count))
  {
    var rank := ImplicitRanks(count);
    forall d | 0 <= d < count && Owner(m, d).Some? && Winner(m, d).cb.Computed?
      ensures Below(Winner(m, d).cb.expr, count, rank, rank[d])
    {
      var o := Owner(m, d).value;
      assert o == MapImplicit;
      forall r | r in Reads(Winner(m, d).cb.expr)
        ensures r < count && r < |rank| && rank[r] < rank[d]
      {
        ImplicitAcyclic(d, r);
      }
    }
  }

  /** No non-implicit layer covers any implicit slot. */
  predicate NoImplicitOverrides(m: Maps)
  {
    forall d :: 0 <= d < ImplicitDefineCount ==> !IsPermutation(m, d)
  }

  /**
   * When nothing overrides an implicit slot, the slot reads as its
   * implicit expression evaluated through lookups of the other slots.
   */
  lemma ImplicitSlotValue(m: Maps, count: nat, p: nat, d: nat)
    requires m.implicitMap == ImplicitDefines() && count >= ImplicitDefineCount
    requires d < ImplicitDefineCount && !IsPermutation(m, d)
    requires RankedMaps(m, count, ImplicitRanks(count))
    ensures var c := Selection(m, count, p);
      Ranked(c, ImplicitRanks(count)) &&
      c[d] == Pending(Define(Computed(ImplicitExpr(d)), 1), 0) &&
      Value(c, ImplicitRanks(count), d) == ExprValue(c, ImplicitRanks(count), ImplicitExpr(d), ImplicitRank[d], d)
  {
    assert Owner(m, d).Some? && Owner(m, d).value == MapImplicit;
    assert Radix(m, d) >= 1;
  }

  /**
   * BLOCK_COUNT reads as DISK_SIZE/BLOCK_SIZE, CACHE_SIZE as
   * max(16, max(READ_SIZE, PROG_SIZE)), INLINE_SIZE and CRYSTAL_SIZE as
   * BLOCK_SIZE/8, SHRUB_SIZE as INLINE_SIZE and FRAGMENT_SIZE as CACHE_SIZE,
   * each of the slots read being looked up in the same cache, so a derived
   * slot follows whatever layer sets the slots it reads.
   */
  lemma DerivedImplicits(m: Maps, count: nat, p: nat)
    requires m.implicitMap == ImplicitDefines() && count >= ImplicitDefineCount
    requires LiteralUpperLayers(m)
    requires !IsPermutation(m, BlockCount) && !IsPermutation(m, CacheSize) && !IsPermutation(m, InlineSize)
    requires !IsPermutation(m, ShrubSize) && !IsPermutation(m, FragmentSize) && !IsPermutation(m, CrystalSize)
    ensures var c, rank := Selection(m, count, p), ImplicitRanks(count);
      && Ranked(c, rank)
      && Value(c, rank, BlockCount) == Divide(Value(c, rank, DiskSize), Value(c, rank, BlockSize), BlockCount)
      && Value(c, rank, CacheSize) == Larger(Ok(16), Larger(Value(c, rank, ReadSize), Value(c, rank, ProgSize)))
      && Value(c, rank, InlineSize) == Divide(Value(c, rank, BlockSize), Ok(8), InlineSize)
      && Value(c, rank, CrystalSize) == Divide(Value(c, rank, BlockSize), Ok(8), CrystalSize)
      && Value(c, rank, ShrubSize) == Value(c, rank, InlineSize)
      && Value(c, rank, FragmentSize) == Value(c, rank, CacheSize)
  {
    ImplicitRanked(m, count);
    SelectionRanked(m, count, p, ImplicitRanks(count));
    ImplicitSlotValue(m, count, p, BlockCount);
    ImplicitSlotValue(m, count, p, CacheSize);
    ImplicitSlotValue(m, count, p, InlineSize);
    ImplicitSlotValue(m, count, p, CrystalSize);
    ImplicitSlotValue(m, count, p, ShrubSize);
    ImplicitSlotValue(m, count, p, FragmentSize);
  }

  /**
   * With only the implicit layer in effect for the implicit slots, they read
   * as the documented defaults: READ_SIZE=1, PROG_SIZE=1, BLOCK_SIZE=4096,
   * BLOCK_COUNT=256, DISK_SIZE=1048576, CACHE_SIZE=16, INLINE_SIZE=512,
   * SHRUB_SIZE=512, FRAGMENT_SIZE=16, CRYSTAL_SIZE=512, LOOKAHEAD_SIZE=16,
   * BLOCK_CYCLES=-1, ERASE_VALUE=0xff, ERASE_CYCLES=0 and the two
   * block-device behaviour codes.
   */
  lemma ImplicitDefaults(m: Maps, count: nat, p: nat)
    requires ImplicitOnly(m, count)
    ensures var c, rank := Selection(m, count, p), ImplicitRanks(count);
      && Ranked(c, rank)
      && Value(c, rank, ReadSize) == Ok(1)
      && Value(c, rank, ProgSize) == Ok(1)
      && Value(c, rank, BlockSize) == Ok(4096)
      && Value(c, rank, BlockCount) == Ok(256)
      && Value(c, rank, DiskSize) == Ok(1048576)
      && Value(c, rank, CacheSize) == Ok(16)
      && Value(c, rank, InlineSize) == Ok(512)
      && Value(c, rank, ShrubSize) == Ok(512)
      && Value(c, rank, FragmentSize) == Ok(16)
      && Value(c, rank, CrystalSize) == Ok(512)
      && Value(c, rank, LookaheadSize) == Ok(16)
      && Value(c, rank, BlockCycles) == Ok(-1)
      && Value(c, rank, EraseValue) == Ok(0xff)
      && Value(c, rank, EraseCycles) == Ok(0)
      && Value(c, rank, BadblockBehavior) == Ok(BadblockProgError)
      && Value(c, rank, PowerlossBehavior) == Ok(PowerlossNoop)
  {
    GeometryDefaults(m, count, p);
    SizeDefaults(m, count, p);
    WearDefaults(m, count, p);
    DeviceDefaults(m, count, p);
    DerivedImplicits(m, count, p);
    assert TruncDiv(1048576, 4096) == 256;
    assert TruncDiv(4096, 8) == 512;
  }

  /**
   * The setting of the implicit defaults: the implicit table is the bottom
   * layer, no layer above it holds a computed define or sets an implicit
   * slot, and there are at least the sixteen implicit slots.
   */
  predicate ImplicitOnly(m: Maps, count: nat)
  {
    && m.implicitMap == ImplicitDefines() && count >= ImplicitDefineCount
    && LiteralUpperLayers(m) && NoImplicitOverrides(m)
  }

  /** The read, program and block sizes read as their constant implicit defines. */
  lemma GeometryDefaults(m: Maps, count: nat, p: nat)
    requires ImplicitOnly(m, count)
    ensures var c, rank := Selection(m, count, p), ImplicitRanks(count);
      && Ranked(c, rank)
      && Value(c, rank, ReadSize) == Ok(1)
      && Value(c, rank, ProgSize) == Ok(1)
      && Value(c, rank, BlockSize) == Ok(4096)
  {
    ConstantSlot(m, count, p, ReadSize, 1);
    ConstantSlot(m, count, p, ProgSize, 1);
    ConstantSlot(m, count, p, BlockSize, 4096);
  }

  /** The disk and lookahead sizes read as their constant implicit defines. */
  lemma SizeDefaults(m: Maps, count: nat, p: nat)
    requires ImplicitOnly(m, count)
    ensures var c, rank := Selection(m, count, p), ImplicitRanks(count);
      && Ranked(c, rank)
      && Value(c, rank, DiskSize) == Ok(1048576)
      && Value(c, rank, LookaheadSize) == Ok(16)
  {
    ConstantSlot(m, count, p, DiskSize, 1048576);
    ConstantSlot(m, count, p, LookaheadSize, 16);
  }

  /** The wear slots read as their constant implicit defines. */
  lemma WearDefaults(m: Maps, count: nat, p: nat)
    requires ImplicitOnly(m, count)
    ensures var c, rank := Selection(m, count, p), ImplicitRanks(count);
      && Ranked(c, rank)
      && Value(c, rank, BlockCycles) == Ok(-1)
      && Value(c, rank, EraseValue) == Ok(0xff)
      && Value(c, rank, EraseCycles) == Ok(0)
  {
    ConstantSlot(m, count, p, BlockCycles, -1);
    ConstantSlot(m, count, p, EraseValue, 0xff);
    ConstantSlot(m, count, p, EraseCycles, 0);
  }

  /** The block-device behaviour slots read as their constant implicit defines. */
  lemma DeviceDefaults(m: Maps, count: nat, p: nat)
    requires ImplicitOnly(m, count)
    ensures var c, rank := Selection(m, count, p), ImplicitRanks(count);
      && Ranked(c, rank)
      && Value(c, rank, BadblockBehavior) == Ok(BadblockProgError)
      && Value(c, rank, PowerlossBehavior) == Ok(PowerlossNoop)
  {
    ConstantSlot(m, count, p, BadblockBehavior, BadblockProgError);
    ConstantSlot(m, count, p, PowerlossBehavior, PowerlossNoop);
  }

  /** An implicit slot nothing overrides whose implicit define is a constant reads as that constant. */
  lemma ConstantSlot(m: Maps, count: nat, p: nat, d: nat, v: int)
    requires ImplicitOnly(m, count) && d < ImplicitDefineCount && ImplicitExpr(d) == Const(v)
    ensures Ranked(Selection(m, count, p), ImplicitRanks(count))
    ensures Value(Selection(m, count, p), ImplicitRanks(count), d) == Ok(v)
  {
    ImplicitRanked(m, count);
    ImplicitSlotValue(m, count, p, d);
  }
}

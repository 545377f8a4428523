/**
 * The data the define engine runs on (runners/bench_runner.h): defines,
 * bench cases and suites, the sixteen implicit slots and the
 * `BENCH_IMPLICIT_DEFINES` default/derivation table.
 */
module Defines {
  import opened Base
  import opened Overrides

  /**
   * The arithmetic an implicit or generated define computes. `Read(d)` is a
   * `bench_define(d)` lookup, `Quot` is C's truncating `intmax_t` division
   * and `MaxOf` is `lfs_max`.
   */
  datatype Expr =
    | Const(value: int)
    | Read(slot: nat)
    | Quot(num: Expr, den: Expr)
    | MaxOf(left: Expr, right: Expr)

  /**
   * A define's `cb`/`data` pair. `Null` is a NULL `cb` (the slot is not
   * covered by this layer), `Lit` is `bench_define_lit` with its value in
   * `data`, `OverrideList` is `bench_override_cb` over a value list, and
   * `Computed` is a callback that evaluates an expression over other slots.
   */
  datatype Callback =
    | Null
    | Lit(value: int)
    | OverrideList(values: seq<OverrideValue>)
    | Computed(expr: Expr)

  /** `bench_define_t`. */
  datatype Define = Define(cb: Callback, permutations: nat)

  /** An all-zero `bench_define_t`, as `memset` and `{0}` leave it. */
  const NullDefine: Define := Define(Null, 0)

  /** `BENCH_LIT(x)`: a literal with one permutation. */
  function LitDefine(v: int): (d: Define)
    ensures d.cb.Lit? && d.cb.value == v && d.permutations == 1
  {
    Define(Lit(v), 1)
  }

  /**
   * `struct bench_case`: only the fields the engine reads. `defines` is the
   * row-major define matrix (None for a NULL pointer), `permutations` the
   * number of rows.
   */
  datatype Case = Case(name: string, defines: Option<seq<Define>>, permutations: nat)

  /** `struct bench_suite`: `defineNames[d]` is None for a NULL name. */
  datatype Suite = Suite(name: string, defineNames: seq<Option<string>>, cases: seq<Case>)

  // The implicit slot indices.
  const ReadSize: nat := 0
  const ProgSize: nat := 1
  const BlockSize: nat := 2
  const BlockCount: nat := 3
  const DiskSize: nat := 4
  const CacheSize: nat := 5
  const InlineSize: nat := 6
  const ShrubSize: nat := 7
  const FragmentSize: nat := 8
  const CrystalSize: nat := 9
  const LookaheadSize: nat := 10
  const BlockCycles: nat := 11
  const EraseValue: nat := 12
  const EraseCycles: nat := 13
  const BadblockBehavior: nat := 14
  const PowerlossBehavior: nat := 15

  const ImplicitDefineCount: nat := 16

  /** The slot constants in declaration order. */
  const ImplicitSlots: seq<nat> := [
    ReadSize, ProgSize, BlockSize, BlockCount, DiskSize, CacheSize,
    InlineSize, ShrubSize, FragmentSize, CrystalSize, LookaheadSize,
    BlockCycles, EraseValue, EraseCycles, BadblockBehavior, PowerlossBehavior]

  /** The implicit slots are the distinct indices 0..15, one per implicit define. */
  lemma ImplicitSlotsAreIndices()
    ensures |ImplicitSlots| == ImplicitDefineCount
    ensures forall i :: 0 <= i < |ImplicitSlots| ==> ImplicitSlots[i] == i
  {
  }

  // The block-device behaviour codes; their values are defined by the
  // emulated block device, which is outside this model.
  const BadblockProgError: int
  const PowerlossNoop: int

  /** The default or derivation of each implicit slot. */
  function ImplicitExpr(d: nat): (e: Expr)
    requires d < ImplicitDefineCount
  {
    if d == ReadSize then Const(1)
    else if d == ProgSize then Const(1)
    else if d == BlockSize then Const(4096)
    else if d == BlockCount then Quot(Read(DiskSize), Read(BlockSize))
    else if d == DiskSize then Const(1024 * 1024)
    else if d == CacheSize then MaxOf(Const(16), MaxOf(Read(ReadSize), Read(ProgSize)))
    else if d == InlineSize then Quot(Read(BlockSize), Const(8))
    else if d == ShrubSize then Read(InlineSize)
    else if d == FragmentSize then Read(CacheSize)
    else if d == CrystalSize then Quot(Read(BlockSize), Const(8))
    else if d == LookaheadSize then Const(16)
    else if d == BlockCycles then Const(-1)
    else if d == EraseValue then Const(0xff)
    else if d == EraseCycles then Const(0)
    else if d == BadblockBehavior then Const(BadblockProgError)
    else Const(PowerlossNoop)
  }

  /** The implicit layer: one computed define per slot, each with one permutation. */
  function ImplicitDefines(): (layer: seq<Define>)
    ensures |layer| == ImplicitDefineCount
    ensures forall d :: 0 <= d < |layer| ==> layer[d].cb.Computed? && layer[d].permutations == 1
  {
    seq(ImplicitDefineCount, d requires 0 <= d < ImplicitDefineCount => Define(Computed(ImplicitExpr(d)), 1))
  }

  /** The implicit names, the stringified macro names. */
  const ImplicitNames: seq<string> := [
    "READ_SIZE", "PROG_SIZE", "BLOCK_SIZE", "BLOCK_COUNT", "DISK_SIZE",
    "CACHE_SIZE", "INLINE_SIZE", "SHRUB_SIZE", "FRAGMENT_SIZE",
    "CRYSTAL_SIZE", "LOOKAHEAD_SIZE", "BLOCK_CYCLES", "ERASE_VALUE",
    "ERASE_CYCLES", "BADBLOCK_BEHAVIOR", "POWERLOSS_BEHAVIOR"]

  /** The slots an expression reads. */
  function Reads(e: Expr): set<nat>
  {
    match e
    case Const(_) => {}
    case Read(d) => {d}
    case Quot(a, b) => Reads(a) + Reads(b)
    case MaxOf(a, b) => Reads(a) + Reads(b)
  }

  /**
   * A rank of the implicit slots under which every implicit expression
   * reads only lower-ranked slots: BLOCK_COUNT, CACHE_SIZE, INLINE_SIZE and
   * CRYSTAL_SIZE read rank-0 slots, SHRUB_SIZE and FRAGMENT_SIZE read rank-1 slots.
   */
  const ImplicitRank: seq<nat> := [0, 0, 0, 1, 0, 1, 1, 2, 2, 1, 0, 0, 0, 0, 0, 0]

  /** The implicit dependency graph is acyclic: every read goes to a lower rank. */
  lemma ImplicitAcyclic(d: nat, r: nat)
    requires d < ImplicitDefineCount && r in Reads(ImplicitExpr(d))
    ensures r < ImplicitDefineCount && ImplicitRank[r] < ImplicitRank[d]
  {
  }
}

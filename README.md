# littlefs bench runner: the define-permutation engine

This project models the part of the littlefs benchmark runner
(`runners/bench_runner.c`, `runners/bench_runner.h`) that decides which
numeric parameter assignments ("defines") each bench case runs under, and
proves properties of that model in Dafny.

- **Defines.** A slot holds a `bench_define_t`: a callback and its data, plus a
  `permutations` count. The source allows any callback. The model restricts
  callbacks to four kinds, a `Callback` datatype: a null callback (the slot is
  not covered), a literal (`bench_define_lit`), an override value list
  (`bench_override_cb`), or a computed define whose value is an expression built
  from constants, reads of other slots, truncating division and `lfs_max`. The
  `BENCH_IMPLICIT_DEFINES` table is of the last kind. The callbacks that the
  bench generator writes for each case are not part of this model; a case's
  defines are taken to be of these four kinds.
- **Layers.** Four define maps are searched in fixed priority: override, explicit
  (replay), case and implicit. The first layer that covers a slot with a non-null
  callback owns that slot. `bench_define_ispermutation`,
  `bench_define_permutations` and `bench_define_permutationpermutations` are
  functions over these layers. The product of the counts wraps modulo 2^64, as a
  `size_t` does.
- **Selection and lazy evaluation.** `bench_define_permutation(p)` splits a flat
  index into mixed-radix digits, one digit per covered slot with slot 0 least
  significant, and stores a pending entry per slot. `bench_define(d)` evaluates a
  pending entry once and caches the value. A cached entry reads back unchanged.
  - An implicit expression may read any slot, for example BLOCK_COUNT reading
    DISK_SIZE. Termination of that recursion is argued with a ghost rank.
  - Reading an uncovered slot and reading an override past its last element are
    fatal errors, and so is a division by zero in a computed define. The model
    returns each as a `Result` error that names the slot whose entry caused it.
- **Enumeration.** `case_forperm` runs rows outermost and flat indices innermost.
  It records every resolved tuple in the `bench_seen` trie and runs a
  permutation when it is the very first one or its tuple is new. The replay path
  runs every flat index with no deduplication. Callback invocations are returned
  as a list of `Run(row, perm)` records.
- **Identity.** `perm_printid` prints `name:` followed by leb16 slot/value pairs.
  The identifier loop of `main` decodes such a suffix back into an explicit layer
  of literals. Both the leb16 codec and the identity round trip are proved. An
  identity with no varying define (`case:` and nothing after the colon) leaves
  the layer pointer NULL (runners/bench_runner.c:1875, 1897-1918), so
  `case_forperm` takes its deduplicating branch and enumerates the whole case
  again instead of replaying one permutation (runners/bench_runner.c:806).
- **Override lists.** The `--define` parser turns a comma-separated list of
  values and `range(start, stop, step)` entries into a list of records and adds
  up their counts in a `size_t` (runners/bench_runner.c:1617-1739). The model
  takes the parsed entries as input and models the count and the stored
  records; a range with step 0 makes that count divide by zero.
- **Helpers.** The project also models `mappend`, `bench_prng` (xorshift32),
  `bench_factorial`, the in-place `bench_permutation`, and the step filter of
  `perm_run`.

Imperative source code is modelled imperatively:

- `class BenchState` holds the registry, the cache and the override table. Its
  methods mirror the suite, case and explicit installers, the selection, the
  define read, the trie insertion, the identity printer and `case_forperm`.
- `class Seen` is the trie, kept as an arena of nodes.
- `class Buffer` models `mappend`. `class Prng` models the prng state and
  `class StepCounter` the step counter.
- `bench_permutation` works in place on an `array`.

Each method is proved against a specification function. Lemmas about those
functions state what the source promises.

When several overrides name the same define, `bench_define_suite` installs the
last of them: its loop over the overrides is the outer loop, and each name match
overwrites the slot (runners/bench_runner.c:410-418).

Files: `base.dfy` (machine integers), `leb16.dfy`, `overrides.dfy`,
`defines.dfy` (the header's types and implicit table), `registry.dfy`
(layers, counts, radix, override layer), `evaluator.dfy` (cache entries and
lazy values), `identity.dfy`, `dedup.dfy`, `seen.dfy`, `engine.dfy`,
`util.dfy`.

## Model

| member | source | states |
|---|---|---|
| Base.ToU64 | runners/bench_runner.c:733-736 | conversion to `uintmax_t` lands in 0..2^64-1 and leaves values already there unchanged |
| Base.ToI64 | runners/bench_runner.c:1902 | reading a `uintmax_t` as `intmax_t` gives a 64-bit signed value, unchanged up to INTMAX_MAX and negative above it |
| Base.NegU64 | runners/bench_runner.c:56-59 | unsigned negation `-x` is the additive inverse of x modulo 2^64 |
| Base.SignedRoundTrip | runners/bench_runner.c:1902-1917 | an `intmax_t` printed as `uintmax_t` and read back as `intmax_t` is unchanged |
| Base.TruncDiv | runners/bench_runner.c:358-360 | C's signed division, for every combination of signs: the quotient rounds toward zero, the remainder a - q*b is smaller than b in magnitude and has the sign of a, and for non-negative operands it is the Euclidean quotient |
| Base.SignedQuotients | runners/bench_runner.c:358-360 | the magnitudes-then-sign construction of the truncating quotient meets the remainder conditions in all four sign cases |
| Base.TruncQuotientUnique | runners/bench_runner.c:358-360 | the remainder conditions determine the quotient, so the truncating quotient is unique |
| Base.TruncDivSigns | runners/bench_runner.c:358-360 | -7/2 and 7/-2 give -3 and -7/-2 gives 3 in C, while the Euclidean -7 div 2 is -4 |
| Base.Max | runners/bench_runner.c:393-396 | the larger of two integers |
| Leb16.NibbleChar | runners/bench_runner.c:62-63 | a tagged nibble 0..31 is printed as a character of '0'..'9' or 'a'..'v' |
| Leb16.Print | runners/bench_runner.c:54-69 | `leb16_print` always writes at least one character |
| Leb16.CharNibble | runners/bench_runner.c:85-93 | a character has a nibble exactly when it is in '0'..'9' or 'a'..'v', and that nibble is below 32 |
| Leb16.NibbleCharInverse | runners/bench_runner.c:62-89 | the parser's character decoding inverts the printer's character encoding |
| Leb16.Digits | runners/bench_runner.c:61-68 | the magnitude part of the output is never empty and starts with a valid nibble character |
| Leb16.DigitsFrom | runners/bench_runner.c:83-101 | a completed nibble loop yields a 64-bit value and a tail strictly past its start |
| Leb16.PlacedValue | runners/bench_runner.c:95 | `(nibble & 0xf) << 4*i` is the low nibble times 16^i |
| Leb16.Parse | runners/bench_runner.c:71-107 | `leb16_parse` returns a 64-bit value, and leaves tail at the start or strictly past it within the string |
| Leb16.ParseLeb16 | runners/bench_runner.c:71-107 | the imperative parse loop computes exactly Parse (value and tail) |
| Leb16.AccStep | runners/bench_runner.c:95 | adding the low nibble now and the rest at the next position accumulates the same value modulo 2^64 |
| Leb16.AccumulatedValue | runners/bench_runner.c:95-96 | accumulating the nibbles of x from position i adds x * 16^i modulo 2^64 |
| Leb16.DigitsFromDigits | runners/bench_runner.c:61-101 | the nibble loop reading the printed digits of x consumes exactly them and accumulates x's nibbles |
| Leb16.AccNext | runners/bench_runner.c:95 | nibble i and the nibbles above it accumulate in two steps to x * 16^i |
| Leb16.DigitsLast | runners/bench_runner.c:62-66 | a single untagged nibble ends the number and carries all of x |
| Leb16.DigitsHead | runners/bench_runner.c:62-68 | a tagged nibble is followed by the digits of x/16, and both the loop and the accumulation continue from the same state |
| Leb16.PrintParse | runners/bench_runner.c:54-107 | for every 64-bit x, parsing what `leb16_print(x)` emits gives back x and advances tail past exactly those characters, whatever precedes or follows |
| Leb16.NegativeParse | runners/bench_runner.c:56-59 | round trip for values negative as `intmax_t`: the 'w', then the magnitude of -x |
| Leb16.MagnitudeAt | runners/bench_runner.c:83-101 | parsing the magnitude digits of m from nibble 0 returns m and lands just past them |
| Leb16.AccumulatedWhole | runners/bench_runner.c:95 | the nibbles of a 64-bit value, accumulated from 0 at position 0, give the value back |
| Leb16.PrintSign | runners/bench_runner.c:56-59 | the output is non-empty and starts with 'w' exactly when x is negative as `intmax_t` |
| Leb16.InvalidNibble | runners/bench_runner.c:71-93 | a non-alphabet character where a nibble belongs, after an optional 'w' and any continuation nibbles, returns 0 with tail at the original start |
| Leb16.InvalidNibbleFrom | runners/bench_runner.c:84-93 | the nibble loop reaching a non-alphabet character after tagged nibbles aborts |
| Leb16.StuckTailMeansZero | runners/bench_runner.c:71-107 | whenever tail does not move, the value returned is 0 |
| Overrides.RangeCount | runners/bench_runner.c:355-362 | the element count of a range, computed with C's truncating division and stored as a `size_t` |
| Overrides.ValueCount | runners/bench_runner.c:353-375 | an entry contributes a `size_t` count: 1 for a single value, the range count for a range |
| Overrides.Elements | runners/bench_runner.c:364-366 | an entry's element list has exactly its count of elements |
| Overrides.Element | runners/bench_runner.c:363-365 | the element a 64-bit entry yields is a 64-bit `intmax_t` |
| Overrides.ElementWraps | runners/bench_runner.c:363-365 | a range element is `i*step + start` computed modulo 2^64 and read back as `intmax_t`, and the plain sum when that fits |
| Overrides.Flatten | runners/bench_runner.c:350-379 | the concatenation of the entries has as many elements as their counts add up to |
| Overrides.OverrideAt | runners/bench_runner.c:350-379 | `bench_override_cb(data, i)` has a value exactly when i is below the sum of the counts, and otherwise reaches `assert(false)` |
| Overrides.OverrideCb | runners/bench_runner.c:350-379 | the loop of `bench_override_cb` returns the i-th element of the concatenation, or fails where the source reaches `assert(false)` |
| Overrides.DeclaredPermutations | runners/bench_runner.c:1696-1702 | the `size_t` sum of the counts of a list of records that the parser stored, each range counted with C's truncating division |
| Overrides.Stored | runners/bench_runner.c:1686-1720 | a single value is stored with step 0 and reads as itself alone; a range is stored with its three fields |
| Overrides.EntryCount | runners/bench_runner.c:1696-1721 | what the parser adds for one entry: nothing (a division by zero) exactly for a range with step 0, otherwise the count of the record it stores |
| Overrides.ParsedPermutations | runners/bench_runner.c:1622-1739 | the parser's `override_permutations` is undefined (the division by zero ends the program) exactly when some entry is a range with step 0, and otherwise is the `size_t` sum of the stored records' counts |
| Overrides.ZeroStepRange | runners/bench_runner.c:1696-1702 | `range(0,4,0)` after a single value ends the parse by dividing by zero, although the record it would store reads as the single value 0 |
| Overrides.ParsedIsFlattenLength | runners/bench_runner.c:1622-1739 | a value list with no zero-step range declares exactly as many permutations as `bench_override_cb` enumerates, modulo 2^64 |
| Overrides.SumCountsSnoc | runners/bench_runner.c:1696-1702 | one more entry adds its count to the sum |
| Overrides.DeclaredIsFlattenLength | runners/bench_runner.c:1696-1702 | the parser's declared count equals the evaluator's concatenation length modulo 2^64 |
| Overrides.OverrideAtFlatten | runners/bench_runner.c:350-379 | `bench_override_cb(data, i)` is element i of the concatenation of the entries, and fails past its end |
| Overrides.DeclaredIndicesEvaluate | runners/bench_runner.c:350-379 | every index below the declared count has a value, so `bench_override_cb` cannot reach its `assert(false)` for such an index |
| Overrides.AscendingRange | runners/bench_runner.c:358-366 | an ascending range with start < stop has ceil((stop-start)/step) elements start + j*step, all in [start, stop) |
| Overrides.DescendingRange | runners/bench_runner.c:360-366 | a descending range with stop < start has its count and elements start + j*step, all in (stop, start] |
| Overrides.RangeZeroToThree | runners/bench_runner.c:350-379 | range(0,3) with step 1 yields 0, 1, 2 |
| Overrides.EmptyRangeCounts | runners/bench_runner.c:358-362 | range(0,0,2) still yields one element, 0, and range(5,2) counts 2^64-3 as a `size_t` |
| Defines.ImplicitSlotsAreIndices | runners/bench_runner.h:115-132 | the sixteen implicit slots are the distinct indices 0..15, and `BENCH_IMPLICIT_DEFINE_COUNT` is 16 |
| Defines.ImplicitDefines | runners/bench_runner.c:157-169 | the implicit layer has 16 entries, each a computed define with one permutation |
| Defines.ImplicitAcyclic | runners/bench_runner.h:151-168 | every slot an implicit expression reads is an implicit slot of strictly lower rank, so the dependency graph is acyclic |
| Registry.OwnerFrom | runners/bench_runner.c:227-237 | the layer found from index i on covers the slot |
| Registry.OwnerFromFirst | runners/bench_runner.c:227-237 | the layer found is the first covering one, and none found means no layer from i covers the slot |
| Registry.Owner | runners/bench_runner.c:227-237 | the owning layer covers the slot with a non-null callback |
| Registry.Winner | runners/bench_runner.c:227-237 | the define that owns a covered slot has a non-null callback |
| Registry.OwnerFirst | runners/bench_runner.c:227-237 | no higher-priority layer than the owner covers the slot, and no owner means no layer covers it |
| Registry.OwnerFromFound | runners/bench_runner.c:298-310 | the search of `bench_define_permutation` stops at the owner, or runs off the end exactly when no layer covers the slot |
| Registry.IsPermutation | runners/bench_runner.c:215-225 | `bench_define_ispermutation` holds exactly when a non-implicit layer owns the slot |
| Registry.Permutations | runners/bench_runner.c:227-238 | the count is 0 exactly for an uncovered slot, and otherwise the owner's declared count with 0 read as 1 |
| Registry.Factor | runners/bench_runner.c:240-249 | each slot contributes a factor of at least 1 to the total |
| Registry.Radix | runners/bench_runner.c:240-249 | the unbounded product of the nonzero counts is at least 1 |
| Registry.RadixOfSingletons | runners/bench_runner.c:240-249 | with no slot counting more than one, the total is 1 |
| Registry.RadixCoversCounts | runners/bench_runner.c:240-249 | the total counts every sub-index of every slot under the weight of the slots below it |
| Registry.WrappedProduct | runners/bench_runner.c:240-249 | the accumulated product is a `size_t` |
| Registry.WrappedProductIsRadix | runners/bench_runner.c:240-249 | `bench_define_permutationpermutations` is the product of the nonzero counts modulo 2^64 |
| Registry.SubIndex | runners/bench_runner.c:300-307 | the sub-index a covered slot gets is below its count |
| Registry.RecomposeDigits | runners/bench_runner.c:296-314 | weighting each slot's sub-index by its radix recomposes p modulo the total: the sub-indices are the mixed-radix digits, slot 0 least significant |
| Registry.DigitStep | runners/bench_runner.c:302-306 | one more digit extends p % r to p % (r*c) |
| Registry.RecomposeCongruent | runners/bench_runner.c:296-314 | equal sub-index vectors recompose to the same number |
| Registry.SubIndicesInjective | runners/bench_runner.c:278-315 | distinct flat indices below the total give distinct sub-index vectors |
| Registry.ImplicitNamesDistinct | runners/bench_runner.c:174-185 | the sixteen implicit names are pairwise different |
| Registry.Name | runners/bench_runner.c:202-213 | a slot has a name exactly when the suite names it or it is an implicit slot, and the suite's name takes precedence; `Registry.ImplicitNameSlot` states what follows for overrides |
| Registry.ImplicitNameSlot | runners/bench_runner.c:202-213 | `bench_define_name` with no suite names gives an implicit slot's name to that slot and no other, so a `--define` of an implicit name reaches exactly one slot |
| Registry.LastMatch | runners/bench_runner.c:410-418 | the define installed for a name is one of the overrides carrying that name, or none |
| Registry.ParsedOverride | runners/bench_runner.c:1725-1739 | the define `--define NAME=...` installs lists the stored records, and its `permutations` field is the number of their elements modulo 2^64; there is none when a range has step 0 |
| Registry.OverrideLayer | runners/bench_runner.c:399-421 | the override layer spans all `bench_define_count` slots |
| Registry.LastOverrideWins | runners/bench_runner.c:410-418 | of several overrides naming the same define, the latest one is installed |
| Registry.UnmatchedSlotUncovered | runners/bench_runner.c:408-418 | a slot whose name no override mentions is left null after the `memset` |
| Registry.InertOverride | runners/bench_runner.c:410-418 | an override whose name matches no slot changes nothing |
| Registry.CaseRow | runners/bench_runner.c:318-330 | row k of the case matrix is the suite's `define_count` defines starting at k*define_count, or empty without a matrix |
| Registry.NonzeroWinner | runners/bench_runner.c:300-306 | when no covering define has a zero raw count, the divisor used by the selection is the slot's count |
| Evaluation.Selection | runners/bench_runner.c:296-314 | the selection has one entry per slot, each the entry built for that slot from p |
| Evaluation.SelectionInjective | runners/bench_runner.c:278-315 | distinct flat indices below the total store distinct caches |
| Evaluation.BelowOperands | runners/bench_runner.h:151-168 | the operands of a derived expression read only what the expression reads |
| Evaluation.Divide | runners/bench_runner.h:156-162 | the quotient of two read values satisfies C's truncating division for every combination of signs; a divisor reading 0 is a fatal divide-by-zero error of the slot being evaluated; an operand's failure, the left one first, is passed on unchanged |
| Evaluation.Larger | runners/bench_runner.h:158 | `lfs_max` of two read values is at least both and equal to one of them; an operand's failure, the left one first, is passed on unchanged |
| Evaluation.ValueBlames | runners/bench_runner.c:251-275 | every fatal error of `bench_define(d)` names a slot whose entry caused it: an unset or null entry for an undefined define, an override list read past its end, or a computed define that divided by zero |
| Evaluation.ParsedOverrideSlot | runners/bench_runner.c:350-379 | a slot won by a parsed override reads the selected element of its value list, so `bench_override_cb` never reaches its `assert(false)` on the enumeration's path |
| Evaluation.ExprValueBlames | runners/bench_runner.h:151-168 | a failing implicit expression fails with an error blamed on a cache entry, or with a division by zero of the define being evaluated |
| Defines.LitDefine | runners/bench_runner.c:137 | `BENCH_LIT(v)` is a literal callback of value v with one permutation; `Evaluation.LiteralSlot` states how such a slot reads |
| Evaluation.LiteralSlot | runners/bench_runner.c:131-137 | a slot whose winning define is `BENCH_LIT(v)` counts one permutation and reads as v under every selection |
| Evaluation.ConsistentRefl | runners/bench_runner.c:251-275 | a cache is consistent with itself |
| Evaluation.ConsistentRanked | runners/bench_runner.c:251-275 | caching values keeps the cache well ranked |
| Evaluation.ValuePreserved | runners/bench_runner.c:251-275 | storing values in the cache never changes what any slot reads as |
| Evaluation.ExprValuePreserved | runners/bench_runner.c:251-275 | storing values never changes what an expression evaluates to |
| Evaluation.ConsistentTrans | runners/bench_runner.c:251-275 | two rounds of caching are one round of caching |
| Evaluation.SelectionRanked | runners/bench_runner.c:296-314 | when the winning computed defines read downward in the rank, so does every pending entry of a selection |
| Evaluation.ImplicitRanks | runners/bench_runner.h:151-168 | a rank for every slot, the implicit ones first |
| Evaluation.ImplicitRanked | runners/bench_runner.h:151-168 | with the implicit table at the bottom and only literals above it, every read has a value or a fatal error |
| Evaluation.ImplicitSlotValue | runners/bench_runner.c:251-275 | an implicit slot nothing overrides is a pending entry of its expression, and reads as that expression evaluated through lookups |
| Evaluation.DerivedImplicits | runners/bench_runner.h:156-162 | BLOCK_COUNT reads as DISK_SIZE/BLOCK_SIZE, CACHE_SIZE as max(16, max(READ_SIZE, PROG_SIZE)), INLINE_SIZE and CRYSTAL_SIZE as BLOCK_SIZE/8, SHRUB_SIZE as INLINE_SIZE, FRAGMENT_SIZE as CACHE_SIZE, each through lookups, so they follow overrides of the slots they read |
| Evaluation.ImplicitDefaults | runners/bench_runner.h:153-168 | with no overrides the sixteen implicit slots read as 1, 1, 4096, 256, 1048576, 16, 512, 512, 16, 512, 16, -1, 0xff, 0 and the two block-device codes |
| Evaluation.GeometryDefaults | runners/bench_runner.h:153-155 | READ_SIZE=1, PROG_SIZE=1, BLOCK_SIZE=4096 under the implicit layer alone |
| Evaluation.SizeDefaults | runners/bench_runner.h:157-163 | DISK_SIZE=1048576 and LOOKAHEAD_SIZE=16 under the implicit layer alone |
| Evaluation.WearDefaults | runners/bench_runner.h:164-166 | BLOCK_CYCLES=-1, ERASE_VALUE=0xff, ERASE_CYCLES=0 under the implicit layer alone |
| Evaluation.DeviceDefaults | runners/bench_runner.h:167-168 | the two block-device behaviour slots read as their constants under the implicit layer alone |
| Evaluation.ConstantSlot | runners/bench_runner.h:151-168 | an implicit slot whose table entry is a constant reads as that constant |
| Identity.EncodePairsSnoc | runners/bench_runner.c:733-738 | printing one more pair appends its two leb16 numbers |
| Identity.NextPow2From | runners/bench_runner.c:1910 | the power-of-two search ends at or above its target |
| Identity.NextPow2 | runners/bench_runner.c:1910 | `1 << lfs_npw2(x)` is at least x and at least 1 |
| Identity.GrowContents | runners/bench_runner.c:1908-1916 | growing the replay layer makes slot d exist, keeps the old entries and null-fills the new ones |
| Identity.InstallOne | runners/bench_runner.c:1908-1917 | `defines[d] = BENCH_LIT(v)` after growing: slot d exists and holds the literal, and the layer does not shrink |
| Identity.InstallOneOthers | runners/bench_runner.c:1908-1917 | installing one literal keeps every other old slot and leaves the added slots null |
| Identity.DecodeFrom | runners/bench_runner.c:1899-1918 | the decoding loop never shrinks the layer it starts from |
| Identity.ParseDefines | runners/bench_runner.c:1899-1918 | the imperative decoding loop computes DecodeFrom |
| Identity.ColonAt | runners/bench_runner.c:1880-1884 | `strchr(name, ':')` finds the first colon, and none means there is no colon |
| Identity.IdentityDefines | runners/bench_runner.c:1875-1918 | an argument without a colon replays no layer, and a replayed layer is never empty |
| Identity.EmptyIdentity | runners/bench_runner.c:1897-1905 | after the colon the layer is left NULL exactly when the first slot and value read consume no text |
| Identity.DecodedIdentity | runners/bench_runner.c:1875-1918 | an argument whose first colon is at c replays what the text after c decodes to, or NULL when that installs nothing |
| Identity.StopsAtTerminator | runners/bench_runner.c:1901-1905 | a character that is neither a digit nor 'w' stops the parse without moving tail |
| Identity.DecodeEncode | runners/bench_runner.c:727-739 | decoding what `perm_printid` printed for a list of pairs installs exactly those pairs, in order |
| Identity.DecodeEncoded | runners/bench_runner.c:1899-1918 | decoding from the start of an encoding installs its pairs in order |
| Identity.DecodeHead | runners/bench_runner.c:1901-1902 | the first two parses of an encoding return its first slot and value and move past them |
| Identity.EncodedTail | runners/bench_runner.c:1899-1906 | after the first pair, the rest of the text encodes the remaining pairs |
| Identity.EncodedIn | runners/bench_runner.c:727-739 | the printed pairs followed by a terminator are an encoding at the prefix's end |
| Identity.EncodedCons | runners/bench_runner.c:733-737 | the first pair's text at a position followed by an encoding of the rest is an encoding of all the pairs |
| Identity.EncodePairs | runners/bench_runner.c:733-737 | the printed pairs take at least two characters each, and nothing is printed exactly when there are no pairs |
| Identity.Install | runners/bench_runner.c:1908-1917 | installing pairs never shrinks the layer, and installing at least one gives a nonempty layer |
| Identity.DecodeStep | runners/bench_runner.c:1899-1917 | one pass of the loop installs the literal read and continues after it |
| Identity.ParsePair | runners/bench_runner.c:1901-1902 | two printed numbers in a row parse back in turn |
| Identity.ReplayIdentity | runners/bench_runner.c:1875-1918 | for a case name without a colon, the identity `perm_printid` prints for a nonempty list of pairs decodes to exactly the layer that installs those pairs, and with no pairs leaves the layer NULL |
| Identity.NameColon | runners/bench_runner.c:1880-1884 | for a case name without a colon, `strchr` finds the colon printed right after it |
| Identity.InstallContents | runners/bench_runner.c:1908-1917 | the replayed layer holds the literal of each pair's value (as `intmax_t`) at its slot, and elsewhere the old entry or a null define |
| Identity.DanglingSlot | runners/bench_runner.c:1899-1917 | the suffix "3" installs slot 3 as the literal 0 and grows the layer to 4 null-padded entries |
| Dedup.FilterSnoc | runners/bench_runner.c:835-845 | one more candidate extends the filter by one admit step, or fails with its tuple's error |
| Dedup.Admit | runners/bench_runner.c:838-843 | one admit step records the tuple, and the candidate joins the runs exactly when it is (0, 0) or its tuple was not recorded before |
| Dedup.Filter | runners/bench_runner.c:826-846 | a successful filter runs at most one permutation per candidate |
| Dedup.FilterError | runners/bench_runner.c:835-839 | a failing filter fails with the error of the first candidate whose tuple failed |
| Dedup.FilterShape | runners/bench_runner.c:826-846 | after a successful filter every tuple resolved, the seen set is exactly the tuples met, and the run indices are increasing candidate indices |
| Dedup.FilterAllOk | runners/bench_runner.c:835-838 | a successful filter met no failing tuple |
| Dedup.FilterSeen | runners/bench_runner.c:838 | the seen set holds exactly the tuples resolved |
| Dedup.FilterKeptBound | runners/bench_runner.c:839-843 | the run indices are candidate indices |
| Dedup.FilterKept | runners/bench_runner.c:826-846 | the run indices are strictly increasing, so runs happen in enumeration order |
| Dedup.FilterKeeps | runners/bench_runner.c:838-843 | candidate i runs exactly when it is (0, 0) or no earlier candidate resolved to the same tuple |
| Dedup.RunsDistinct | runners/bench_runner.c:838-843 | when only the first candidate can be (0, 0), the runs resolve to pairwise distinct tuples |
| Dedup.RunsCover | runners/bench_runner.c:838-843 | every candidate's tuple is the tuple of a run at or before it |
| Dedup.KeptDistinct | runners/bench_runner.c:838-843 | when only the first candidate can be (0, 0), no two runs resolve to the same tuple |
| Dedup.KeptCover | runners/bench_runner.c:838-843 | every candidate's tuple is that of a run at or before it |
| Dedup.OnePerTuple | runners/bench_runner.c:826-846 | when only the first candidate can be (0, 0), the filter runs exactly one candidate per distinct tuple, the earliest |
| Dedup.FirstWithKey | runners/bench_runner.c:838-843 | each tuple has an earliest candidate resolving to it |
| Dedup.FirstCandidateRuns | runners/bench_runner.c:839-841 | the first permutation always runs |
| SeenTrie.AddBranch | runners/bench_runner.c:767-778 | appending a branch with a new key and an empty child keeps the trie well formed and adds exactly the extended path |
| SeenTrie.AddBranchEdges | runners/bench_runner.c:770-777 | after the append every branch leads to a child spelling its parent's path plus its key |
| SeenTrie.AddBranchParents | runners/bench_runner.c:770-777 | after the append every node but the root hangs from the branch its parent names |
| SeenTrie.AddBranchPaths | runners/bench_runner.c:767-778 | a new path keeps node paths distinct and grows the path set by exactly itself |
| SeenTrie.PrefixesEmpty | runners/bench_runner.c:753-756 | the empty tuple has only itself as prefix |
| SeenTrie.PrefixesSnoc | runners/bench_runner.c:755-781 | the prefixes of a tuple extended by a key are its old prefixes and itself |
| SeenTrie.PathStep | runners/bench_runner.c:759-781 | walking one level tracks membership of the longer tuple, and a tuple seen before means its prefix was seen too |
| SeenTrie.Seen.constructor | runners/bench_runner.c:823 | an empty trie has only the root path |
| SeenTrie.Seen.PathHasBranch | runners/bench_runner.c:760-766 | a path ending in a key has a branch with that key at the node of the shorter path, so the linear search finds it |
| SeenTrie.Seen.PrefixInjective | runners/bench_runner.c:742-751 | distinct nodes spell distinct paths |
| SeenTrie.Seen.PathsPrefixClosed | runners/bench_runner.c:742-751 | a path's prefix is a path |
| SeenTrie.Seen.PathsClosed | runners/bench_runner.c:742-751 | the root path is present and the paths are closed under dropping the last key |
| SeenTrie.Seen.Walk | runners/bench_runner.c:759-781 | one level of the walk moves to the node of the longer tuple, and reports whether that tuple was already a path |
| SeenTrie.Seen.Step | runners/bench_runner.c:759-781 | searching a node's branches for a key and appending a branch when there is none: the child spells the extended path, found exactly when it was a path before, and the path set grows by at most it |
| Engine.TupleKey | runners/bench_runner.c:755-758 | the tuple recorded has one value per slot: a permutation define's value or 0, or the first fatal error |
| Engine.TupleKeyErr | runners/bench_runner.c:755-758 | once one slot's read fails, the whole tuple fails with that error |
| Engine.VaryingPairs | runners/bench_runner.c:732-738 | the printed pairs are slots below the count |
| Engine.VaryingPairsErr | runners/bench_runner.c:732-738 | once one read fails, printing the identity fails with that error |
| Engine.VaryingPairsSlots | runners/bench_runner.c:732-738 | every printed pair is a permutation define with the value reading it gives |
| Engine.VaryingPairsOrdered | runners/bench_runner.c:732-738 | the pairs are printed in strictly increasing slot order |
| Engine.VaryingPairsComplete | runners/bench_runner.c:732-738 | every permutation define below the count is printed |
| Engine.PairOf | runners/bench_runner.c:732-738 | each permutation define has a pair among those printed |
| Engine.TupleKeyStep | runners/bench_runner.c:755-758 | one more slot extends the tuple by its value, or by 0 for a non-permutation slot |
| Engine.VaryingPairsStep | runners/bench_runner.c:734-737 | a permutation define extends the printed pairs by its pair |
| Engine.PrintedStep | runners/bench_runner.c:734-737 | printing a permutation define appends its leb16 slot and value |
| Engine.PrintedSkip | runners/bench_runner.c:734 | a slot that is not a permutation define prints nothing |
| Engine.ReplayVarying | runners/bench_runner.c:727-739 | replaying a printed identity leaves the layer NULL exactly when no define is a permutation define; otherwise it gives a layer with the literal of each permutation define's value at its slot and null defines everywhere else |
| Engine.NoneVarying | runners/bench_runner.c:733-737 | when no pair is printed, no define below the count is a permutation define |
| Engine.VaryingLayer | runners/bench_runner.c:1897-1917 | installing the printed pairs puts the literal of each permutation define's value at its slot and a null define everywhere else |
| Engine.PrintIdStep | runners/bench_runner.c:734-737 | appending a pair's text extends the identity by that pair's encoding |
| Engine.ClosureAdd | runners/bench_runner.c:753-785 | recording one more tuple adds its prefixes to the trie's paths |
| Engine.ClosureMember | runners/bench_runner.c:753-785 | with all tuples the same nonzero length, a tuple is a trie path exactly when it was recorded |
| Engine.SelectedKey | runners/bench_runner.c:836-838 | the tuple of a selection has one value per define |
| Engine.Flat | runners/bench_runner.c:834 | the candidates of a row are (row, 0) .. (row, n-1) in order |
| Engine.KeyRun | runners/bench_runner.c:834-838 | the tuples of a row are those of flat indices 0 .. n-1 in order |
| Engine.ConcatSnoc | runners/bench_runner.c:826-846 | the first k+1 rows are the first k followed by row k |
| Engine.ConcatPrefix | runners/bench_runner.c:826-846 | the first k rows begin the first K rows |
| Engine.ConcatLengths | runners/bench_runner.c:826-846 | rows of the same lengths concatenate to the same length |
| Engine.RowCands | runners/bench_runner.c:826-846 | there is one candidate row per case row |
| Engine.RowKeys | runners/bench_runner.c:826-846 | each row has one tuple per candidate |
| Engine.Keys | runners/bench_runner.c:826-846 | the whole enumeration has one tuple per candidate |
| Engine.KeysLengths | runners/bench_runner.c:826-846 | every tuple that resolved has one value per define |
| Engine.KeyRunLengths | runners/bench_runner.c:834-838 | every tuple of a row has one value per define |
| Engine.ConcatKeyLengths | runners/bench_runner.c:826-846 | concatenated rows keep one value per define |
| Engine.KeyLengthsAppend | runners/bench_runner.c:826-846 | appending rows keeps one value per define |
| Engine.ConcatFirst | runners/bench_runner.c:826-846 | rows of the form (j, 0), (j, 1), ... put (0, 0) only at the very front |
| Engine.CandsFirst | runners/bench_runner.c:826-846 | among the candidates of `case_forperm`, only the first can be (0, 0) |
| Engine.ForPermDedup | runners/bench_runner.c:820-846 | `case_forperm` runs exactly one permutation per distinct tuple: the runs have pairwise distinct tuples and every candidate's tuple is that of a run at or before it |
| Engine.Rows | runners/bench_runner.c:827-829 | `case_forperm` runs at least one row, and exactly `case_->permutations` of them when that count is positive |
| Engine.RowsStart | runners/bench_runner.c:823 | before the first row nothing has run and the trie holds only the root |
| Engine.RowsEnd | runners/bench_runner.c:826-846 | after the last row the runs are those of the whole enumeration |
| Engine.EnumeratedStep | runners/bench_runner.c:838-843 | a candidate whose tuple resolved joins the runs when it is (0, 0) or new |
| Engine.KeptRunsSnoc | runners/bench_runner.c:838-843 | a new candidate leaves earlier runs alone and is appended when kept |
| Engine.DedupStep | runners/bench_runner.c:838-843 | asking the trie whether the tuple is a path is asking whether it was recorded, and recording it keeps the trie in step |
| Engine.RowAdvance | runners/bench_runner.c:834-844 | one permutation of a row grows the enumeration by one candidate and runs it exactly when first or new |
| Engine.FilterPrefixErr | runners/bench_runner.c:834-844 | once a prefix of the candidates fails, the enumeration fails the same way |
| Engine.RowFails | runners/bench_runner.c:834-844 | a failing flat index makes the row fail the same way |
| Engine.RowPrefix | runners/bench_runner.c:826-846 | the enumeration up to flat index p of a row is the earlier rows plus that row's first p candidates |
| Engine.FailsAt | runners/bench_runner.c:834-844 | a candidate whose tuple fails ends the enumeration with that failure |
| Engine.EnumeratedErr | runners/bench_runner.c:826-846 | the enumeration fails exactly when the filter does, with its error |
| Engine.RowSnoc | runners/bench_runner.c:834 | a row prefix extends by its next element |
| Engine.RowStep | runners/bench_runner.c:826-846 | k+1 rows are k rows followed by row k, whose registry is ready |
| Engine.RowsFail | runners/bench_runner.c:826-846 | a failing row ends the whole enumeration with its failure |
| Engine.CandsPrefixErr | runners/bench_runner.c:826-846 | a failure in the first k rows is the failure of the whole enumeration |
| Engine.CandsPrefix | runners/bench_runner.c:826-846 | the candidates and tuples of k rows begin those of more rows |
| Engine.FilterAppendErr | runners/bench_runner.c:826-846 | a failing filter fails the same way whatever is appended |
| Engine.SelectStep | runners/bench_runner.c:296-314 | one pass of the selection loop builds the selection's entry for slot d and divides the remaining index by the slot's count |
| Engine.SelectEntries | runners/bench_runner.c:296-314 | the loop of `bench_define_permutation` builds exactly the selection for p |
| Engine.BuildOverrideLayer | runners/bench_runner.c:408-418 | the nested override loop builds exactly the last-match override layer |
| Engine.BenchState.constructor | runners/bench_runner.c:157-169 | the initial registry has only the implicit layer, no slots and an empty cache |
| Engine.BenchState.DefineSuite | runners/bench_runner.c:388-423 | names become the suite's, the slot count becomes max(suite count, 16), and with overrides the override layer is rebuilt by name match; nothing else changes |
| Engine.BenchState.DefineCase | runners/bench_runner.c:318-330 | the case layer becomes row k of the case matrix, nothing else changes |
| Engine.BenchState.DefineExplicit | runners/bench_runner.c:425-430 | the explicit layer becomes the replayed defines, nothing else changes |
| Engine.BenchState.PermutationPermutations | runners/bench_runner.c:240-249 | returns the product of the nonzero counts modulo 2^64 |
| Engine.BenchState.SelectPermutation | runners/bench_runner.c:278-315 | the cache becomes the selection for p, the registry is unchanged |
| Engine.BenchState.Define | runners/bench_runner.c:251-275 | returns the slot's value under the last selection or its fatal error; a pending entry is evaluated once and cached, a cached one is returned unchanged without evaluation, and only lower-ranked slots change |
| Engine.BenchState.ValueOfCached | runners/bench_runner.c:253-254 | a cached entry holds the slot's value and was logged as evaluated |
| Engine.BenchState.Cache | runners/bench_runner.c:259-264 | storing a value marks that one entry cached and logs one callback |
| Engine.BenchState.EvalExpr | runners/bench_runner.h:151-168 | an implicit expression evaluated through `bench_define` lookups gives its value under the last selection |
| Engine.BenchState.SlotKey | runners/bench_runner.c:757-758 | a permutation define contributes its value, other slots 0 |
| Engine.BenchState.InsertSlot | runners/bench_runner.c:760-781 | one level of the insert extends the tuple and the walk, reporting whether the longer tuple was seen |
| Engine.BenchState.InsertLevel | runners/bench_runner.c:755-781 | one slot of the insert: read its key and walk one level, or fail the whole tuple |
| Engine.BenchState.SeenInsert | runners/bench_runner.c:753-785 | returns true exactly when the tuple (non-permutation slots as 0) was inserted before, and records its prefixes; a failing read is a fatal error |
| Engine.BenchState.PrintId | runners/bench_runner.c:727-739 | prints the case name, a colon and the encoding of the varying pairs, or fails with the first read's error |
| Engine.BenchState.PrintPairs | runners/bench_runner.c:732-738 | the slot loop appends the varying pairs after the head, or fails with the first read's error |
| Engine.BenchState.PrintSlot | runners/bench_runner.c:733-737 | one slot of `perm_printid`: a permutation define appends its pair |
| Engine.BenchState.CaseForPerm | runners/bench_runner.c:795-849 | with replayed defines every flat permutation runs once in order; otherwise the runs are the deduplicated enumeration of rows and flat indices |
| Engine.BenchState.ForPermRows | runners/bench_runner.c:820-846 | the deduplicating branch produces the enumeration of all rows |
| Engine.BenchState.ForPermStep | runners/bench_runner.c:826-846 | one row pass extends the runs and the trie by that row, or ends the enumeration with its failure |
| Engine.BenchState.ForPermExplicit | runners/bench_runner.c:806-818 | the replay branch runs flat indices 0 .. total-1 of the registry with the explicit layer installed |
| Engine.BenchState.ForPermRow | runners/bench_runner.c:833-844 | the flat-index loop of one row runs each permutation when (0, 0) or new, with the trie in step |
| Util.GrownShape | runners/bench_runner.c:38-40 | growing a capacity that is 0 or 4 doubled gives 4 or twice it |
| Util.Grown | runners/bench_runner.c:38-40 | `mappend`'s new capacity is at least 4, and twice the old one once that is at least 4 |
| Util.Buffer.constructor | runners/bench_runner.c:823 | an empty array with count and capacity 0 |
| Util.Buffer.Append | runners/bench_runner.c:29-51 | `mappend` appends one slot, doubling the capacity (at least 4) when the count passes it; a failed reallocation changes nothing |
| Util.Xorshift32 | runners/bench_runner.c:570-584 | the xorshift step (13, 17, 5) with 0 replaced by 0xffffffff never yields 0 |
| Util.SeedZero | runners/bench_runner.c:575-578 | seed 0 behaves as seed 0xffffffff and differently from seed 1 |
| Util.Prng.constructor | runners/bench_runner.c:570-584 | the generator state starts at the seed |
| Util.Prng.Next | runners/bench_runner.c:570-584 | `bench_prng` returns the next state and stores it, and it is never 0 |
| Util.Fact | runners/bench_runner.c:587-593 | x! is at least 1 |
| Util.FactGrows | runners/bench_runner.c:587-593 | (y-1)! is at most y! |
| Util.Factorial | runners/bench_runner.c:587-593 | `bench_factorial` returns x! modulo 2^64 |
| Util.FactStep | runners/bench_runner.c:590 | one wrapping multiplication goes from (i-1)! to i! modulo 2^64 |
| Util.FactMonotone | runners/bench_runner.c:587-593 | factorials do not decrease |
| Util.FactorialExactUpTo20 | runners/bench_runner.c:587-593 | the result is exact up to 20 and 21! overflows `size_t` |
| Util.Iota | runners/bench_runner.c:603-605 | the first loop leaves buffer[j] = j |
| Util.Permutation | runners/bench_runner.c:596-620 | the permutation buffer for index i has exactly `size` entries |
| Util.Shuffle | runners/bench_runner.c:607-619 | the swap loop keeps the length of the buffer |
| Util.Swap | runners/bench_runner.c:614-616 | a swap exchanges the two entries and keeps the length |
| Util.PermuteInto | runners/bench_runner.c:596-620 | the in-place swaps leave exactly Permutation(i, size) in the buffer |
| Util.ShuffleStep | runners/bench_runner.c:607-619 | one pass swaps position j with j + i % (size-j) and goes on with i / (size-j) |
| Util.SwapAt | runners/bench_runner.c:614-616 | the three assignments exchange two entries |
| Util.ShuffleZero | runners/bench_runner.c:607-619 | index 0 swaps every position with itself |
| Util.PermutationIdentity | runners/bench_runner.c:596-620 | i = 0 gives the identity |
| Util.SwapMultiset | runners/bench_runner.c:614-616 | a swap only rearranges the elements |
| Util.ShuffleMultiset | runners/bench_runner.c:607-619 | the swap loop keeps the multiset and the length |
| Util.ShuffleDistinct | runners/bench_runner.c:607-619 | the swap loop keeps the entries pairwise distinct |
| Util.PermutationValid | runners/bench_runner.c:596-620 | the buffer holds each of 0..size-1 exactly once |
| Util.StepRunsIff | runners/bench_runner.c:1340-1342 | with a nonzero step, step s runs exactly when s < stop and s = start + j*step for some j |
| Util.StepRuns | runners/bench_runner.c:1340-1346 | a step inside the window with stride 0 is a division by zero; a step that runs lies inside the window |
| Util.AllStepsRun | runners/bench_runner.c:446-448 | with the defaults (0, SIZE_MAX, 1) every step below SIZE_MAX runs |
| Util.StepCounter.constructor | runners/bench_runner.c:1331 | the counter starts at 0 |
| Util.StepCounter.Admit | runners/bench_runner.c:1336-1346 | says whether the current step runs and advances the counter by one, modulo 2^64 |

## Left out

- Command-line parsing is not modelled: getopt, the `--define` and `--step` string parsers and `strtoumax`. The model takes their results as inputs: override value lists, the step window, and the identity strings.
- printf and trace output, the summary and listing commands, block-device emulation, timing and floating-point results are not modelled. They are I/O, or belong to code outside this model.
- `lfs_util.h`, `lfs_emubd.h` and the callback `cb` of a case are not part of this model. The two block-device behaviour codes are uninterpreted constants. A call to the callback is recorded as a `Run(row, perm)` value.
- Allocation failure is a parameter of `Util.Buffer.Append` only. Elsewhere `realloc` always succeeds, and cache and override-table capacities are not tracked, because they do not affect which defines are read.
- The operands of `/` and `lfs_max` in a computed define are evaluated left to right, so when both fail the left one's error is reported. C leaves that order unspecified; the model fixes one of the orders it allows.
- Three ways the source stops the program become `Result` errors: the `assert(false)`/`exit(-1)` of `bench_define` on an undefined define, the `assert(false)` of `bench_override_cb` past the last element, and a division by zero in a computed define, which in C is a hardware trap rather than a check. The trap and the signal it raises are not modelled.
- Termination of lazy evaluation assumes a ghost rank under which every computed define reads only lower-ranked slots. The source has no such check: a cyclic definition recurses without bound. The implicit table meets the rank (`Defines.ImplicitAcyclic`).
- The divisor in `bench_define_permutation` is the raw `permutations` field (runners/bench_runner.c:303-306), while `bench_define_permutations` reads a 0 there as 1. A define with 0 permutations is reachable: `--define NAME=` with an empty value list leaves `override_permutations` at 0 (runners/bench_runner.c:1622, 1722-1723, 1739), and selecting any permutation then computes `perm % 0`, a division-by-zero trap. The selection and enumeration members require `NonzeroMaps` (a positive field in every non-null define of every layer, not only the winners) and so do not model that trap.
- Overrides.RangeCount: computes `stop-1 - start` and `-step` exactly. Where these overflow `intmax_t`, for example `range(-2, INTMAX_MAX, 3)`, C's behaviour is undefined; the model gives the exact count modulo 2^64.
- Overrides.DeclaredPermutations: counts the records the parser stores. A range with step 0 never gets that far, because computing its count divides by zero (runners/bench_runner.c:1700-1701); `Overrides.ParsedPermutations` and `Overrides.ZeroStepRange` model that case as None.
- Leb16.DigitsFrom: `(nibble & 0xf) << (4*i)` is undefined in C for i >= 16 (shift by at least the width of `uintmax_t`); the model lets those nibbles contribute nothing, which is what the printer's own output never needs.
- Evaluation.Divide: `INTMAX_MIN / -1` overflows `intmax_t` in C; the model returns the exact quotient 2^63.
- Evaluation.Larger: `lfs_max` is defined in `lfs_util.h`, which is not part of this model, so its operand type is not known here; the model takes the larger of the two values as unbounded integers, with no conversion to a narrower type.
- Identity.NextPow2: computes `1 << lfs_npw2(x)` in unbounded integers and does not model the shift overflowing an `int`.
- Util.Buffer.Append: requires `2*capacity < 2^64`, so the doubling in `size_t` cannot wrap.
- Util.Factorial: excludes x = SIZE_MAX, for which the source loop `i <= x` never ends.
- Util.PermuteInto: requires at most 2^32 entries, since the buffer holds `uint32_t` values and the model stores them unconverted.
- Util.StepCounter.Admit: a step of 0 divides by zero in the source; the model returns None instead.
- Util.Xorshift32: states that the result is never zero and that seed 0 is distinct from seed 1, but not that the step is a bijection on nonzero states.
- The layers that `case_forperm` leaves installed (the case or explicit layer of the last row) stay in the registry afterwards, as in the source. The model states only the runs and the preserved suite data.
- The seen trie is an arena of nodes indexed by number rather than nested `bench_seen_t` arrays. Its branches are appended in place, as `mappend` does, and `bench_seen_cleanup` (freeing) is not modelled.

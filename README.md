# Range-check elimination of the .NET JIT, in Dafny

This project models the bounds-check elimination pass of the CoreCLR JIT (`rangecheck.h` and `rangecheck.cpp`). For each array bounds check, the pass computes a symbolic range for the index. It walks the index's SSA definitions for this, and refines the range with the assertions that hold on the way. It then removes the check when the range provably lies in `[0, length)`.

The model's modules follow the source:

- `Int32`: 32-bit two's-complement arithmetic as C++ evaluates it.
- `Limits`: the `Limit` lattice (`Undef`, `len + c`, constant, `Dependent`, `Unknown`).
  - Its in-place mutators appear as a class, `MutableLimit`.
  - The same steps appear as functions on the value.
- `RangeOps`: the range arithmetic of `RangeOps` (add, multiply, shift, merge, negate).
- `Ir`: the value-number store and relational operators, as data.
- `Bounds`:
  - `BetweenBounds`, `GetRangeFromType`, `GetLimitMax` and the overflow tests;
  - the ranges a binary node with a constant second operand gets outright;
  - the removal tests for a constant index, `len + delta` and `x u% len`.
- `EdgeAssertions`: `MergeEdgeAssertions`, which tightens a range with each assertion about a value number. It is split into its steps: decode, simplify, adjust, tighten, apply.
- `Tree`: the IR the pass reads, as an immutable oracle, plus the array size `OptimizeRangeCheck` uses.
- `RangeCheckPass`: the `RangeCheck` object. It holds the range cache, the overflow cache, the search path, the visit budget and the "statement changed" flag. Its methods are the recursive searches and the removal decision.

Run-time values are a function `vals` from value numbers to integers. A range *contains* `x` when `x` lies between its limits: `len + c` is read as `vals(len) + c`, and `Dependent` and `Unknown` bound nothing. The central property is `RemovalSound`: when a check is removed for a reason `OptimizeRangeCheck` can return, the index is in `[0, length)`. This holds provided:

- the value-number store and the assertions on entry to the block agree with `vals`;
- the range computed for the index holds its value.

`OptimizeRangeCheck` ensures that every removal it makes meets that premise (`Justified`).

## Model

| member | source | states |
|---|---|---|
| Int32.Wrap32 | src/coreclr/jit/rangecheck.cpp:233 | the `(int)` truncation: the result is congruent to its input modulo 2^32 and equals it when it fits in int32 |
| Int32.Unsigned | src/coreclr/jit/rangecheck.cpp:729-745 | an int32 read as unsigned lies in [0, 2^32), is congruent to it, and is unchanged when non-negative |
| Int32.IntAddOverflowsExact | src/coreclr/jit/rangecheck.h:62-73 | `IntAddOverflows` holds exactly when the sum of two int32 values leaves int32, and never for operands of opposite signs |
| Int32.Shr | src/coreclr/jit/rangecheck.h:181-200 | an arithmetic right shift keeps the sign and does not move the value away from zero |
| Limits.Limit.AddConstant | src/coreclr/jit/rangecheck.h:136-157 | succeeds exactly for Dependent or a limit with a constant whose sum stays in int32; then adds to the constant, keeping kind and value number; otherwise leaves the limit |
| Limits.Limit.MultiplyConstant | src/coreclr/jit/rangecheck.h:158-179 | the same for multiplication |
| Limits.Limit.ShiftRightConstant | src/coreclr/jit/rangecheck.h:181-200 | fails exactly for Undef and Unknown; keeps kind and value number; the shifted constant keeps its sign and does not grow in magnitude |
| Limits.AddConstantInverse | src/coreclr/jit/rangecheck.h:136-157 | adding `i` and then `-i` gives the limit back |
| Limits.MutableLimit.constructor | src/coreclr/jit/rangecheck.h:86-110 | the new limit has the given kind, constant and value number |
| Limits.MutableLimit.AddConstant | src/coreclr/jit/rangecheck.h:136-157 | the in-place update leaves exactly the value and success flag of `Limit.AddConstant`, and the old constant on failure |
| Limits.MutableLimit.MultiplyConstant | src/coreclr/jit/rangecheck.h:158-179 | the same for `Limit.MultiplyConstant` |
| Limits.MutableLimit.ShiftRightConstant | src/coreclr/jit/rangecheck.h:181-200 | the same for `Limit.ShiftRightConstant` |
| Limits.MutableLimit.Equals | src/coreclr/jit/rangecheck.h:202-218 | two limits are equal exactly when their values (kind, and constant and value number where the kind has them) are |
| Limits.EqualsReflexiveSymmetric | src/coreclr/jit/rangecheck.h:202-218 | `Equals` is reflexive and symmetric |
| RangeOps.AddConstantRanges | src/coreclr/jit/rangecheck.h:324-361 | adding two constant ranges gives [a+c, b+d], or Unknown at an end whose sum overflows |
| RangeOps.AddSound | src/coreclr/jit/rangecheck.h:324-361 | the sum of a value of each range lies in the range `Add` gives |
| RangeOps.AddConstantLimitSound | src/coreclr/jit/rangecheck.h:287-296 | adding a constant limit to a lower (upper) bound gives a lower (upper) bound of the sum |
| RangeOps.MultiplyNegativeOperandUnsound | src/coreclr/jit/rangecheck.h:402-439 | the source's Multiply gives [0, 6] for [0, 2] times [-5, 3], which misses 2 * -5 |
| RangeOps.MultiplyNonNegative | src/coreclr/jit/rangecheck.h:402-439 | a constant lower end of the product is non-negative |
| RangeOps.MultiplyNonNegativeSound | src/coreclr/jit/rangecheck.h:402-439 | the product of a value of each range lies in the range MultiplyNonNegative gives |
| RangeOps.ShiftRightGuardAdmitsWideCount | src/coreclr/jit/rangecheck.h:373 | the shift-count guard lets through a constant count of 40, which `ShiftRightConstant` asserts is at most 31 |
| RangeOps.ShiftRight | src/coreclr/jit/rangecheck.h:363-398 | a constant end shifted from a non-negative constant stays between 0 and that constant |
| RangeOps.ShiftRightSound | src/coreclr/jit/rangecheck.h:363-398 | for a count c in [0, 31], `x >> c` lies in the range ShiftRight gives |
| RangeOps.MergeUnknownAbsorbs | src/coreclr/jit/rangecheck.h:451-476 | an Unknown end on either side makes that end of the merge Unknown |
| RangeOps.MergeConstantRanges | src/coreclr/jit/rangecheck.h:486-494 | two constant ranges merge to [min, max] |
| RangeOps.MergeDependentLower | src/coreclr/jit/rangecheck.h:456-472 | with monIncreasing, a Dependent lower end takes the other side's lower end; without it, the lower end is Dependent |
| RangeOps.MergeWidensUpper | src/coreclr/jit/rangecheck.h:497-524 | an upper end widens from a constant k >= 0 to `len + n` when n >= k, and between two `len + n` on the same length to the larger n |
| RangeOps.MergeUndefIdentity | src/coreclr/jit/rangecheck.h:446-450 | merging into an Undef range gives the other range |
| RangeOps.MergeSound | src/coreclr/jit/rangecheck.h:443-527 | without monIncreasing, a value of either range lies in the merge, given non-negative lengths |
| RangeOps.ConvertShiftToMultiply | src/coreclr/jit/rangecheck.h:531-553 | defined exactly for a constant count range within [1, 31], where it gives [1 << lo, 1 << hi] in 32 bits |
| RangeOps.ShiftOfOne | src/coreclr/jit/rangecheck.h:550-551 | `1 << c` is 2^c below 31 and INT_MIN at 31 |
| RangeOps.Negate | src/coreclr/jit/rangecheck.h:555-577 | defined exactly for a constant range with neither end INT_MIN, where it gives [-hi, -lo] |
| RangeOps.NegateSound | src/coreclr/jit/rangecheck.h:555-577 | `-x` lies in the negated range of x's range |
| Ir.ReverseRelop | src/coreclr/jit/rangecheck.cpp:834-837 | the reversed operator holds exactly when the original does not |
| Ir.SwapRelop | src/coreclr/jit/rangecheck.cpp:718-722 | the swapped operator on (x, y) holds exactly when the original holds on (y, x) |
| Bounds.GetRangeFromType | src/coreclr/jit/rangecheck.cpp:1108-1123 | the full range of each small integer type; Unknown for any other type |
| Bounds.GetRangeFromTypeSound | src/coreclr/jit/rangecheck.cpp:1108-1123 | every value of a type lies in its range |
| Bounds.GetLimitMax | src/coreclr/jit/rangecheck.cpp:1157-1199 | a constant is its own maximum; `len + c` has the allocated length, the largest array length or the largest span length plus c, when that fits; nothing for other limits |
| Bounds.GetLimitMaxSound | src/coreclr/jit/rangecheck.cpp:1157-1199 | a value bounded above by a limit is at most that limit's maximum |
| Bounds.AddOverflowsSound | src/coreclr/jit/rangecheck.cpp:1202-1217 | when AddOverflows says no, the sum of two values under the limits stays at most INT_MAX |
| Bounds.MultiplyOverflowsSound | src/coreclr/jit/rangecheck.cpp:1220-1235 | the same for the product of non-negative values |
| Bounds.BetweenBoundsAsWrittenAgrees | src/coreclr/jit/rangecheck.cpp:94-197 | the 32-bit `-lcns` of the source and the exact negation agree except on a lower limit `len + INT_MIN` |
| Bounds.BetweenBoundsAsWrittenAcceptsNegative | src/coreclr/jit/rangecheck.cpp:155-162 | as written, BetweenBounds accepts [len + INT_MIN, len - 1] for a size of 10, a range that holds -1 |
| Bounds.BetweenBoundsConstant | src/coreclr/jit/rangecheck.cpp:166-182 | a constant range is between the bounds exactly when 0 <= lo <= hi < arrSize |
| Bounds.BetweenBoundsSymbolic | src/coreclr/jit/rangecheck.cpp:117-164 | no unknown size without a checked bound; an accepted `len + c` upper end is on the same length with c < 0; with a non-negative constant lower end that is enough; an upper end with no constant never passes |
| Bounds.BetweenBoundsSound | src/coreclr/jit/rangecheck.cpp:94-197 | a value of an accepted range is an index into an array whose length is at least arrSize |
| Bounds.ConstantOperandRange | src/coreclr/jit/rangecheck.cpp:979-1020 | `&` with a constant c >= 0 gives [0, c]; `u%` with c gives [0, c-1]; `(x & c1) >> c2` gives [0, c1 >> c2]; `(x & c1) << c2` gives [0, c1 << c2] when that wrapped value is not negative, and falls to the general case otherwise; a shift whose first operand is not such a mask, or whose count is outside 0..31, falls to the general case; a non-constant second operand gives Unknown; `+` and `*` are left to the general case; every decided range is [0, k] with k >= 0 |
| Bounds.UModRangeSound | src/coreclr/jit/rangecheck.cpp:993-1014 | `x u% c` lies in the range decided for it |
| Bounds.AndRangeSound | src/coreclr/jit/rangecheck.cpp:988-1014 | `x & c` lies in [0, c] for c >= 0 |
| Bounds.RshMaskSound | src/coreclr/jit/rangecheck.cpp:998-1006 | `(x & c1) >> c2` lies in the range decided for it, for every x |
| Bounds.LshMaskSound | src/coreclr/jit/rangecheck.cpp:998-1006 | `(x & c1) << c2`, wrapped to 32 bits, lies in [0, c1 << c2] for every x whenever that range is decided: the shifted value sets only bits of the shifted mask |
| Bounds.ConstantIndexSound | src/coreclr/jit/rangecheck.cpp:258-270 | a constant index with 0 <= i < arrSize indexes an array at least arrSize long |
| Bounds.LengthPlusDeltaSound | src/coreclr/jit/rangecheck.cpp:282-325 | `len + delta` with the source's conditions on delta and the length's lower bound is in [0, len) |
| Bounds.UModLengthSound | src/coreclr/jit/rangecheck.cpp:327-340 | `x u% len` is in [0, len) for a non-zero length |
| EdgeAssertions.Decode | src/coreclr/jit/rangecheck.cpp:676-788 | an assertion about the local gives a limit with a constant; the unsigned flag only from an unsigned constant bound; a non-constant assertion only when compared with zero |
| EdgeAssertions.Simplify | src/coreclr/jit/rangecheck.cpp:798-805 | `len + c` over a constant length becomes the constant sum when it fits; the result still has a constant |
| EdgeAssertions.Adjust | src/coreclr/jit/rangecheck.cpp:834-850 | an assertion is dropped exactly when `<` (`>`) cannot subtract (add) one without overflow; otherwise the relop is the (possibly reversed) one of the assertion, and for `<` (`>`) the limit moves down (up) by one so that it is inclusive, type, length and signedness unchanged |
| EdgeAssertions.Tightens | src/coreclr/jit/rangecheck.cpp:853-892 | an assertion is used against a constant upper end only for the current length, and against `len + c` on that length only when it lowers c |
| EdgeAssertions.Apply | src/coreclr/jit/rangecheck.cpp:895-920 | `<=` sets the upper end (and the lower end to 0 when unsigned), `>=` the lower end, `==` both, `!=` neither |
| EdgeAssertions.MergeEdgeAssertions | src/coreclr/jit/rangecheck.cpp:649-925 | the loop leaves exactly the fold of the assertion steps over the assertions, and the range unchanged for NoVN |
| EdgeAssertions.DecodeSound | src/coreclr/jit/rangecheck.cpp:676-788 | when the assertion holds, the local's value is related to the decoded limit by the decoded operator |
| EdgeAssertions.SimplifySound | src/coreclr/jit/rangecheck.cpp:798-805 | simplifying keeps the value of the limit |
| EdgeAssertions.AdjustSound | src/coreclr/jit/rangecheck.cpp:834-850 | the adjusted operator and limit still bound the value |
| EdgeAssertions.ApplySound | src/coreclr/jit/rangecheck.cpp:895-920 | applying a bound that holds keeps the value in the range |
| EdgeAssertions.StepSound | src/coreclr/jit/rangecheck.cpp:664-924 | one assertion that holds keeps the local's value in the range |
| EdgeAssertions.MergeAllSound | src/coreclr/jit/rangecheck.cpp:649-925 | assertions that all hold keep the local's value in the range |
| EdgeAssertions.StepOtherLocal | src/coreclr/jit/rangecheck.cpp:737-740 | a constant bound about another value number leaves the range alone |
| Tree.IntCnsFitsInI32 | src/coreclr/jit/rangecheck.cpp:981 | a constant node gives its value exactly when it fits in int32 |
| Tree.ArrSizeSound | src/coreclr/jit/rangecheck.cpp:226-252 | a positive size found for the array never exceeds its length |
| RangeCheckPass.MergedRangeSound | src/coreclr/jit/rangecheck.cpp:929-968 | tightening an operand's range with its assertions keeps its value in the range |
| RangeCheckPass.LengthPlusConstantDelta | src/coreclr/jit/rangecheck.cpp:282-305 | finds the constant delta of an index `len + delta` (length second, then first), and finds none exactly when no delta makes the index `len + delta` |
| RangeCheckPass.CombineRanges | src/coreclr/jit/rangecheck.cpp:1069-1096 | `&` and unsigned `%` reaching the general case are Unknown; a product's constant lower end is never negative |
| Bounds.MultiplyLengthOffsetUnsound | src/coreclr/jit/rangecheck.h:158-179 | as written, `i * 2` with i in 0..len-1 gets 0..len-2, which the bounds test accepts, while 9 * 2 is past a length of 10; the corrected multiplication leaves that end Unknown |
| RangeCheckPass.BoundsCheckOf | src/coreclr/jit/rangecheck.cpp:204-217 | a candidate is a statement root or the first operand of a comma, and is a bounds check |
| RangeCheckPass.RemovalSound | src/coreclr/jit/rangecheck.cpp:202-379 | a justified removal leaves an index in [0, length), for each of the four reasons |
| RangeCheckPass.RangeCheck.constructor | src/coreclr/jit/rangecheck.cpp:29-41 | empty caches and path, the full visit budget, no statement changed |
| RangeCheckPass.RangeCheck.GetRange | src/coreclr/jit/rangecheck.cpp:1523-1551 | answers from the cache without changing state, or caches what it computes |
| RangeCheckPass.RangeCheck.ComputeRange | src/coreclr/jit/rangecheck.cpp:1400-1510 | caches the result, pops the node, spends one unit of budget for a new node, gives Unknown at once past the budget or depth with nothing else changed, and Unknown for 64-bit types |
| RangeCheckPass.RangeCheck.ComputeRangeForLocalDef | src/coreclr/jit/rangecheck.cpp:1126-1154 | a local without a definition is Unknown and changes nothing; otherwise the result is the range cached for the stored value, tightened by every assertion on entry to the block about the local's SSA value |
| RangeCheckPass.RangeCheck.MergeAssertion | src/coreclr/jit/rangecheck.cpp:929-968 | the range is tightened by exactly the assertions that apply to the operand |
| RangeCheckPass.RangeCheck.OperandRange | src/coreclr/jit/rangecheck.cpp:1025-1067 | a cached operand keeps its cached range; an operand on the path is Dependent, tightened by its assertions; any other operand gets its newly cached range, tightened by its assertions |
| RangeCheckPass.RangeCheck.ComputeRangeForBinOp | src/coreclr/jit/rangecheck.cpp:971-1097 | a constant-second-operand case decides the range without changing state; otherwise the result is `CombineRanges` of the operands' ranges, the first of which is its cached range if it was cached, a Dependent tightened by its assertions if it was on the search path, and otherwise its newly cached range tightened by its assertions |
| RangeCheckPass.RangeCheck.DoesOverflow | src/coreclr/jit/rangecheck.cpp:1314-1322 | answers from the overflow cache without changing state, or caches what it computes |
| RangeCheckPass.RangeCheck.ComputeDoesOverflow | src/coreclr/jit/rangecheck.cpp:1324-1377 | a path past the depth limit overflows; a constant does not; the answer is cached and the node popped |
| RangeCheckPass.RangeCheck.DoesBinOpOverflow | src/coreclr/jit/rangecheck.cpp:1238-1279 | "no overflow" only for `+` or `*` with both operands' ranges cached and their maxima not overflowing |
| RangeCheckPass.RangeCheck.DoesVarDefOverflow | src/coreclr/jit/rangecheck.cpp:1282-1295 | without a definition, only a parameter's incoming value does not overflow |
| RangeCheckPass.RangeCheck.DoesPhiOverflow | src/coreclr/jit/rangecheck.cpp:1297-1312 | the path only shrinks and the overflow cache only grows |
| RangeCheckPass.RangeCheck.IsMonotonicallyIncreasing | src/coreclr/jit/rangecheck.cpp:452-523 | a node already on the path is increasing with nothing changed; past the depth limit it is not; a constant is increasing unless negative constants are rejected and it is negative; the node leaves the path |
| RangeCheckPass.RangeCheck.IsBinOpMonotonicallyIncreasing | src/coreclr/jit/rangecheck.cpp:408-449 | not increasing when the (swapped) first operand is not a local, the second is a negative constant, or the second is neither a local nor a constant |
| RangeCheckPass.RangeCheck.Widen | src/coreclr/jit/rangecheck.cpp:381-405 | a known lower end is kept with nothing changed; the range changes only when the lower end is Dependent or Unknown and the node is increasing, and is then the range cached for the node; otherwise the cache is left alone |
| RangeCheckPass.RangeCheck.ComputeArrSize | src/coreclr/jit/rangecheck.cpp:226-252 | computes the array size `ArrSize` defines |
| RangeCheckPass.RangeCheck.RemoveLengthPlusConstant | src/coreclr/jit/rangecheck.cpp:282-325 | removes only a justified `len + delta` index, and then marks the statement changed; an index that is not `len + delta` changes nothing; one that is is removed exactly when the length's newly cached lower end is a constant that brings it into bounds |
| RangeCheckPass.RangeCheck.RemoveByRange | src/coreclr/jit/rangecheck.cpp:344-379 | removes exactly when the index's final range is known at both ends, free of overflow and between the bounds, and then marks the statement changed; the range returned is the one cached for the index, and a reported overflow is the cached answer |
| RangeCheckPass.RangeCheck.OptimizeRangeCheck | src/coreclr/jit/rangecheck.cpp:202-379 | every removal is of a bounds-check candidate, for a justified reason, and marks the statement changed; keeping the check leaves the flag alone; a node that is not a candidate changes nothing; a constant index inside a positive size is always removed, and so is `x u% len` when the constant-index test does not apply |
| RangeCheckPass.RangeCheck.OptimizeRangeChecks | src/coreclr/jit/rangecheck.cpp:1608-1644 | nothing changes before SSA is built; a change is reported only when some statement holds a bounds-check candidate |

## Left out

- The IR and the compiler's analyses are an immutable oracle (`Tree.Method`): the value-number store, the SSA definitions (`GetSsaDefStore`), the assertion table and the per-edge assertion sets. The bit-vector iteration over assertion indices becomes a sequence.
- MergeAssertion's choice between `bbAssertionOut` and `bbJtrueAssertionOut` from the predecessor's jump kind is not modelled. Each phi argument carries the assertion set of its edge (`edgeAssertions`).
- `optRemoveRangeCheck` and the statement re-sequencing (`gtSetStmtInfo`, `fgSetStmtSeq`) change the IR. The model returns the reason a check would be removed instead, and the tree walk sees the statement's nodes as they were.
- Conservative and liberal value numbers are not distinguished: each node has one value number.
- The arena allocator, the hash-table classes, `GetRangeMap` and `GetOverflowMap` are not modelled. The caches are Dafny maps and the search path is a set.
- `GetDef`, `SetDef`, `MapStmtDefs`, `MapMethodDefs`, `HashCode`, the `ToString` methods and all `DEBUG`/`JITDUMP` output are debug-only and not modelled.
- `GetArrLength` is the store's `arrLength` query.
- RangeCheck.ComputeRange, RangeCheck.DoesOverflow, RangeCheck.IsMonotonicallyIncreasing: recursion is bounded by a `fuel` argument, because the model does not prove that the source's search path always closes a cycle. Out of fuel, the range is Unknown, the answer is "overflows", and the expression is not increasing. These are the conservative answers.
- RangeCheck.ComputeRange: its contract states the cache, path, budget and early exits, not the value of the range. Soundness of the range arithmetic is proved on the `RangeOps`, `Bounds` and `EdgeAssertions` functions it calls.
- RangeCheck.DoesPhiOverflow: the contract states only the frame. The answer is not related to the arguments' cached answers, because a later argument's search may overwrite an earlier entry of the overflow cache.
- EdgeAssertions.MergeAllSound: assumes three things about the assertions:
  - the arithmetic `bound ± cns` of a checked-bound assertion does not wrap;
  - an unsigned constant bound has a non-negative constant and an upper-bound operator;
  - checked bounds are non-negative.
  All three are facts about how the assertions were generated. Assertion generation lives in assertion propagation (`compiler.h` and its sources), which is not part of this model, and the pass itself does not test them.
- Only the `OAK_EQUAL` and `OAK_NOT_EQUAL` assertion kinds are modelled. The assertion tests that would decide other kinds (`IsCheckedBoundArithBound` and the like) live in `compiler.h`, which is not part of this model.
- RangeCheck.ComputeRangeForBinOp, RangeCheck.RemoveByRange: the pass uses the corrected members of the findings below, not the source's code. `*` and `<<` use `MultiplyNonNegative` instead of `Multiply`; `>>` uses `ShiftRight` with the count checked against 31; the final test uses `BetweenBounds` with the exact negation. So the model's pass keeps some checks the source removes. For `a[i * 2]` or `a[i << 1]` with i in [0, len-1] on `new int[10]`, the source removes the check (wrongly, see the findings) and the model keeps it. For x in [-3, 5] times 2, the source's [-6, 10] is sound, and the model's lower end is Unknown. The as-written members are modelled and exhibited beside the corrected ones.
- RangeCheck.ComputeRangeForBinOp: the contract ties the second operand's range to the cache only through `OperandRange`'s own contract, not in its own ensures, because that operand is read after the first operand's search has changed the cache.
- RangeCheck.Widen: `increasing` is a ghost result standing for `IsMonotonicallyIncreasing`'s answer; the contract does not restate when a node is increasing.
- RangeOps.MergeSound: proved only without `monIncreasing`. With it, the lower limit is liberal by design, and the widening is justified by `IsMonotonicallyIncreasing`, not by the merge.

## Findings

| source | as written | input that shows it | evidently intended | confidence | as-written member | corrected member |
|---|---|---|---|---|---|---|
| src/coreclr/jit/rangecheck.h:402-439 | `Multiply` multiplies lower limit by lower limit and upper by upper, whatever the signs | x in [0, 2] times y in [-5, 3] gives [0, 6], yet 2 * -5 = -10 | only bound a product from its ends' products when no operand can be negative | medium, not executed | RangeOps.MultiplyNegativeOperandUnsound | RangeOps.MultiplyNonNegative |
| src/coreclr/jit/rangecheck.h:158-179 and :402-439 | `Limit::MultiplyConstant` scales only the constant of `len + c`, so `Multiply` bounds `i * k` by `len + c * k` | i in [0, len-1] times 2 gives [0, len-2], accepted by the bounds test; with length 10, i = 9 gives 18 | multiply a `len + c` end only when the length itself is scaled too, or give Unknown | medium, not executed | Bounds.MultiplyLengthOffsetUnsound | RangeOps.MultiplyNonNegative |
| src/coreclr/jit/rangecheck.h:373 | `ShiftRight` rejects only negative shift counts before `ShiftRightConstant`, which asserts the count is at most 31 | count range [40, 40] passes the guard | also reject counts above 31 (C++ shifts by 32 or more are undefined) | medium, not executed | RangeOps.ShiftRightGuardAdmitsWideCount | RangeOps.ShiftRight |
| src/coreclr/jit/rangecheck.cpp:158 and :187 | `-lcns > arrSize` negates a lower-limit constant in 32 bits; for `lcns == INT_MIN` the negation wraps and the test passes | range [len + INT_MIN, len - 1] with arrSize 10 is accepted, and holds -1 | reject `len + INT_MIN`, as the exact negation does | low, not executed | Bounds.BetweenBoundsAsWrittenAcceptsNegative | Bounds.BetweenBounds |

# ft: frequency transformations, modelled in Dafny

The `ft` Ruby gem is a C extension with two files.

- `ext/frequency_transformations.c` adds methods to `Array`:
  - `fft` and `rfft`: a radix-2 Cooley–Tukey FFT over an array of `Complex` values.
  - `fht`: a fast Hartley transform over real `Complex` values.
  - `switch_quarters`: the quadrant swap ("FFT shift") of a grid.
  - The validators `fourier_validate` and `hartley_validate`, which these methods call.
- `ext/fft_api.c` offers the same FFT over a pair of rows, `[re, im]`. It answers `nil` for a shape it rejects.

This project models those operations and proves what they compute. It covers:
- the validators, with every error they raise;
- the bit-reversal permutation and its mask-loop counter;
- the stage/group/pair butterfly loops and the trigonometric recurrence of the rotation factor;
- the scaling of the inverse transform;
- the Hartley table, the `scale` ladder, the rotation loop and the sum/difference loop;
- the two exchange passes of `switch_quarters`.

Each C loop that changes an array in place is a Dafny `method` over `array<real>` (or over a `seq` of rows, for the grid). Each such method is proved equal to a declarative definition, and the lemmas are proved about that definition.

## Layout

| module | file | contents |
|---|---|---|
| `Bits` | `bits.dfy` | powers of two, `And` (the C `&` on naturals), `BitRev` (reversal of the low `k` bits) |
| `ComplexNumbers` | `complex_numbers.dfy` | `Complex`, `Libm` (the `sin`/`cos`/`sqrt` the program calls), the factor recurrence |
| `RubyValues` | `ruby_values.dfy` | array elements (`Complex` or anything else) and the exceptions raised |
| `FftSpec` | `fft_spec.dfy` | bit reversal, one butterfly stage, the network of stages, the transform `Fft` |
| `FftKernel` | `fft_kernel.dfy` | the in-place FFT loops common to both C files, on two `array<real>` rows |
| `FhtSpec` | `fht_spec.dfy` | the cosine/sine table, one level of the ladder, the ladder, `FhtOutput`; the direct transform `Dht` of `perform_dht` as a reference |
| `FhtKernel` | `fht_kernel.dfy` | the in-place loops of `perform_fht` |
| `QuadrantSpec` | `quadrant_spec.dfy` | the two exchange passes of `switch_quarters`, their closed form, the half shift |
| `FrequencyTransformations` | `frequency_transformations.dfy` | validators, `prepare_fft`, `prepare_fht`, `switch_quarters` |
| `FftApi` | `fft_api.dfy` | `validate`, `perform_fft` and `prepare_fft` of the two-row interface |

## Modelling decisions

- Floating-point values are modelled as `real`. The model holds no IEEE rounding.
- `sin`, `cos` and `sqrt` are fields of a `Libm` value passed in as a parameter. No property of trigonometry is assumed. Properties that need one take it as an explicit `requires` (e.g. `sqrt(4) == 2`). `M_PI` is the decimal constant `Pi`.
- Lengths are unbounded naturals. The C code holds them in `long`, `int` and `unsigned int`.
- The FFT loops of `perform_fft` are the same in both C files. They are modelled once, in `FftKernel.Transform`, and both `perform_fft` models call it.
- The C mask loop `while (target & (mask >>= 1)) target &= ~mask; target |= mask;` is modelled on naturals: `And` stands for `&`, clearing a set bit is a subtraction, and setting a clear bit is an addition.
- Two behaviours of the code are kept as written:
  - Validation. `hartley_validate` checks only that the length is even. The model keeps that check as written.
  - Odd widths. For an odd width `W`, `switch_quarters` moves the cells of the middle column twice rather than once. The model states the passes as written (`QuadrantSpec.Pass1`, `QuadrantSpec.Pass2`), and proves the half-shift form only for even sides.

## Model

| member | source | states |
|---|---|---|
| Bits.PowerOfTwoTest | ext/frequency_transformations.c:35-36 | for `n >= 1`, `n & (n - 1) == 0` holds exactly when `n` is a power of two, in both directions |
| Bits.BitRevInvolution | ext/frequency_transformations.c:156-170 | reversing the low `k` bits of `x < 2^k` twice gives `x` back |
| Bits.BitRevInjective | ext/frequency_transformations.c:156-170 | two positions below `2^k` with the same bit-reversed target are equal |
| Bits.TopBitOfBitRev | ext/frequency_transformations.c:167 | the top mask bit of `bitrev(q)` is set exactly when `q` is odd |
| Bits.BitRevWraps | ext/frequency_transformations.c:166-169 | the counter for position `2^k` is 0: after the last position the target wraps to 0 |
| ComplexNumbers.AdvanceRotates | ext/frequency_transformations.c:202-204 | one step of the factor recurrence multiplies the factor by `1 + multiplier` |
| ComplexNumbers.TwiddleIsPower | ext/frequency_transformations.c:184-204 | the factor used by group `g` is `(1 + multiplier)^g` |
| ComplexNumbers.PairsOfParts | ext/frequency_transformations.c:217-221 | reading the real row and the imaginary row back as complex numbers gives the values they came from |
| FftKernel.CounterCarry | ext/frequency_transformations.c:167-168 | when the top bit of `bitrev(y)` in `j` bits is set, clearing it leaves `bitrev(y / 2)` in `j - 1` bits, and the increment carries into those |
| FftKernel.CounterSet | ext/frequency_transformations.c:169 | when the top bit is clear, setting it gives `bitrev(y + 1)` |
| FftKernel.CarryRound | ext/frequency_transformations.c:167-168 | one round of the mask loop: the mask bit is set in `t`, and clearing it and halving the mask keeps `t == bitrev(y)` one bit shorter with the same successor |
| FftKernel.SetRound | ext/frequency_transformations.c:169 | when the mask loop stops, setting the mask bit in `target` gives the bit reversal of the next position |
| FftKernel.NextTarget | ext/frequency_transformations.c:166-169 | the mask loop turns `bitrev(position)` into `bitrev(position + 1)`, and into 0 after the last position |
| FftKernel.SwapBoth | ext/frequency_transformations.c:158-165 | both rows have entries `i` and `j` exchanged and nothing else changed |
| FftKernel.SwapPassNext | ext/frequency_transformations.c:158 | the guarded swap at `position` is the step from `SwapPass(s, position)` to `SwapPass(s, position + 1)`, and `target` is in range |
| FftKernel.VisitPosition | ext/frequency_transformations.c:157-165 | one iteration of the bit-reversal loop advances both rows by one position of `SwapPass` |
| FftKernel.BitReverse | ext/frequency_transformations.c:156-170 | both rows end as the bit-reversed permutation of their old contents, with `target == bitrev(position)` as the loop invariant |
| FftKernel.VisitedNext | ext/frequency_transformations.c:189-190 | one pair iteration writes `pair` and `pair + step`, which were not yet written, and no other index |
| FftKernel.ButterflyParts | ext/frequency_transformations.c:192-199 | the four real assignments of the loop body compute `a + f*b` and `a - f*b` |
| FftKernel.ButterflyPair | ext/frequency_transformations.c:190-199 | the two-point transform is written at `pair` and `position`, and every other entry is unchanged |
| FftKernel.ProgressStep | ext/frequency_transformations.c:189-200 | after a pair, exactly the indices visited so far hold their value after the stage, and all the others hold their old value |
| FftKernel.ProgressComplete | ext/frequency_transformations.c:187-205 | once all groups are done, every index holds its value after the stage |
| FftKernel.ButterflyGroup | ext/frequency_transformations.c:189-200 | the pair loop of one group brings all its indices to their value after the stage |
| FftKernel.AdvanceParts | ext/frequency_transformations.c:202-204 | the two real assignments of the recurrence compute `Advance` |
| FftKernel.ButterflyStage | ext/frequency_transformations.c:175-205 | one pass of the group loop leaves the rows equal to `Stage` of their old contents |
| FftKernel.Butterflies | ext/frequency_transformations.c:173-206 | the stage loop leaves the rows equal to the butterfly network with the trigonometric multipliers |
| FftKernel.ScaleInverse | ext/frequency_transformations.c:209-214 | every entry of both rows is divided by the length |
| FftKernel.Transform | ext/frequency_transformations.c:155-214 | bit reversal, all stages, then division by `n` only when `direction == -1` |
| FftSpec.BitReversedInvolution | ext/frequency_transformations.c:156-170 | applying the bit-reversed permutation twice gives the sequence back |
| FftSpec.SwapPermutes | ext/frequency_transformations.c:158-165 | a swap keeps the multiset of elements |
| FftSpec.SwapPassSource | ext/frequency_transformations.c:157-165 | after the first `p` positions, entry `i` holds `s[i]` or `s[bitrev(i)]`, as `SourceOf` says |
| FftSpec.SwapPassComplete | ext/frequency_transformations.c:156-170 | the loop over all positions computes `a[i] == old[bitrev(i)]` |
| FftSpec.SwapPassPermutes | ext/frequency_transformations.c:156-170 | each prefix of the bit-reversal loop keeps the multiset of elements |
| FftSpec.BitReversedPermutes | ext/frequency_transformations.c:156-170 | the bit-reversed sequence is a permutation of the input |
| FftSpec.BitReversedPairs | ext/fft_api.c:45-61 | the real and imaginary rows are permuted identically |
| FftSpec.SwapsDisjoint | ext/frequency_transformations.c:158 | with the `target > position` guard, two different swaps share no index, so each pair is swapped once |
| FftSpec.PartnerBelow | ext/frequency_transformations.c:189-190 | `position = pair + step` is below `n` for every pair the loop visits |
| FftSpec.PartnerAbove | ext/frequency_transformations.c:189-190 | an index in the upper half of its block is the partner of the index `step` below it |
| FftSpec.StagePartition | ext/frequency_transformations.c:187-190 | every index is either a pair start `group + t * jump` with an in-range partner, or the partner of the start `step` below it |
| FftSpec.StartsUnique | ext/frequency_transformations.c:187-189 | a pair start determines its group and its iteration, so no index starts two butterflies |
| FftSpec.StartIsNoPartner | ext/frequency_transformations.c:187-190 | no pair start is also the partner of another pair, so each index is written once per stage |
| FftSpec.StageLower | ext/frequency_transformations.c:198-199 | the lower index of a pair gets `x[i] + f * x[i + step]` |
| FftSpec.StageUpper | ext/frequency_transformations.c:195-196 | the upper index gets `x[i - step] - f * x[i]` |
| FftSpec.StageAdditive | ext/frequency_transformations.c:187-205 | one stage is additive in its input |
| FftSpec.NetworkAdditive | ext/frequency_transformations.c:173-206 | the network of stages is additive |
| FftSpec.BitReversedAdditive | ext/frequency_transformations.c:156-170 | bit reversal is additive |
| FftSpec.ScaledAdditive | ext/frequency_transformations.c:209-214 | the inverse scaling is additive |
| FftSpec.FftAdditive | ext/frequency_transformations.c:145-214 | the whole transform is linear: the transform of a sum is the sum of the transforms |
| FftSpec.NetworkOfPrefix | ext/frequency_transformations.c:173-206 | the stages spread a block of ones across the whole sequence |
| FftSpec.FftOfImpulse | ext/frequency_transformations.c:145-214 | the forward transform of a unit impulse is all ones, for every power-of-two length |
| FftSpec.FftRoundTripTwo | ext/frequency_transformations.c:145-214 | on two points, the inverse transform undoes the forward one |
| FftSpec.StageOfTwo | ext/frequency_transformations.c:173-206 | on two points the transform is `[x0 + x1, x0 - x1]` |
| FftSpec.BitReversedFour | ext/frequency_transformations.c:156-170 | on four points, bit reversal exchanges entries 1 and 2 |
| FftSpec.FirstStageOfFour | ext/frequency_transformations.c:187-205 | the first stage on four points gives sums and differences of neighbours |
| FftSpec.SecondStageOfFour | ext/frequency_transformations.c:187-205 | the second stage on four points combines entries two apart with the factors 1 and `1 + multiplier` |
| FftSpec.FftOfFour | ext/frequency_transformations.c:145-214 | the four-point forward transform in closed form |
| FhtSpec.TableAnglesIncrease | ext/frequency_transformations.c:247-253 | the intended table angles step by `2π/n > 0` and lie in `[0, π)` |
| FhtSpec.TruncatedAnglesVanish | ext/frequency_transformations.c:239-253 | for `n >= 7` the increment truncated to a `long` is 0, so every angle of the table as written is 0 |
| FhtSpec.TruncatedTableDiffers | ext/frequency_transformations.c:249 | for `n == 8`, entry 1 has angle 0 as written and `π/4` as intended |
| FhtSpec.TableAsWrittenFlat | ext/frequency_transformations.c:247-253 | for `n >= 8`, every table entry as written is `cos 0` and `sin 0` |
| FhtSpec.TruncatedTableMisrotates | ext/frequency_transformations.c:247-269 | for `n == 8`, the rotation of level 8 with the table as written gives a different result from the intended table |
| FhtSpec.ScaleForPowerOfTwo | ext/frequency_transformations.c:256-257 | for a power-of-two `n >= 2` the loop leaves `scale == n / 2` |
| FhtSpec.GroupFits | ext/frequency_transformations.c:260 | every group `[group, group + level)` lies inside the data |
| FhtSpec.TableIndexBound | ext/frequency_transformations.c:262-264 | the table index `k = i * scale` is below `n / 2`, the size of `C` and `S` |
| FhtSpec.RotationSidesDisjoint | ext/frequency_transformations.c:262 | `position` and `match` never name the same index, so both sides of a rotation are distinct |
| FhtSpec.LevelInGroup | ext/frequency_transformations.c:260-276 | each level acts group by group, with the rotation first and the sums and differences after |
| FhtSpec.LadderStateShape | ext/frequency_transformations.c:259-278 | while `level <= n`, the state of the ladder satisfies all the bounds of one level |
| FhtSpec.LadderStateNext | ext/frequency_transformations.c:259-277 | doubling `level` and halving `scale` keeps `level * scale == n` |
| FhtSpec.PowerOfTwoLevelsFit | ext/frequency_transformations.c:259-275 | for a power-of-two length, every level's groups tile the data |
| FhtSpec.LevelsFitOnlyPowers | ext/frequency_transformations.c:259-275 | if every level's groups tile the data, the length is a power of two |
| FhtSpec.LevelsFitIffPowerOfTwo | ext/frequency_transformations.c:259-275 | the ladder stays in bounds exactly when the length is a power of two (or at most 1) |
| FhtSpec.SixOverruns | ext/frequency_transformations.c:259-275 | for six values, the ladder reaches a group that extends past the data |
| FhtSpec.LadderOfPrefix | ext/frequency_transformations.c:259-278 | the ladder spreads a block of ones over the whole sequence |
| FhtSpec.FhtOfImpulse | ext/frequency_transformations.c:259-278 | the ladder maps a unit impulse to all ones |
| FhtSpec.RotateSmall | ext/frequency_transformations.c:262-269 | levels 2 and 4 rotate nothing |
| FhtSpec.FhtOfTwo | ext/frequency_transformations.c:259-278 | on two values the ladder gives `[x0 + x1, x0 - x1]` |
| FhtSpec.FhtOfFour | ext/frequency_transformations.c:259-278 | the four-value ladder in closed form |
| FhtSpec.OutputInvolutionTwo | ext/frequency_transformations.c:236-291 | with `sqrt(2)^2 == 2`, the ladder divided by `sqrt(n)` applied twice gives the two values back |
| FhtSpec.OutputInvolutionFour | ext/frequency_transformations.c:236-291 | with `sqrt(4) == 2`, the ladder divided by `sqrt(n)` applied twice gives the four values back |
| FhtSpec.RotatedPairAdditive | ext/frequency_transformations.c:266-268 | the rotation of one pair is additive |
| FhtSpec.RotateAdditive | ext/frequency_transformations.c:262-269 | the rotation loop of one level is additive |
| FhtSpec.SumDiffAdditive | ext/frequency_transformations.c:270-275 | the sum/difference loop is additive |
| FhtSpec.LevelAdditive | ext/frequency_transformations.c:260-276 | one level is additive |
| FhtSpec.LadderAdditive | ext/frequency_transformations.c:259-278 | the ladder is additive |
| FhtSpec.FhtAdditive | ext/frequency_transformations.c:259-278 | the transform is linear |
| FhtSpec.FhtOutputFour | ext/frequency_transformations.c:259-284 | the four-value output of `perform_fht` in closed form: `[x0+x1+x2+x3, x0-x1+x2-x3, x0+x1-x2-x3, x0-x1-x2+x3] / 2` |
| FhtSpec.Dht | ext/frequency_transformations.c:314-323 | output `i` of the direct transform times `sqrt(n)` is the sum of `x[k] (sin + cos)(k 2πi/n)` over `k`, added in the loop's order |
| FhtSpec.AngleFour | ext/frequency_transformations.c:316-319 | for four points, the angle `k (2πi/4)` is `i k` quarter turns |
| FhtSpec.CasSumFour | ext/frequency_transformations.c:317-320 | with `cos`/`sin` exact at the quarter turns, the inner loop of `perform_dht` over four points adds each `values[k]` with sign `+` when `i k mod 4 < 2` and `-` otherwise |
| FhtSpec.DhtFour | ext/frequency_transformations.c:303-333 | with `cos`/`sin` exact at the quarter turns and `sqrt(4) == 2`, the four-point direct transform is `[x0+x1+x2+x3, x0+x1-x2-x3, x0-x1+x2-x3, x0-x1-x2+x3] / 2` |
| FhtSpec.FhtOrderFour | ext/frequency_transformations.c:259-284 | on four values (a case that does not generalise) the output of `perform_fht` is the direct transform read in bit-reversed order, and equals it exactly when `x[1] == x[2]` |
| FhtSpec.FhtDhtDifferFour | ext/frequency_transformations.c:259-284 | on `[0, 1, 0, 0]`, `fht` gives `[.5, -.5, .5, -.5]` and `dht` gives `[.5, .5, -.5, -.5]` |
| FhtSpec.NaturalOrderFour | ext/frequency_transformations.c:259-284 | on four values only, the output read in bit-reversed order is the direct transform |
| FhtSpec.BitReversedInputFour | ext/frequency_transformations.c:259-284 | with the input bit-reversed before the ladder, the four-value output of `perform_fht` is the direct transform of `perform_dht` |
| FhtSpec.Divided | ext/frequency_transformations.c:281-284 | every output value times `sqrt(n)` is the transformed value |
| FhtKernel.BuildTable | ext/frequency_transformations.c:247-253 | the arrays hold `cos` and `sin` of the intended angles `k * 2π/n`, for `n / 2` entries |
| FhtKernel.BuildTableAsWritten | ext/frequency_transformations.c:239-253 | the arrays hold `cos` and `sin` of the angles with the increment truncated to a `long` |
| FhtKernel.InitialScale | ext/frequency_transformations.c:256-257 | the doubling loop computes `ScaleFor(n)`, and `2 * scale == n` for a power-of-two `n >= 2` |
| FhtKernel.RotatePair | ext/frequency_transformations.c:265-268 | `position` gets `a C[k] + b S[k]`, `match` gets `a S[k] - b C[k]`, and nothing else changes |
| FhtKernel.RotateGroup | ext/frequency_transformations.c:262-269 | the inward rotation loop of one group computes `RotateGroupValues` |
| FhtKernel.SumDiffGroup | ext/frequency_transformations.c:270-275 | the sum/difference loop of one group writes `a + b` and `a - b` across its halves |
| FhtKernel.LevelGroupStep | ext/frequency_transformations.c:261-275 | one group's two loops bring that group to its value after the level and leave the other groups alone |
| FhtKernel.LevelPass | ext/frequency_transformations.c:260-276 | the group loop leaves the data equal to `Level` of its old contents |
| FhtKernel.Levels | ext/frequency_transformations.c:259-278 | the level loop, with `scale` halving, leaves the data equal to the `Ladder` |
| FhtKernel.PerformFht | ext/frequency_transformations.c:236-291 | for power-of-two lengths: the data becomes `Fht` with the intended table, and the output is the transform divided by `sqrt(n)` with zero imaginary parts |
| QuadrantSpec.Pass1Involution | ext/frequency_transformations.c:577-582 | the first pass applied twice gives the grid back |
| QuadrantSpec.Pass2Involution | ext/frequency_transformations.c:584-589 | the second pass applied twice gives the grid back |
| QuadrantSpec.HalfShift | ext/frequency_transformations.c:577-589 | adding half of an even side modulo the side is the exchange of the two halves |
| QuadrantSpec.QuarteredAt | ext/frequency_transformations.c:577-589 | for even sides, `out[j][i] == in[(j + H/2) % H][(i + W/2) % W]` |
| QuadrantSpec.QuarteredIsShift | ext/frequency_transformations.c:577-589 | the same for every cell at once |
| QuadrantSpec.HalfShiftInvolution | ext/frequency_transformations.c:577-589 | two half shifts of a grid with even sides cancel |
| QuadrantSpec.QuarteredInvolution | ext/frequency_transformations.c:577-589 | for even sides, swapping the quadrants twice gives the grid back |
| QuadrantSpec.OddLastRowKept | ext/frequency_transformations.c:577-589 | for an odd height, the last row is never touched |
| QuadrantSpec.FourByFourExample | ext/frequency_transformations.c:577-589 | a 4×4 grid with a 1 at `(0, 0)` ends with the 1 at `(2, 2)` and zeros elsewhere |
| QuadrantSpec.PartialStart | ext/frequency_transformations.c:577-578 | before the first column nothing has moved |
| QuadrantSpec.PartialColumnDone | ext/frequency_transformations.c:577-578 | finishing the rows of column `i` is starting column `i + 1` |
| QuadrantSpec.PartialStep | ext/frequency_transformations.c:579-581 | one inner iteration exchanges `(j, i)` with `(j + H/2, i + d)`, two distinct cells in the grid |
| QuadrantSpec.Pass1Loops | ext/frequency_transformations.c:577-582 | the first pair of loops, run to the end, computes `Pass1` |
| QuadrantSpec.Pass2Loops | ext/frequency_transformations.c:584-589 | the second pair of loops, run to the end, computes `Pass2` |
| FrequencyTransformations.FirstNonReal | ext/frequency_transformations.c:57-63 | every element before the index is a real `Complex`, and the element at the index (if any) is not |
| FrequencyTransformations.FourierValidate | ext/frequency_transformations.c:22-39 | `TypeError` exactly when some element is not a `Complex`; `ArgumentError` exactly when all are but the length is below 2 or not a power of two; the array itself otherwise |
| FrequencyTransformations.HartleyValidate | ext/frequency_transformations.c:49-74 | the first element that is not a real `Complex` decides: `TypeError` for a non-`Complex`, `ArgumentError` for a non-zero imaginary part; otherwise `ArgumentError` exactly for an odd length; each case in both directions |
| FrequencyTransformations.HartleyValidateAcceptsSix | ext/frequency_transformations.c:70-71 | six real values pass the validator, yet the ladder's groups do not fit six values |
| FrequencyTransformations.PerformFft | ext/frequency_transformations.c:145-224 | the output is the transform of the two rows read as complex numbers |
| FrequencyTransformations.PrepareFft | ext/frequency_transformations.c:388-419 | validation first, then the copy into two rows and the transform: `FftOf` |
| FrequencyTransformations.FftRejectsOtherValues | ext/frequency_transformations.c:31-32 | an array holding a non-`Complex` raises `TypeError` |
| FrequencyTransformations.FftRejectsThree | ext/frequency_transformations.c:35-36 | three complex values raise `ArgumentError` with the power-of-two message |
| FrequencyTransformations.FftKeepsLength | ext/frequency_transformations.c:217-221 | an accepted array gives an output of the same length |
| FrequencyTransformations.FftRoundTripTwoValues | ext/frequency_transformations.c:388-419 | on two values, `rfft` of `fft` gives the values back |
| FrequencyTransformations.PrepareFht | ext/frequency_transformations.c:430-451 | validation, then the copy of the real parts and the transform, with the power-of-two guard the ladder needs: `FhtOf` |
| FrequencyTransformations.FhtInvolutionFour | ext/frequency_transformations.c:430-451 | on four real values `fht` answers the ladder divided by `sqrt(n)`, and applied twice gives the four values back |
| FrequencyTransformations.FhtExample | ext/frequency_transformations.c:430-451 | `[2, 1, 1, 2]` transforms to `[3, 0, 0, 1]` |
| FrequencyTransformations.FhtRejectsSix | ext/frequency_transformations.c:259-275 | six real values are refused with the power-of-two error instead of overrunning the data |
| FrequencyTransformations.SwitchQuarters | ext/frequency_transformations.c:554-600 | `ArgumentError` exactly for a ragged grid; otherwise the grid with its quadrants swapped |
| FrequencyTransformations.ExchangeCells | ext/frequency_transformations.c:579-581 | one inner iteration takes the grid from row `j` of column `i` to row `j + 1` |
| FrequencyTransformations.FirstPass | ext/frequency_transformations.c:577-582 | the first pair of loops on a copy of the rows computes `Pass1` |
| FrequencyTransformations.SecondPass | ext/frequency_transformations.c:584-589 | the second pair of loops computes `Pass2` |
| FftApi.Validate | ext/fft_api.c:12-30 | true exactly for two rows of equal length that is at least 2 and a power of two |
| FftApi.PerformFft | ext/fft_api.c:32-123 | the output is two rows, real first and imaginary second, of the transform of the input rows |
| FftApi.PrepareFft | ext/fft_api.c:126-157 | `nil` for a rejected shape with no transform work, otherwise the two rows of the transform: `RowsFft` |
| FftApi.RowsFftAcceptsItsOutput | ext/fft_api.c:113-120 | an answer that is not `nil` is two rows that `validate` accepts, of the input's length |
| FftApi.RowsAgreeWithValues | ext/fft_api.c:126-157 | the two-row interface answers `nil` exactly where the array interface raises, and otherwise gives the rows of the same transform |
| FftApi.RowsRoundTripTwo | ext/fft_api.c:126-157 | on rows of two points, the inverse transform gives the rows back |

## Left out

- The `dft`, `rdft`, `magnitude` and `phase` methods are not modelled. They are O(N²) sums or element-wise `sqrt`/`atan2` over floats. Their use of `fourier_validate` is covered by `FrequencyTransformations.FourierValidate`.
- `dht` is modelled only by the function `FhtSpec.Dht`, the value its loops compute; its loops are not a method, because it serves as the reference for what `fht` should return.
- FrequencyTransformations.FhtOf: runs the ladder on the input as given, as the code does. The ladder has no input bit-reversal pass, so it returns the Hartley transform of the bit-reversed input. The model proves this, and the correction (bit-reverse the input first), for four values only (`FhtSpec.FhtDhtDifferFour`, `FhtSpec.BitReversedInputFour`), because the general case needs trigonometric identities the model does not assume. On four values reordering the output gives the same result (`FhtSpec.FhtOrderFour`), but from eight values on it does not.
- The numeric values of `sin`, `cos` and `sqrt` are parameters, not modelled. So is IEEE rounding. The round trips are proved for two and four points only, where no trigonometric identity is needed. Beyond that the model proves linearity and the impulse response.
- The Ruby glue is not modelled: `Check_Type` beyond the element check, `NUM2DBL`, `rb_ary_push`, `rb_ary_dup`, `malloc` and `free`, `Init_*`, and the `forward`/`reverse` wrappers. Conversion to doubles is the identity on `real`.
- `lib/ft.rb` and `lib/fft.rb` are not part of this model. They only compose the transforms.
- The counters of `perform_fft` are `unsigned int`, and those of the validators are `int`. The model does not bound them, so it assumes lengths below `2^31`.
- The `length < 0` guard of `hartley_validate` (ext/frequency_transformations.c:66-67) can never fire. It is not a branch of the model.
- The empty grid. `switch_quarters` reads `values[0]` of an empty array before any loop runs. The model returns the empty grid, which is what every loop bound gives.
- FrequencyTransformations.PrepareFht: adds a power-of-two guard that the C code does not have. `perform_fht` on an even non-power-of-two length reads and writes outside `values`. That behaviour is shown to arise (`FhtSpec.SixOverruns`) but is not modelled as memory access.
- FrequencyTransformations.FhtRejectsSix: states the refusal of the corrected `PrepareFht`. The C code does not refuse six values; it runs the ladder past the end of `values` (Findings row 2).
- FhtKernel.PerformFht: uses the intended table (`FhtKernel.BuildTable`). The truncated table of the code as written is modelled separately by `FhtKernel.BuildTableAsWritten` and `FhtSpec.TableAsWritten`; see Findings.

## Findings

| source | as written | input that shows it | evidently intended | confidence | as-written member | corrected member |
|---|---|---|---|---|---|---|
| ext/frequency_transformations.c:239-253 | `arg` is declared `long`, so `arg = 2.0 * M_PI / length` drops the fraction: the increment is 0 for `length >= 7`, and every table entry is `cos 0 = 1`, `sin 0 = 0` | `length == 8`: entry 1 should be at `π/4` and is at 0, and the level-8 rotation of `[0,0,0,0,0,1,0,0]` gives `cos 0` at index 5 instead of `cos(π/4)` | a `double` increment, table entry `k` at angle `2πk/n` | high (not executed) | FhtSpec.TruncatedTableMisrotates | FhtKernel.BuildTable |
| ext/frequency_transformations.c:70-71 | `hartley_validate` accepts every even length, but the ladder at 259-275 only stays inside `values` for powers of two | six real values: the level-4 group starting at 4 reaches index 7 | reject lengths that are not powers of two before the ladder runs | high (not executed) | FrequencyTransformations.HartleyValidateAcceptsSix | FrequencyTransformations.PrepareFht |
| ext/frequency_transformations.c:259-284 | the ladder has no input bit-reversal pass, so `fht` returns the Hartley transform of the bit-reversed input, which is not what `dht` returns | `[0, 1, 0, 0]`: `fht` gives `[.5, -.5, .5, -.5]`, `dht` gives `[.5, .5, -.5, -.5]` | bit-reverse the input before the ladder | medium (not executed) | FhtSpec.FhtDhtDifferFour | FhtSpec.BitReversedInputFour |

# Fixed-point and register kernels of the flight computer, modelled and proved

Whistler-Blackcomb-v2 builds on the CMSIS headers it carries in `CMSIS/`. Most of those
headers are declarations; four of them hold code with state, loops and fixed-point
arithmetic, and that code is what this project models:

- `CMSIS/arm_math.h`: Newton-Raphson reciprocals, saturating casts, packed-lane
  intrinsics, PID controllers, Clarke and Park transforms, table interpolation, circular
  buffers;
- `CMSIS/mpu_armv7.h`: loading a memory-protection table through the alias window;
- `CMSIS/core_cm4.h`: encoding, storing and decoding interrupt priorities;
- `CMSIS/cmsis_gcc.h`: start-up copy and clear loops, bit reversal and rotation.

C integers are bounded `int`s and every cast that can wrap is written out
(`FixedPoint.dfy`). An arithmetic right shift is floor division by a power of two. Masking
with all-ones below a bit is a remainder; or-ing fields that share no bits is addition,
except in `BitReverse.dfy`, where the or is the bitwise one (`Bits.BitOr`). Signed overflow
that C leaves undefined is modelled as two's-complement wrapping. Code that updates state
step by step is a method or a class with the loop of the original, tied by its `ensures` to
a specification function; the properties are lemmas about those functions.

`dafny verify dfyconfig.toml` checks the whole project.

## Where the code and its documentation part

The model follows the code. Each of these has a lemma with the exact condition:

- `clip_q63_to_q15` and `clip_q31_to_q7` are documented as clips; both truncate on part of
  their range (`FixedPoint.ClipQ63ToQ15Exactly`, `FixedPoint.ClipQ31ToQ7Exactly`).
- `arm_recip_q15` leaves out the clip its Q31 form has; the bare cast is harmless exactly
  for positive inputs (`Reciprocal.FirstPassQ15Exactly`).
- The circular buffers are commented to watch for positive and negative offsets; only
  upward steps wrap, and a downward walk must end before slot zero
  (`CircularBuffer.DownwardExactly`).
- `arm_pid_q31` is documented to saturate its output and to avoid overflow completely with
  inputs scaled by two bits; the output wraps (`Pid.PidQ31Exactly`, `Pid.ScaledRunWraps`),
  a run is the documented one exactly while the unbounded output fits
  (`PidQ31Runs.AsDocumentedExactly`), and scaling is enough for all runs only when every
  gain is zero (`PidQ31Runs.ScalingSufficesExactly`).
- `arm_clarke_q31` is documented to have no risk of overflow; beyond `0x6ED9EBA1` the
  product of the second phase wraps and the result changes sign
  (`Clarke.ClarkeSaturatesExactly`, `Clarke.OverrangeFlipsSign`). `arm_park_q31` misses
  only the product of -1 and -1 (`Park.ParkSaturatesExactly`).
- `arm_linear_interp_q31` shifts its two products down one by one, so that even a constant
  table is not always interpolated monotonically. Which tables are is an exact condition on
  neighbouring entries (`SteadyQ31.MonotoneQ31Exactly`, `SteadyQ31.FlatExactly`,
  `LinearInterp.NotMonotoneQ31`).
- `arm_bilinear_interp_q7` is documented to return zero outside the table; its guard
  compares each index with the other dimension, so it does so exactly on square tables. On
  the others it returns zero at points inside or answers points outside
  (`BilinearInterp.GuardExactly`, `BilinearInterp.SquareOutsideReadsZero`, `BilinearInterp.GuardRejectsInside`,
  `BilinearInterp.GuardAnswersOutside`).
- The two bodies of `arm_pid_q15` are one controller only for some gains, whether compared
  state by state or over runs from rest (`PidDsp.BodiesAgreeExactly`,
  `PidDsp.RunsAgreeExactly`).

## Model

| member | source | states |
|---|---|---|
| FixedPoint.ClipQ63ToQ31Saturates | CMSIS/arm_math.h:670-675 | comparing the high word with the low word's sign makes this a true clamp to 32 bits, for every 64-bit value |
| FixedPoint.ClipQ63ToQ15Exactly | CMSIS/arm_math.h:680-685 | the cast is the clamp of the value shifted by 15 if and only if the value is outside 32 bits or within 31; on the rest of the 32-bit range it wraps |
| FixedPoint.ClipQ63ToQ15Wraps | CMSIS/arm_math.h:680-685 | on that rest it is off by exactly a full turn of 2^16 |
| FixedPoint.ClipQ31ToQ7Exactly | CMSIS/arm_math.h:690-695 | the cast is the clamp to 8 bits exactly for values already in range, values of at least 24 bits, and the accidental residues; otherwise it truncates |
| FixedPoint.ClipQ31ToQ7Truncates | CMSIS/arm_math.h:690-695 | below 24 bits it keeps the value modulo 256 |
| FixedPoint.ClipQ31ToQ7CanFlipTheSign | CMSIS/arm_math.h:690-695 | 200 comes out as -56 |
| FixedPoint.ClipQ31ToQ15Saturates | CMSIS/arm_math.h:700-705 | this one is a clamp to 16 bits for every 32-bit value |
| FixedPoint.SsatIsClamp | CMSIS/cmsis_gcc.h:1382-1398 | signed saturation is the clamp to the chosen width for widths 1 to 32 and the identity for any other argument |
| FixedPoint.QAddQSubSaturate | CMSIS/arm_math.h:1055-1071 | saturating addition and subtraction are the clamped exact results |
| FixedPoint.MulQ31Exactly | CMSIS/arm_math.h:5360-5371 | narrowing a Q31 product is exact except for the product of -1 and -1, which comes out as -1 |
| CountLeadingZeros.Clz | CMSIS/arm_math.h:590-603 | the mask loop returns the position of the top set bit, pinned by the power-of-two bracket in LeadingZeros, and 32 for zero |
| Reciprocal.NewtonContraction | CMSIS/arm_math.h:752-759 | one pass squares the distance of in*out from the exact reciprocal, up to the two truncations, at any scale and from any positive estimate |
| Reciprocal.PassStaysInRange | CMSIS/arm_math.h:752-759 | from any positive estimate a pass stays positive, strictly below the exact reciprocal, and below full scale |
| Reciprocal.LoopBodyQ31Value | CMSIS/arm_math.h:752-759 | one trip on any input and estimate, written out: the casts lose nothing and the clip is a clamp |
| Reciprocal.LoopBodyQ31IsExact | CMSIS/arm_math.h:752-759 | on a normalised input no cast wraps and the clip never acts, so the code's pass is the exact pass and never overshoots |
| Reciprocal.LoopBodyQ15IsExact | CMSIS/arm_math.h:803-810 | the unguarded 16-bit cast never wraps for any normalised positive input, the smallest included |
| Reciprocal.LoopBodyQ15Wraps | CMSIS/arm_math.h:803-810 | for every zero or negative normalised input, from any estimate above half scale, the same cast does wrap |
| Reciprocal.ZeroWrapsExactly | CMSIS/arm_math.h:803-810 | on zero a positive estimate comes through the cast if and only if it is at most half scale |
| Reciprocal.NormalisedQ31Exactly | CMSIS/arm_math.h:731-741 | on either sign the shift is lossless and leaves the magnitude in the top octave; zero is shifted by 31 |
| Reciprocal.NormalisedQ15Exactly | CMSIS/arm_math.h:782-792 | the same for Q15; zero is shifted by 15 |
| Reciprocal.NormalisedQ31Range | CMSIS/arm_math.h:731-741 | the count-leading-zeros shift brings every positive input into the top octave without losing bits |
| Reciprocal.IndexValues | CMSIS/arm_math.h:743-745 | the index is six bits of the normalised input, below its top bit |
| Reciprocal.TwoPassesQ31Value | CMSIS/arm_math.h:750-762 | the loop is two trips, written out, for every normalised input and every seed |
| Reciprocal.TwoPassesQ15Value | CMSIS/arm_math.h:801-813 | the same for Q15, reduced to 16 bits after each trip |
| Reciprocal.TwoPassesQ31Accuracy | CMSIS/arm_math.h:744-762 | any positive seed ends below the exact reciprocal; a seed good to 2^-6 ends within 2^-23 |
| Reciprocal.TwoPassesQ15Accuracy | CMSIS/arm_math.h:795-813 | the same for Q15, within 2^-13 up to the last rounding |
| Reciprocal.MidpointSeedsAreGood | CMSIS/arm_math.h:743-748 | the table of cell-midpoint reciprocals satisfies the seed condition at both widths, so the accuracy theorems are not empty |
| Reciprocal.FirstPassQ15Exactly | CMSIS/arm_math.h:798-810 | from any good seed the first pass loses nothing to the cast if and only if the normalised input is positive |
| Reciprocal.RecipQ31 | CMSIS/arm_math.h:721-766 | for positive inputs dst scaled by the returned shift is 1/in from below to within 2^-23; with a good table this holds if and only if the input is positive |
| Reciprocal.RecipQ15 | CMSIS/arm_math.h:772-817 | for positive inputs dst scaled by the returned shift is 1/in from below, to within 2^-13 and a little; for zero it is not |
| Reciprocal.NeverOvershootsQ15Exactly | CMSIS/arm_math.h:772-817 | every positive seed gives a positive result that does not overshoot if and only if the input is positive |
| Reciprocal.NegativeByAccident | CMSIS/arm_math.h:772-817 | a good seed that, wrapped passes and all, lands on the reciprocal of a negative input, and another good seed that misses it |
| CircularBuffer.CircularWrite | CMSIS/arm_math.h:6040-6078 | for any stride whose offsets stay in the array, the loop stores the source samples along the walk, from another array or from its own, and returns the next offset through 16 bits; upwards, sample k, if nothing later hits its slot, is at (offset + k*stride) mod L, and slots not visited are unchanged |
| CircularBuffer.CircularRead | CMSIS/arm_math.h:6084-6135 | for any stride whose offsets stay in the array, the loop delivers the samples along the walk to the wrapping destination pointer, in another array or its own, and returns the next offset; upwards, the last sample laid at a place is the one from (offset + k*stride) mod L, and other places are unchanged |
| CircularBuffer.GatherAt | CMSIS/arm_math.h:6061-6065 | sample k of a write comes from k source steps past the start |
| CircularBuffer.GatherForward | CMSIS/arm_math.h:6061-6065 | with a source step of one the samples are the slice of the source |
| CircularBuffer.DstStepsOn | CMSIS/arm_math.h:6108-6119 | the destination pointer steps on as long as no step lands exactly on the end of the area; jumping over it does not count |
| CircularBuffer.DstStartsAgain | CMSIS/arm_math.h:6108-6119 | from a step that lands on the end it goes on as from the base |
| CircularBuffer.OffsetClimbs | CMSIS/arm_math.h:6068-6070 | a stride longer than L is reduced by L once a step only |
| CircularBuffer.DownwardLands | CMSIS/arm_math.h:6040-6135 | along a downward walk sample k is stored at, and delivered from, k steps below the start |
| CircularBuffer.LastOfWalkStays | CMSIS/arm_math.h:6056-6073 | along any walk the last sample stored at an offset stays there |
| CircularBuffer.OffWalkStays | CMSIS/arm_math.h:6056-6073 | and a place the walk does not pass keeps what it had |
| CircularBuffer.WriteWithinSmears | CMSIS/arm_math.h:6056-6073 | a write into its own source ahead of it repeats the samples in between, over and over |
| CircularBuffer.ReadWithinSmears | CMSIS/arm_math.h:6103-6131 | and so does a read |
| CircularBuffer.WriteWithinIsWalk | CMSIS/arm_math.h:6056-6073 | a write whose source is the buffer itself delivers the block as it was, if no sample is read after its place was written |
| CircularBuffer.ReadWithinIsScatter | CMSIS/arm_math.h:6103-6131 | and so does a read whose destination is the buffer itself |
| CircularBuffer.UpwardIsWalkable | CMSIS/arm_math.h:6068-6070 | every walk upwards from a slot, by at most a round at a time, stays in the buffer |
| CircularBuffer.DownwardExactly | CMSIS/arm_math.h:6067-6070 | a walk downwards stays in the array if and only if its last access is not below slot zero |
| CircularBuffer.WriteExtendsHistory | CMSIS/arm_math.h:6040-6078 | writing a block of any size, also longer than the buffer, keeps the buffer equal to the last L samples of the whole history |
| CircularBuffer.RunRefinesHistory | CMSIS/arm_math.h:6040-6078 | over any sequence of write calls the buffer and the returned offset are those of the unbounded stream |
| CircularBuffer.OffsetSurvivesExactly | CMSIS/arm_math.h:6050-6077 | the 16-bit offset is the true offset after every call if and only if L is at most 65536 |
| CircularBuffer.RunRefinesExactly | CMSIS/arm_math.h:6040-6078 | every sequence of write calls leaves the last L samples in the buffer if and only if L is at most 65536 |
| CircularBuffer.ReadBehind | CMSIS/arm_math.h:6084-6135 | a read started d samples behind the writer, d at most L, returns the stream delayed by d |
| CircularBuffer.ReadBehindExactly | CMSIS/arm_math.h:6084-6135 | reading d samples from d behind is right for every history if and only if d is at most L |
| CircularBuffer.DelayLineDelays | CMSIS/arm_math.h:6040-6135 | alternating writes and reads over a whole run produce the input stream delayed by d |
| CircularBuffer.DelayLineExactly | CMSIS/arm_math.h:6040-6135 | blocks of n samples come back delayed, on every run, if and only if n and the delay fit the buffer together |
| StridedWalk.SameSlotExactly | CMSIS/arm_math.h:5963-5969 | two accesses of a strided walk hit the same slot if and only if their distance is a multiple of L/gcd(L, stride) |
| StridedWalk.WriteTouchesExactly | CMSIS/arm_math.h:5956-5972 | a slot survives every block of n samples if and only if the walk does not visit it |
| StridedWalk.StridedBlockLands | CMSIS/arm_math.h:5956-5972 | in a block no longer than the period, source sample k is at slot (start + k*stride) mod L |
| StridedWalk.RoundTripExactly | CMSIS/arm_math.h:5939-6034 | a block written and read back along one stride returns unchanged, whatever the samples, if and only if it is no longer than L/gcd(L, stride) |
| StridedWalk.CoprimeRoundTrip | CMSIS/arm_math.h:5939-6034 | with a stride coprime to L, a block of up to L samples hits no slot twice and returns unchanged |
| StridedWalk.DstWraps | CMSIS/arm_math.h:6014-6020 | a destination step that divides the area walks round it and never past its end |
| StridedWalk.ScatterLands | CMSIS/arm_math.h:6009-6020 | every sample of a read that does not lap its destination is where the destination pointer stood |
| Simd.LanesAreHalves | CMSIS/arm_math.h:903-915 | the lanes are the low and the high half of the word, read as signed |
| Simd.BytesAreDigits | CMSIS/arm_math.h:867-897 | byte lane k is bits 8k to 8k+7, read as signed |
| Simd.JoinSplits | CMSIS/arm_math.h:903-915 | what is packed into a lane comes out of it with its sign, and nothing of the other lane does |
| Simd.SaturatingLanes | CMSIS/arm_math.h:903-947 | each lane of the 16-bit saturating add and subtract is the clamped result of its own lanes |
| Simd.HalvingLanes | CMSIS/arm_math.h:920-963 | each lane of the halving add and subtract is the floored half of its own lanes |
| Simd.ExchangingSaturatingLanes | CMSIS/arm_math.h:968-1011 | the exchanging saturating forms pair each lane with the opposite lane |
| Simd.ExchangingHalvingLanes | CMSIS/arm_math.h:984-1027 | the exchanging halving forms pair each lane with the opposite lane |
| Simd.PlainProducts | CMSIS/arm_math.h:1074-1169 | SMUAD, SMUSD and SMLAD are the sum, the difference low less high, and the accumulated sum of the lane products, modulo 2^32 |
| Simd.PlainLongProduct | CMSIS/arm_math.h:1118-1128 | SMLALD adds both lane products to the 64-bit sum, less 2^32 in the one case where they overflow 32 bits |
| Simd.ExchangeProducts | CMSIS/arm_math.h:1029-1169 | SMUADX, SMUSDX, SMLADX and SMLALDX are their plain forms with the second operand rotated by 16; SMLSDX, which has no plain form here, is SMUSD so rotated plus the accumulator |
| Simd.ByteLanes | CMSIS/arm_math.h:867-897 | all four byte lanes of the 8-bit saturating add and subtract saturate independently |
| Pid.PidQ15.Process | CMSIS/arm_math.h:5023-5060 | out is the clamped (A0*x + A1*state[0] + A2*state[1] + state[2]*2^15)/2^15, and the state shifts to x, old state[0], out |
| Pid.PidConservation | CMSIS/arm_math.h:4888-4893 | from rest, output plus everything the narrowings dropped equals the proportional, integral and derivative terms exactly, saturated or not |
| Pid.DroppedQ15Exactly | CMSIS/arm_math.h:5047-5051 | a step drops a non-negative amount below one LSB if and only if it does not saturate |
| Pid.PidTelescopes | CMSIS/arm_math.h:5023-5060 | over n unsaturated calls the incremental controller is the positional one less at most n truncations |
| Pid.OutQ15Saturates | CMSIS/arm_math.h:5016-5051 | for all gains, states and samples no partial sum overflows 64 bits nor its shift 32, and the output is the clamped sum |
| Pid.OutQ31Value | CMSIS/arm_math.h:4983-4997 | for any gains, state and sample the output is the shifted sum plus y[n-1], reduced to 32 bits: a wrap of the accumulator does not show |
| Pid.PidQ31.Process | CMSIS/arm_math.h:4977-5007 | out is that value on the fields, and the state shifts as in Q15 |
| Pid.PidQ31Exactly | CMSIS/arm_math.h:4977-5007 | with scaled inputs the accumulator never overflows, and the output is the documented saturated sum if and only if the sum fits 32 bits |
| Pid.ScaledRunWraps | CMSIS/arm_math.h:4977-5007 | a constant input scaled as documented drives the output negative on the fifth call |
| PidQ31Runs.RunWrapsUnbounded | CMSIS/arm_math.h:4977-5007 | over any run, scaled or not, the output is the unbounded controller's, reduced to 32 bits |
| PidQ31Runs.AsDocumentedExactly | CMSIS/arm_math.h:4970-5007 | a run of scaled samples is call by call the documented saturating one if and only if every unbounded output fits 32 bits |
| PidQ31Runs.PidTelescopesQ31 | CMSIS/arm_math.h:4977-5007 | while the positional controller stays in range nothing wraps, and the output is the positional one less at most n truncations |
| PidQ31Runs.ScalingSufficesExactly | CMSIS/arm_math.h:4970-4975 | scaling keeps every run from overflowing if and only if all three gains are zero |
| PidDsp.PidQ15Dsp.Process | CMSIS/arm_math.h:5030-5060 | the DSP body is one step with A1 the low and A2 the high half of the packed gain word, and the state shifts |
| PidDsp.WeightedDspExactly | CMSIS/arm_math.h:5030-5044 | the DSP accumulator is the portable one, plus one when A0 and the sample are negative, less 2^32 when the lane sum overflows |
| PidDsp.OutDspValue | CMSIS/arm_math.h:5030-5051 | the DSP output in plain arithmetic, for every gain, state and sample |
| PidDsp.OutDspExactly | CMSIS/arm_math.h:5030-5051 | the two bodies give the same output if and only if the lane sum does not overflow and the extra one does not carry |
| PidDsp.RunsCoincide | CMSIS/arm_math.h:5023-5060 | with agreeing gains whole runs coincide, from any state |
| PidDsp.BodiesAgreeExactly | CMSIS/arm_math.h:5023-5060 | the two bodies agree on every state and sample if and only if A0 is non-negative or all gains are even, and A1 and A2 are not both -1 |
| PidDsp.RunsAgreeExactly | CMSIS/arm_math.h:5023-5060 | the two bodies agree on every run from rest if and only if the same condition on the gains holds |
| Clarke.Constants | CMSIS/arm_math.h:5170-5174 | the literals are 1/sqrt(3), 2/sqrt(3) and sqrt(3)/2 rounded down in their formats |
| Clarke.ClarkeValue | CMSIS/arm_math.h:5159-5178 | for every pair of phases alpha is the first, and beta the saturated sum, off by 2^32 where the second product wraps |
| Clarke.ClarkeSaturatesExactly | CMSIS/arm_math.h:5159-5178 | beta is the saturated sum if and only if the second phase is within 0x6ED9EBA1 |
| Clarke.OverrangeFlipsSign | CMSIS/arm_math.h:5173-5177 | beyond that the result has the opposite sign of the exact one, whatever the first phase is |
| Clarke.InvClarkeSaturates | CMSIS/arm_math.h:5245-5264 | for every pair of coordinates the inverse returns alpha and the saturated difference of the two products |
| Clarke.ClarkeRoundTrip | CMSIS/arm_math.h:5245-5264 | wherever the forward transform fits, the inverse returns the first phase exactly and the second within -3 to +1 LSB |
| Clarke.HalfScaleIsSafe | CMSIS/arm_math.h:5159-5178 | phases of at most half scale always fit |
| Park.ParkSaturatesExactly | CMSIS/arm_math.h:5349-5378 | each coordinate is the saturated one if and only if no product of -1 and -1 is narrowed on one side of it alone |
| Park.ParkValue | CMSIS/arm_math.h:5349-5378 | both coordinates for every input, saturation and the product of -1 and -1 included |
| Park.ParkRotates | CMSIS/arm_math.h:5349-5378 | unless a coordinate and a factor are both -1, the pair is the documented rotation of the input to within two LSBs |
| Park.InvParkValue | CMSIS/arm_math.h:5452-5481 | the same for the inverse |
| Park.ParkRoundTrip | CMSIS/arm_math.h:5452-5481 | whenever the rotated pair fits and no coordinate of -1 meets a factor of -1, the inverse returns both coordinates within 4 and 5 LSBs plus the share of the sine-cosine tolerance |
| Park.HalfScaleFits | CMSIS/arm_math.h:5349-5378 | for half-scale vectors and a sine-cosine pair within a sixteenth of the unit circle, neither transform saturates or truncates |
| Park.HalfScaleRoundTrip | CMSIS/arm_math.h:5452-5481 | half-scale coordinates come back within 4 and 5 LSBs for every sine-cosine pair whose squares add up to 2^62 within 2^32, as rounding to 31 bits leaves them |
| LinearInterp.ChordErrorQ15 | CMSIS/arm_math.h:5651-5693 | in the interior the result is the chord less y0/2^20, rounded down |
| LinearInterp.ChordErrorQ7 | CMSIS/arm_math.h:5708-5751 | the same for Q7 |
| LinearInterp.MixBetween | CMSIS/arm_math.h:5683-5691 | the blend stays between its neighbours, or one LSB below the lower |
| LinearInterp.Q7IsInterp | CMSIS/arm_math.h:5708-5751 | the 32-bit arithmetic and the narrowing of the Q7 function never truncate |
| LinearInterp.MonotoneQ15 | CMSIS/arm_math.h:5651-5693 | a nondecreasing table gives a nondecreasing function of x >= 0, across segment boundaries and into the clamped end |
| LinearInterp.MonotoneQ7 | CMSIS/arm_math.h:5708-5751 | the same for Q7 |
| LinearInterp.MonotoneEverywhereExactly | CMSIS/arm_math.h:5651-5693 | over negative inputs too, it is monotone if and only if the table has one entry or does not start positive |
| LinearInterp.MonotoneEverywhereExactlyQ7 | CMSIS/arm_math.h:5708-5751 | the same for Q7 |
| LinearInterp.InteriorQ31 | CMSIS/arm_math.h:5605-5633 | in the interior the Q31 result is twice the sum of the two products of neighbours and weights, each shifted by 32 |
| LinearInterp.SegmentQ31Accuracy | CMSIS/arm_math.h:5617-5633 | for any two table values nothing overflows, and the result is even and within four LSBs below the chord |
| LinearInterp.NearlyMonotoneQ31 | CMSIS/arm_math.h:5593-5635 | a nondecreasing table is interpolated monotonically to within two LSBs over x >= 0 |
| LinearInterp.NearlyMonotoneEverywhereQ31 | CMSIS/arm_math.h:5593-5635 | over the whole axis it is to within four |
| LinearInterp.NotMonotoneQ31 | CMSIS/arm_math.h:5593-5635 | a constant table shows the two LSBs do occur |
| LinearInterp.FourBelowClamped | CMSIS/arm_math.h:5593-5635 | another shows the four below zero do |
| SteadyQ31.SegmentsDecide | CMSIS/arm_math.h:5593-5635 | the joins and the clamped end never break monotonicity: over x >= 0 it holds if and only if every reachable segment is nondecreasing |
| SteadyQ31.SteadyExactly | CMSIS/arm_math.h:5620-5633 | a segment is nondecreasing if and only if its entries lie in different blocks of 2^21 or every drop of the first product meets a rise of the second |
| SteadyQ31.FlatExactly | CMSIS/arm_math.h:5620-5633 | a flat segment is nondecreasing if and only if its entry is a multiple of 2^21, or positive, even and of eleven significant bits, or odd with a small enough inverse modulo 2^21 |
| SteadyQ31.SpansExactly | CMSIS/arm_math.h:5620-5630 | the test on the quotients and remainders by 2^21 finds exactly the pairs with a multiple of 2^21 from one entry to the other |
| SteadyQ31.SpansWidely | CMSIS/arm_math.h:5620-5630 | rises of 2^21 or more and pairs around zero are such pairs |
| SteadyQ31.MonotoneQ31 | CMSIS/arm_math.h:5593-5635 | a nondecreasing table with a multiple of 2^21 in every step is interpolated monotonically over x >= 0, joins and clamped end included |
| SteadyQ31.MultiplesAreSteady | CMSIS/arm_math.h:5620-5633 | a segment from a positive reproducible entry to a multiple of it is nondecreasing |
| SteadyQ31.MonotoneQ31Exactly | CMSIS/arm_math.h:5593-5635 | any nondecreasing table is interpolated monotonically over x >= 0 if and only if each neighbouring pair has a multiple of 2^21 in it, or is one reproducible entry, or has every drop made good |
| SteadyQ31.MonotoneEverywhereExactly | CMSIS/arm_math.h:5593-5635 | over the whole axis it is if and only if it is over x >= 0 and the table has one entry or starts even and not positive |
| BilinearInterp.AnsweredValue | CMSIS/arm_math.h:7178-7217 | every point the guard lets pass, inside the table or not, reads four entries of the flat table, weighted by the fractions |
| BilinearInterp.RejectedReadsZero | CMSIS/arm_math.h:7178-7181 | every point with a negative coordinate, or X beyond the rows, or Y beyond the columns, reads zero |
| BilinearInterp.BilinearIsTwoStep | CMSIS/arm_math.h:7153-7217 | the result equals, or exceeds by one LSB, one-dimensional interpolation along X on two rows and then along Y |
| BilinearInterp.ConstantTable | CMSIS/arm_math.h:7153-7217 | the extra LSB occurs: at the grid points of a constant table the forms lose one and two LSBs |
| BilinearInterp.BilinearBetweenCorners | CMSIS/arm_math.h:7153-7217 | the result lies between the four corners, or one LSB below the lowest |
| BilinearInterp.MonotoneAlongX | CMSIS/arm_math.h:7153-7217 | over interior points it answers, nondecreasing rows give a result nondecreasing in X, within a cell and from cell to cell |
| BilinearInterp.MonotoneAlongY | CMSIS/arm_math.h:7153-7217 | likewise nondecreasing columns in Y |
| BilinearInterp.GuardExactly | CMSIS/arm_math.h:7176-7181 | the guard rejects just the points outside the table if and only if rows and columns are as many, as far as 2048 indices can tell, or the table is empty |
| BilinearInterp.SquareOutsideReadsZero | CMSIS/arm_math.h:6920-6920 | on square tables every point outside reads zero |
| BilinearInterp.GuardErrs | CMSIS/arm_math.h:7176-7181 | on every other table a point of the first row is wrongly rejected, if it is wide, or wrongly answered, if it is tall |
| BilinearInterp.GuardRejectsInside | CMSIS/arm_math.h:6919-6921 | on a table of two rows and four columns of hundreds, a point inside reads zero |
| BilinearInterp.GuardAnswersOutside | CMSIS/arm_math.h:6919-6921 | on the same entries as four rows of two, a point outside reads 99 |
| Mpu.Peripheral.Store | CMSIS/core_cm4.h:1208-1223 | an even word of the window programs the base, of the region in the low four bits if bit 4 is set and of the current one otherwise; an odd word programs the attributes |
| Mpu.Peripheral.SetRegion | CMSIS/mpu_armv7.h:225-229 | one row is one base write and one attribute write |
| Mpu.Peripheral.OrderedMemcpy | CMSIS/mpu_armv7.h:248-255 | the words reach the registers in order, each through its alias, never past the window |
| Mpu.Peripheral.Load | CMSIS/mpu_armv7.h:261-270 | any table and count emits exactly the writes of programming the rows one by one, row i as writes 2i and 2i+1, with the same region file |
| Mpu.LastWriterWins | CMSIS/mpu_armv7.h:261-270 | the last row that programs a region decides its base, bits 31 to 5, and its attributes, for rows with and without VALID |
| Mpu.OthersKept | CMSIS/mpu_armv7.h:261-270 | regions no row programs keep what they had |
| Mpu.OrderIsImmaterial | CMSIS/mpu_armv7.h:261-270 | tables of the same rows naming different regions leave the same region file in any order |
| Mpu.RbarMasks | CMSIS/core_cm4.h:1250-1257 | the address field is bits 31 to 5, VALID bit 4 and the region bits 3 to 0 |
| Mpu.RbarFields | CMSIS/mpu_armv7.h:75-78 | the macro's value is the base address rounded down to 32, plus 16 for VALID, plus the region modulo 16 |
| Nvic.BitsAddUp | CMSIS/core_cm4.h:1862-1863 | preemption takes 7 less the group of the implemented bits, or all of them, and the subpriority the rest |
| Nvic.FieldsOnly | CMSIS/core_cm4.h:1856-1894 | encoding and decoding of any arguments use the preemption bits above the subpriority bits and ignore every other bit |
| Nvic.DecodeEncode | CMSIS/core_cm4.h:1856-1894 | decoding an encoded pair returns it, masked to its fields |
| Nvic.EncodeDecode | CMSIS/core_cm4.h:1856-1894 | encoding a decoded priority returns it, for every priority in range |
| Nvic.StoredByteValue | CMSIS/core_cm4.h:1809-1841 | storing and reading back keeps exactly the implemented bits |
| Nvic.RegisterRoundTrip | CMSIS/core_cm4.h:1809-1894 | a pair survives encode, store, read back and decode |
| Nvic.HardwareOrder | CMSIS/core_cm4.h:1856-1872 | the hardware's group fields of two stored bytes order exactly as their preemption priorities, and the bytes by preemption first and subpriority second |
| Nvic.Priorities.SetPriority | CMSIS/core_cm4.h:1809-1819 | IP[irqn], or SHP[irqn + 12] for a system exception, takes the priority shifted to the top of its byte, and every other register keeps its own |
| Nvic.Priorities.GetPriority | CMSIS/core_cm4.h:1831-1842 | the read returns IP[irqn], or SHP[irqn + 12], shifted back down |
| Startup.Start | CMSIS/cmsis_gcc.h:151-161 | the nested loops apply all copy entries and then all clear entries, word by word, overlaps included |
| Startup.CopyEntryExactly | CMSIS/cmsis_gcc.h:151-155 | an entry delivers its source whatever memory holds if and only if the destination does not start inside the source |
| Startup.OverlapRepeats | CMSIS/cmsis_gcc.h:151-155 | an entry whose destination starts inside its source repeats the words in between, over and over |
| Startup.SectionCopied | CMSIS/cmsis_gcc.h:151-161 | after start-up every section the linker keeps apart holds its initial source |
| Startup.RestOfMemory | CMSIS/cmsis_gcc.h:151-161 | every cleared word is zero and every word outside the tables is unchanged, without any condition |
| BitReverse.Rbit | CMSIS/cmsis_gcc.h:1048-1067 | the early-exit loop and its final shift compute the bit reversal, at any width |
| BitReverse.ReverseBit | CMSIS/cmsis_gcc.h:1048-1067 | bit i of the result is bit w-1-i of the word |
| BitReverse.ReverseTwice | CMSIS/cmsis_gcc.h:1048-1067 | reversing twice is the identity |
| BitReverse.RorBit | CMSIS/cmsis_gcc.h:1021-1029 | bit i of the rotated word is bit i+k of the word, counted round |
| BitReverse.RorCompose | CMSIS/cmsis_gcc.h:1021-1029 | rotations add up |
| BitReverse.ReverseRotates | CMSIS/cmsis_gcc.h:1021-1067 | reversing a rotated word is rotating the reversed word the other way |
| BitReverse.TrailingZeros | CMSIS/cmsis_gcc.h:1048-1094 | leading zeros of the reversed word count the trailing zeros of the word |

## Left out

- Reciprocal.RecipQ15: does not say which negative inputs come out accurate: the casts wrap, and Reciprocal.NegativeByAccident shows one input for which it depends on which good seed the table holds. -32768 is excluded because its normalising shift is undefined in C.
- Reciprocal.RecipQ31: excludes the most negative input, whose normalising shift is undefined in C. The library's seed tables are external data and not part of this model; the table is a parameter.
- CircularBuffer.CircularWrite: requires offsets inside the array and offset sums inside 32 bits, which C needs to be defined.
- SteadyQ31.MonotoneQ31Exactly: for different entries inside one block of 2^21 the condition is a finite check of residues, one per drop, and not a closed form.
- BilinearInterp.BilinearIsTwoStep: covers points whose four neighbours are in the table; the guard also admits edge points whose neighbours are not.
- PidDsp.PidQ15Dsp.Process: assumes a little-endian state array and models the overflow of the int lane sum as wrapping.
- Mpu.Peripheral.Store: models the region number, base and attribute registers only; control register, faults and memory attributes are not modelled.
- Startup.Start: the tables are values, so a section copied over the tables themselves is not captured; the jump to the program is not modelled.
- Nvic.Priorities.SetPriority: covers interrupt numbers from -12 up, the ones that have a priority register.
- Floating-point PID, Clarke, Park, interpolation, square root, and the NEON helpers.
- Q15 and Q31 bilinear interpolation, which differ from the Q7 form only in their intermediate shifts.
- SXTB16 and SMMLA, one-line lane expressions with nothing to relate them to.
- Filter, transform and matrix prototypes, whose bodies are not in the repository.
- Inline assembly, barriers, exclusive accesses, and the copies of the intrinsics for other compilers.
- Interrupt enable and pending bits, SysTick, ITM, reset, and clock configuration: one-line register accesses.
- The application code under common/src, board and drivers.

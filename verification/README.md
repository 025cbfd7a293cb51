# A verified model of the algorithmic core of a tensor compiler and runtime

This project models, in Dafny, the small algorithms of the repository whose correctness cannot be read off one
branch, and proves what they are for. `dafny verify dfyconfig.toml` checks all of it. Index arithmetic is on
unbounded integers, attention and quantised products are over exact reals, and bit-level code is on bit-vectors or on
the integers behind the bits.

| files | subject | central results |
|---|---|---|
| `DepsTracker` | ordering of buffer accesses for replay | every hazard is ordered by a chain of waits; the interval lists say of every byte who wrote it last and who has read it since |
| `PruneLinear`, `GraphSplit` | splitting a captured program | running the once-only part first changes nothing; the graph batches are the only well-cut ones, conserve the program and grow geometrically |
| `FlashDecode`, `SplitGeometry`, `WarpReduce`, `Sums` | decode attention | tiles, online softmax and combine give exact softmax attention |
| `KQuant`, `Q4kGemv`, `Q6kGemv` | quantised matrix-vector kernels | word-level kernels equal the byte-level dequantiser, each weight counted once |
| `IndexExpr`, `ReduceRules`, `ReduceUnparented`, `ReduceCollapse`, `CollapsePasses`, `CheckedForms` | collapsing reductions | the rules keep the value, exactly if they check what they replace |
| `RangeRewrites` | merging, splitting and shrinking loop ranges | the iterations, and the places accessed, stay the same |
| `GroupedDims`, `MixedRadix` | fitting a launch grid to the hardware | the launch is a bijection |
| `Fp8`, `Bf16` | conversion to FP8 and bfloat16 | rounding is to nearest, ties to even (section 4.3.1 of IEEE 754-2019) |
| `LineRewrite`, `TaggedRewrite` | gated stores as IF, store, ENDIF; role tags | the same memory effect, exactly if no read is stale; every tag arrives |
| `DeviceMemory`, `BufferAccounting`, `MemoryReplay`, `AllocTrace` | memory bookkeeping | handles, byte counters and view counters are conserved over whole runs; the trace ring shows the end of the log |
| `Admission`, `ModelLoadPlan`, `SelectedModelPlan` | memory admission | nothing admitted exceeds the scanned budget, and its tensors lie disjointly inside the file |
| `IndexMath`, `Collections`, `Wrappers` | shared | arithmetic, lists without repetitions, `Option` |

Code that works by changing state is modelled by classes and by methods with loops, each tied to a specification
function; the theorems are about those functions.

## Where the code does not do what one would expect

Each of these is proved, together with the exact condition under which the expected property holds.

* `get_grouped_dims` returns four indices for three dimensions when they cannot be merged and only one hardware axis
  is usable, for example (2, 2, 2) under limits (4, 1, 1): `GroupedDims.LaunchIsBijective`, `TwoCubedOnOneAxis`.
* The partial Q6_K kernel divides its blocks with a truncating division; it covers a row exactly when the number of
  parts divides the number of blocks, and its guard is never reached: `Q6kGemv.PartsSumToRow`, `GuardAlwaysHolds`.
* The closed forms of the reduce rewriter do not check that the bounds they use are independent of the range they
  remove, and the final test for remaining ranges does not make up for it. The sum over r < 4 of
  [not (r < r % 2) and r < r % 2 + 1] is 2; its closed form min(r % 2 + 1, 4) - max(r % 2, 0) is 1 for every r, so that
  a simplifier may drop the range, and the result passes: `CheckedForms.CancelledRange`. A bound from one side is not
  safe either, although alone it is right as soon as it does not vary with the range: the sum of [r < r] - [r < r + 1]
  is -4, is split into two sums with the closed forms r and r + 1, and r - (r + 1) is -1: `CancelledBounds`. Runs, and
  whole collapses, are right for every simplifier that keeps values where ranges are in bounds exactly if all four
  rules check: `RunsAreSoundIff`, `CollapsesAreSoundIff`. Without simplification the final test is enough:
  `ReduceCollapse.RulesAloneAreSound`.
* Range shrinking can lose accesses when a range occurs only in a condition: `RangeRewrites.ShrinkPreservesIff`,
  `HiddenRangeExample`.
* Turning gated stores into IF blocks can merge lines that differ only in a gate. The values of all lines survive on
  all paths exactly when no lines but stores are merged, and the effect on memory of a straight run exactly when no
  line reads a value that a merged line has replaced: `LineRewrite.MirroredIff`, `MemoryKeptIff`,
  `TwinStoresLoseMemory`.
* Deallocating a base buffer whose views are still counted, which `tinygrad/engine/jit.py:238-245` may do because it
  deallocates every initialised buffer it wrote, leaves the view counter wrong; if the base is allocated again, the
  view counts as initialised with memory that may belong to someone else:
  `BufferAccounting.DeallocatingBaseKeepsViewsIff`, `DeallocateUnderView`.
* An empty buffer region may wait for accesses it shares no byte with. The waits of a call are exactly its conflicts,
  after any calls of the same kind, exactly if each of its empty regions at an offset p > 0 has the call itself touch
  byte p - 1 or p, and write one of them if the region is written: `DepsTracking.WaitsAreConflictsIff`,
  `EmptyRegionWaitsNeedlessly`.
* An initial graph limit of one is never doubled. Something is graphed exactly if the limit is not one and two calls in
  a row, slices aside, can be graphed together: `GraphSplit.GraphedIff`, `CompatibleGraphedIff`, `LimitOneNeverGraphs`.
* A double is rounded to bfloat16 by way of single precision, and what comes out is not the nearest number exactly if
  the first step lands in the middle between two of them, from the side that the second step does not go to:
  `Bf16.RoundDoubleIff`, `RoundedTwiceIsOff`.
* Admission ignores the weights if a token takes no memory: `Admission.AlwaysFitsIff`.

## Model

| member | source | states |
|---|---|---|
| `DepsTracking.Tracker.AccessResources` | tinygrad/engine/jit.py:118-135 | the method on the two interval maps returns the deduplicated waits of the old state and leaves the state in which every region of the call is recorded |
| `DepsTracking.TrimSpans` | tinygrad/engine/jit.py:127-132 | cutting [s, e) out of an interval list keeps exactly the two remainders of every interval, in order |
| `DepsTracking.SpansDenoteLog` | tinygrad/engine/jit.py:109-134 | after any sequence of calls the write intervals of a buffer are pairwise disjoint, a byte lies in a write interval of d exactly if the last call with a written region over that byte is one of d, and in a read interval of d exactly if a call of d has read it since |
| `DepsTracking.LogMeansCalls` | tinygrad/engine/jit.py:118-135 | the access by access log, and the calls with their offsets, sizes and written indices, name the same last writer and the same readers of every byte |
| `DepsTracking.WaitsCoverConflicts` | tinygrad/engine/jit.py:121-123 | if d wrote a byte last that lies in a region of the new call, or has read one since then that lies in a written region of it, d is among the waits: no read-after-write, write-after-read or write-after-write order is lost |
| `DepsTracking.WaitsAreConflicts` | tinygrad/engine/jit.py:119-135 | the waits are exactly the conflicting accesses, each once, if every empty region of the calls lies at 0 or beside a byte that its call uses in the same way; so also if no region is empty |
| `DepsTracking.WaitsAreConflictsIff` | tinygrad/engine/jit.py:118-135 | that is necessary: the waits of a call are exact after all sequences of such calls exactly when it is such a call itself |
| `DepsTracking.NeedlessWait` | tinygrad/engine/jit.py:122-123 | any other empty region waits for a call of one region around it, with which the call shares no byte that one of them writes |
| `DepsTracking.EmptySpansAfter` | tinygrad/engine/jit.py:127-134 | every write to a buffer removes its empty spans, so those in the lists are from calls since the last write |
| `DepsTracking.EmptyRegionWaitsNeedlessly` | tinygrad/engine/jit.py:122-123 | for example, an empty region strictly inside a written one waits although no byte is shared |
| `DepsTracking.HazardsAreOrdered` | tinygrad/engine/jit.py:118-135 | over any run, of two calls that touch a common byte, one of them writing, the later reaches the earlier through a chain of returned waits |
| `DepsTracking.TrackAll` | tinygrad/engine/jit.py:118-135 | a whole program run through one tracker returns, call by call, the waits the theorems above speak of |
| `PruneLinear.Prune` | tinygrad/engine/jit.py:15-23 | the loop over the captured calls computes the kept list, the once-only list and the grown set of needed buffers |
| `PruneLinear.CollectBufsIff` | tinygrad/schedule/memory.py:9-13 | a buffer is collected from an argument exactly when single-source wrappers, selections and stacks lead to it |
| `PruneLinear.UsesIff` | tinygrad/engine/jit.py:18 | the buffers of a call are those that some path through any of its arguments leads to |
| `PruneLinear.PruneIsSound` | tinygrad/engine/jit.py:15-23 | running the once-only calls and then the kept calls leaves every buffer as the captured order does, for all calls that change, and depend on, just the buffers some path through an argument leads to |
| `PruneLinear.PruneIsPartition` | tinygrad/engine/jit.py:18-23 | both lists keep program order and every position is in exactly one of them |
| `PruneLinear.KeptIff` | tinygrad/engine/jit.py:18-22 | a call is kept exactly when a chain of calls in program order, each having a buffer at the end of a path through an argument in common with the next, leads to it from the inputs |
| `GraphSplit.Splitter.Split` | tinygrad/engine/jit.py:41-75 | the loop with its batch, batch devices and doubling limit computes the split described step by step |
| `GraphSplit.Splitter.FlushBatch` | tinygrad/engine/jit.py:46-53 | flushing loses nothing: expanded, the output grows by exactly the open batch, which becomes a graph, and the limit doubles, exactly if it holds more than one call; afterwards the batch and its devices are empty |
| `GraphSplit.FlushIsGood` | tinygrad/engine/jit.py:46-53 | flushing keeps every graph supported call by call, of at least two calls and within its doubled limit |
| `GraphSplit.SplitConserves` | tinygrad/engine/jit.py:55-75 | expanding the graphs gives the input without its slice calls, in order |
| `GraphSplit.SplitIsDetermined` | tinygrad/engine/jit.py:46-75 | the result is the only list of outputs that expands to the program without its slices, each of whose graphs holds two or more calls that go together within its limit, and none of whose outputs could have been continued with the call after it |
| `GraphSplit.SplitIgnoresSlices` | tinygrad/engine/jit.py:55-56 | splitting a program is splitting it without its slices |
| `GraphSplit.FirstDevice` | tinygrad/engine/jit.py:63-69 | the runner asked about a call is that of the first device of its arguments, about the call alone and about the devices of the batch |
| `Collections.DedupOrder` | tinygrad/helpers.py:23 | removing repetitions keeps the order of first occurrences |
| `GraphSplit.GraphsAreGood` | tinygrad/engine/jit.py:46-71 | no barrier, slice or ungraphable call is ever inside a graph, each call is supported beside the ones before it, every graph has at least two calls, and the k-th graph has at most initial * 2^k when the limit is positive |
| `GraphSplit.FewBatches` | tinygrad/engine/jit.py:50-75 | n calls, each supported beside any stretch of calls just before it, with a limit of at least 2 give g batches with max * (2^(g-1) - 1) < n, all but the last exactly full |
| `GraphSplit.OneKindIsCompatibleIff` | tinygrad/engine/jit.py:195-209 | under the one-device runner, and under the one-device-type runner, a program of plain calls is such a program exactly when all its calls are runnable and all its devices are the same one, or of the same type |
| `GraphSplit.GraphedIff` | tinygrad/engine/jit.py:46-75 | for any program something is graphed exactly when the limit is not one and, slices aside, some graphable call follows a graphable call beside whose devices it is supported |
| `GraphSplit.CompatibleGraphedIff` | tinygrad/engine/jit.py:46-75 | so a compatible program of two or more calls is graphed exactly when the limit is not one |
| `GraphSplit.NoLimitIsOneGraph` | tinygrad/engine/jit.py:46-71 | a limit of zero is none: a compatible program of two or more calls becomes one graph of all of them |
| `GraphSplit.LimitOneNeverGraphs` | tinygrad/engine/jit.py:48-52 | a limit of one is never doubled, so nothing is ever graphed, whatever the program |
| `FlashDecode.FlashDecode` | tinygrad/llm/flash_decode_attention.py:90-244 | tile launch, online softmax over splits and fused combine together return sum_t exp(s_t) v_t / sum_t exp(s_t) for every head and dimension, for any scores, any number of splits and any number of tokens from 1 |
| `FlashDecode.TokenUpdate` | tinygrad/llm/flash_decode_attention.py:183-190 | one token of the online softmax in one lane, live or past the end, keeps the meaning of the registers |
| `FlashDecode.TileLane` | tinygrad/llm/flash_decode_attention.py:128-191 | over all blocks of a split a lane ends with the accumulators, denominator and maximum of exactly the live tokens of the split |
| `FlashDecode.TokenStep` | tinygrad/llm/flash_decode_attention.py:185-189 | rescaling by exp(old max - new max) keeps den * exp(max) equal to the sum of the weights so far, from -inf on |
| `FlashDecode.TokenStepDim` | tinygrad/llm/flash_decode_attention.py:173-178 | the same for the weighted values of one dimension |
| `FlashDecode.DotReduce` | tinygrad/llm/flash_decode_attention.py:157-171 | the pairwise lane loop and the cross-lane sum give the scaled dot product of query and staged key |
| `FlashDecode.Stage` | tinygrad/llm/flash_decode_attention.py:132-153 | staging by either index map fills every slot of the tile with the key or value it stands for, in range or clamped |
| `FlashDecode.LaunchTiles` | tinygrad/llm/flash_decode_attention.py:112-119 | the launch grid over key-value heads, splits, query groups and warps stores the partial of every head and split |
| `FlashDecode.GlobalMax` | tinygrad/llm/flash_decode_attention.py:214-217 | the combine baseline is -1e30 or one of the partial maxima, and at least each of them |
| `FlashDecode.MergeDen` | tinygrad/llm/flash_decode_attention.py:231-238 | adding one weighted partial keeps den * exp(baseline) equal to the sum of the weights of all tokens so far, empty splits included |
| `FlashDecode.MergeAcc` | tinygrad/llm/flash_decode_attention.py:231-236 | the same for one output dimension |
| `FlashDecode.CancelBaseline` | tinygrad/llm/flash_decode_attention.py:239-242 | the baseline cancels in the final division, whatever it is |
| `FlashDecode.Combine` | tinygrad/llm/flash_decode_attention.py:204-244 | the combine kernel turns finished partials into the attention row of the head |
| `FlashDecode.LanesCoverDot` | tinygrad/llm/flash_decode_attention.py:161-168 | the 32 lanes visit each of the 64 * n elements once |
| `WarpReduce.WarpReduceSum` | tinygrad/codegen/late/warp_reduce.py:60-64 | the butterfly ladder leaves the sum over all lanes in every lane, for any power-of-two width |
| `SplitGeometry.TokensVisitedIff` | tinygrad/llm/flash_decode_attention.py:183-184 | for any per-split length every token below Tc is visited exactly when the last block of the last split reaches Tc |
| `SplitGeometry.TokensVisitedOnceIff` | tinygrad/llm/flash_decode_attention.py:183-184 | no token is visited twice exactly when the per-split length is a multiple of the tile size or one split holds all tokens |
| `SplitGeometry.AlignedLengthCoversOnce` | tinygrad/llm/flash_decode_attention.py:256-258 | with the aligned length every token has exactly one (split, block, position) and none is left out |
| `SplitGeometry.AlignedLengthIsLeast` | tinygrad/llm/flash_decode_attention.py:256-257 | the aligned length is the least multiple of the token block with which the splits reach Tc |
| `SplitGeometry.HeadsServedOnce` | tinygrad/llm/flash_decode_attention.py:112-120 | each query head has exactly one active (key-value head, group, warp); padding warps are inactive |
| `SplitGeometry.CoalescedStagingOnce` | tinygrad/llm/flash_decode_attention.py:50-60 | the cooperative lane map writes each slot of the tile exactly once, and none outside it, when threads times width divides its size |
| `SplitGeometry.GatedStagingOnce` | tinygrad/llm/flash_decode_attention.py:143-149 | the gated map writes each slot of the tile exactly once |
| `SplitGeometry.PartialSlotsDistinct` | tinygrad/llm/flash_decode_attention.py:192-197 | no two (head, split, column) triples share a slot of the partial buffer |
| `KQuant.GroupParamsAgree` | tinygrad/llm/decode_kernels.py:75-89 | scales and minima taken from 32-bit words are those the reference takes from bytes, and so are d and dmin |
| `KQuant.QuantsAgree` | tinygrad/llm/decode_kernels.py:94-98 | a quant picked from the masked word is the nibble of its byte in the reference order |
| `KQuant.Q4KernelWeightIsElement` | tinygrad/llm/decode_kernels.py:92-101 | the kernel weight of (group, word column, nibble) is the reference element group * 32 + column * 4 + nibble |
| `KQuant.Q4ElementSteps` | tinygrad/llm/gguf.py:76-84 | of the bytes of a block: an element whose quant is 0 is minus dmin times its minimum, and one more in the quant adds d times its scale |
| `KQuant.Q6CodesAgree` | tinygrad/llm/decode_kernels.py:137-151 | the six-bit code put together from halfwords is the reference code, whose byte the reference reads as a signed one |
| `KQuant.Q6KernelWeightIsElement` | tinygrad/llm/decode_kernels.py:145-152 | the kernel weight of (group, position) is the reference element group * 16 + position |
| `KQuant.Q6ElementSteps` | tinygrad/llm/gguf.py:85-89 | of the bytes of a block: codes are below 64, the code 32 stands for 0, and one more in the code adds d times the scale, a scale byte of 128 or more being negative |
| `Q4kGemv.ValidatesIff` | tinygrad/llm/decode_kernels.py:37-44 | the lane map validates exactly when k is a multiple of 1024 |
| `Q4kGemv.GroupDot` | tinygrad/llm/decode_kernels.py:92-101 | the nibble loop of one group adds the four terms of its word column |
| `Q4kGemv.LaneDot` | tinygrad/llm/decode_kernels.py:115-123 | one lane adds its word column over the blocks of its block group |
| `Q4kGemv.LanesAreRow` | tinygrad/llm/decode_kernels.py:115-124 | the sums of the 32 lanes count each of the k weights once |
| `Q4kGemv.RowTotal` | tinygrad/llm/decode_kernels.py:115-124 | 32 lanes and the cross-lane sum give the dot product of the dequantised row with x |
| `Q4kGemv.Gemv` | tinygrad/llm/decode_kernels.py:110-126 | over the whole grid every output is the dot product of the byte-level dequantised row with x, for every content and every k divisible by 1024 |
| `Q6kGemv.BlockDot` | tinygrad/llm/decode_kernels.py:155-159 | the loop over sixteen groups adds the terms at one position of a block |
| `Q6kGemv.Coop` | tinygrad/llm/decode_kernels.py:238-250 | the cooperative kernel stores every partial of every row when the tile divides the rows |
| `Q6kGemv.CoopSumsToRow` | tinygrad/llm/decode_kernels.py:238-250 | the sixteen cooperative partials of a row add up to its dot product |
| `Q6kGemv.Reduce` | tinygrad/llm/decode_kernels.py:228-235 | the scalar reduction over the partials gives the dot product of every row |
| `Q6kGemv.PartAt` | tinygrad/llm/decode_kernels.py:253-266 | one partial of the other kernel is the sum over its stretch of blocks |
| `Q6kGemv.GuardAlwaysHolds` | tinygrad/llm/decode_kernels.py:255-262 | since the division truncates, no part ever reaches past the last block: the kernel's guard never stops anything |
| `Q6kGemv.PartsSumToRow` | tinygrad/llm/decode_kernels.py:253-266 | the partials add up to the row for all weights and vectors exactly when the number of parts divides the number of blocks |
| `ReduceRules.BelowIsSoundIff` | tinygrad/codegen/simplify.py:107-108 | for any cut and every size from 0, the closed form for a sum bounded from below has the value of the sum, whatever the range it sets free is bound to, exactly when it does not vary with that range |
| `ReduceRules.AboveIsSoundIff` | tinygrad/codegen/simplify.py:114-115 | the same for a bound from above |
| `ReduceRules.TwoSidesIsSoundIff` | tinygrad/codegen/simplify.py:110-112 | the rule for bounds from both sides is right, for all bounds, sizes and values, exactly if it checks that the bounds do not mention the range, which the code does not |
| `ReduceRules.CutMayNotMentionTheRange` | tinygrad/codegen/simplify.py:107-108 | the rule itself does not require that, and without it the closed form is wrong: a concrete sum |
| `ReduceRules.TwoSidesSteadyButWrong` | tinygrad/codegen/simplify.py:110-112 | for two bounds it is not enough that the closed form does not vary: the sum over r < 4 of [r % 2 <= r < r % 2 + 1] is 2, its closed form is 1 for every r |
| `ReduceRules.OneHotSteadyButWrong` | tinygrad/codegen/simplify.py:129-131 | nor for a one-hot range: with the range as its own index the result is 1, the sum is the size |
| `ReduceRules.NestOfSum` | tinygrad/codegen/simplify.py:117-118 | a sum over any ranges splits over + |
| `ReduceRules.FlagIsSound` | tinygrad/codegen/simplify.py:119-121 | a variable flag of 0 or 1 may be taken out of the sum as a factor |
| `ReduceRules.CeilDivisionLift` | tinygrad/codegen/simplify.py:103-104 | x * y < c is x < (c + y - 1) // y for positive y and any integers |
| `ReduceRules.OneHotIsSoundIff` | tinygrad/codegen/simplify.py:129-131 | the rule that turns a sum over a one-hot range into the body at the index, or 0 if the index is out of range, is right exactly if it checks that the index does not mention the range |
| `ReduceUnparented.DropUnparentedIsSound` | tinygrad/codegen/simplify.py:82-92 | dropping the ranges the body does not use keeps the value of sums (times size), products (to the power) and, for nonempty ranges, maxima |
| `ReduceUnparented.DropMaximumIff` | tinygrad/codegen/simplify.py:82-92 | for a maximum over one unused range whose body is not the least value, that holds exactly when the range is nonempty |
| `ReduceCollapse.UnusedRangesGo` | tinygrad/codegen/simplify.py:85-92 | the ranges kept are exactly those that the body mentions, and a sum or product over one other range is the body times its size or to its power |
| `ReduceCollapse.RootCIsSound` | tinygrad/codegen/simplify.py:101-104 | every rewrite of a condition keeps its truth value |
| `ReduceCollapse.RulesApply` | tinygrad/codegen/simplify.py:106-131 | no closed form is missing: each applies to its pattern with the term of the code, for all bounds that do not mention the range and all values without ranges; so does the one-hot rule |
| `ReduceCollapse.MovesApply` | tinygrad/codegen/simplify.py:100-128 | nor is any rule that splits a sum, takes a flag out or moves a term of a comparison, if what it moves has no range |
| `ReduceCollapse.ReduceRootIsSound` | tinygrad/codegen/simplify.py:105-123 | every rule at a reduction keeps its value when the result has no free range, and always if closed forms are checked for their range |
| `ReduceCollapse.FlatRewrite` | tinygrad/codegen/simplify.py:99-132 | a rewrite anywhere in a term does not remove a free range and keeps the value when none is left; with the check it keeps value and free ranges always |
| `ReduceCollapse.RulesAloneAreSound` | tinygrad/codegen/simplify.py:99-132 | without the check, but with the rules of this file alone, a sequence of rewrites that leaves no free range keeps the value |
| `CheckedForms.CancelledRange` | tinygrad/codegen/simplify.py:110-145 | without the check for two bounds a run of one rule and one value-preserving simplification is accepted by the final test and returns 1 for a sum of 2 |
| `CheckedForms.CancelledIndex` | tinygrad/codegen/simplify.py:129-145 | without the check for a one-hot range such a run returns 1 for a sum of 4 |
| `CheckedForms.CancelledBounds` | tinygrad/codegen/simplify.py:107-145 | without the check for a bound from above, or from below, a run that splits a sum, uses the closed form twice and simplifies is accepted and returns -1 for a sum of -4, or of 0 |
| `CheckedForms.RunsAreSoundIff` | tinygrad/codegen/simplify.py:99-145 | runs of rewrites and of simplifications that keep the value where ranges are in bounds, and that pass the final test, keep the value exactly if each of the four closed forms is checked for its range |
| `CollapsePasses.SumFirstRange` | tinygrad/codegen/simplify.py:135 | sums over several ranges may be taken in any order, the first one innermost |
| `CheckedForms.CollapsesAreSoundIff` | tinygrad/codegen/simplify.py:134-147 | the loop over all ranges, each time abstracting what does not depend on the range, rewriting, and putting back, returns an expression with the value of the whole reduction, for all passes and wherever the ranges around it are in bounds, exactly if each of the four closed forms is checked |
| `CollapsePasses.RestoreValue` | tinygrad/codegen/simplify.py:138-146 | putting the abstracted parts back gives the value that the abstract expression has when its variables stand for them |
| `RangeRewrites.MergeKeepsTrace` | tinygrad/codegen/simplify.py:33-37 | merging two nested ranges into one of size s0 * s1 with quotient and remainder runs the same iterations in the same order |
| `RangeRewrites.MergeInEitherOrder` | tinygrad/codegen/simplify.py:28-36 | in a reduction any two of its ranges, wherever they stand and in either order, may be merged: every combination of values still occurs exactly once |
| `RangeRewrites.ValuesAfterMerge` | tinygrad/codegen/simplify.py:35-36 | the body then gets the quotient as the value of the first range, the remainder as that of the second, and the other values unchanged |
| `RangeRewrites.SplitKeepsTrace` | tinygrad/codegen/simplify.py:64-76 | a range split by a divisor into hi * v + lo runs the same iterations in the same order |
| `RangeRewrites.MarkRanges` | tinygrad/codegen/simplify.py:44-62 | the marking pass computes, item by item, the largest guard of each range and the full size of each ungated one |
| `RangeRewrites.MarksRespectAll` | tinygrad/codegen/simplify.py:51-60 | the final marks are at least every guard, keep the full size of ranges that position an access without a guard and of reduce ranges, and never exceed the size |
| `RangeRewrites.MarkIsGiven` | tinygrad/codegen/simplify.py:51-60 | and no mark is larger than that: each is the guard of the range in some item, or its size if some item pins it |
| `RangeRewrites.KeepsSizeIff` | tinygrad/codegen/simplify.py:44-62 | the marks leave a range its size exactly when no access guards it or something pins it: a reduction, a position it is not guarded in, or a guard equal to its size |
| `RangeRewrites.ShrinkPreservesIff` | tinygrad/codegen/simplify.py:44-62 | shrinking keeps the set of places every access reaches, whatever it computes, exactly when every range that some condition mentions neither as a guard nor in the position is guarded nowhere or pinned by some item |
| `RangeRewrites.HiddenRangeExample` | tinygrad/codegen/simplify.py:44-54 | such a range can occur: two accesses for which the marks lose an access |
| `GroupedDims.GroupDims` | tinygrad/codegen/gpudims.py:9-16 | the loop with its rebinding of dims computes the merged dimensions, or fails |
| `GroupedDims.SplitDims` | tinygrad/codegen/gpudims.py:18-26 | the nested loops over the padded list compute the split dimensions, or fail; both loops terminate |
| `GroupedDims.DividableIff` | tinygrad/codegen/gpudims.py:23-24 | an axis can be divided exactly when its size is 2 or not a prime: the search up to the rounded square root misses nothing |
| `GroupedDims.GroupingStuck` | tinygrad/codegen/gpudims.py:10-16 | when merging fails it ends in dimensions with the old product that do not fit and of which any two neighbours multiply beyond the limit of their place |
| `GroupedDims.GroupingStep` | tinygrad/codegen/gpudims.py:9-16 | dimensions that fit stay; of others the first two neighbours whose product respects the limit of their place are merged; without such neighbours merging fails |
| `GroupedDims.GroupedFacts` | tinygrad/codegen/gpudims.py:9-16 | merged dimensions respect every limit, keep the product, and have prefix products among the old ones |
| `GroupedDims.SplitAxisFacts` | tinygrad/codegen/gpudims.py:20-25 | dividing one axis ends at or below its limit and hands on exactly the missing factor |
| `GroupedDims.SplitAxisStops` | tinygrad/codegen/gpudims.py:22-25 | an axis is divided by smallest divisors and no longer than needed: before the last division it was beyond its limit |
| `GroupedDims.ContractionExists` | tinygrad/helpers.py:124-129 | for merged dimensions get_contraction never fails |
| `GroupedDims.ContractionIsPartition` | tinygrad/helpers.py:124-129 | its groups are nonempty, concatenate to the old dimensions and multiply to the new ones |
| `GroupedDims.LogicalIndices` | tinygrad/codegen/gpudims.py:38-56 | the index computation, with its zip over groups and running quotient, computes the specified logical indices |
| `GroupedDims.GetGroupedDims` | tinygrad/codegen/gpudims.py:28-56 | the whole function, including the reversed call, computes the specified logical indices or fails |
| `GroupedDims.LogicalIsOneToOne` | tinygrad/codegen/gpudims.py:39-56 | each hardware index gives a logical index in the logical box from which it can be recovered |
| `GroupedDims.LogicalIsOnto` | tinygrad/codegen/gpudims.py:39-56 | every logical index is reached |
| `GroupedDims.SplitPathIsFlat` | tinygrad/codegen/gpudims.py:51-55 | on the split path both boxes are numbered through one common row-major position |
| `GroupedDims.PeelAllAt` | tinygrad/codegen/gpudims.py:42-46 | on the grouped path the first dimension of every group varies fastest: each index is the index of the axis divided by the dimensions before it in the group, and all but the last are taken modulo the dimension |
| `GroupedDims.LaunchIsBijective` | tinygrad/codegen/gpudims.py:28-56 | whenever nothing is raised, with or without reverse, the launch is a bijection exactly when the case of three unmergeable dimensions on one usable axis does not occur |
| `GroupedDims.SqueezedGivesFourIndices` | tinygrad/codegen/gpudims.py:38-46 | in that case four indices come out for three dimensions |
| `GroupedDims.TwoCubedOnOneAxis` | tinygrad/codegen/gpudims.py:18-26 | the case exists: (2, 2, 2) under limits (4, 1, 1) is launched as (8, 1), beyond the limit of axis 0 |
| `GroupedDims.LimitsRespected` | tinygrad/codegen/gpudims.py:30-37 | merged grids respect every limit; split ones those of axes 1 and 2, and of axis 0 when nothing wraps around from axis 2 |
| `MixedRadix.FlattenInverse` | tinygrad/codegen/gpudims.py:53 | row-major numbering is one-to-one from the box |
| `MixedRadix.PeelInverse` | tinygrad/codegen/gpudims.py:43-46 | peeling remainders off a group index stays in the box and can be undone |
| `MixedRadix.PeelAt` | tinygrad/codegen/gpudims.py:43-46 | the same of one group |
| `Fp8.EncodeIsNearestEven` | tinygrad/dtype.py:299-322 | for every finite double and each format the code is a number, with the sign of the input unless the format has no negative zero, and no decoded number of the format is nearer to the input, or as near if the code is odd; so the encoder saturates |
| `Fp8.MagnitudeIsNearestEven` | tinygrad/dtype.py:307-321 | the same for the magnitude, over all four branches |
| `Fp8.NormalBranch` | tinygrad/dtype.py:313-315 | the normal branch rounds to nearest even, the carry into the exponent included |
| `Fp8.SubnormalBranch` | tinygrad/dtype.py:316-321 | the subnormal shift rounds to nearest even |
| `Fp8.ZeroBranch` | tinygrad/dtype.py:311 | at or below half of the smallest step the nearest even code is 0 |
| `Fp8.SaturatedBranch` | tinygrad/dtype.py:312 | above the threshold the nearest finite code is the maximum |
| `Fp8.NearestEvenUnique` | tinygrad/dtype.py:299-322 | no two codes are both nearest even |
| `Fp8.EncodeSpecial` | tinygrad/dtype.py:301-306 | infinities and NaNs become the special codes of each format |
| `Fp8.EncodeInvertsDecode` | tinygrad/dtype.py:299-336 | encoding the value of any code that is a number gives back the code |
| `Fp8.DecodedValue` | tinygrad/dtype.py:324-336 | the value of all 256 codes of each format: 8 or 4 steps in a binade, the smallest step 2^-9, 2^-16, 2^-10 or 2^-17, and which codes are NaN or infinite |
| `Fp8.OneAndLargest` | tinygrad/dtype.py:292-297 | 1.0 has the codes 0x38, 0x3C, 0x40 and 0x40, and the largest numbers are 448, 57344, 240 and 57344 at 0x7E, 0x7B, 0x7F and 0x7F |
| `Fp8.EncodedExtremes` | tinygrad/dtype.py:299-322 | the codes of the doubles 1.0, the largest finite one and infinity in each format |
| `Fp8.EveryNumberIsADouble` | tinygrad/dtype.py:324-336 | for every code that is a number there is a double with exactly its value |
| `Fp8.EncodeMonotone` | tinygrad/dtype.py:299-322 | of two finite doubles the smaller never gets the larger value |
| `Bf16.RoundIsNearestEven` | tinygrad/dtype.py:287-288 | the second step: for every finite single-precision number the sign is kept and the magnitude becomes the nearest bfloat16 number, ties to even, or infinity, by comparing values |
| `Bf16.RoundDoubleIff` | tinygrad/dtype.py:284-288 | both steps: what a finite double becomes is the bfloat16 number nearest to it, ties to even, exactly unless its single-precision number is in the middle of two and the double lies on the side that is not chosen |
| `Bf16.RoundedTwiceIsOff` | tinygrad/dtype.py:286-287 | every even code is returned for numbers nearer to the next one, those a little above the middle |
| `Bf16.CodesAreKept` | tinygrad/dtype.py:284-288 | bfloat16 numbers stay what they are |
| `Bf16.RoundTwice` | tinygrad/dtype.py:284-288 | rounding twice is rounding once, for all bits |
| `Bf16.RoundMonotone` | tinygrad/dtype.py:284-288 | of two finite magnitudes the smaller never becomes the larger |
| `TaggedRewrite.RewriteLines` | tinygrad/codegen/__init__.py:319-337 | the loop with its list, its dictionary of replacements and the role tags computes the specified list and tags, or raises |
| `TaggedRewrite.TagsAreKept` | tinygrad/codegen/__init__.py:323-335 | the tags do not influence the lines, and no instruction loses or changes its tag |
| `TaggedRewrite.TagArrives` | tinygrad/codegen/__init__.py:325-335 | if nothing is raised, the only line, or the only matrix instruction, that replaces a tagged line carries its tag in the end |
| `TaggedRewrite.TwinTagsFail` | tinygrad/codegen/__init__.py:339-340 | two lines with different tags whose replacements are the same instruction make it raise |
| `TaggedRewrite.UntaggedIff` | tinygrad/codegen/__init__.py:319-337 | without tags only the matcher can fail, and the lines are those of the rewriting without tags |
| `LineRewrite.RewrittenIsBlocks` | tinygrad/codegen/__init__.py:320-337 | on a list in which every source precedes its use, for any matcher, the dictionary amounts to rewriting each instruction all the way down |
| `LineRewrite.CleanupFailsIff` | tinygrad/codegen/__init__.py:311-313 | the store cleanup fails exactly on lists that contain IF or ENDIF |
| `LineRewrite.ResultIsBracketed` | tinygrad/codegen/__init__.py:311-317 | in the result IF and ENDIF occur only around exactly one store, unnested, and no gated store is left exactly if every store of the list with a boolean third source addresses an INDEX, a SHRINK or a cast of one |
| `LineRewrite.ResultIsDefBeforeUse` | tinygrad/codegen/__init__.py:319-337 | the result is again in an order in which every source precedes its use |
| `LineRewrite.CleanupPreservesMemory` | tinygrad/codegen/__init__.py:311-337 | run from top to bottom, on any machine that skips a store whose third, boolean source is false, the result leaves memory as the list does, if no line reads a value after another line with the same image has replaced it |
| `LineRewrite.MemoryKeptIff` | tinygrad/codegen/__init__.py:311-337 | and it does so on every machine exactly then: a stale read makes the memories differ on some machine |
| `LineRewrite.CleanupPreservesRuns` | tinygrad/codegen/__init__.py:311-337 | the same along any path through the lines, so also with loops, and every line has the value of its image |
| `LineRewrite.MirroredIff` | tinygrad/codegen/__init__.py:322-336 | along all paths through the lines, values and memory survive on every machine exactly when dropping the gates merges no two lines other than stores |
| `LineRewrite.ApartReadsFresh` | tinygrad/codegen/__init__.py:322-336 | that condition is the stronger one: if no such lines are merged, no read is stale |
| `LineRewrite.TwinStoresLoseMemory` | tinygrad/codegen/__init__.py:311-337 | such programs exist: two stores of one value to one place under different gates, a line after each, and a use of the first line; run from top to bottom the cleaned-up list leaves another memory |
| `LineRewrite.RewriteWithLedger` | tinygrad/codegen/__init__.py:341-355 | the loop of the ledger variant computes the specified list and sites, or raises |
| `LineRewrite.LedgerIsFaithful` | tinygrad/codegen/__init__.py:341-355 | each tagged line gets exactly one site, in order, with its tag, on a matrix instruction; the sites strictly increase, so the ledger always validates |
| `LineRewrite.SiteInItsBlock` | tinygrad/codegen/__init__.py:348-352 | the site of a tagged line is the only matrix instruction among the lines emitted for it |
| `DeviceMemory.PopIsConsistent` | tinygrad/device.py:539 | taking the last handle of a cache list keeps every handle in exactly one place |
| `DeviceMemory.PushIsConsistent` | tinygrad/device.py:549 | caching a handle in use keeps every handle in exactly one place |
| `DeviceMemory.ReissuedForSameKey` | tinygrad/device.py:538-549 | a handle handed out again was cached for the same size and options, which do not exclude caching and name no external memory |
| `DeviceMemory.LruAllocator.Alloc` | tinygrad/device.py:538-543 | allocation reuses the most recently cached handle of the key or asks the device, emptying the cache and retrying if refused; exactly one more handle is in use, or none; handles keep their key and never come back from the device |
| `DeviceMemory.LruAllocator.FreeCache` | tinygrad/device.py:544-547 | every cached handle is returned, all others stay where they are |
| `DeviceMemory.LruAllocator.Free` | tinygrad/device.py:548-550 | a freed handle goes to the end of its cache list exactly if caching is on, its options do not exclude it and name no external memory; otherwise it goes back to the device |
| `BufferAccounting.TotalUpdate` | tinygrad/device.py:158-160 | changing one buffer changes the total by the difference of its charges |
| `BufferAccounting.Runtime.AllocateBase` | tinygrad/device.py:143-168 | allocating a base buffer keeps the counter equal to the total of the allocated ones and the handles in use exactly theirs, on success and on failure; with an external pointer the counter stays as it is, and the size limit does not apply to options that name one |
| `BufferAccounting.Runtime.AllocateView` | tinygrad/device.py:151-155 | allocating a view allocates its base if needed, gives it the part of the memory of the base that its size and offset say, and counts one more view |
| `BufferAccounting.Runtime.DeallocateBase` | tinygrad/device.py:169-184 | deallocating a base returns its handle and its bytes; the view counters stay right exactly when it counted no view |
| `BufferAccounting.Runtime.DeallocateView` | tinygrad/device.py:182-184 | deallocating a view takes one off its base's counter |
| `BufferAccounting.Runtime.View` | tinygrad/device.py:227-229 | a view of a view is a view of the base at the sum of the offsets, and starts without memory |
| `BufferAccounting.DeallocatingBaseKeepsViewsIff` | tinygrad/device.py:169-184 | deallocating an allocated base keeps "every base counts its initialised views, and these hold its current memory" exactly when the base counted none |
| `BufferAccounting.ViewChangeKeepsViews` | tinygrad/device.py:151-184 | a view of an allocated base that gets its current memory or loses it keeps all view counters right and all views current |
| `BufferAccounting.AllocatingBaseKeepsViewsIff` | tinygrad/device.py:143-157 | allocating a base again is right exactly when its leftover views are the ones it counts and hold the very memory it gets |
| `BufferAccounting.BaseWithView` | tinygrad/device.py:143-168 | creates a base and a view of it, both allocated, from which the next row goes wrong |
| `BufferAccounting.DeallocateUnderView` | tinygrad/device.py:143-184 | deallocating that base leaves it counting a view although none is initialised; allocating it again leaves the view initialised with memory the base no longer has |
| `MemoryReplay.Perform` | tinygrad/device.py:143-184 | one operation on any buffers keeps counter and handles right, does to the buffers what it should, and makes the view counters wrong exactly if it deallocates a base that counts views |
| `MemoryReplay.Replay` | tinygrad/device.py:143-229 | after any operations from the start, with any refusals by the device, the memory counter is the total of the allocated bases and the handles in use are theirs; the view counters are right all the time exactly if no operation deallocates a base that counts views |
| `AllocTrace.Trace.RecordAlloc` | tinygrad/device.py:400-413 | recording an allocation with its time stamp reuses a slot of the ring and keeps the ring in step with the unbounded log |
| `AllocTrace.Trace.RecordFree` | tinygrad/device.py:415-424 | recording a free with its time stamp marks the slot only if it still belongs to that allocation, and keeps the ring in step with the log |
| `AllocTrace.Trace.Dump` | tinygrad/device.py:464-473 | the dump lists exactly the last min(n, capacity) allocations of the log, in order, with their fields, clock readings and time stamps |
| `AllocTrace.Replay` | tinygrad/device.py:400-473 | whatever is recorded from the start, the dump is the end of the log of all recorded events |
| `AllocTrace.LogIsOrdered` | tinygrad/device.py:400-424 | allocation times increase, and every free is later than its allocation and earlier than the clock |
| `AllocTrace.EntryOfAllocation` | tinygrad/device.py:405-412 | the entry of the k-th allocation has the device, address, mapped and requested size and time stamp of its event, and the number of events before it as its clock reading |
| `AllocTrace.DumpedAllocation` | tinygrad/device.py:464-473 | and so has its line in the dump if it is one of the last allocations |
| `AllocTrace.FreedIff` | tinygrad/device.py:415-424 | an allocation shows a free exactly when an event after it freed it: never a leftover |
| `AllocTrace.FreedWhen` | tinygrad/device.py:421-424 | the free shown is the clock reading and the time stamp of the last event that freed it |
| `AllocTrace.SlotsDiffer` | tinygrad/device.py:407 | two allocations that are both in the ring have different slots |
| `Admission.BudgetReserves` | tinygrad/llm/admission.py:110-121 | a budget exists exactly for a complete scan; it is the free memory less a multiple of the alignment that is what is in use or more, by less than one alignment, or 0 if that is more than what is free |
| `Admission.CapacityIsLimit` | tinygrad/llm/admission.py:230-232 | the computed capacity is the exact number of tokens whose keys, values and prefill memory fit beside the weights and the scratch memory |
| `Admission.AdmittedFits` | tinygrad/llm/admission.py:217-297 | no admitted context exceeds the budget, the trained length or the request |
| `Admission.AdmittedIsPositive` | tinygrad/llm/admission.py:217-297 | for a positive request what is admitted is positive |
| `Admission.ExplicitAdmittedIff` | tinygrad/llm/admission.py:262-289 | an explicit length is admitted exactly when it fits in half precision or, if supported, quantised, and with that storage |
| `Admission.AutoChoice` | tinygrad/llm/admission.py:262-296 | in automatic mode a lossy window is used only if no exact form holds the trained length |
| `Admission.ForcedWindow` | tinygrad/llm/admission.py:253-260 | a forced window is used exactly when the shape supports it and one token fits |
| `Admission.WindowIsLargest` | tinygrad/llm/admission.py:236-293 | a window is as long as the budget, the trained length and the request allow |
| `Admission.AlwaysFitsIff` | tinygrad/llm/admission.py:230-232 | every admitted plan fits, whatever the weights, exactly when a token takes memory |
| `Admission.ModelsTakeMemory` | tinygrad/llm/admission.py:182-190 | for positive geometry a token takes memory in every storage form |
| `Admission.TermsCountElements` | tinygrad/llm/admission.py:182-190 | the terms count what is stored: two bytes for every block, key-value head and dimension of keys and of values, four for every query head and prefill row, four for every query head, split and column of the partial results, two for every quantised vector |
| `ModelLoadPlan.TensorSpans` | tinygrad/llm/gguf_memory_scan.py:119-134 | the loop over the sorted table accepts exactly tables with distinct names whose every entry passes its checks, and returns their spans |
| `ModelLoadPlan.SortFacts` | tinygrad/llm/gguf_memory_scan.py:122 | the table is sorted by offset and keeps its entries |
| `ModelLoadPlan.ElementsAreIndices` | tinygrad/llm/gguf_memory_scan.py:102 | a tensor has as many elements as there are indices into it |
| `ModelLoadPlan.PayloadIff` | tinygrad/llm/gguf_memory_scan.py:101-106 | a payload is known exactly for native types and for quantised types whose elements fill whole blocks, and is then that many bytes |
| `ModelLoadPlan.AcceptedLayoutIff` | tinygrad/llm/gguf_memory_scan.py:119-134 | with known payloads a table is accepted exactly when the payloads lie one after the other inside the file |
| `ModelLoadPlan.LayoutIff` | tinygrad/llm/gguf_memory_scan.py:124-133 | in general a layout is accepted exactly when no offset is negative and each tensor, as far as its payload is known, ends before the next one begins or the file, if its size is known, ends |
| `ModelLoadPlan.AdmittedIff` | tinygrad/llm/memory_ledger.py:122-135 | a candidate is admitted exactly when every size is known, there is an entry of each of the six classes and a workspace of its own, and the sum fits the budget |
| `ModelLoadPlan.ReasonIff` | tinygrad/llm/memory_ledger.py:122-134 | of all reasons for a refusal exactly those that apply are given |
| `ModelLoadPlan.SelectedIff` | tinygrad/llm/memory_ledger.py:123 | what counts for a candidate is its own entries and those of no candidate, each as often as it is in the ledger |
| `ModelLoadPlan.LedgerNamesDistinct` | tinygrad/llm/gguf_memory_scan.py:156-173 | the ledger built from distinct tensor names always has distinct names |
| `ModelLoadPlan.FootprintCoversPayloads` | tinygrad/llm/memory_ledger.py:67-72 | the footprint holds every copy of every payload, is a multiple of the alignment, and exceeds the copies by less than one alignment for each |
| `ModelLoadPlan.AdmittedPlanFits` | tinygrad/llm/admission.py:140-158 | a plan is admitted exactly when every size is known, the scan is complete, and aligned, duplicated tensors and everything else fit into free memory less the aligned reserve |
| `SelectedModelPlan.PlanLoad` | tinygrad/llm/admission.py:140-158 | from tensor table to decision: raises an error exactly when the table is not accepted, a tensor cannot be entered in the ledger or the candidate has no name, and otherwise returns spans and decision |
| `SelectedModelPlan.AdmittedModelIff` | tinygrad/llm/admission.py:140-158 | for a file of known size a plan is admitted exactly when there are tensors with distinct names, their payloads are known and lie one after the other inside the file, everything else is known and all of it fits the scanned budget |

## Left out

Weaker than the source, or modelled in another form:

- DepsTracking.Tracker.AccessResources: dependencies are compared by equality where the code compares object identity; the two agree when each call brings its own dependency object.
- FlashDecode.FlashDecode: exact reals with an abstract exponential that is positive and turns sums into products, so no rounding and no half-precision storage; the launch grid runs as nested loops and the lanes of a warp one after the other between barriers; the partial buffer is a table of records, whose flat layout `SplitGeometry.PartialSlotsDistinct` shows to be free of overlaps; the stride of the combine kernel is the number of splits; values are staged together with keys; the quantised and rotary loaders are not modelled.
- Q4kGemv.Gemv: exact reals, an arbitrary decoding of half precision to a real number, and memory as a total function of the address, so accesses beyond the buffer are not modelled.
- Q6kGemv.Coop: the same idealisation; the reduction outside the kernels is modelled for the cooperative route only, as `Q6kGemv.Reduce`.
- Q6kGemv.PartAt: the sum over positions is taken inside the sum over blocks, as the two reduce ranges of the kernel are.
- KQuant.Q4KernelWeightIsElement: shift distances are written out as the constants they take.
- CheckedForms.RunsAreSoundIff: terms are the rules' own operators over integers; the rules of `tinygrad/uop/symbolic.py` that the rewriter appends are not modelled one by one but enter as any step that keeps the value where ranges are in bounds and brings in no range; the sign analysis is any sound predicate, casts are the identity, and range sizes are numbers from 0 that do not depend on other ranges.
- CheckedForms.CollapsesAreSoundIff: a pass is any run of the rewriter, because the order in which the engine applies rules is not modelled; the loop over ranges is a recursion over the list of passes.
- RangeRewrites.ShrinkPreservesIff: range sizes are constants and guards lie between 1 and the size, as they do after simplification.
- ReduceRules.OneHotIsSoundIff: the body holds no reduction, which `tinygrad/codegen/simplify.py:137` tests before.
- RangeRewrites.MergeKeepsTrace: the test whether a merge saves divisions decides only whether it is used, and is not modelled.
- GroupedDims.LaunchIsBijective: constant sizes of at least 2 and three limits; symbolic dimensions and dimensions of size 1 are not covered, and the integer square root in the divisor search is exact.
- GraphSplit.Splitter.Split: the device layer and its support test are parameters, with the two runners of the repository as `GraphSplit.OneKindRunner`; the switch that graphs single kernels is off, and every call has at least one device.
- PruneLinear.PruneIsSound: the first run only; a call changes and depends on just the buffers found in its arguments.
- Bf16.RoundDoubleIff: packing in single precision is a library call, taken to round to nearest, ties to even; it raises an error for doubles that would become infinite, which so never reach the second step.
- Fp8.EncodeIsNearestEven: NaN payloads are not modelled, since no code keeps them.
- TaggedRewrite.RewriteLines: tags are plain numbers, without checks of their own; the table of tags forgets nothing.
- LineRewrite.CleanupPreservesRuns: the path through the lines is given; a loop chooses it by values, which the theorem shows to be equal.
- LineRewrite.MemoryKeptIff: runs from top to bottom; with loops, `LineRewrite.MirroredIff` gives the condition for values and memory together.
- DeviceMemory.LruAllocator.FreeCache: each list is emptied from its end; the order in which handles are returned to the device is not observable here.
- BufferAccounting.Runtime.AllocateBase: one device, so mappings into other devices, profiling events and per-device counters are left out; reference counts are not modelled.
- MemoryReplay.Replay: an external pointer passed to a view, where it only changes the options of the view, is ignored; operations that the code refuses by an assertion do nothing.
- AllocTrace.Trace.Dump: the allocation part of the dump; field widths, the dispatch ring and the file are left out, and the wall-clock time is a parameter.
- Admission.AdmittedFits: the numeric report and the messages are left out; the shape tests that decide whether quantised or ring storage is supported are inputs.
- ModelLoadPlan.TensorSpans: sorting is an insertion sort; type checks on metadata values are left out.
- SelectedModelPlan.PlanLoad: the geometry enters as the sizes it yields, and one candidate is planned, as the code does; provenance strings are left out.

Not modelled:

- The generic graph, pattern matcher and rewrite engine, `callify.py`, and the rest of `tinygrad/codegen/__init__.py`: their meaning depends on operations that are not part of this model.
- The half-precision conversions: library calls.
- Policy records, proofs of eligibility, the prefill memory plan and all JSON output.
- Device drivers, servers, command lines, caches on disk, timing and statistics.

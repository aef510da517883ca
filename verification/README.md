# Verified models of the repository's self-contained algorithms

Each module models one family of algorithms and proves what that family is for. Code that changes state is
a class or a method with loops, proved against a function of its inputs; what the source promises is then
proved of that function, for every input, every access stream, every run.

- **Caches and placement.** `MoeLru` (Lru.dfy) is the LRU simulator over routed cells, held against the access
  stream alone: order of last use, number of distinct cells between two uses, a frozen resident set.
  `Allocation` is the greedy hot/cold split, held against every choice of hot cells, with the per-layer split
  and the budget bisection. `Gini` is the concentration of load.
- **Schedules.** `Scheduling` has the row slices of the CTAs, the dynamic claim of rows by 16 warps, held
  against every assignment of rows to warps, and the static stride.
- **Generators and fingerprints.** `SplitMix`, `Selection` (Fisher-Yates, then sort), `Fnv1a`, `Probes` (what the
  codebook fingerprint absorbs of the decoder), `KnownValues` (published outputs of the generators).
- **Optimisation loops.** `GainFit` (Lloyd sweeps, arm energies, the best common scale), `ProductCodebook` (the
  search over E8 x E8 x E8), `SassChain` (the critical dependency chain of a loop body).
- **Formats.** `AwqPacking` (permuted nibbles and the byte control), `Dequant` (the way from integers to weights and
  back), `SafeTensors` (the coalesced read), `Shards` (the streaming writer), `Evidence` and `Measures` (the
  provenance manifest), `Dump` and `Tally` (the scorer's dump and its averages).

`Basics`, `Words`, `Division`, `RealSeq`, `Vectors` and `Numerals` hold what several of these share: optional
values, bit operations on unbounded integers, 64-bit wrap-around, sums and sorting, printed numerals. Python
floats are `real`. An exception is `None`, `Refused` or null.

Four results show the exact reach of the code, each as an equivalence, rather than a plain guarantee:

- `alpha_min_global` meets its budget exactly when the budget is not negative (`AlphaMinFitsIffBudget`).
- Grouped digits are undone in place exactly when they have no separator or no digit follows them
  (`GroupIsUndoneIff`). In a text that is a grouped number and one digit more, the number is found exactly when
  its absolute value is below 1000 or it is that digit four times (`DigitAfterDecides`; 1234 before a 5 and 1111
  before a 1 are the two outcomes in `DigitAfterCanHide`). With no digit after it a number is found in any text
  (`GroupedIntegerIsFound`).
- On an opened file a coalesced read succeeds exactly when every single read does and not (`ReadsBefore`) the
  least offset lies before the file while the range from there is neither empty nor over the budget (`RawMany`).
  Only an empty tensor with a negative offset can bring that about (`OnlyEmptyBefore`; `EmptyTensorOutside` has one).
- The byte control accepts a matrix of weights exactly when each weight is within half a step of its integer
  times the scale (at half a step: when the steps are even) and each zero scale stands over an integer at its
  zero point (`HalfStepDecides`). So it catches a zero-point convention that is off by one unless no scale is
  left to show it (`ShiftIsCaught`), and it refuses a checkpoint whose zero scale hides a nonzero step
  (`HiddenStepIsRefused`).

Reading back an empty dump is refused by the reader, so the dump's round trip holds for non-empty lists. The
docstring of `Lru` says the refresh on hit is what lets an LRU beat a static oracle; `FrozenSetBound` is the
other side, how much it can lose to one, and `FrozenSetBoundIsTight` shows that it can lose that much.

What a loop or a recursive function computes is also stated without its own recursion: the makespan as the end of
every list schedule, the micro as the score of a census, the registers an instruction writes by its operands and
its opcode's text, the groups of a matrix by their rows, the order of two times by the first character that
differs. Single worked cases stand beside these statements.

## Model

| member | source | states |
|---|---|---|
| MoeLru.Lru.Touch | ops/moe_lru.py:67-82 | one access returns whether the cell was resident and moves the whole state (slots, three counters, seen set) by `Step` |
| MoeLru.Simulate | ops/moe_lru.py:92-96 | refused exactly for a negative capacity; otherwise the state after the stream is `Run` |
| MoeLru.SlotsAreMostRecent | ops/moe_lru.py:57-82 | after any stream the slots are the last `capacity` cells by recency, `seen` is the set of cells, `compulsory` its size, hits and misses add up to the accesses |
| MoeLru.RecencyOrdersByLastUse | ops/moe_lru.py:67-82 | the recency list names each cell once, ordered by the index of its last use |
| MoeLru.OrderOfLastUseIsUnique | ops/moe_lru.py:67-82 | only one list is in order of last use |
| MoeLru.SlotsBySpecification | ops/moe_lru.py:67-82 | hence the slots are the last `capacity` entries of any list in order of last use |
| MoeLru.StackInclusion | ops/moe_lru.py:47-96 | a smaller cache's slots are a suffix of a larger one's; hits never decrease with capacity |
| MoeLru.HitIffReuseDistanceFits | ops/moe_lru.py:67-75 | a cell is resident iff it was used before with at most `capacity` distinct cells since |
| MoeLru.WindowMisses | ops/moe_lru.py:67-82 | a window of at most `capacity` distinct cells costs at most one miss for each of them |
| MoeLru.FrozenSetBound | ops/moe_lru.py:47-96 | against every frozen set of at most k cells that misses m times, at most (k+1)m + k misses |
| MoeLru.FrozenSetBoundIsTight | ops/moe_lru.py:47-96 | for every k and m a stream and a frozen set of k cells for which the bound is met exactly |
| MoeLru.FittingStreamMissesOnce | ops/moe_lru.py:64-78 | when all cells fit, misses are the compulsory ones: one for each distinct cell |
| MoeLru.DecodeOrder | ops/moe_lru.py:99-118 | every trace byte once, in order, as a cell of its layer; complete iff the trace is long enough |
| MoeLru.CellNamesLayerAndExpert | ops/moe_lru.py:108-118 | layer and expert can be read back from the cell |
| Allocation.AlphaMinGlobal | ops/moe_ciseau.py:141-154 | returns the first k that fits (else all cells) and its fraction; fails only on a zero total |
| Allocation.AlphaMinIsLeast | ops/moe_ciseau.py:141-154 | on descending counts no choice of hot cells whose cold rest fits the budget is smaller than k |
| Allocation.AlphaMinFitsIffBudget | ops/moe_ciseau.py:141-154 | the k busiest cells themselves fit the budget iff it is not negative |
| Allocation.AlphaMinMonotone | ops/moe_ciseau.py:141-154 | a larger budget never needs more hot cells |
| Allocation.FractionIsShare | ops/moe_ciseau.py:150-154 | the fraction times the number of cells is k; 1 without cells |
| Allocation.AlphaIsLeastShare | ops/moe_ciseau.py:172-182 | the fraction at a budget per token is the least share of cells whose cold rest misses at most the budget over all visits |
| Allocation.AlphaMinUniform | ops/moe_ciseau.py:157-169 | each layer's fraction is that of its own hot count; fails exactly when a non-empty layer has no load |
| Allocation.UniformNeverBeatsGlobal | ops/moe_ciseau.py:157-169 | the layers' hot counts never add up to less than the global k, for any budget |
| Allocation.BisectBudget | ops/moe_ciseau.py:172-182 | the result meets the target if 100 does, and every budget more than the final width below it misses it if 0.001 does; with no cells at all it is one end or the other |
| Gini.CoefficientIsPairwise | ops/moe_ciseau.py:112-124 | the sorted weighted sum equals the sum of all ordered absolute differences over 2 n s; NaN iff s = 0 |
| Gini.CoefficientIgnoresOrder | ops/moe_ciseau.py:112-124 | permuting the loads does not change it |
| Gini.CoefficientRange | ops/moe_ciseau.py:112-124 | between 0 and 1 - 1/n; 0 iff all loads are equal, 1 - 1/n iff at most one is not zero |
| Scheduling.BoundRoundsDown | ops/pers_4e_model.py:46-47 | bound c is n c / g rounded down |
| Scheduling.SlicesTile | ops/pers_4e_model.py:46-47 | slices cover [0, n) in order without gap, each of floor or ceil(n/g) rows |
| Scheduling.LastSlice | ops/pers_4e_model.py:46-47 | the last slice has ceil(n/g) rows |
| Scheduling.Makespan | ops/pers_4e_model.py:50-56 | the loop over the heap returns `End` of the costs in their order |
| Scheduling.MakespanIsListSchedule | ops/pers_4e_model.py:50-56 | every assignment that gives each row, in order, to a warp free first ends exactly then, however ties are broken |
| Scheduling.LongRowLast | ops/pers_4e_model.py:50-56 | sixteen rows of 1 and then one of 10 end at 11 |
| Scheduling.GreedyBound | ops/pers_4e_model.py:50-56 | at most the even share plus 15/16 of the costliest row |
| Scheduling.AssignmentFloor | ops/pers_4e_model.py:50-56 | no assignment of rows to warps ends before the even share or its costliest row |
| Scheduling.GreedyWithinGraham | ops/pers_4e_model.py:50-56 | within 2 - 1/16 of every assignment |
| Scheduling.GreedyAssigns | ops/pers_4e_model.py:50-56 | there is such an assignment, with the heap's times as its loads |
| Scheduling.CriticalAtLeastEven | ops/pers_4e_model.py:59-66 | a phase's critical time is never below its even spread, for any row costs |
| Scheduling.SliceEndsThere | ops/pers_4e_model.py:62-63 | every slice has an end: that of the claim of its own rows |
| Scheduling.PhaseIsSlowestSlice | ops/pers_4e_model.py:59-66 | the critical time is the latest end of the 142 slices, or the even spread without slicing; the even spread times 2272 is the sum of all rows |
| Scheduling.EqualPhase | ops/pers_4e_model.py:59-66 | for equal rows the critical time is cost times ceil(ceil(n/142)/16) |
| Scheduling.WarpRowsCounts | ops/pers_4e_insitu.py:29-30 | `warp_rows` counts the rows whose offset is w modulo 16 |
| Scheduling.StrideSharesRows | ops/pers_4e_insitu.py:29-30 | the warps' row counts add up to hi - lo |
| Scheduling.BusiestWarp | ops/pers_4e_insitu.py:33-40 | the busiest warp has ceil((hi - lo)/16) rows |
| Scheduling.EqualEnd | ops/pers_4e_model.py:50-56 | n rows of one cost end at cost times ceil(n/16) |
| Scheduling.DynamicEqualsStatic | ops/pers_4e_model.py:50-56 | for equal rows the dynamic claim ends exactly with the busiest warp of the static stride |
| Scheduling.Busiest | ops/pers_4e_insitu.py:33-40 | mean is n over all warps, busy the mean of ceil(size/16), never below it |
| SplitMix.MaskedIsWrapping | ops/gsm8k_vllm.py:82-89 | the masked Python form and the wrapping form give the same word |
| SplitMix.MixIsBijective | llvq-artifact/src/codebook.rs:127-131 | the finaliser is a bijection of the 64-bit words, with its inverse given |
| SplitMix.SplitMix64.Next | ops/gsm8k_vllm.py:82-89 | the generator yields `Draw(seed, i)` and steps its state |
| SplitMix.DrawsRepeatOnlyAfterPeriod | ops/gsm8k_vllm.py:82-89 | two draws are equal iff they are a multiple of 2^64 apart, for every seed |
| SplitMix.EveryWordIsDrawn | ops/gsm8k_vllm.py:82-89 | within one period every 64-bit word appears |
| KnownValues.FirstDrawOfZero | ops/gsm8k_vllm.py:110-113 | seed 0 draws 0xE220A8397B1DCDAF first |
| Selection.Select | ops/gsm8k_vllm.py:92-101 | the method returns `Selected(n, limit)` |
| Selection.ShuffleInPlace | ops/gsm8k_vllm.py:96-100 | the in-place loop over the array is `Shuffle` under the generator's draws |
| Selection.ShufflePermutes | ops/gsm8k_vllm.py:96-100 | the result is a permutation, and entries above the index are untouched |
| Selection.ShuffleInjective | ops/gsm8k_vllm.py:96-100 | distinct draw sequences give distinct permutations |
| Selection.ShuffleSurjective | ops/gsm8k_vllm.py:96-100 | every permutation comes from some draw sequence |
| Selection.EveryIndexKeepsItsDraw | ops/gsm8k_vllm.py:98-100 | each index ends with the entry its draw picked from the list as it then stood |
| Selection.DrawAtIndex | ops/gsm8k_vllm.py:97-99 | the draw at index i is the generator's word there modulo i + 1 |
| Selection.SelectionIsIncreasing | ops/gsm8k_vllm.py:92-101 | strictly increasing indices below n, min(limit, n) of them (a negative limit counts from the end) |
| Selection.SelectionIsNested | ops/gsm8k_vllm.py:92-101 | `select(n, a)` is contained in `select(n, b)` for a <= b |
| Fnv1a.Fnv.Byte | llvq-artifact/src/codebook.rs:101-104 | one byte moves the state by `Absorb` |
| Fnv1a.Fnv.Bytes | llvq-artifact/src/codebook.rs:106-110 | a byte string moves the state to its digest |
| Fnv1a.AbsorbPermutesStates | llvq-artifact/src/codebook.rs:101-104 | for a fixed byte the step is a permutation of the states, with its inverse given |
| Fnv1a.AbsorbInjectiveInByte | llvq-artifact/src/codebook.rs:101-104 | for a fixed state the step is injective in the byte |
| Fnv1a.CommonSuffix | llvq-artifact/src/codebook.rs:92-119 | a common suffix neither creates nor removes a collision |
| Fnv1a.OneByteChangesDigest | llvq-artifact/src/codebook.rs:92-119 | equal lengths and exactly one differing byte never share a digest |
| Fnv1a.LittleEndianInverse | llvq-artifact/src/codebook.rs:112-118 | the bytes of an integer read back to it modulo their width |
| Fnv1a.MaskedDigestIsWrapping | ops/gsm8k_vllm.py:73-79 | the masked form and the wrapping form agree on every byte string, from every state |
| Fnv1a.TokenFingerprint | ops/gsm8k_vllm.py:73-79 | the masked loop gives the wrapping hasher's digest of the tokens' bytes; fails iff a token is no 32-bit word |
| Fnv1a.OneTokenByteChangesFingerprint | ops/vllm_score.py:111-116 | a token changed in one byte changes the fingerprint, whatever stands around it |
| KnownValues.DigestOfLetterA | llvq-artifact/src/codebook.rs:79-104 | nothing absorbed leaves the offset; the letter a gives 0xAF63DC4C8601EC8C |
| KnownValues.TokenBytesOfOne | ops/gsm8k_vllm.py:104-109 | token 1 is the bytes 01 00 00 00 |
| Probes.ClassProbes | llvq-artifact/src/codebook.rs:181-188 | every probe is an index of the class, the first and last among them, the fractions at its quarters |
| Probes.Probe | llvq-artifact/src/codebook.rs:134-147 | the hasher absorbs index, tag and coordinates of one probe |
| Probes.ProbeLayout | llvq-artifact/src/codebook.rs:134-147 | nine bytes for a refused index, 105 for a point: index, tag and 24 coordinates read back from their places |
| Probes.ProbeAll | llvq-artifact/src/codebook.rs:182-188 | a list of probes is absorbed as one byte stream |
| Probes.StreamDeterminesMap | llvq-artifact/src/codebook.rs:134-147 | two decoders feed the same bytes iff they agree at every probe, refusals included |
| GainFit.LloydMax | ops/gain_disagree_real.py:148-168 | fails iff there is no data; otherwise `iters` sweeps from the quantile start |
| GainFit.QuartileStart | ops/gain_disagree_real.py:156-157 | centroid j starts at entry floor((2j + 1) n / 4) in order of size |
| GainFit.OneSweep | ops/gain_disagree_real.py:159-167 | assign, re-mean, keep an empty cluster's centroid, sort |
| GainFit.NearestIsFirst | ops/gain_disagree_real.py:162 | a value goes to the first of the nearest centroids |
| GainFit.MeanIsBest | ops/gain_disagree_real.py:164-166 | a point costs a group as much as the new centroid plus, for each member, the squared distance to it: the new centroid is the one best point; an empty group keeps its own |
| GainFit.NoGainMeansFixed | ops/gain_disagree_real.py:159-167 | a sweep that does not lower the distance leaves the sorted pair as it was |
| GainFit.SweepNeverWorse | ops/gain_disagree_real.py:159-167 | a sweep never raises the total squared distance to the nearest centroid |
| GainFit.SweepsNeverWorse | ops/gain_disagree_real.py:148-168 | more sweeps are never worse than fewer, none worse than the start |
| GainFit.SweepsStop | ops/gain_disagree_real.py:148-168 | after as many sweeps as there are values the pair is fixed, so more iterations change nothing |
| GainFit.CentroidsStayInRange | ops/gain_disagree_real.py:148-168 | centroids stay sorted and inside the data's range |
| GainFit.ArmEnergy | ops/gain_disagree_real.py:137-145 | the total error of the levels the rule chooses; fails iff a scale is zero |
| GainFit.CompleteSquare | ops/gain_disagree_real.py:118-121 | the error is a constant plus scale squared times the squared distance of centroid and statistic |
| GainFit.SquaredErrorIsDistance | ops/gain_disagree_real.py:118-121 | the error is the squared distance from x to the gain times u, for every unit vector u |
| GainFit.ShrinkScalesGain | ops/gain_disagree_real.py:142-144 | a shrunk pair is scored at gains shrunk by the same factor |
| GainFit.RuleIsNearestGain | ops/gain_disagree_real.py:124-145 | the level chosen has the gain nearest to the projection (Euclidean rule) or to the norm (served rule); a tie goes to level 0 |
| GainFit.EuclideanRuleIsMinimum | ops/gain_disagree_real.py:137-145 | the Euclidean rule is the minimum over all per-block level choices, so never above the served rule |
| GainFit.BestScalar | ops/gain_disagree_real.py:171-186 | the first of the 501 scales with the least energy, and its change in percent |
| GainFit.GridIsWhole | ops/gain_disagree_real.py:178-185 | the grid runs from 0.90 to 1.15 in steps of 0.0005 |
| GainFit.PercentIsChange | ops/gain_disagree_real.py:186 | the second result is the change in percent of the base |
| GainFit.RescalingNeverLoses | ops/gain_disagree_real.py:171-186 | against the unscaled energy the best scale never reads as a loss |
| ProductCodebook.CheckedBookIsPositive | ops/e8_stage1.py:37-55 | the checks on loading leave a non-empty book with every norm at least 8 |
| ProductCodebook.SmallDivisorCubes | ops/e8_stage1.py:47-50 | the divisor sums behind the theta check: 1, 9, 28 and 73 for the first four norms |
| ProductCodebook.BestInShellIsBest | ops/e8_stage1.py:58-69 | no point of the shell has a larger inner product |
| ProductCodebook.BestInShellIsFirst | ops/e8_stage1.py:58-69 | of equally good points of a shell the first is taken |
| ProductCodebook.ShellsIncrease | ops/e8_stage1.py:74 | the shells are listed once each, smallest norm first |
| ProductCodebook.BestPerShell | ops/e8_stage1.py:58-69 | for every shell and sub-block the table holds that point's index and inner product |
| ProductCodebook.TriplesAreAll | ops/e8_stage1.py:76-77 | the triples are exactly all shell triples |
| ProductCodebook.BestTriple | ops/e8_stage1.py:134-138 | the chosen triple scores at least as much as every triple and more than every earlier one |
| ProductCodebook.Search | ops/e8_stage1.py:131-150 | one block's choice, inner product, error and reassembled row; no product point has a larger one |
| ProductCodebook.SearchIsExact | ops/e8_stage1.py:131-160 | on a checked book the choice is the joint maximum of <x, u> and the analytic error is the error of the row assembled |
| ProductCodebook.AnalyticError | ops/e8_stage1.py:140-160 | the analytic error is the squared distance to gain times the unit vector, for every product point |
| ProductCodebook.MaximumIsNearest | ops/e8_stage1.py:131-150 | for any gain >= 0 the angular maximum is the nearest product point |
| SassChain.WritesMeans | ops/sass_chain.py:50-61 | what an instruction writes: nothing by control instructions, a run as wide as the opcode by a load of one narrow register, else the registers named first; never 255 |
| SassChain.ReadsMeans | ops/sass_chain.py:50-56 | what it reads: the registers after the first comma, and all of them for control instructions |
| SassChain.WidthMeans | ops/sass_chain.py:59-60 | two or four as `.64` or `.128` stands first in the opcode's text, one without either |
| SassChain.LatencyMeans | ops/sass_chain.py:20-29 | the latency of the first table prefix, else 5 |
| SassChain.HeadMeans | ops/sass_chain.py:69-71 | the opcode up to its first dot |
| SassChain.Start | ops/sass_chain.py:62-65 | the latest ready source and its chain, which is a real chain into the instruction |
| SassChain.WriteAll | ops/sass_chain.py:67-69 | every destination but register 255 gets the new value, nothing else changes |
| SassChain.CriticalChain | ops/sass_chain.py:49-71 | no last-writer chain has more cycles than reported, and the opcodes reported are those of a chain that attains them |
| SassChain.VectorLoadListing | ops/sass_chain.py:49-71 | LDS.128 R4 and then FADD R8, R7, R1: 35 cycles, LDS and FADD |
| SassChain.ChainsRunForward | ops/sass_chain.py:49-71 | along every chain a value is read after it was written |
| AwqPacking.RepackNibbles | ops/awq_dequant.py:633-644 | refused iff not whole words of 0..15; otherwise `Pack` |
| AwqPacking.FieldsInOrder | ops/awq_dequant.py:88-93 | bit field i of a word holds entry 0, 2, 4, 6, 1, 3, 5, 7 of its eight |
| AwqPacking.PackedWord | ops/awq_dequant.py:633-644 | integers a to h pack to the hexadecimal digits hfdbgeca |
| AwqPacking.KnownWord | ops/awq_dequant.py:633-644 | 0 to 7 pack to 0x75316420 |
| AwqPacking.UnpackUndoesPack | ops/awq_dequant.py:615-644 | unpacking undoes packing on every 0..15 matrix, for any permutation used on both sides |
| AwqPacking.PackUndoesUnpack | ops/awq_dequant.py:615-644 | packing undoes unpacking on every word matrix, sign bit included |
| AwqPacking.BytesAgreeIffNibblesDo | ops/awq_dequant.py:798-801 | for integers in range, the bytes agree iff no nibble differs |
| AwqPacking.ControlL2 | ops/awq_dequant.py:791-813 | on given integers, every field: ok, no mismatch and both byte comparisons are one statement, the `qzeros` one never fails alone; no result for an empty matrix |
| Dequant.GroupsAreContiguous | ops/awq_dequant.py:679-684 | row g * groupSize + t is dequantised, and recovered by the control, with zero points and scales of group g |
| Dequant.TwoGroupsRows | ops/awq_dequant.py:679-684 | two groups of two rows with scales 1 and 2: rows 1, 1, 2, 2, which the control accepts |
| Dequant.ControlWeights | ops/awq_dequant.py:762-813 | on given weights, every field of the control, decided by whether the recovered integers are the packed ones; no result for an empty matrix |
| Dequant.HalfStepDecides | ops/awq_dequant.py:791-801 | which real matrices of weights the control accepts, exactly |
| Dequant.ShiftIsCaught | ops/awq_dequant.py:679-683 | the computed matrix passes iff zero scales hide nothing; a shift of the integers passes only where no scale is left |
| Dequant.HiddenStepIsRefused | ops/awq_dequant.py:679-683 | one word whose zero scale stands over a nonzero step: it loads, and its own matrix is refused |
| SafeTensors.File.RawIsTheRange | ops/awq_dequant.py:499-518 | a tensor's bytes are those of the file from the data start plus its first offset, as many as declared |
| SafeTensors.File.RawMany | ops/awq_dequant.py:520-542 | the coalesced read gives what single reads give; it succeeds iff they all do and the range does not begin before the file |
| SafeTensors.File.NoneBefore | ops/awq_dequant.py:530-536 | with no negative offset the range never begins before the file |
| SafeTensors.File.OnlyEmptyBefore | ops/awq_dequant.py:520-542 | when single reads work, only an empty tensor with a negative offset makes the range begin before the file |
| SafeTensors.File.EmptyTensorOutside | ops/awq_dequant.py:520-542 | an opened file where single reads work and the coalesced one fails for budgets of 15 bytes and of 64,000,000, but not for 14 |
| Shards.ShardWriter.constructor | ops/awq_dequant.py:562-569 | an empty writer with limit max(1, shard_bytes) |
| Shards.ShardWriter.AddTensor | ops/awq_dequant.py:571-577 | the whole state moves by `Add` |
| Shards.PutIsAssignment | ops/awq_dequant.py:574 | a pending name keeps its place and gets the new tensor, a new one goes to the end |
| Shards.ShardWriter.FlushPending | ops/awq_dequant.py:579-586 | the pending shard is saved under the next temporary name and nothing saved before is lost |
| Shards.ShardWriter.Finish | ops/awq_dequant.py:588-609 | the directory holds exactly the shards under their final names, with the weight map of those names |
| Shards.FinalNameMeans | ops/awq_dequant.py:592-596 | one shard is model.safetensors; of more, each name carries its place from 1 and their number, on five digits at least |
| Shards.TmpNameMeans | ops/awq_dequant.py:582 | a temporary name carries its place from 0 |
| Shards.SecondOfThree | ops/awq_dequant.py:595 | model-00002-of-00003.safetensors |
| Shards.NamesDiffer | ops/awq_dequant.py:582-598 | at every moment of the renaming, no two shards share a file name |
| Shards.RunKeepsInvariant | ops/awq_dequant.py:553-609 | after any run of distinct names: tensors in order, sizes added up, no empty shard, only single tensors over the limit |
| Shards.NeighboursPassLimit | ops/awq_dequant.py:571-577 | two consecutive shards together exceed the limit |
| Shards.ShardCountBound | ops/awq_dequant.py:553-609 | floor(shards/2) limits are less than the total size, for two shards or more |
| Shards.EveryTensorMapped | ops/awq_dequant.py:599-603 | each tensor is in one shard and mapped to its file; nothing else is mapped |
| Shards.Write | ops/awq_dequant.py:1932-2014 | `add` for every tensor, then `finish`: files, names, map, sizes, weight count, and an index iff there is more than one shard |
| Evidence.ValueEvidence | ops/manifest.py:213-243 | the first spelling that stands in the text, plain or ungrouped; none iff no spelling does |
| Evidence.GroupIsUndone | ops/manifest.py:210 | wherever digits grouped by any of the three separators stand with no digit after them, exactly the separators go |
| Evidence.GroupIsUndoneIff | ops/manifest.py:210 | wherever grouped digits stand, they are undone iff there are at most three or no digit follows |
| Evidence.UngroupRestores | ops/manifest.py:176-210 | inside any text, ungrouping turns grouped digits, with a sign before and decimals behind, back into plain ones |
| Evidence.GroupedNumberIsFound | ops/manifest.py:206-243 | a number grouped by a space, U+00A0 or U+202F is found in any text with no digit after its grouped part |
| Evidence.GroupedDecimalIsFound | ops/manifest.py:219-243 | so is a float with its digits grouped, behind a decimal point or comma; both spellings are looked for, the point first |
| Evidence.GroupedIntegerIsFound | ops/manifest.py:176-243 | so is n in any text that prints `thousands(n)` with no digit after it |
| Evidence.PlainNumberIsFound | ops/manifest.py:184-243 | so is a number as recorded, with a decimal comma, or with U+2212 for its minus |
| Evidence.NothingIsInvented | ops/manifest.py:206-210 | a string is in the ungrouped text iff it stands in the text with nothing left out but separators before exactly three digits |
| Evidence.DigitAfterDecides | ops/manifest.py:210-243 | in a grouped number followed by one digit, n is found iff -1000 < n < 1000 or n is that digit four times |
| Evidence.DigitAfterCanHide | ops/manifest.py:210-243 | both outcomes: 1234 before a 5 is not found, 1111 before a 1 is |
| Measures.BeforeIsEarlier | ops/manifest.py:713 | times compare as strings do: where they first differ the smaller character, or the end, is earlier |
| Measures.LatestPerMeasure | ops/manifest.py:696-715 | one entry a measure in order of first appearance, of which no entry is later in that order, the last of equals; shown and hidden add up to all |
| Measures.SeptemberIsChosen | ops/manifest.py:713 | of an August and a September entry, in either order, September is shown |
| Measures.LatestIsUnique | ops/manifest.py:696-715 | a measure has one such entry at most |
| Measures.FirstKeysAreAll | ops/manifest.py:704-715 | the measures shown are those of the entries, each once |
| Measures.FirstKeysInOrder | ops/manifest.py:704-715 | of two measures shown, the one above has an entry before every entry of the one below |
| Measures.ChoiceIgnoresOrder | ops/manifest.py:696-715 | when no two entries of a measure share a time, permuting the lines does not change its choice |
| Numerals.StrReads | ops/vllm_score.py:234-237 | `int(str(n))` is n, among all the spellings `int` takes |
| Numerals.HexReads | ops/vllm_score.py:234-237 | `int(f"{n:016x}", 16)` is n, for any width and sign |
| Numerals.HexWidth | ops/vllm_score.py:414-420 | a number that fits prints exactly as wide as asked |
| Numerals.BlanksAround | ops/vllm_score.py:236 | white space around a number does not matter to `int` |
| Numerals.PlusReads | ops/vllm_score.py:236 | nor does a plus sign |
| Numerals.UnderscoreReads | ops/vllm_score.py:236 | one underscore between digits is read over, two are refused |
| Numerals.PrefixReads | ops/vllm_score.py:236 | `0x` and `0X` are read over in base sixteen |
| Dump.EmitDump | ops/vllm_score.py:375-443 | the text is header, columns and one line a question; the counts and averages are those of the answers |
| Dump.ColumnsMean | ops/vllm_score.py:403-420 | what each of the eleven named columns holds; right iff the answer is the first of the greatest scores |
| Dump.ReadReferenceDump | ops/vllm_score.py:211-240 | the questions of the records that are not comments, and the fields of those that are; none when a row is malformed or no question is left |
| Dump.RefusedForOneRow | ops/vllm_score.py:233-236 | the rows are refused exactly when one has a subject but its index or hash is missing or no integer |
| Dump.QuotedRecordReads | ops/vllm_score.py:232-236 | any fields at all, each in quotes with its quotes doubled, are read as one record |
| Dump.LineEndsDoNotMatter | ops/vllm_score.py:220-222 | with carriage returns as line ends, alone or before line feeds, the text reads the same |
| Dump.DumpRecords | ops/vllm_score.py:393-420 | read as text, without comments and as CSV, a dump is its columns and the rows it was made from |
| Dump.RowsReadBack | ops/vllm_score.py:234-237 | those rows give back the questions |
| Dump.DumpHeader | ops/vllm_score.py:222-228 | the header of a dump holds model, revision, dtype, scores and engine as written, stripped |
| Dump.RoundTrip | ops/vllm_score.py:211-420 | writing then reading gives the same questions in the same order and the header; an empty list is refused |
| Tally.SlotsCount | ops/vllm_score.py:409-413 | every subject asked, and no other, has a slot with its own right answers and questions |
| Tally.SlotsAddUp | ops/vllm_score.py:409-443 | the slots add up to the run's right answers and questions |
| Tally.NaiveIsMacro | ops/vllm_score.py:421-442 | with as many questions for each subject, right over total is the macro whatever the populations |
| Tally.NaiveIsMicro | ops/vllm_score.py:429-441 | with questions in proportion to the populations, right over total is the micro |
| Tally.MicroIsCensus | ops/vllm_score.py:429-441 | however unequal the sampling, the micro is the share of right answers in every census of the subjects that keeps their rates; refused iff that census is empty |
| Tally.MacroIsEqualMicro | ops/vllm_score.py:442 | the macro is the micro of subjects of one size |
| Tally.UnequalPopulations | ops/vllm_score.py:437-442 | forty questions each, all right of 100 and none right of 300: micro 25, macro 50 |
| Tally.AveragesWithinRates | ops/vllm_score.py:434-443 | both averages lie between the least and the greatest rate of a subject |

## Left out

- Floating-point rounding, f16 and bf16 narrowing: every float is a real number; `sqrt` is any positive square root.
- The lattice, its indexer and decoders, the Golay tables and the Tetra map are not part of this model; `Probes` takes the decoder as any function and the class bounds as given, with three times the class size below 2^64.
- Scheduling.Makespan: the heap is an ascending list, not the array order `heapq` keeps; the values popped are the same.
- Scheduling: `token` and the measured estimates around it are arithmetic on fixed constants.
- MoeLru: the prefetch reports and the tables printed around the simulator.
- Allocation.BisectBudget: 200 halvings over reals; in floats the bracket stops shrinking earlier. `cold_mass_at` is for k >= 0, and `mix`, `quantile` and the report are left out.
- Selection.Select: the data set is its length.
- SassChain.CriticalChain: starts from operands already split at the first comma; the regular expressions that read a listing and the printed counts are left out.
- ProductCodebook.Search: one block; the loop over blocks, the Hessian statistic and the files are left out.
- GainFit: the audits and the quantile printing.
- AwqPacking.ControlL2: takes the recovered integers as given; `Dequant.ControlWeights` recovers them from weights, in real arithmetic.
- Dequant: loading is the predicate `Loads`; the transposed float16 output and the controls calibrated on data (L1, L3, L4) are left out.
- SafeTensors.File.RawMany: a local file; the HTTP transport, the header parse and typed views are left out.
- Shards.ShardWriter.Finish: tensor data, the order of keys in the index, the index text and files that were in the directory before; whether an index is written is modelled.
- Evidence.ValueEvidence: a float is the text of its `repr`; reading, hashing and git are left out.
- Measures.LatestPerMeasure: an entry whose time is present but not a string is not modelled.
- Numerals.ParseInt: digits are ASCII; Python's `int` also takes other decimal digits and stops at 4300 digits in base ten. What the dump prints for indices of that length is not modelled.
- Dump.EmitDump: every question comes with its four scores (`zip` would stop at the shorter list); printing a float with six decimals is a parameter, and so is what it may print: no comma, line break or leading quote.
- Dump.ReadReferenceDump: the csv module's limit on the length of a field.
- Dump.RoundTrip: subjects are not empty, hold no comma or line break and begin with neither a quote nor `#`; indices and hashes are any integers, negative ones included.
- Tally: float summation order; the dictionary's order is kept but sums of reals do not depend on it.

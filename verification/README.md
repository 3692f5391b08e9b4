# Verified models of the serving stack

A Dafny model of the parts of this repository whose correctness is arithmetic, a protocol or a state machine: the speculative
decode loop with its draft tree, the paged KV block allocator, the weight converters and the files they write, and the
parsers and translators around the engine. `dafny verify dfyconfig.toml` checks everything.

* **Speculative decoding** (`DraftTree`, `TreeMask`, `KvRows`, `SpeculativeDecoding`, `StaleRows`). A drafter proposes a tree of tokens, the target verifies it in
  one masked pass, and the accepted path is emitted. The main theorem is that greedy output does not depend on the drafts: any
  mix of tree rounds, chain rounds and the autoregressive tail emits exactly what plain greedy decoding would, on a
  key/value cache whose rows are followed through the tree pass and its compaction, and every round commits all that its draft
  and the target agree on. The tree is the best one of its size
  exactly when its seeded chain took no place from a better candidate; unseeded it always is.
* **Paged KV pool** (`PagedKvPool`, `PoolRuns`). Conservation of blocks under every operation, no two live tokens in one cache row,
  rollback and retry on the same rows, own blocks before shared ones, a reservation that no other sequence can break, and stale handles over whole runs.
* **Converters** (`Vectors`, `Convrot`, `MossPlan`, `Mxfp4`, `GgufFormat`, `GgufBytes`, `GgufWriter`, `Mxfp4File`, `LittleEndian`). The rotated int8 format
  keeps layer outputs up to a proved error; the FP4 re-layout is exact, invertible and agrees with ggml's own dequantizer; the
  GGUF writer's file opens again with every tensor in its place, so the matrix read back is the checkpoint's.
* **bf16 rounding** (`Bfloat16`). The add-and-shift conversion is roundTiesToEven on every non-NaN float.
* **Megakernel decoder** (`PrefillDecoder`, `WeightTables`). Cached CUDA graphs are invisible; packed tables match the C
  structs.
* **Prompt compression client** (`TokenRecovery`, `PipeFraming`), **routing traces** (`RoutingRecords`, `RoutingPairs`), **API proxy**
  (`SseFormat`, `ProxyStreams`, `ChunkedRelay`) and **answer scoring** (`BoxedAnswers`).

Models follow the code where code and comments differ:

* `cuda_bf16.h` says that NaN payloads are preserved; a NaN whose payload lies in the lower half becomes infinity
  (`Bfloat16.NaNFate` gives the exact condition).
* `responses_json` drops the text of an answer that also has tool calls from its output items (`ProxyStreams.ResponsesAnswer`),
  unlike `anthropic_json` (`ProxyStreams.AnthropicAnswer`).
* The record loader stops with 8 bytes left, so with width 0 a final record without experts is lost (`RoutingRecords.TruncationSafe`).
* The chain seed can cost expected acceptance length (`DraftTree.SeedCanCost`; `DraftTree.BestIffHarmless` says exactly when).
* A tree round that ends the decode loop leaves its rows where the tree pass wrote them, so the cache can hold the row of a token
  that was not emitted (`StaleRows.ForkGoesStale`; `StaleRows.NeverStaleIffChain` says for which trees).
* The tree pass lets a slot see its whole path in sliding-window layers, which differs from plain decoding once the depth reaches
  the window (`KvRows.SlidingMaskExact`).
* A layer with more pointers than slots silently loses the rest, unless they run past the end of the table (`WeightTables.PackLayers`).
* A reply token equal to -1 cannot be carried by the compression pipe (`PipeFraming.ReplyExact`).

## Model

| member | source | states |
|---|---|---|
| SpeculativeDecoding.Decode | server/src/laguna/laguna_backend.cpp:689-1218 | for every prompt, token budget, stop rule, target model and every mix of tree and chain rounds over arbitrary drafts followed by the autoregressive tail, the emitted tokens are exactly those of plain greedy decoding, and the key/value cache ends up holding exactly the rows of plain decoding unless a tree round ended the loop on a path that is not the first slots; every round in turn commits all that its draft and the target agree on, and single tokens are decoded only after the last round; a failed span check leaves a prefix, and with enough room it never happens |
| SpeculativeDecoding.AutoregressiveTail | server/src/laguna/laguna_backend.cpp:600-638 | the step-by-step loop emits the greedy continuation up to the budget, ending before the first stop token, and writes its rows |
| SpeculativeDecoding.TreeRound | server/src/laguna/laguna_backend.cpp:947-1056 | one tree round (build, mask, verify, follow, emit, stop checks, compaction) emits, for drafts shallower than the sliding window, the next tokens of greedy decoding, along one path of the tree that build_ddtree promises; with distinct tokens per row it emits at least the tokens of every tree node that the target agrees with, that holds no stop and that fits the budget; it claims to be finished only when greedy decoding has nothing left, and otherwise makes progress and leaves the right pending token and cache |
| SpeculativeDecoding.WalkTree | server/src/laguna/laguna_backend.cpp:978-1000 | build, mask, target pass and walk together give the promised tree and an accepted path whose slots were computed exactly, and which ends only where the target's token has no child |
| SpeculativeDecoding.ChainRound | server/src/laguna/laguna_backend.cpp:1080-1217 | the same for a chain round, whose accepted rows are already in place: it emits a prefix of the pending token and the draft that is at least as long as every prefix the target agrees with, without a stop and within the budget |
| SpeculativeDecoding.AcceptChain | server/src/laguna/laguna_backend.cpp:1113-1118 | the accept loop stops at the first drafted token that is not the target's; everything before it is greedy, and no longer prefix of the batch is |
| SpeculativeDecoding.MatchChain | server/src/laguna/laguna_backend.cpp:1113-1151 | accepted tokens with the bonus token deferred, dropped by the budget, or kept because it is a stop; no greedy prefix of the batch within the budget is cut short |
| SpeculativeDecoding.RunRound | server/src/laguna/laguna_backend.cpp:947-1217 | a round of either kind emits the next greedy tokens and commits everything its draft and the target agree on |
| SpeculativeDecoding.TakesLongest | server/src/laguna/laguna_backend.cpp:998-1022 | in a walked tree with unambiguous child maps, every node the target agrees with, without a stop and within the budget, has its tokens among the emitted ones |
| SpeculativeDecoding.ChainLongest | server/src/laguna/laguna_backend.cpp:1113-1151 | the emit loop keeps every stop-free greedy prefix of the batch |
| SpeculativeDecoding.Emit | server/src/laguna/laguna_backend.cpp:1011-1022 | the emit loop sends the tokens up to the first stop token, and these are a prefix of greedy decoding |
| SpeculativeDecoding.GreedySplit | server/src/laguna/laguna_backend.cpp:600-638 | tokens that each equal the target's answer to the context before them, without a stop token, are the next tokens of greedy decoding |
| SpeculativeDecoding.FollowVerifiedTree | server/src/common/ddtree.cpp:356-377 | the walk terminates, each step follows the child map along the posterior token, and it stops only where the posterior token has no child |
| SpeculativeDecoding.AcceptedAgrees | server/src/common/ddtree.h:84-90 | every prefix of the accepted path spells the target's own greedy tokens, and the posterior at its end is the next one |
| SpeculativeDecoding.LongestAccepted | server/src/common/ddtree.cpp:356-377 | no path of the tree that the target agrees with is longer than the accepted one: every such node lies on it |
| SpeculativeDecoding.BuiltUnambiguous | server/src/common/ddtree.cpp:266-283 | for drafts whose rows do not repeat a token, every node of a built tree is reachable through its parent's child map |
| SpeculativeDecoding.TruncateVerifiedPath | server/src/common/ddtree.cpp:379-387 | cutting a verified path keeps a greedy prefix and recomputes the pending token for the new tip; an empty path has pending token -1 |
| SpeculativeDecoding.CompactedHolds | server/src/laguna/laguna_dflash_target.cpp:466-478 | the rows of the accepted slots, moved behind the committed ones, are the cache of plain decoding after the accepted tokens |
| StaleRows.NeverStaleIffChain | server/src/laguna/laguna_backend.cpp:1026-1034 | a tree round that ends the loop skips the compaction; over a given unambiguous tree that is harmless for every target and every stop rule if and only if every slot of the tree hangs below the slot before it |
| StaleRows.UncompactedExact | server/src/laguna/laguna_backend.cpp:1026-1034 | for a model that hides nothing about its rows, whatever it answers, the rows left by such a round are those of plain decoding exactly when the accepted slots are the first ones |
| StaleRows.ContiguousRight | server/src/laguna/laguna_backend.cpp:1026-1034 | for every model they are right if the accepted slots are the first ones |
| StaleRows.ChainContiguous | server/src/common/ddtree.cpp:356-377 | in a chain every accepted path consists of the first slots |
| StaleRows.BranchGoesStale | server/src/laguna/laguna_backend.cpp:1026-1034 | any slot that does not hang below the slot before it is reached by some target and leaves stale rows |
| StaleRows.SingleChoiceIsChain | server/src/laguna/laguna_backend.cpp:949-950 | with one choice per position, which the loop uses when the budget does not exceed the depth, the tree is a chain |
| StaleRows.ForkGoesStale | server/src/laguna/laguna_backend.cpp:1026-1034 | a concrete tree and target where the row kept for the emitted token 7 is the one computed for 5 |
| StaleRows.TransparentRows | server/src/laguna/laguna_dflash_target.cpp:303-305 | the model used there: its rows are the contexts themselves and its answers any given function of them |
| StaleRows.PathsDistinct | server/src/common/ddtree.cpp:273-280 | in a tree with unambiguous child maps different slots have different token paths |
| TreeMask.BuildVisibility | server/src/common/ddtree.cpp:69-81 | the in-place row-copying loop yields a mask that is set exactly where the column slot lies on the root path of the row slot |
| TreeMask.VisibleIsPath | server/src/laguna/laguna_dflash_target.cpp:332-341 | what a slot sees through the mask is exactly its own root path, in order |
| TreeMask.VisibleBefore | server/src/laguna/laguna_dflash_target.cpp:332-341 | among the slots before it, a slot sees exactly the path to its parent |
| KvRows.VerifyTree | server/src/laguna/laguna_dflash_target.cpp:172-372 | slot i is written to row committed + i at position committed + depth; every slot whose depth is below the sliding window gets exactly the row and the answer of plain decoding after its own path, committed rows stay, and the span check fails exactly when the padded tree does not fit |
| KvRows.SlotComputed | server/src/laguna/laguna_dflash_target.cpp:318-343 | with exact slots before it, a slot that sees the committed rows and its path is computed as the next token of that path |
| KvRows.PathRows | server/src/laguna/laguna_dflash_target.cpp:303-305 | the rows along a path of exact slots continue the committed rows as plain decoding would |
| KvRows.SlidingMaskExact | server/src/laguna/laguna_dflash_target.cpp:322-341 | the sliding-window mask of a tree pass shows the window of plain decoding exactly for slots whose depth is below the window |
| KvRows.SlidingShows | server/src/laguna/laguna_target_graph.cpp:1453-1458 | the window of plain decoding counts the token itself and shows the rows before it that are left |
| KvRows.DeepSlotDiffers | server/src/laguna/laguna_dflash_target.cpp:322-341 | for every slot whose depth reaches the sliding window some model gets a different row and a different answer than in plain decoding |
| KvRows.RollbackToTree | server/src/laguna/laguna_dflash_target.cpp:373-478 | row committed + d becomes the row of the d-th accepted slot, and the rows before stay |
| KvRows.VerifyBatch | server/src/laguna/laguna_dflash_target.cpp:53-93 | a batch leaves the rows and gives the answers of plain decoding after each of its tokens |
| KvRows.WriteStep | server/src/laguna/laguna_target_graph.cpp:1447-1470 | one step appends the token's row and gives the answer after it |
| DraftTree.BuildTree | server/src/common/ddtree.cpp:101-344 | for every draft, budget, seed flag and margin and any tie-breaking of the heap: distinct candidates, parents and better siblings always included, within budget, every node within the caller's margin of the best score (a negative margin counting as zero), depths, parents, tokens and child maps consistent; for ranked log-probabilities a candidate left out misses the best score by more than that margin, or the budget is used up and every best-first node scores at least as much |
| DraftTree.WindowMeaning | server/src/common/ddtree.cpp:115-138 | the same on the caller's own margin in plain inequalities; an unbounded window leaves something out only when the budget is used up |
| DraftTree.ClampMeaning | server/src/common/ddtree.cpp:115-115 | comparing with the clamped margin is comparing with the caller's margin and with zero |
| DraftTree.SeedChain | server/src/common/ddtree.cpp:196-251 | the seeded chain is the top-1 path, as long as depth, budget and window allow, and what it leaves in the heap covers every remaining candidate inside the window unless the budget is full |
| DraftTree.NoBetterTree | server/src/common/ddtree.h:46-66 | the tree is worth at least as much as any other set of at most that many candidates inside the window that keeps its seeded chain, for every non-negative weight that grows with the score |
| DraftTree.BestIffHarmless | server/src/common/ddtree.h:53-66 | for every strictly growing weight, such as exp, the tree is the best of all trees of its size inside the window if and only if nothing was seeded, the budget is not used up, or no omitted candidate inside the window scores above the end of the seeded chain |
| DraftTree.HarmlessBeats | server/src/common/ddtree.h:53-66 | in that case no set of as many candidates, tree or not, is worth more under any growing weight |
| DraftTree.SeedCanCost | server/src/common/ddtree.cpp:196-251 | a concrete draft and budget where, under every strictly growing weight, another tree of the same size is worth more than the seeded one |
| DraftTree.StepSearch | server/src/common/ddtree.cpp:266-326 | popping a candidate and exposing its next sibling and best child keeps nodes closed and distinct and the heap a duplicate-free part of the frontier |
| DraftTree.StepCovers | server/src/common/ddtree.cpp:266-326 | it also keeps the whole frontier inside the window represented in the heap |
| DraftTree.StepDominates | server/src/common/ddtree.cpp:85-88 | after popping a best candidate every node popped so far scores at least as much as everything still waiting |
| DraftTree.FrontierAbove | server/src/common/ddtree.cpp:266-271 | above every candidate that is not a node there is a frontier member scoring at least as much, so the first one outside the window proves all the rest outside |
| DraftTree.BestScoreIsBest | server/src/common/ddtree.cpp:128-138 | no candidate of a ranked draft scores above the first choice of the first position |
| DraftTree.NextHeapLinked | server/src/common/ddtree.cpp:293-313 | the running scores in the heap, updated by subtraction and addition, are the cumulative path scores |
| DraftTree.AddNodeWellFormed | server/src/common/ddtree.cpp:273-280 | appending a node keeps slots after their parents, depths counting edges and child maps equal to the labelled edges |
| PagedKvPool.Pool.Create | server/src/common/concurrency/paged_kv_pool.cpp:49-64 | refuses exactly the zero dimensions and the capacities over 32 bits, otherwise yields a consistent pool with all blocks and slots free |
| PagedKvPool.Pool.constructor | server/src/common/concurrency/paged_kv_pool.cpp:58-63 | a consistent pool with ascending free lists |
| PagedKvPool.Pool.AcquireReserved | server/src/common/concurrency/paged_kv_pool.cpp:71-101 | the exact status, no change on failure, and on success the lowest free slot under the next generation with exactly the reserved blocks, which are the lowest free ones; the pool stays consistent |
| PagedKvPool.Pool.ReserveCapacity | server/src/common/concurrency/paged_kv_pool.cpp:103-123 | the exact status, all or nothing, no change when enough is owned, and otherwise exactly the missing number of lowest free blocks moves into the reservation |
| PagedKvPool.Pool.Append | server/src/common/concurrency/paged_kv_pool.cpp:125-171 | the exact status, all or nothing; the added blocks are, in this order, the retry stack from its top, the lowest reserved and the lowest free ones, and each list loses exactly those, so an append covered by the sequence's own blocks leaves the free list alone; the answer addresses precisely the appended positions, or their two ends, each in the table entry whose block holds it |
| PagedKvPool.Pool.RollbackAppend | server/src/common/concurrency/paged_kv_pool.cpp:173-191 | the exact status; the table is cut and the cut blocks are stacked so that the next append pops them in their old order |
| PagedKvPool.Pool.Clear | server/src/common/concurrency/paged_kv_pool.cpp:193-205 | every block of the sequence returns to the free list exactly once and the slot keeps its identity |
| PagedKvPool.Pool.Release | server/src/common/concurrency/paged_kv_pool.cpp:207-216 | additionally the slot is free, the request id is forgotten and the handle is stale |
| PagedKvPool.Pool.Reset | server/src/common/concurrency/paged_kv_pool.cpp:219-232 | everything is free again, generations survive and every handle is stale |
| PagedKvPool.UpdateConsistent | server/src/common/concurrency/paged_kv_pool.cpp:279-314 | any change of one sequence that balances its blocks against the free list keeps the whole pool consistent: every physical block free or owned, exactly once |
| PagedKvPool.AcquireConsistent | server/src/common/concurrency/paged_kv_pool.cpp:84-97 | taking a slot keeps blocks, slot list and request map consistent |
| PagedKvPool.ReleaseConsistent | server/src/common/concurrency/paged_kv_pool.cpp:207-216 | dropping an emptied sequence keeps blocks, slot list and request map consistent |
| PagedKvPool.NoAliasing | server/src/common/concurrency/paged_kv_pool.h:50-58 | in a consistent pool two different sequence positions never share a physical row, and every row lies inside the pool |
| PagedKvPool.BlocksDistinct | server/src/common/concurrency/paged_kv_pool.cpp:279-305 | two table entries of the pool hold the same block only if they are the same entry |
| PagedKvPool.RetryGetsSameRows | server/src/common/concurrency/paged_kv_pool.h:142-147 | append after rollback restores the same sequence, hence the same physical rows, whatever happened to the free list in between |
| PagedKvPool.AdmissionGuarantee | server/src/common/concurrency/paged_kv_pool.h:112-122 | once blocks for a capacity are owned, every later append within that capacity succeeds, through any mix of appends and rollbacks and whatever other sequences leave in the free list |
| PoolRuns.Serve | server/src/common/concurrency/paged_kv_pool.h:112-122 | over every run of calls, with any calls on other handles in between, every append of an admitted sequence that stays within its capacity has status Ok |
| PoolRuns.AdmitAndServe | server/src/common/concurrency/paged_kv_pool.cpp:71-101 | the same from the admission call on, for calls that may depend on the handle |
| PoolRuns.CallOther | server/src/common/concurrency/paged_kv_pool.cpp:71-216 | no call on another handle changes the sequence |
| PoolRuns.CallAppend | server/src/common/concurrency/paged_kv_pool.cpp:125-171 | an append within the owned capacity succeeds and keeps the capacity owned |
| PoolRuns.CapacityFits | server/src/common/concurrency/paged_kv_pool.cpp:53-57 | a capacity whose blocks are owned fits 32 bits, so the length check cannot fail either |
| PagedKvPool.StaleStaysStale | server/src/common/concurrency/paged_kv_pool.h:41-48 | over every run of pool calls a handle that became stale stays stale, as long as its slot is acquired fewer than 2^64 - 1 times |
| PagedKvPool.GenerationCounts | server/src/common/concurrency/paged_kv_pool.cpp:86-87 | over every run the generation of a slot counts its acquisitions modulo the skipped zero |
| PagedKvPool.BeginPagedSequence | server/src/qwen35/qwen35_backend.cpp:726-797 | after a reset a prompt always gets a slot and the contiguity check never fails: every position lives in the row of the same number; it fails exactly when the prompt needs more blocks than the pool or the table has |
| PagedKvPool.FreshGrown | server/src/common/concurrency/paged_kv_pool.h:217-224 | appending to an empty sequence of a fresh pool gives the identity block table and identity rows |
| PagedKvPool.FreshAscending | server/src/common/concurrency/paged_kv_pool.h:217-224 | a fresh or reset pool hands out physical blocks in ascending order |
| PagedKvPool.ExtendFacts | server/src/common/concurrency/paged_kv_pool.cpp:279-305 | growing the table keeps visible blocks in place and neither loses nor invents a block |
| PagedKvPool.ExtendInOrder | server/src/common/concurrency/paged_kv_pool.cpp:293-304 | block by block where each added one comes from, and what is left of the three lists |
| PagedKvPool.BlocksExact | server/src/common/concurrency/paged_kv_pool.cpp:263-266 | the number of blocks for n tokens is the least one with room for them |
| PagedKvPool.ReportedPlaces | server/src/common/concurrency/paged_kv_pool.cpp:146-167 | every reported slot has the position, block, offset and row of its token |
| PagedKvPool.ReserveFacts | server/src/common/concurrency/paged_kv_pool.cpp:307-314 | reserving moves exactly the requested number of lowest free blocks to the sequence |
| PagedKvPool.PopBlocks | server/src/common/concurrency/paged_kv_pool.cpp:183-188 | the rollback loop leaves the kept prefix and stacks the rest last first |
| Vectors.KronRowDot | server/scripts/convert_moss_image.py:95-100 | dot products of Kronecker rows factor (the mixed-product law on rows) |
| Vectors.KronEntry | server/scripts/convert_moss_image.py:95-100 | the Kronecker product entry by entry, as numpy defines it |
| Vectors.KronOrthogonal | server/scripts/convert_moss_image.py:95-100 | a Kronecker product of orthogonal matrices is orthogonal |
| Vectors.KronSymmetric | server/scripts/convert_moss_image.py:95-100 | a Kronecker product of symmetric matrices is symmetric |
| Vectors.TimesEntry | server/scripts/convert_moss_image.py:107-107 | the row-times-matrix product is numpy's: entry j is the dot product with column j |
| Vectors.TimesKeepsDot | server/scripts/convert_moss_image.py:107-107 | multiplying both vectors by one orthogonal matrix keeps their dot product |
| Vectors.TimesTwice | server/scripts/convert_moss_image.py:107-107 | a symmetric orthogonal matrix undoes itself |
| Convrot.HadamardIsRotation | server/scripts/convert_moss_image.py:95-100 | every Kronecker power of the 4x4 matrix is square, symmetric and orthogonal |
| Convrot.Hadamard256 | server/scripts/convert_moss_image.py:95-100 | the loop builds a 256-wide symmetric orthogonal matrix whose entry at row i and column j is 1/16, negated exactly when an odd number of base-4 digit positions of i and j add up to 3 |
| Convrot.HadamardEntry | server/scripts/convert_moss_image.py:95-100 | the same for every Kronecker power: all entries have one magnitude, and the sign is the parity of the digit positions adding up to 3 |
| Convrot.RotateRowEntry | server/scripts/convert_moss_image.py:107-107 | entry j of a rotated row is the dot product of its own 256-wide group with column j modulo 256 |
| Convrot.SpreadsEvenly | server/scripts/convert_moss_image.py:95-107 | a row with a single weight x is spread with magnitude x/16 over the whole group of that weight and reaches no other group |
| Convrot.RotationKeepsDot | server/scripts/convert_moss_image.py:103-107 | rotating every group of a weight row and of an activation leaves their dot product unchanged |
| Convrot.RotateRowTwice | server/scripts/convert_moss_image.py:103-107 | rotating twice gives the row back |
| Convrot.RintNearest | server/scripts/convert_moss_image.py:110-110 | rint gives a nearest integer, and the even one on ties |
| Convrot.EntryError | server/scripts/convert_moss_image.py:108-110 | the clip never changes a value and the error is at most half a step, zero scale included |
| Convrot.RowError | server/scripts/convert_moss_image.py:103-111 | every stored entry of a row is the unclipped rounding and within half a step |
| Convrot.RowUsesFullRange | server/scripts/convert_moss_image.py:108-111 | the scale is zero exactly for an all-zero row, and otherwise some entry is stored as 127 or -127 |
| Convrot.DotError | server/scripts/convert_moss_image.py:103-111 | an entrywise error becomes at most that error times the 1-norm of the other factor |
| Convrot.QuantizeConvrot | server/scripts/convert_moss_image.py:103-111 | refuses exactly the widths 256 does not divide, otherwise one quantized row per weight row, of the same width |
| Convrot.LayerOutputError | server/scripts/convert_moss_image.py:103-111 | for every row and activation the int8 layer output is within half a step times the 1-norm of the rotated activation of the exact one |
| Convrot.RecoveredWeights | server/scripts/convert_moss_image.py:103-111 | dequantizing and rotating back recovers the weights within the squared half-step bound |
| MossPlan.Plan.constructor | server/scripts/convert_moss_image.py:117-118 | a new plan has no entries |
| MossPlan.Plan.AddEntry | server/scripts/convert_moss_image.py:120-121 | adds exactly one entry at the end |
| MossPlan.Plan.AddTensor | server/scripts/convert_moss_image.py:165-174 | appends exactly the entries of one DiT tensor: none for the skipped names, weight and scale under their names for a bf16 target, the array itself otherwise |
| MossPlan.TargetModule | server/scripts/convert_moss_image.py:37-37 | every target name is its module name followed by .weight |
| MossPlan.Plan.AddDit | server/scripts/convert_moss_image.py:164-174 | the loop appends the entries of all tensors in order |
| MossPlan.Plan.Write | server/scripts/convert_moss_image.py:123-130 | runs the thunks in order against the shared dictionary |
| MossPlan.TensorEntries | server/scripts/convert_moss_image.py:158-170 | making one tensor's entries leaves the dictionary as it found it |
| MossPlan.PlanDelivers | server/scripts/convert_moss_image.py:156-170 | for every checkpoint, every scale thunk finds the scale of its own weight, payloads come out in plan order and the dictionary ends empty |
| MossPlan.ExpectedRow | server/scripts/convert_moss_image.py:103-111 | row by row, what the plan delivers for a quantized tensor: the int8 values and the scale of the rotated weight row |
| MossPlan.TensorSizes | server/scripts/convert_moss_image.py:124-125 | the bytes declared for one tensor are the bytes written for it |
| MossPlan.DeclaredSizesHold | server/scripts/convert_moss_image.py:123-130 | the bytes declared before writing are the bytes written, for every entry of every plan |
| Bfloat16.ValueStep | server/hip_compat/cuda_bf16.h:53-62 | consecutive patterns are one unit in the last place apart, across binades and at infinity |
| Bfloat16.ValueIncreases | server/hip_compat/cuda_bf16.h:53-62 | larger patterns are larger numbers |
| Bfloat16.ValueInCell | server/hip_compat/cuda_bf16.h:53-62 | between neighbouring bf16 patterns the float values are evenly spaced |
| Bfloat16.RoundedParts | server/hip_compat/cuda_bf16.h:59-61 | the 32-bit addition never wraps, the sign is untouched, and the result is one of the two neighbours |
| Bfloat16.NearestInCell | server/hip_compat/cuda_bf16.h:59-61 | the choice by the lower half is the nearest neighbour, ties to even |
| Bfloat16.RoundsToNearestEven | server/hip_compat/cuda_bf16.h:53-62 | for every non-NaN float no bf16 number of the same sign is nearer, and at a tie the result is even (roundTiesToEven, section 4.3.1 of IEEE 754-2019) |
| Bfloat16.Monotone | server/hip_compat/cuda_bf16.h:53-62 | rounding keeps the order of magnitudes |
| Bfloat16.SignSymmetric | server/hip_compat/cuda_bf16.h:53-62 | flipping the sign of the input flips the sign of the output and nothing else |
| Bfloat16.InvertsWidening | server/hip_compat/cuda_bf16.h:45-68 | both conversions undo widening on every bf16 pattern |
| Bfloat16.NaNFate | server/hip_compat/cuda_bf16.h:56-58 | a NaN stays a NaN exactly when a payload bit lies in the upper half, and otherwise becomes an infinity; the comment in the header promises more |
| Bfloat16.NaNBecomesInfinity | server/hip_compat/cuda_bf16.h:52-58 | a concrete NaN that becomes infinity |
| Bfloat16.TruncatesTowardZero | server/hip_compat/cuda_bf16.h:43-49 | truncation gives the largest bf16 magnitude not above the input |
| GgufFormat.ValueRoundTrip | server/scripts/convert_ds4_dspark_draft_to_gguf.py:220-231 | every value the writer can pack is read back, with the rest untouched |
| GgufFormat.KeyValueRoundTrip | server/scripts/convert_ds4_dspark_draft_to_gguf.py:214-231 | the same for a key with its value |
| GgufFormat.InfoRoundTrip | server/scripts/convert_ds4_dspark_draft_to_gguf.py:378-382 | the same for a tensor info |
| GgufFormat.HeaderRoundTrip | server/scripts/convert_ds4_dspark_draft_to_gguf.py:374-382 | reading a written header recovers all keys and tensor infos and stops exactly at its end |
| GgufFormat.LimitsExact | server/scripts/convert_ds4_dspark_draft_to_gguf.py:215-231 | the numbers the writer accepts for a field are exactly those that come back from its bytes |
| GgufBytes.HeaderSpelled | server/scripts/convert_ds4_dspark_draft_to_gguf.py:374-382 | in literal bytes: the file starts with 71,71,85,70,3,0,0,0, the tensor count and the key count in base-256 digits lowest first; every key is followed by type id 4, 6, 8, or 9 and 5 according to its value; every tensor by rank, dimensions, type and offset |
| GgufBytes.EncodeDigit | server/scripts/convert_ds4_dspark_draft_to_gguf.py:214-231 | byte k of a packed number is its base-256 digit k |
| GgufBytes.Value | server/scripts/convert_ds4_dspark_draft_to_gguf.py:220-231 | id bytes and payload of every kind of value, with two's complement for list entries |
| GgufWriter.ComputeNBytes | server/scripts/convert_ds4_dspark_draft_to_gguf.py:200-206 | the exact failure, and 4 or 2 bytes per float, 34 or 17 bytes for every 32 elements of the block types |
| GgufWriter.PlanOffsets | server/scripts/convert_ds4_dspark_draft_to_gguf.py:365-370 | fails exactly on a refused shape; otherwise every tensor keeps its name, dimensions and type id and starts at the first multiple of 32 behind the tensor before it |
| GgufWriter.NeReversed | server/scripts/convert_ds4_dspark_draft_to_gguf.py:310-315 | the dimensions are the checkpoint's in reverse, the innermost doubled for packed FP4, followed by the number of stacked sources |
| GgufWriter.WriteHeader | server/scripts/convert_ds4_dspark_draft_to_gguf.py:374-382 | the header bytes in order |
| GgufWriter.JoinBlob | server/scripts/convert_ds4_dspark_draft_to_gguf.py:387-395 | the concatenated encoded sources, or float zeros |
| GgufWriter.WriteData | server/scripts/convert_ds4_dspark_draft_to_gguf.py:384-398 | the position assert never fires, and the size assert fires exactly when some blob has not its declared size |
| GgufWriter.WriteGguf | server/scripts/convert_ds4_dspark_draft_to_gguf.py:365-398 | the exact outcome for every key list, plan and encoder; every written file spells its header in those bytes |
| GgufWriter.DataOffset | server/scripts/convert_ds4_dspark_draft_to_gguf.py:386-386 | the file position before tensor k is its declared offset |
| GgufWriter.SharedShapeSize | server/scripts/convert_ds4_dspark_draft_to_gguf.py:302-316 | for sources of one shape the blob has the size computed from the first one |
| GgufWriter.AssertsNeverFire | server/scripts/convert_ds4_dspark_draft_to_gguf.py:385-398 | for every plan whose sources share one shape per tensor no assert fires |
| GgufWriter.OwnOffsetsAccepted | server/deps/llama.cpp/ggml/src/gguf.cpp:397-733 | the reader's check that offsets are the padded running sums accepts the plan |
| GgufWriter.FileOpens | server/deps/llama.cpp/ggml/src/gguf.cpp:397-733 | the written file opens with the same keys and infos, and the data section starts where the writer put it |
| GgufWriter.ExtentsDisjoint | server/scripts/convert_ds4_dspark_draft_to_gguf.py:365-370 | no two tensor extents overlap |
| GgufWriter.TensorsInPlace | server/scripts/convert_ds4_dspark_draft_to_gguf.py:383-398 | offsets are multiples of 32 and reading a tensor's extent gives exactly its blob |
| GgufWriter.OffsetAligned | server/scripts/convert_ds4_dspark_draft_to_gguf.py:370-370 | every planned offset is a multiple of 32 |
| Mxfp4.Repack | server/scripts/convert_ds4_dspark_draft_to_gguf.py:108-128 | the exact failures, and otherwise blocks that hold every element and scale at its ggml position |
| Mxfp4.SplitNibbles | server/scripts/convert_ds4_dspark_draft_to_gguf.py:119-121 | low nibbles at even and high nibbles at odd elements |
| Mxfp4.FillBlocks | server/scripts/convert_ds4_dspark_draft_to_gguf.py:124-127 | the bytes of the 17-byte blocks |
| Mxfp4.NibbleOrder | server/scripts/convert_ds4_dspark_draft_to_gguf.py:120-127 | in both layouts the earlier element of a byte is byte modulo 16 and the later one byte divided by 16: neighbours in the checkpoint, elements 16 apart in a ggml block |
| Mxfp4.E2M1Format | server/scripts/convert_ds4_dspark_draft_to_gguf.py:99-100 | the value table is the format with one sign, two exponent and one mantissa bit |
| Mxfp4.RepackFromNibbles | server/scripts/convert_ds4_dspark_draft_to_gguf.py:119-128 | the two steps together are the layout change |
| Mxfp4.RepackInvertible | server/scripts/convert_ds4_dspark_draft_to_gguf.py:108-128 | both checkpoint tensors are recovered from the blocks |
| Mxfp4.RepackUnique | server/scripts/convert_ds4_dspark_draft_to_gguf.py:108-128 | no other bytes hold the same elements |
| Mxfp4.EveryBlockIsARepack | server/scripts/convert_ds4_dspark_draft_to_gguf.py:108-128 | every sequence of blocks is the image of some checkpoint |
| Mxfp4.HalfScaleValue | server/deps/llama.cpp/ggml/src/ggml-impl.h:477-495 | ggml's half scale is 2^(x-128) for every byte, the two subnormal patterns included |
| Mxfp4.DequantizersAgree | server/deps/llama.cpp/ggml/src/ggml-quants.c:610-628 | both dequantizers give the same number for every nibble and every scale byte below 255 |
| Mxfp4.ScaleValues | server/scripts/convert_ds4_dspark_draft_to_gguf.py:103-105 | the value of both scale decoders for every byte: the converter's is twice ggml's half scale, except at 255 |
| Mxfp4.ScaleAt255 | server/deps/llama.cpp/ggml/src/ggml-impl.h:477-495 | at byte 255 the converter overflows to infinity where ggml's half scale is 2^127 |
| Mxfp4.SameElements | server/scripts/convert_ds4_dspark_draft_to_gguf.py:150-158 | at every row and column the repacked blocks hold the nibble and scale byte that the direct dequantizer uses |
| Mxfp4.SameMatrix | server/scripts/convert_ds4_dspark_draft_to_gguf.py:150-158 | the matrix dequantized from the blocks equals the directly dequantized one wherever the scale byte is below 255 |
| Mxfp4File.RepackFills | server/scripts/convert_ds4_dspark_draft_to_gguf.py:390-396 | the repacked bytes of a packed source have exactly the size computed from its shape, so the size assert holds for them |
| Mxfp4File.PartReadsBack | server/scripts/convert_ds4_dspark_draft_to_gguf.py:384-398 | opening the written file and reading one source of one tensor gives that source's encoded bytes |
| Mxfp4File.FileHoldsMatrix | server/scripts/convert_ds4_dspark_draft_to_gguf.py:390-398 | from checkpoint to opened file: at every row and column of every packed source ggml's number for the bytes read back is the number the checkpoint describes, wherever the scale byte is below 255 |
| TokenRecovery.RecoverKeptIndices | server/scripts/laguna_pflash_niah.py:112-122 | succeeds exactly when the kept ids are a subsequence, with strictly increasing positions that are pointwise no later than those of any embedding |
| TokenRecovery.GroupRuns | server/scripts/laguna_pflash_niah.py:125-138 | the runs concatenate back to the index list and are maximal |
| TokenRecovery.TextCache.constructor | server/scripts/laguna_pflash_niah.py:201-201 | an empty cache |
| TokenRecovery.TextCache.Text | server/scripts/laguna_pflash_niah.py:151-154 | the cached text is the decoded text |
| TokenRecovery.TextCache.ExpandLeft | server/scripts/laguna_pflash_niah.py:157-165 | stops at the text edge, at a token beginning with whitespace, or after the limit, and passes no such token |
| TokenRecovery.TextCache.ExpandRight | server/scripts/laguna_pflash_niah.py:166-174 | the same on the right, looking one token ahead |
| TokenRecovery.TextCache.Expand | server/scripts/laguna_pflash_niah.py:141-175 | the run widened on both sides |
| TokenRecovery.ExpansionUnique | server/scripts/laguna_pflash_niah.py:141-175 | these conditions leave exactly one expansion |
| TokenRecovery.SortFacts | server/scripts/laguna_pflash_niah.py:181-181 | sorting keeps the runs as a multiset and orders them |
| TokenRecovery.MergeOverlapping | server/scripts/laguna_pflash_niah.py:178-189 | covers precisely the union of its input in increasing runs separated by at least one position |
| TokenRecovery.ExpandAll | server/scripts/laguna_pflash_niah.py:201-203 | every run is replaced by its expansion |
| TokenRecovery.Emit | server/scripts/laguna_pflash_niah.py:205-207 | the tokens at the merged positions |
| TokenRecovery.PipelineFaithful | server/scripts/laguna_pflash_niah.py:192-210 | kept tokens are a subsequence of the emitted ones, these a subsequence of the full ones at increasing positions, with at most 48 extra per run |
| TokenRecovery.RecoverTokens | server/scripts/laguna_pflash_niah.py:199-207 | matching, grouping, widening and merging succeed exactly for subsequences and then have all of these properties |
| TokenRecovery.CrossTokCompressed | server/scripts/laguna_pflash_niah.py:192-210 | the whole function: the same, with the text decoded from the emitted tokens and its encoding by the target tokenizer |
| TokenRecovery.GluedText | server/scripts/laguna_pflash_niah.py:208-208 | with a tokenizer that decodes piece by piece the text is the emitted tokens' own texts end to end |
| PipeFraming.Pipe.Read | server/scripts/laguna_pflash_niah.py:245-245 | any non-empty piece of at most n bytes, empty only at end of file |
| PipeFraming.Pipe.ReadWord | server/scripts/laguna_pflash_niah.py:243-247 | exactly the next four bytes however they arrive, or end of file |
| PipeFraming.Pipe.Compress | server/scripts/laguna_pflash_niah.py:240-252 | the tokens before the first sentinel, the stream left just behind it, or the end-of-file error |
| PipeFraming.ReplyRoundTrip | server/scripts/laguna_pflash_niah.py:241-250 | a reply without -1 is read back and the rest is untouched |
| PipeFraming.ReplyExact | server/scripts/laguna_pflash_niah.py:248-250 | it is read back unchanged exactly when no token is -1 |
| PipeFraming.CompressMany | server/scripts/laguna_pflash_niah.py:232-252 | any number of successive calls each return their own reply, for every fragmentation |
| PrefillDecoder.Decoder.constructor | optimizations/megakernel/model_nvfp4.py:502-593 | zeroed caches, position 0, no graphs; graphs are enabled only for the hybrid NVFP4 mode |
| PrefillDecoder.Decoder.EnsurePrefillBuffers | optimizations/megakernel/model_nvfp4.py:595-628 | the capacity suffices and never shrinks; a new buffer only when needed |
| PrefillDecoder.Decoder.ResetRuntimeState | optimizations/megakernel/model_nvfp4.py:630-635 | zeroed caches and position 0 |
| PrefillDecoder.Decoder.RunPrefill | optimizations/megakernel/model_nvfp4.py:637-674 | one kernel call on the current caches |
| PrefillDecoder.Decoder.BuildPrefillGraph | optimizations/megakernel/model_nvfp4.py:676-696 | a graph with an id buffer of exactly its length and enough scratch is cached; the warm-up's traces are those of a zero-token prefill |
| PrefillDecoder.Decoder.PrefillGraphState | optimizations/megakernel/model_nvfp4.py:698-702 | the cached graph, or a new one |
| PrefillDecoder.Decoder.Replay | optimizations/megakernel/model_nvfp4.py:817-817 | reset and prefill on the captured ids, position untouched |
| PrefillDecoder.Decoder.PrefillByGraph | optimizations/megakernel/model_nvfp4.py:814-817 | the graph branch gives the caches, hidden state and token of an uncached prefill |
| PrefillDecoder.Decoder.PrefillTokens | optimizations/megakernel/model_nvfp4.py:771-825 | with or without graphs and whatever was called before, the observable state is that of the plain machine; the exact errors |
| PrefillDecoder.Decoder.DecodeStep | optimizations/megakernel/model_nvfp4.py:704-740 | one decode kernel at the current position |
| PrefillDecoder.Decoder.DecodeMany | optimizations/megakernel/model_nvfp4.py:742-769 | the exact errors, nothing for zero steps, and otherwise one launch that advances the position by the number of steps and leaves its last token |
| PrefillDecoder.Decoder.Call | optimizations/megakernel/model_nvfp4.py:704-828 | every public call refines the plain machine |
| PrefillDecoder.Decoder.Run | optimizations/megakernel/model_nvfp4.py:704-828 | every sequence of calls refines the plain machine, cached lengths never disappear and the capacity never shrinks |
| PrefillDecoder.GraphsAreInvisible | optimizations/megakernel/model_nvfp4.py:771-825 | a decoder with graphs and one without stay indistinguishable over every sequence of calls |
| PrefillDecoder.PrefillForgetsHistory | optimizations/megakernel/model_nvfp4.py:813-825 | after a prefill nothing of the earlier history is observable |
| PrefillDecoder.ApplySplit | optimizations/megakernel/model_nvfp4.py:704-828 | running two call sequences one after the other is running their concatenation |
| WeightTables.PackInto | optimizations/megakernel/model_nvfp4.py:447-447 | writes the bytes at the offset and disturbs nothing else |
| WeightTables.PackPointers | optimizations/megakernel/model_nvfp4.py:448-449 | consecutive pointer slots |
| WeightTables.PackStruct | optimizations/megakernel/model_nvfp4.py:466-471 | one struct at its offset, earlier bytes untouched, pointers beyond the limit spilling behind it; fails exactly when a word or a position does not fit |
| WeightTables.PackLayers | optimizations/megakernel/model_nvfp4.py:436-473 | the whole table, for both slot counts and any layers: it fails exactly when a header word does not fit or a layer's pointers run past the end of the table, and otherwise holds every header and the first slots of every layer |
| WeightTables.TableReadsBack | optimizations/megakernel/torch_bindings.cpp:30-42 | every header word, pointer and null slot of every layer is found at its C struct offset |
| WeightTables.PackLayerWeights | optimizations/megakernel/model_nvfp4.py:436-453 | structs of 128 bytes: type, three zero words, 14 pointers; the exact failure |
| WeightTables.PackLayerWeightsNvfp4 | optimizations/megakernel/model_nvfp4.py:456-473 | structs of 208 bytes: type, group size, two zero words, 24 pointers; the exact failure |
| WeightTables.PackFused | optimizations/megakernel/model_nvfp4.py:476-496 | six pointers per layer, absent ones null |
| WeightTables.FusedReadsBack | optimizations/megakernel/torch_bindings.cpp:46-53 | every field of every struct is found at its offset, absent ones as null pointers |
| RoutingRecords.LoadRecords | scripts/train_predictor.py:86-113 | the cursor loop computes the meaning of the byte stream |
| RoutingRecords.WholeRecordsExact | scripts/train_predictor.py:100-103 | the number of records wholly inside a prefix is the largest one whose bytes fit |
| RoutingRecords.TruncationSafe | scripts/train_predictor.py:94-113 | for every width, loading a byte prefix of a record stream returns exactly the records wholly contained in it if and only if the prefix does not end right behind a bare header; with hidden states it never does |
| RoutingRecords.LoadedPrefix | scripts/train_predictor.py:94-113 | what is loaded from every byte prefix |
| RoutingRecords.EndsBareMeaning | scripts/train_predictor.py:94-94 | that condition in terms of the whole records of the prefix |
| RoutingRecords.CompleteStream | scripts/train_predictor.py:94-94 | for every width: a complete stream is loaded completely exactly when its last record is longer than a bare header |
| RoutingRecords.PaddingRoundTrip | scripts/train_predictor.py:125-130 | dropping the padding gives back an expert list exactly when it has no negative entry |
| RoutingRecords.PadExperts | scripts/train_predictor.py:124-130 | all rows padded with -1 to the largest count, which is attained |
| RoutingPairs.LoadShuffled | scripts/train_predictor.py:150-208 | the whole tokens of all files in shuffled order, end to end; failure exactly when there are none |
| RoutingPairs.LoadExperts | scripts/train_predictor.py:148-203 | the expert rows of all blocks padded to the widest contributing file, shuffled and concatenated |
| RoutingPairs.RowsFit | scripts/train_predictor.py:167-173 | no row of a contributing file is wider than the global width |
| RoutingPairs.WidthUsed | scripts/train_predictor.py:167-173 | and the width is that of a contributing file |
| RoutingPairs.PaddingInvisible | scripts/train_predictor.py:187-194 | the second padding gives all rows one width and changes nothing for consumers that skip negative entries |
| RoutingPairs.Chop | scripts/train_predictor.py:157-179 | one block per whole token, the remainder dropped |
| RoutingPairs.BuildCrossLayerPairs | scripts/train_predictor.py:285-311 | the exact failures, and the pair that belongs at every sample index |
| RoutingPairs.PairsStayInToken | scripts/train_predictor.py:196-203 | after any shuffle every pair joins layer l and l + 1 of one original token |
| RoutingPairs.KeptAll | scripts/train_predictor.py:502-507 | the filtered index list holds, in ascending order, exactly the unskipped indices of its range |
| RoutingPairs.NoTokenOnBothSides | scripts/train_predictor.py:492-507 | no original token has samples in both train and test, with or without skipped layers |
| SseFormat.FrameReadsBack | harness/clients/llamacpp_compat_proxy.py:340-342 | a frame is parsed back by the event-stream rules (section 9.2.6 of the WHATWG HTML standard) |
| SseFormat.StreamReadsBack | harness/clients/llamacpp_compat_proxy.py:339-343 | a written stream parses back to exactly its events |
| ProxyStreams.ResponsesSse | harness/clients/llamacpp_compat_proxy.py:302-338 | the loop appends the bracketed events of all items |
| ProxyStreams.AppendItem | harness/clients/llamacpp_compat_proxy.py:308-337 | the events of one item |
| ProxyStreams.ReplayItem | harness/clients/llamacpp_compat_proxy.py:308-337 | a client that trusts only brackets, indices, names and deltas rebuilds one item and its body |
| ProxyStreams.ResponsesReplay | harness/clients/llamacpp_compat_proxy.py:302-338 | replaying any answer never breaks that client and yields all items with their bodies in order |
| ProxyStreams.ResponsesAnswer | harness/clients/llamacpp_compat_proxy.py:228-249 | the rebuilt answer is the text when there are no tool calls, and otherwise every call with its id, name and arguments, without the text |
| ProxyStreams.ResponsesJson | harness/clients/llamacpp_compat_proxy.py:231-249 | the loop over the tool calls gives one item each with its id, name and arguments, or else one message |
| ProxyStreams.AnthropicSse | harness/clients/llamacpp_compat_proxy.py:346-368 | the loop appends the bracketed events of all blocks |
| ProxyStreams.AnthropicReplay | harness/clients/llamacpp_compat_proxy.py:346-368 | replaying yields every block with its text or JSON in order, and the stop reason |
| ProxyStreams.AnthropicAnswer | harness/clients/llamacpp_compat_proxy.py:267-285 | here non-empty text is never dropped, and every call follows with its arguments parsed and printed again |
| ProxyStreams.AnthropicJson | harness/clients/llamacpp_compat_proxy.py:268-293 | text first if any or alone, then one block per call, and the stop reason that says whether there were calls |
| ProxyStreams.WireReadsBack | harness/clients/llamacpp_compat_proxy.py:369-372 | framing and unframing any event list is the identity |
| ProxyStreams.ResponsesEndToEnd | harness/clients/llamacpp_compat_proxy.py:302-343 | from the bytes of a Responses stream the answer is rebuilt |
| ProxyStreams.AnthropicEndToEnd | harness/clients/llamacpp_compat_proxy.py:346-372 | from the bytes of an Anthropic stream the answer is rebuilt |
| BoxedAnswers.ScanMeaning | harness/math_scoring.py:22-30 | the depth scan closes at a position exactly when a balanced content and its closing brace end there |
| BoxedAnswers.FindClose | harness/math_scoring.py:23-30 | the inner loop computes that scan |
| BoxedAnswers.ExtractBoxed | harness/math_scoring.py:14-34 | the last of the complete boxes, or none, for every text |
| BoxedAnswers.StripMeaning | harness/math_scoring.py:32-32 | stripping removes exactly the longest blank beginning and end |
| BoxedAnswers.BoxThenRest | harness/math_scoring.py:18-33 | the first complete box contributes its stripped content and the text behind it is scanned like a text of its own |
| BoxedAnswers.UnclosedBox | harness/math_scoring.py:25-33 | an unclosed box hides everything after its opener |
| BoxedAnswers.BoxesOfPieces | harness/math_scoring.py:16-33 | any number of complete boxes with text between them contribute their stripped contents in order, whatever follows |
| BoxedAnswers.EarlierBoxesKept | harness/math_scoring.py:31-34 | an unclosed trailing box is ignored and all boxes before it count |
| BoxedAnswers.PartsAnswer | harness/math_scoring.py:14-34 | for a text of complete boxes, then plain text, then nothing or an unclosed box, exactly the contents of the complete boxes are found |
| BoxedAnswers.Decompose | harness/math_scoring.py:14-34 | every text is of that form |
| BoxedAnswers.WrapRoundTrip | harness/math_scoring.py:14-34 | wrapping any balanced string between texts without openers is undone up to surrounding whitespace |
| ChunkedRelay.HexReadsBack | harness/clients/session_inject_proxy.py:74-74 | the upper-case hexadecimal size, written without leading zeros, is read back |
| ChunkedRelay.ChunkReadsBack | harness/clients/session_inject_proxy.py:74-77 | one chunk is read back (section 7.1 of RFC 9112) |
| ChunkedRelay.ChunksReadBack | harness/clients/session_inject_proxy.py:67-78 | a decoder recovers the concatenation of any non-empty chunks and stops behind the terminal chunk |
| ChunkedRelay.Relay | harness/clients/session_inject_proxy.py:63-78 | however the upstream body is split into reads of at most 4096 bytes, the client recovers exactly that body |

## Left out

- Rounding inside numpy, torch and the kernels: `Convrot` and draft scores are exact reals, so NaN and infinite weights or
  log-probabilities are not modelled; device kernels, the target model and the drafter are uninterpreted functions.
- The conditional (SpecLA) tree builder with eager siblings, top-K extraction from logits, sampled verification, the token budget
  hook, cancellation, the KV pager, the drafter's feature ring and adaptive draft width.
- Drafts are given as L rows of K choices instead of two flat buffers; a non-finite margin is the constructor Unbounded.
- SpeculativeDecoding.Decode: tree drafts are shallower than the target's sliding window, outside of which `KvRows.DeepSlotDiffers` shows the pass itself to be wrong; the moment of handing over to the autoregressive tail is a parameter (the end of the round list), because it depends on the budget hook; a pass that does not fit the cache is a failure in all three kinds of step.
- SpeculativeDecoding.TreeRound: that nothing acceptable is left out needs rows of distinct tokens, as a top-K extraction gives; of two equal siblings the child map keeps one.
- SpeculativeDecoding.LongestAccepted: needs child maps without repeated tokens, which is what `BuiltUnambiguous` provides for rows of distinct tokens.
- DraftTree.BuildTree: the optimality clause needs rows sorted by non-positive log-probability, as the top-K extraction produces them.
- PagedKvPool.StaleStaysStale: needs fewer than 2^64 - 1 acquisitions of the slot, after which the 64-bit generation repeats.
- The C++ free lists are binary heaps; the pool models them as ascending sequences with the same take-lowest behaviour. The snapshot
  getters, out-of-memory states and the rest of the C++ engine (scheduler, prefix cache, HTTP server) are not modelled.
- FP8 (E4M3) dequantization, safetensors shards, the VAE and latent entries of the image converter, and the checkpoint's key list.
- The ggml quantizers are an abstract encoder; `GgufWriter.AssertsNeverFire` assumes only that it returns whole blocks, which
  `Mxfp4File.RepackFills` proves for packed FP4 sources.
- GgufWriter.FileOpens: the reader's file-size and 64-bit overflow limits and the alignment override key are not modelled; float values are given by their packed bits.
- MossPlan.Plan.Write: the GGUF container calls of gguf-py are not modelled, only declared sizes, thunk order and payloads.
- PrefillDecoder.Decoder.Call: text generation and the contents of scratch buffers are not modelled.
- RoutingRecords.LoadRecords: a negative expert count ends in the outcome NegativeCount, where numpy would read to the end of the buffer or the cursor could stall.
- RoutingPairs.LoadShuffled: the shuffle is a parameter, and so is the train share in `NoTokenOnBothSides`; layer count 0 is excluded because Python would divide by zero.
- ProxyStreams.WireReadsBack: the JSON codec is a pair of functions that print one line and invert each other; usage numbers, generated ids and defaults for incomplete calls, and the request-side message mapping are not modelled.
- BoxedAnswers.ExtractBoxed: the whitespace set of `str.strip` is a parameter; answer normalisation and numeric comparison are not modelled.
- ChunkedRelay.ChunksReadBack: chunk extensions and trailer fields, which the relay never writes, are not accepted by the decoder.
- `summarize_backend_pair.py`, the prompt-length search of `phase_split_dual_gpu.py`, benchmark drivers and report rendering: easier than what is here.

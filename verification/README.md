# Verified model of the routing, caching and reference-kernel core

This project models the parts of the workspace that carry state, arithmetic or meaning, and proves
what they promise. `dafny verify dfyconfig.toml` checks the whole project.

- **Whole-workload planner** (`ExecutionPlan.dfy`, `PlanTheorems.dfy`, `PlanCanonical.dfy`,
  `PlanSteps.dfy`, `PlanRounding.dfy`, `PlanArithmetic.dfy`, on the routing types of `Core.dfy`). A layered dynamic
  program over backends followed by a back-pointer walk. Costs are reals and every addition passes
  through an arbitrary rounding function carried by the planner. Optimality, and canonical
  tie-breaking among the assignments that are cheapest throughout, only need rounding to be
  monotone, so they cover floating-point sums, also where these overflow to infinity. The exact
  condition under which the plan comes first among all assignments of its cost is a condition on
  the rounding; 64-bit floats at large do not meet it, whole numbers within their exact range do.
- **Reference attention** (`AttentionSpec.dfy`, `FlatAttention.dfy`, `AttentionReference.dfy`,
  `AttentionBuffers.dfy`, `AttentionProtocol.dfy`).
  The in-place loops over flat buffers, with the reused scratch buffer of scores, are proved to compute
  textbook softmax attention over the reals for any exponential that is positive, maps 0 to 1 and turns
  sums into products. Decode against prefill and grouped against multi-head attention are theorems about
  that specification and about the flat buffers.
- **KV cache and residency cache** (`KvCache.dfy`, `Residency.dfy`, on `Lru.dfy` and `Ordering.dfy`).
  Each class method is proved equal to a value-level step; the steps keep exact byte accounting over
  every run and, until the 64-bit clock wraps, answer exactly as a recency list without timestamps.
- **Matrix product** (`GemmReference.dfy`, `ColumnMajor.dfy`, `HipSharedGemm.dfy`). The i-k-j loop is proved equal to the
  ordered dot product for uninterpreted arithmetic, and to alpha A B + beta C over the reals; the
  operand-swapped column-major call leaves the same flat buffer.
- **Binary protocols** (`GemmProtocol.dfy`, `SharedGemmProtocol.dfy`, `AttentionProtocol.dfy`, on
  `LittleEndian.dfy` and `Float32.dfy`). Floats are 32-bit patterns (section 3.4 of IEEE 754-2019), and
  all length arithmetic is bounded by 2^64. `WireLayout.dfy` gives every message byte by byte.
- **Autotune projection** (`Autotune.dfy`). The keyed record list refines a finite map, and its
  projection into the routing table agrees with direct lookup.

`usize` is 64 bits wide and memory is unlimited throughout. A mutex-protected call is one atomic step.
A provider, a rounding function, an exponential and float addition and multiplication are parameters.

Where the code does less than one might expect, the model says what it does and when:

- A repeated probe id overwrites its layer entry, so a cheaper earlier probe of the id is lost. The
  exact condition for optimality over probes is `PlanTheorems.NeverBeatenExactly`.
- A plan can come later in the tie-breaking order than another assignment of its cost, because a late
  large sum rounds an early difference away. `PlanRounding.CanonicalExactly` is the exact condition,
  `PlanArithmetic.RoundingHidesTies` an input, and `PlanArithmetic.WholePlanIsCanonical` a condition a
  caller can check.
- A request without C is refused when m times n does not fit 64 bits (`GemmProtocol.EncodableExactly`,
  `GemmProtocol.AbsentCIsMeasured`).
- A shared control can be valid although its byte lengths are not representable
  (`SharedGemmProtocol.LengthsExact`, `SharedGemmProtocol.ValidWithoutLengths`).
- A receipt that does not fit is reported after the C buffer has been overwritten
  (`HipSharedGemm.ExecuteWindows`).
- A request whose C region overlaps an operand is admitted (`HipSharedGemm.OverlapIsAdmitted`).
- After 2^64 - 1 ticks the entry just read can be the next victim (`KvCache.WrapIsReached`).

## Model

| member | source | states |
|---|---|---|
| ExecutionPlan.Plan | crates/vrb-execution-plan/src/lib.rs:88-188 | Planning succeeds exactly when every request has a compatible available probe; otherwise it reports the least request that has none; a success is traced from a complete table of layers, so no `expect` can fire |
| ExecutionPlan.BuildLayer | crates/vrb-execution-plan/src/lib.rs:109-151 | A layer holds an entry for exactly the backend ids that can serve the request, each with its cheapest way in and the smallest id among equally cheap ones; a repeated id is represented by its last probe |
| ExecutionPlan.BestState | crates/vrb-execution-plan/src/lib.rs:128-149 | The chosen predecessor is no worse than any other entry of the previous layer, ties going to the smaller id |
| ExecutionPlan.Planner.New | crates/vrb-execution-plan/src/lib.rs:75-86 | Construction keeps the three costs exactly when all are finite and non-negative, and otherwise names the first that is not |
| ExecutionPlan.Cheapest | crates/vrb-execution-plan/src/lib.rs:154-161 | Visiting the keys of an ordered map in order and keeping the first cheapest finds the minimum by cost, then by key |
| ExecutionPlan.Reconstruct | crates/vrb-execution-plan/src/lib.rs:162-183 | Collecting steps backwards and reversing them is the trace that the back pointers describe; the walk never leaves the table |
| ExecutionPlan.TransitionCostTable.Record | crates/vrb-execution-plan/src/lib.rs:20-30 | Recording succeeds exactly for finite non-negative costs and then updates that one pair; a refusal changes nothing |
| PlanTheorems.PlanLedger | crates/vrb-execution-plan/src/lib.rs:154-187 | A plan has one step per request, each on a backend serving it, each cumulative cost is the previous one plus the transition between the two chosen backends plus the operator cost, and the last one is the estimate |
| PlanSteps.PlanStepsExactly | crates/vrb-execution-plan/src/lib.rs:88-214 | Every step of every plan, from the inputs alone: its backend is the id of a fitting probe and it is charged for the last such probe, the first recorded median if that is finite and non-negative and the bootstrap cost of its kind otherwise; the transition is 0 on the same backend, the recorded cost of the ordered pair, or the default; and the running total adds transition, then operator |
| PlanSteps.StayingIsFree | crates/vrb-execution-plan/src/lib.rs:205-213 | With exact sums a plan that stays on one backend is estimated at the sum of its operator costs |
| PlanSteps.PathCostExactly | crates/vrb-execution-plan/src/lib.rs:101-202 | The cost of any assignment is built from the same charges and moves |
| PlanSteps.ServesExactly | crates/vrb-execution-plan/src/lib.rs:101-107 | An id may serve a request exactly when some available probe of that id has the operation, the data type and every required capability; a request has no candidate exactly when no probe fits it |
| PlanSteps.RepresentativeIsLast | crates/vrb-execution-plan/src/lib.rs:109-150 | The probe a layer entry speaks for is the last fitting one of its id |
| PlanTheorems.EntryIsLowerBound | crates/vrb-execution-plan/src/lib.rs:98-152 | Every table entry is a lower bound on the left-to-right cost of every assignment that ends in it |
| PlanTheorems.PlanIsOptimal | crates/vrb-execution-plan/src/lib.rs:98-162 | For every monotone rounding, the estimate is the cost of the plan's own assignment and at most the cost of every assignment of serving backends |
| PlanTheorems.FairPlanBeatsEveryChoice | crates/vrb-execution-plan/src/lib.rs:98-162 | If no compatible probe is charged less, unmeasured, than the last compatible probe of its id, the estimate is at most the cost of every choice of a compatible probe per request, each probe charged for itself |
| PlanTheorems.UnfairIsBeaten | crates/vrb-execution-plan/src/lib.rs:109-150 | If some compatible probe is charged less than the last compatible probe of its id, some measurements make it alone beat the plan of a single request, for every rounding |
| PlanTheorems.NeverBeatenExactly | crates/vrb-execution-plan/src/lib.rs:98-162 | Over all request lists and measurements, a planner is never beaten by a choice of compatible probes exactly when its price list is fair in that sense |
| PlanTheorems.PlanBeatsEveryChoice | crates/vrb-execution-plan/src/lib.rs:98-162 | Distinct probe ids make every price list fair, so then the estimate is at most the cost of every choice of compatible probes |
| PlanTheorems.RepeatedIdOverwrites | crates/vrb-execution-plan/src/lib.rs:109-150 | An unfair list: a GPU followed by a CPU with the same id make the estimate 1040 although the GPU would be charged 1000 |
| PlanTheorems.RankedPlanBeatsGreedy | crates/vrb-core/src/lib.rs:219-257 | If for every request the best-ranked compatible probe is priced fairly, the estimate never exceeds the cost of the probes that routing every request on its own settles on, each charged for itself |
| PlanTheorems.PlanBeatsGreedy | crates/vrb-core/src/lib.rs:219-257 | In particular under a fair price list |
| PlanTheorems.PlanExists | crates/vrb-execution-plan/src/lib.rs:95-181 | Every workload whose requests all have a candidate has a plan |
| PlanTheorems.PlanBeatsRoutedIds | crates/vrb-core/src/lib.rs:219-257 | Under any price list it never exceeds the cost of the routed ids when each is charged what the planner charges that id |
| PlanCanonical.TraceIsLeast | crates/vrb-execution-plan/src/lib.rs:128-149 | For every rounding, the trace into an entry is the least, last step first, among the assignments whose every prefix costs what the table records |
| PlanCanonical.TightIsCheapest | crates/vrb-execution-plan/src/lib.rs:98-152 | For every monotone rounding a prefix costs what the table records exactly when no assignment reaches the same backend more cheaply |
| PlanCanonical.PlanIsCanonical | crates/vrb-execution-plan/src/lib.rs:154-181 | For every monotone rounding, the plan is the least, last step first by backend id, among the assignments of its cost that reach each of their backends as cheaply as any |
| PlanCanonical.PlanIsCheapestThroughout | crates/vrb-execution-plan/src/lib.rs:154-181 | The plan itself reaches each of its backends as cheaply as any assignment does |
| PlanRounding.ApartPlanIsCanonical | crates/vrb-execution-plan/src/lib.rs:128-181 | For every monotone rounding: if no two assignments that reach a backend at different costs cost the same after the same next request, the plan is the least among all assignments of its cost |
| PlanRounding.CanonicalExactly | crates/vrb-execution-plan/src/lib.rs:128-181 | For every monotone rounding and every class of non-negative numbers closed under rounded sums: over all workloads whose charges and moves are such numbers the plan is always the least among all assignments of its cost exactly when no fork of such numbers merges, that is, when two different costs of reaching a backend still differ after one more move and operator |
| PlanRounding.MergeHidesTie | crates/vrb-execution-plan/src/lib.rs:133-138 | On every workload shaped like a merging fork the plan goes through "b" although the assignment through "a" has the same cost and comes first; that one is not cheapest throughout |
| PlanRounding.ListedIsFork | crates/vrb-execution-plan/src/lib.rs:128-139 | Every fork of non-negative numbers has such a workload |
| PlanArithmetic.ExactPlanIsCanonical | crates/vrb-execution-plan/src/lib.rs:128-181 | With exact sums, more generally with a strictly monotone rounding, the plan is the least among all assignments of its cost; this is sufficient and not necessary |
| PlanArithmetic.CanonicalRoundingExactly | crates/vrb-execution-plan/src/lib.rs:75-181 | A monotone rounding makes every accepted planner return the least assignment of its cost on every workload exactly when no fork of non-negative numbers merges under it |
| PlanArithmetic.FlooredIsCanonical | crates/vrb-execution-plan/src/lib.rs:128-181 | Rounding down to whole numbers is not strictly monotone, and the plan is still always the least among all non-negative workloads |
| PlanArithmetic.ValidatedIsPriced | crates/vrb-execution-plan/src/lib.rs:75-86 | Every workload of a planner its constructors accept has non-negative charges and moves, so the exact condition covers it |
| PlanArithmetic.RoundingHidesTies | crates/vrb-execution-plan/src/lib.rs:133-138 | With a rounding that keeps 50, 51 and 2^60 and sends 2^60 + 50 and 2^60 + 51 to 2^60, as 64-bit floats do: charges of 1 and 0, moves of 50 and then 2^60 make the plan go through "b" although the assignment through "a" costs 2^60 as well and comes first |
| PlanArithmetic.FloatsAreNotCanonical | crates/vrb-execution-plan/src/lib.rs:133-138 | So no class of numbers with such a rounding that holds 1, 50 and 2^60 is always canonical |
| PlanArithmetic.WholePlanIsCanonical | crates/vrb-execution-plan/src/lib.rs:128-202 | If rounding keeps whole numbers up to a limit, such as 2^53, all costs the planner reads are whole, and the number of requests times the sum of the largest charge and the largest move stays within the limit, the plan is the least among all assignments of its cost |
| PlanArithmetic.SaturatingSum | crates/vrb-execution-plan/src/lib.rs:128-138 | Float sums that overflow to infinity are, sum for sum and in the same order, sums of reals under a monotone rounding that sends everything too large to one number above all others |
| PlanArithmetic.FloatPlanIsOptimal | crates/vrb-execution-plan/src/lib.rs:98-162 | Also where sums overflow, the estimate is the float cost of the plan's own assignment and no assignment of serving backends comes before it |
| PlanCanonical.SamePlan | crates/vrb-execution-plan/src/lib.rs:88-188 | The plan is determined by which backends serve each request and what each charges |
| PlanCanonical.PlanIgnoresProbeOrder | crates/vrb-execution-plan/src/lib.rs:101-104 | With distinct probe ids every permutation of the probe list gives the same plan |
| PlanCanonical.PlanReadsUsableMedians | crates/vrb-execution-plan/src/lib.rs:196-202 | Two tables that agree on finite non-negative medians give the same plan, whatever else they hold |
| Core.PerformanceTable.Record | crates/vrb-core/src/lib.rs:171-181 | Replaces the first record of the same backend, operation and data type, or appends |
| Core.RecordedIsUpdate | crates/vrb-core/src/lib.rs:171-197 | After recording, the median of the recorded key is the new one and every other median is unchanged |
| Core.MedianIsFirst | crates/vrb-core/src/lib.rs:183-197 | A lookup answers with the first record that has its backend, operation and data type |
| Core.SelectExact | crates/vrb-core/src/lib.rs:219-257 | Routing fails exactly when no probe is compatible; otherwise measured probes win by least latency, and without any measurement the best bootstrap rank wins |
| Core.RoutedIsFirst | crates/vrb-core/src/lib.rs:219-257 | Of equally good fitting probes the first one is routed to: it is strictly better than every fitting probe before it, and no fitting probe after it is strictly better |
| Core.FastestIsFastest | crates/vrb-core/src/lib.rs:228-239 | The measured choice exists exactly when some candidate has a finite non-negative median, and none is faster |
| Autotune.ShapeExact | crates/vrb-autotune/src/lib.rs:47-58 | A shape is valid exactly when it has dimensions, none is zero, the alignment is a power of two and the full product fits 64 bits; overflow is reported exactly when only the last fails |
| Autotune.ValidExactly | crates/vrb-autotune/src/lib.rs:86-95 | A record is valid exactly when no environment field is blank, its shape is valid, its median is finite and non-negative and it has samples |
| Autotune.RecordAnswers | crates/vrb-autotune/src/lib.rs:26-95 | The first reason against a record, in order: a blank field of its environment by name, its shape, its alignment, its product, its latency, its samples |
| Autotune.PowersOfTwo | crates/vrb-autotune/src/lib.rs:51-53 | An alignment passes exactly when it is 2^e for some e |
| Autotune.BlankExactly | crates/vrb-autotune/src/lib.rs:33-35 | A field is blank exactly when every character is one of the 25 white-space code points |
| Autotune.AutotuneDatabase.Record | crates/vrb-autotune/src/lib.rs:114-126 | Answers with the record's validation; a valid record replaces the first one of its key or is appended, an invalid one changes nothing |
| Autotune.AutotuneDatabase.PerformanceTableFor | crates/vrb-autotune/src/lib.rs:133-156 | Returns a fresh table with the rows of exactly this environment and shape recorded in order, or the first error among environment, shape and those rows |
| Autotune.RunRefinesMap | crates/vrb-autotune/src/lib.rs:114-131 | After any run of record calls on an empty database, keys are unique, records are valid, and lookup is exactly the finite map updated by the valid records |
| Autotune.ProjectionAnswersLast | crates/vrb-autotune/src/lib.rs:140-154 | On any record list the projected median of a key is the median of the last record of that key |
| Autotune.ProjectedRow | crates/vrb-autotune/src/lib.rs:140-154 | Every row of a projection is a record of that environment and shape, with its backend, operation, data type, median and sample count |
| Autotune.UniqueKeysAgree | crates/vrb-autotune/src/lib.rs:129-131 | With unique keys the first and the last record of a key are the same |
| Autotune.ProjectionAgrees | crates/vrb-autotune/src/lib.rs:114-156 | After any run, projecting a valid environment and shape succeeds, and for every backend, operation and data type the table's median is the one lookup finds under the full key |
| KvModel.AppendExact | crates/vrb-kv-cache/src/lib.rs:90-148 | Append succeeds exactly when the block is valid, continues its entry and the entry plus the block fits the capacity; any error leaves the cache as it was; a success extends its own entry and changes no surviving one |
| KvModel.AppendAnswers | crates/vrb-kv-cache/src/lib.rs:90-148 | What append answers: the first reason against the block, in order and with its numbers, or success |
| KvModel.EvictForMakesRoom | crates/vrb-kv-cache/src/lib.rs:194-218 | Eviction for an entry that fits together with the block always makes room and keeps the byte count exact |
| KvModel.EvictForEntries | crates/vrb-kv-cache/src/lib.rs:194-218 | Eviction only removes entries and never the protected one |
| KvModel.ViewExact | crates/vrb-kv-cache/src/lib.rs:150-169 | A read never fails, reports the blocks with their byte sum and token count, and changes only the clock and one timestamp |
| KvModel.RunKeepsInv | crates/vrb-kv-cache/src/lib.rs:90-182 | Every run, also across clock wraps, keeps every entry non-empty and contiguous from token 0, entry bytes equal to the block sum, and total bytes equal to the entry sum within capacity |
| KvModel.RunEntries | crates/vrb-kv-cache/src/lib.rs:90-182 | After every run each entry holds blocks, the first at token 0 and each of the others at the end of the one before, and its byte count is the sum of theirs |
| KvModel.SameVictims | crates/vrb-kv-cache/src/lib.rs:194-218 | The timestamp loop evicts exactly the least recently used prefix of the other entries that the recency list prescribes |
| KvModel.RunRefinesList | crates/vrb-kv-cache/src/lib.rs:90-182 | Until the clock wraps, that is for fewer than 2^64 reads and accepted appends among any number of other calls, every run answers exactly as a recency-ordered list with neither clock nor byte counters, and with the same eviction count |
| KvCache.WrapForgetsRecency | crates/vrb-kv-cache/src/lib.rs:150-156 | After a read that wraps the clock, the entry just read is the next victim exactly when every other entry has a timestamp above 1, or 1 and a larger key |
| KvCache.WrapIsReached | crates/vrb-kv-cache/src/lib.rs:90-169 | A run of two appends and then reads of a missing key leads to a cache whose clock is at its limit and in which the entry read next is the next victim |
| KvCache.KvCache.New | crates/vrb-kv-cache/src/lib.rs:77-88 | Only a zero capacity is refused; a new cache is empty and satisfies the invariant |
| KvCache.KvCache.EvictFor | crates/vrb-kv-cache/src/lib.rs:194-218 | The loop terminates on the number of entries and is exactly the specified eviction, including its error |
| KvCache.KvCache.Append | crates/vrb-kv-cache/src/lib.rs:90-148 | The imperative append is exactly the value-level append: same state, same answer |
| KvCache.KvCache.View | crates/vrb-kv-cache/src/lib.rs:150-169 | The imperative read is exactly the value-level one |
| KvCache.KvCache.Remove | crates/vrb-kv-cache/src/lib.rs:171-177 | Removes one entry and its bytes, and tells whether it was there |
| KvCache.KvCache.Clear | crates/vrb-kv-cache/src/lib.rs:179-182 | Drops all entries and bytes and keeps clock and eviction count |
| KvCache.KvCache.Stats | crates/vrb-kv-cache/src/lib.rs:184-192 | Counts entries and all blocks of all entries |
| Lru.EvictsOldest | crates/vrb-kv-cache/src/lib.rs:194-218 | The loop that repeatedly removes the smallest timestamp removes a prefix of the recency list |
| Lru.OldestIsShortest | crates/vrb-kv-cache/src/lib.rs:195-199 | That prefix is the shortest one that frees enough bytes |
| Lru.VictimIsFirstOldest | crates/vrb-kv-cache/src/lib.rs:200-205 | The victim is what iterating the ordered map and keeping the first entry with the smallest timestamp finds |
| Lru.EvictAccounts | crates/vrb-residency/src/lib.rs:158-180 | The loop keeps the byte count exact, removes only entries it counts, and succeeds whenever the pinned bytes fit |
| ResidencyModel.AcquireExact | crates/vrb-residency/src/lib.rs:124-204 | Success hands out an allocation with exactly the requested spec that is then resident; the spec is invalid exactly for a negative device or no bytes, and the capacity is exceeded exactly when the request alone exceeds it, both with the request's own numbers and no change; any other request is answered with the resident allocation of that spec or with what the provider said |
| ResidencyModel.MissClosedForm | crates/vrb-residency/src/lib.rs:150-203 | On a miss the stale generation goes first, then the victims among the other entries, and the key is present afterwards exactly when the provider returned the requested spec |
| ResidencyModel.EvictForMakesRoom | crates/vrb-residency/src/lib.rs:158-180 | The eviction loop makes room for every request that fits the capacity |
| ResidencyModel.RunKeepsInv | crates/vrb-residency/src/lib.rs:124-226 | After every call of every run, resident bytes are the exact sum of the live specs and within capacity, whatever the provider does |
| ResidencyModel.RunAnswers | crates/vrb-residency/src/lib.rs:124-190 | The same for every call of every run: refusals exactly for a negative device, no bytes or too many, and otherwise an allocation with the requested spec or what the provider said |
| ResidencyModel.RunConserves | crates/vrb-residency/src/lib.rs:137-226 | Over every run with fewer than 2^64 lookups, misses are live entries plus evictions plus failed opens, and hits plus misses are the lookups |
| ResidencyModel.SameVictims | crates/vrb-residency/src/lib.rs:158-180 | After the stale generation is gone, the victims are the shortest least recently touched prefix that makes room |
| ResidencyModel.RunRefinesList | crates/vrb-residency/src/lib.rs:124-226 | Until the clock wraps, that is for fewer than 2^64 lookups among any number of other calls, every run against every provider answers exactly as a recency list, with the same counters |
| ResidencyModel.StatsAfterRun | crates/vrb-residency/src/lib.rs:228-237 | For fewer than 2^64 lookups the reported entries, bytes, hits, misses and evictions are the entry count, byte sum and event counts of the recency list; the bytes are within capacity, misses are entries plus evictions plus failed opens, and hits plus misses are the lookups |
| Residency.ResidencyCache.New | crates/vrb-residency/src/lib.rs:109-117 | Only a zero capacity is refused; a new cache is empty and satisfies the invariant |
| Residency.ResidencyCache.Acquire | crates/vrb-residency/src/lib.rs:124-204 | The imperative acquire with its eviction loop is exactly the value-level one |
| Residency.ResidencyCache.Invalidate | crates/vrb-residency/src/lib.rs:206-216 | Removes the entry, releases its bytes and counts an eviction exactly when it was there |
| Residency.ResidencyCache.Clear | crates/vrb-residency/src/lib.rs:218-226 | Every dropped entry counts as an eviction |
| AttentionProtocol.LengthsExact | crates/vrb-attention-protocol/src/lib.rs:178-208 | Over non-zero dimensions `SizeOverflow` occurs exactly when the full Q or KV byte product does not fit 64 bits, despite the stepwise checks; otherwise the lengths are the exact products |
| AttentionProtocol.LengthsBySteps | crates/vrb-attention-protocol/src/lib.rs:178-201 | For every control, zero dimensions included, the lengths exist exactly when every left-to-right prefix product of both dimension lists and both byte products fit 64 bits, and then they are the products |
| AttentionProtocol.ZeroDimensionCanOverflow | crates/vrb-attention-protocol/src/lib.rs:73-81 | With a zero dimension the product is zero and the stepwise check can still overflow, so the zero checks come first |
| AttentionProtocol.ValidExactly | crates/vrb-attention-protocol/src/lib.rs:69-104 | A control is valid exactly when only the causal flag may be set, no dimension is zero, query heads form whole groups, a causal run has enough keys, the scale pattern lies in 1 to 0x7F7FFFFF, the device is non-negative and both tensor byte counts fit 64 bits |
| Float32.FinitePositive | crates/vrb-attention-protocol/src/lib.rs:94-96 | A pattern is a finite positive number exactly when it lies between 1 and 0x7F7FFFFF |
| Float32.ValueExactly | crates/vrb-attention-protocol/src/lib.rs:90-93 | A pattern with sign s, exponent e and fraction f stands for the number that section 3.4 of IEEE 754-2019 gives, subnormals included, and is finite exactly when e is below 255 |
| AttentionProtocol.EncodeControl | crates/vrb-attention-protocol/src/lib.rs:107-133 | Fails exactly on an invalid control with its validation error; otherwise the in-place field writes fill the whole 64-byte layout |
| AttentionProtocol.ControlAt | crates/vrb-attention-protocol/src/lib.rs:107-176 | A 64-byte string is the encoding of a control exactly when every field reads back as that control's |
| AttentionProtocol.DecodeEncode | crates/vrb-attention-protocol/src/lib.rs:107-176 | Decoding the encoding of a valid control returns it |
| AttentionProtocol.EncodeDecode | crates/vrb-attention-protocol/src/lib.rs:107-176 | Every accepted string is the encoding of a valid control, the one it decodes to |
| AttentionLayout.ControlBytesExactly | crates/vrb-attention-protocol/src/lib.rs:107-133 | The encoding byte by byte: "VRBA", version, length, flags, the tag 1, 2 or 3 of the data type, eight words and sixteen bytes of count and zeros, all lowest byte first |
| AttentionLayout.DecodeExactly | crates/vrb-attention-protocol/src/lib.rs:135-176 | What any byte string decodes to: the first check that fails, in order and with its numbers, or the fields read at their positions |
| AttentionLayout.ValidateExactly | crates/vrb-attention-protocol/src/lib.rs:71-104 | The checks of a control in order, each with its error |
| AttentionLayout.LengthsExactly | crates/vrb-attention-protocol/src/lib.rs:178-201 | A valid control announces batch * heads * length * dimension times 4 or 2 bytes |
| Softmax.ShiftedWeights | crates/vrb-attention-reference/src/lib.rs:119-132 | Subtracting any constant from all scores leaves the softmax weights unchanged, and subtracting one of the scores makes the denominator at least 1 |
| Softmax.WeightsAreConvex | crates/vrb-attention-reference/src/lib.rs:119-132 | The weights are positive and sum to 1 |
| Softmax.AttendIsConvex | crates/vrb-attention-reference/src/lib.rs:131-138 | Every output coordinate lies between any bounds on the visible value coordinates |
| AttentionSpec.WindowedRun | crates/vrb-attention-reference/src/lib.rs:87-139 | A run over a window of the queries against the keys that window sees gives that window of the full output |
| AttentionSpec.DecodeEqualsPrefill | crates/vrb-attention-reference/src/lib.rs:87-139 | With equal lengths, row p of the causal run is the run of query p alone over the first p + 1 keys |
| AttentionSpec.LastQueries | crates/vrb-attention-reference/src/lib.rs:87-139 | Running only the last t queries against the same keys and values gives the last t rows of every head |
| AttentionSpec.GroupOf | crates/vrb-attention-reference/src/lib.rs:86-94 | With G query heads per key head, query head g * G + r uses key and value head g |
| AttentionSpec.ExpandedRowOf | crates/vrb-attention-reference/src/lib.rs:86-109 | Row p of the expanded head g * G + r is row p of head g |
| AttentionSpec.GroupedEqualsMultiHead | crates/vrb-attention-reference/src/lib.rs:86-138 | Grouped-query attention equals multi-head attention over keys and values with each head repeated for its group |
| TensorLayout.RowInBuffer | crates/vrb-attention-reference/src/lib.rs:102-109 | Every row the loops address lies inside its buffer |
| TensorLayout.SlotOwner | crates/vrb-attention-reference/src/lib.rs:128-137 | Every buffer slot belongs to exactly one batch, head, position and coordinate |
| TensorLayout.NestInjective | crates/vrb-attention-reference/src/lib.rs:102-138 | The nested tensor determines the flat buffer |
| AttentionReference.CheckedExactly | crates/vrb-attention-reference/src/lib.rs:33-72 | A request passes every check exactly when its control is valid and 32-bit, its buffers have exactly the declared sizes, and output and score counts are within the limits |
| AttentionReference.DotProduct | crates/vrb-attention-reference/src/lib.rs:110-113 | The accumulator loop is the dot product of the two rows |
| AttentionReference.ScoreKeys | crates/vrb-attention-reference/src/lib.rs:105-117 | The first pass leaves the scaled score of every visible key in the scratch buffer, touches no other slot, and returns their maximum |
| AttentionReference.ShiftAndSum | crates/vrb-attention-reference/src/lib.rs:119-123 | The second loop replaces every visible score by exp(score - max) and returns their sum |
| AttentionReference.Exponentiate | crates/vrb-attention-reference/src/lib.rs:119-126 | What the second pass leaves, over the returned denominator, is the textbook softmax; the denominator is at least 1 |
| AttentionReference.Accumulate | crates/vrb-attention-reference/src/lib.rs:128-138 | The third pass turns a zeroed output row into the weighted sum of the visible values and changes nothing else |
| AttentionReference.AttendQuery | crates/vrb-attention-reference/src/lib.rs:95-139 | One query iteration writes textbook attention into its row, never fails, and does not depend on what the scratch buffer held |
| AttentionReference.ExecuteAttentionF32 | crates/vrb-attention-reference/src/lib.rs:26-144 | The run fails exactly when a check fails, never numerically, and its buffer holds textbook softmax attention over the visible keys of the right key head for every row; written over the flat buffers and the control alone, coordinate x of query p of member r of group g is the sum of exp(q . k * scale) times the value coordinate over the sum of exp(q . k * scale), over the keys of head g up to the causal limit |
| AttentionReference.ExpectedIsAttention | crates/vrb-attention-reference/src/lib.rs:86-139 | A buffer holds the specified tensor only if every coordinate is that quotient of flat sums |
| AttentionReference.RefusedExactly | crates/vrb-attention-reference/src/lib.rs:33-72 | Every check of a run in order, with what it reports: the control, the data type, the three lengths with the expected count, the two limits and the 64-bit score count |
| AttentionBuffers.NestFlat | crates/vrb-attention-reference/src/lib.rs:102-138 | Every tensor has a buffer that holds it |
| AttentionBuffers.FlatNest | crates/vrb-attention-reference/src/lib.rs:102-138 | Laying out what a buffer holds gives the buffer back |
| AttentionBuffers.QueryWindowAt | crates/vrb-attention-reference/src/lib.rs:102-109 | Row p of a head in a query window is row from + p of that head in the query buffer |
| AttentionBuffers.KeyPrefixAt | crates/vrb-attention-reference/src/lib.rs:102-109 | Row p of a head in a key prefix is row p of that head in the key buffer |
| AttentionBuffers.WindowOnBuffers | crates/vrb-attention-reference/src/lib.rs:87-139 | A run over re-laid-out windows of the buffers computes that window of the full run |
| AttentionBuffers.DecodeStepOnBuffers | crates/vrb-attention-reference/src/lib.rs:87-139 | A decode step over the laid-out key and value prefixes computes row p of every head of the prefill run |
| AttentionBuffers.WindowIsAccepted | crates/vrb-attention-reference/src/lib.rs:33-72 | If a run passes every check, so does the run over its re-laid-out windows, provided a causal one keeps at least as many keys as queries |
| AttentionBuffers.DecodeStepIsAccepted | crates/vrb-attention-reference/src/lib.rs:33-72 | In particular a decode step passes whenever the square prefill run does |
| AttentionBuffers.LastQueriesOnBuffers | crates/vrb-attention-reference/src/lib.rs:87-139 | Running the last t queries against the same key and value buffers gives the last t rows of every head |
| AttentionBuffers.GroupedOnBuffers | crates/vrb-attention-reference/src/lib.rs:86-138 | Grouped-query attention computes what multi-head attention computes on buffers with every key and value head repeated for its group |
| AttentionBuffers.ExpandedBufferAt | crates/vrb-attention-reference/src/lib.rs:86-109 | Slot ((b * queryHeads + g * G + r) * kvLen + p) * headDim + d of the expanded buffer is slot ((b * kvHeads + g) * kvLen + p) * headDim + d of the buffer |
| AttentionBuffers.OutputIsConvex | crates/vrb-attention-reference/src/lib.rs:131-138 | Every output coordinate of a run lies between any bounds on the value coordinates its query may look at |
| GemmProtocol.RequestLenExact | crates/vrb-gemm-protocol/src/lib.rs:127-141 | The checked additions refuse a request exactly when its true length needs more than 64 bits |
| GemmProtocol.InspectedLengths | crates/vrb-gemm-protocol/src/lib.rs:124-148 | An accepted header announces the true element counts and exactly the length of the message |
| GemmProtocol.ReadF32Values | crates/vrb-gemm-protocol/src/lib.rs:359-373 | The cursor loop fails exactly when the words stick out of the message, and otherwise returns them and advances the cursor past them |
| GemmProtocol.DecodeRequest | crates/vrb-gemm-protocol/src/lib.rs:167-179 | Once the header is accepted no cursor read fails, and A, B and C are the consecutive word runs after the header |
| GemmProtocol.EncodeRequest | crates/vrb-gemm-protocol/src/lib.rs:181-234 | Fails exactly on the request checks with the first failing one; otherwise writes the layout, of exactly the computed capacity |
| GemmProtocol.EncodableExactly | crates/vrb-gemm-protocol/src/lib.rs:181-212 | A request is encodable exactly when its matrices have their sizes, m times n fits 64 bits even without C, and the message length fits 64 bits |
| GemmProtocol.AbsentCIsMeasured | crates/vrb-gemm-protocol/src/lib.rs:181-194 | A request with m = n = 2^32, k = 0 and no C is refused for the size of matrix C |
| GemmProtocol.DecodeEncode | crates/vrb-gemm-protocol/src/lib.rs:167-234 | Decoding the encoding of any accepted request returns it, with its sizes |
| GemmProtocol.EncodeDecode | crates/vrb-gemm-protocol/src/lib.rs:91-234 | Re-encoding any accepted message gives the same bytes with the reserved word at 20 to 24 zeroed |
| GemmProtocol.RequestRoundTrips | crates/vrb-gemm-protocol/src/lib.rs:91-234 | A message decodes to a request exactly when the request is encodable and the message is its encoding up to the reserved word |
| GemmProtocol.EncodeResponse | crates/vrb-gemm-protocol/src/lib.rs:236-252 | Fails exactly on the response checks; otherwise writes the layout, of exactly the announced length |
| GemmProtocol.DecodeResponse | crates/vrb-gemm-protocol/src/lib.rs:254-294 | The cursor loop never fails after the length check and returns the word run after the header |
| GemmProtocol.ResponseRoundTrips | crates/vrb-gemm-protocol/src/lib.rs:236-294 | Encodable responses and accepted messages correspond one to one, in both directions |
| Digits.WrittenExactly | crates/vrb-gemm-protocol/src/lib.rs:222-248 | 16-, 32- and 64-bit integers are written as their base-256 digits, lowest first |
| Digits.ReadExactly | crates/vrb-gemm-protocol/src/lib.rs:331-343 | And read as the sum of byte i times 256^i |
| GemmLayout.RequestHeaderBytes | crates/vrb-gemm-protocol/src/lib.rs:214-228 | The header of an encoded request byte by byte, with m, n and k at 24, 32 and 40 and alpha and beta at 48 and 52 |
| GemmLayout.RequestPayloadBytes | crates/vrb-gemm-protocol/src/lib.rs:229-234 | After it come the words of A, B and C if there is one, and nothing else |
| GemmLayout.InspectExactly | crates/vrb-gemm-protocol/src/lib.rs:91-165 | What inspection makes of any byte string: the first check that fails, in order and with its numbers, or the fields at their positions |
| GemmLayout.DecodedWords | crates/vrb-gemm-protocol/src/lib.rs:167-179 | Word i of the payload of an accepted message is read at byte 56 + 4i |
| GemmLayout.EncodeExactly | crates/vrb-gemm-protocol/src/lib.rs:181-212 | The checks of encoding in order, each with its error and numbers, or the message length |
| GemmLayout.ResponseBytesExactly | crates/vrb-gemm-protocol/src/lib.rs:236-252 | An encoded response byte by byte |
| GemmLayout.InspectResponseExactly | crates/vrb-gemm-protocol/src/lib.rs:254-282 | What inspecting a response makes of any byte string |
| GemmLayout.DecodeResponseExactly | crates/vrb-gemm-protocol/src/lib.rs:254-294 | Decoding a response fails as inspection does and otherwise reads word i at byte 32 + 4i |
| GemmLayout.EncodeResponseExactly | crates/vrb-gemm-protocol/src/lib.rs:236-243 | The checks of encoding a response in order |
| SharedGemmProtocol.ValidExactly | crates/vrb-gemm-shared-protocol/src/lib.rs:131-148 | A control is valid exactly when its device is non-negative, no dimension is zero and the element counts of A, B and C fit 64 bits |
| SharedGemmProtocol.LengthsExact | crates/vrb-gemm-shared-protocol/src/lib.rs:120-167 | A valid control has byte lengths exactly when four bytes per element fit 64 bits for A, B and C; otherwise the first matrix that does not fit is named |
| SharedGemmProtocol.ValidWithoutLengths | crates/vrb-gemm-shared-protocol/src/lib.rs:131-148 | There is a valid control whose byte lengths overflow |
| SharedGemmProtocol.EncodeControl | crates/vrb-gemm-shared-protocol/src/lib.rs:53-69 | Fails exactly on an invalid control with its validation error; otherwise appends the 64-byte layout |
| SharedGemmProtocol.ControlRoundTrips | crates/vrb-gemm-shared-protocol/src/lib.rs:71-118 | A string decodes to a control exactly when the control is valid, the string has 64 bytes and its first 56 are the control's; the last eight are never looked at |
| SharedGemmProtocol.DecodeEncode | crates/vrb-gemm-shared-protocol/src/lib.rs:53-118 | Decoding the encoding of a valid control returns it |
| SharedGemmProtocol.EncodeDecode | crates/vrb-gemm-shared-protocol/src/lib.rs:53-118 | Re-encoding an accepted header gives the same bytes with the reserved ones zeroed |
| SharedGemmLayout.ControlBytesExactly | crates/vrb-gemm-shared-protocol/src/lib.rs:53-69 | The encoding byte by byte, with m, n and k at 16, 24 and 32, alpha and beta at 40 and 44 and the device at 48 |
| SharedGemmLayout.DecodeExactly | crates/vrb-gemm-shared-protocol/src/lib.rs:71-118 | What any byte string decodes to: the first check that fails, in order and with its numbers, or the fields read at their positions |
| SharedGemmLayout.ValidateExactly | crates/vrb-gemm-shared-protocol/src/lib.rs:131-148 | The checks of a control in order, each with its error |
| MatrixProduct.AddScaledRow | crates/vrb-gemm-reference/src/lib.rs:127-129 | The column loop adds the scaled row of B to one output row and changes nothing else |
| MatrixProduct.AccumulateRow | crates/vrb-gemm-reference/src/lib.rs:124-130 | The depth loop takes one output row from the C term to the full ordered fold |
| MatrixProduct.InitialOutput | crates/vrb-gemm-reference/src/lib.rs:113-118 | Every cell starts as zero, or as beta times its C element when beta is non-zero and C is present |
| MatrixProduct.Multiply | crates/vrb-gemm-reference/src/lib.rs:113-132 | For uninterpreted addition and multiplication every cell is the ordered dot-product fold that starts at its C term, or the C term alone when alpha is zero, for all shapes including zero dimensions |
| MatrixProduct.CellOverReals | crates/vrb-gemm-reference/src/lib.rs:113-132 | Over the reals a cell is alpha times the dot product plus beta times C, absent C read as zero, for every alpha and beta |
| MatrixProduct.ProductUnique | crates/vrb-gemm-reference/src/lib.rs:120-132 | The cells determine the flat buffer |
| GemmReference.OperationsFit | crates/vrb-gemm-reference/src/lib.rs:152 | The 128-bit operation count cannot wrap for an accepted message |
| GemmReference.RequiredLenExact | crates/vrb-gemm-reference/src/lib.rs:93-97 | The length call in full: the error of the header, else the first of the four limits that is exceeded with the exact count, else 32 plus four bytes per cell when that fits 64 bits |
| GemmReference.ExecuteGemmBytes | crates/vrb-gemm-reference/src/lib.rs:93-135 | The two calls succeed on the same inputs and limits and fail with the same error; the announced length is exactly the response length, and in terms of the decoded message the response value at row i and column j is the left-to-right sum of (alpha * a) * b from a start of beta * c, or of zero without a C or with a zero beta, and that start alone when alpha is zero |
| Float32.ZeroExactly | crates/vrb-gemm-reference/src/lib.rs:114-120 | The zero test on bit patterns holds of exactly the patterns whose number is zero |
| HipSharedGemm.ExecuteWindows | crates/vrb-hip-shared-gemm-plugin/src/lib.rs:443-537 | An admitted request on a working device leaves alpha A B + beta C, cell by cell in the control's own dimensions and scalars, in the C buffer if that shares no bytes with A or B, also when the receipt then does not fit; a request that is refused or fails before the call leaves the buffer alone; a failing call or synchronisation is an internal error; dimensions above the 32-bit signed range are unsupported |
| HipSharedGemm.DisjointExactly | crates/vrb-hip-shared-gemm-plugin/src/lib.rs:448-493 | Three non-empty regions count as disjoint exactly when no byte of C is a byte of A or B |
| HipSharedGemm.OverlapIsAdmitted | crates/vrb-hip-shared-gemm-plugin/src/lib.rs:448-493 | A request whose C region is its A region is admitted |
| HipSharedGemm.AdmittedExactly | crates/vrb-hip-shared-gemm-plugin/src/lib.rs:448-493 | Admission is refused exactly for an invalid control, when a matrix is not housed by its region or when there is something to wait for or signal, and unsupported exactly when only a dimension exceeds the 32-bit signed range |
| HipSharedGemm.ReceiptExactly | crates/vrb-hip-shared-gemm-plugin/src/lib.rs:557-574 | The receipt is refused exactly for fewer than 26 bytes of room or a null destination |
| HipSharedGemm.AdmittedSizes | crates/vrb-hip-shared-gemm-plugin/src/lib.rs:463-493 | The admission checks leave buffers of exactly the sizes the three matrices need |
| HipSharedGemm.SwappedCallFits | crates/vrb-hip-shared-gemm-plugin/src/lib.rs:507-522 | Every leading dimension of the swapped call is legal and every buffer is long enough |
| HipSharedGemm.SameDot | crates/vrb-hip-shared-gemm-plugin/src/lib.rs:501-522 | The column-major dot product of the swapped operands is the row-major one, cell by cell |
| HipSharedGemm.SwappedCallIsProduct | crates/vrb-hip-shared-gemm-plugin/src/lib.rs:501-522 | The buffer the swapped column-major call leaves is the row-major product |
| HipSharedGemm.SameAsOracle | crates/vrb-hip-shared-gemm-plugin/src/lib.rs:501-522 | It equals the CPU oracle's buffer, position by position |
| HipSharedGemm.TouchesExactly | crates/vrb-gemm-shared-protocol/src/lib.rs:150-167 | A gap-free column-major matrix touches every position below its element count exactly once and no other |
| HipSharedGemm.IndexMapsExact | crates/vrb-gemm-shared-protocol/src/lib.rs:120-148 | The three operands touch exactly the floats whose byte counts the protocol announces, with legal leading dimensions |
| ColumnMajor.UpdateColumn | crates/vrb-hip-shared-gemm-plugin/src/lib.rs:505-522 | Scaling a column of C and adding one multiple of a column of A per depth gives beta C + alpha A B there and changes nothing else |
| ColumnMajor.Execute | crates/vrb-hip-shared-gemm-plugin/src/lib.rs:505-522 | The loops of the reference xGEMM leave beta C + alpha A B in every column-major cell, do not read C when beta is zero, and leave what lies between the columns alone |
| Machine.CheckedProductExact | crates/vrb-attention-protocol/src/lib.rs:203-208 | Over non-zero factors a stepwise checked product fails exactly when the full product does not fit |
| Machine.CheckedProductSteps | crates/vrb-attention-reference/src/lib.rs:168-173 | A stepwise checked product succeeds exactly when every prefix product fits, and then returns the full one |
| LittleEndian.WordsField | crates/vrb-gemm-protocol/src/lib.rs:359-379 | A run of words reads back as a list exactly when its bytes are the ones writing that list produces |
| Ordering.FirstLeastIsLeast | crates/vrb-execution-plan/src/lib.rs:133-138 | Iterating an ordered map and keeping the first smallest element finds the least element of the order that compares by measure and then by key |
| Ordering.StringLeqExactly | crates/vrb-execution-plan/src/lib.rs:98-139 | Backend ids are ordered by the first code point where they differ, a proper prefix first |

## Left out

- Vulkan, HIP and rocBLAS calls, library loading, device discovery, handle caching and drop guards: driver effects outside the sources. Their failures enter HipSharedGemm.ExecuteWindows as an argument.
- ColumnMajor.Execute: stands for the foreign call with the loops of the reference BLAS over the reals; the order in which a GPU adds is not modelled.
- HipSharedGemm.ExecuteWindows: what the call leaves when C overlaps an operand is arbitrary, as the foreign call leaves it undefined; null pointers are modelled by the resource list and the receipt flag; `receipt_len` and the receipt text, the region's reserved words and the request's own struct size and operator id are not.
- Plugin ABI structs, loaders, test plugins, the operator registries, the backend registry, the CLI and JSON: pointer marshalling and flat field checks that would only add easy members.
- Autotune `load` and `save`: file input and output; a loaded file may hold duplicate keys, for which only Autotune.ProjectionAnswersLast applies.
- IEEE rounding, NaN propagation and overflow in attention: AttentionReference is over the reals, so `NumericalFailure` is unreachable there; GEMM keeps its evaluation order with uninterpreted operations instead.
- PlanCanonical.PlanIsCanonical: `total_cmp` puts minus zero before zero; costs are real numbers, with infinity as one of them (PlanArithmetic.SaturatingSum), so a cost measured as minus zero is not told from zero in the tie-break.
- PlanTheorems.RankedPlanBeatsGreedy: the fair price of the best-ranked probe is sufficient; the exact condition for the routed probes alone depends on the moves between backends and is not stated.
- KvModel.RunRefinesList: states recency until the clock wraps; beyond the wrap only the accounting invariants hold, and KvCache.WrapForgetsRecency shows what becomes of the order.
- ResidencyModel.RunRefinesList: the same limit; mutex poisoning is left out and an allocation is a handle with an immutable spec.
- ResidencyModel.RunConserves: states conservation until the clock wraps, while no counter can saturate.
- Identifier constructors that trim and reject blank names, and the probe fields that routing never reads (name, vendor, device count, detail).
- Nested source loops appear as one method per loop level, each with its own contract; the residency provider's answer is an argument of `Acquire` instead of a callback.
- Float scalars of the shared product enter through an arbitrary reading of bit patterns as reals; what a NaN or infinite scalar does on the device is not modelled.

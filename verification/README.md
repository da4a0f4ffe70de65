# A verified model of quo-vadis's hardware splitting

quo-vadis divides the processing units and devices of a node among a group of
tasks. This project models the code that decides which task gets what and
proves what callers may rely on. It has four layers.

1. **The affinity mapper.** `stable_marriage_solver` expands every destination
   into ceil(n/m) slots, ranks slots by affinity and contention and sources by
   affinity and number, and lets free sources propose until all are matched.
   `Solver.StableMarriageSolver` is a class with the same tables and queue, and
   every proposal it makes is a step of the pure transition system in
   `StableMatching`. There the result is characterised for every market and
   every order of serving: it is *the* stable matching in which each source does
   best. `Affinity` and `SlotLists` say what that means for the tasks, and
   `Rounds` shows that there is only one stable matching and gives it in closed
   form: two rounds of serving the sources in order. `Contention` characterises
   the resulting mapping without markets and slots, by numbers of sources and
   shared bits.
2. **The other mappers and the partition arithmetic** (`Chunks`, `Mappers`,
   `Colors`, `Hwloc`): packed, spread, colours, clamp, uniq, invert, and the even
   split of processing units. They share the base-and-remainder chunks, and are
   tied to one another through them.
3. **The split pipeline** (`HwPool`, `Cutting`, `HwSplit`, `SplitGuarantees`,
   `CollectiveSplit`): `m_split` on the fields it updates, what it is cut into in
   terms of processing units and bits, the end-to-end guarantees, and the collective protocol around it as a transition system over
   ranks with program counters. `ByteBuffers` and `TypedCollectives` model the
   byte layout of the collectives the protocol uses.
4. **The LRU cache and its client** (`LruCache`, `ThreadGroup`): the linked list
   and hash index refine a specification that looks only at the history of
   operations.

`LineWrap` models the text wrapping of `qvi_swrap`. `Sorting` and `Status` hold
the shared vocabulary.

`dafny verify dfyconfig.toml` checks everything.

## Representation

* A bitmap is a finite set of numbers; a topology level is a sequence of cpusets
  in logical order. Where disjointness of processing units matters it is a
  precondition of the lemma that needs it.
* A `std::map<size_t, std::set<size_t>>` is a `map<nat, set<nat>>`; loops over
  it run over `Ascending` of its keys, the order an ordered container gives.
* `std::sort` is `Sorting.Sort`, which promises an ordered permutation and
  nothing about ties.
* A call that may raise `qvi_runtime_error` returns an `Outcome`. Its third case,
  `Aborted`, stands for a call that does not come back with any code of the
  interface: a failed assertion, an access refused by `at`, a division by zero.
* Numbers are unbounded. Where the original computes with sizes, the bounds under
  which it does not wrap are preconditions: `n + m <= 2^64 - 1` for the solver
  (`i + k - 1`, and the all-ones value marks a free slot) and a byte total of at
  most `INT_MAX` for the flat collectives. The round-robin counter of the thread
  group is explicit modulo 2^64. Narrowing casts are left out, as said below.

## What was found

* The solver's "exhausted all preferences" error occurs exactly when there are
  sources and no destination; its stability check never fails.
* Close, unlike packed and spread, may leave pieces unused: four tasks with one
  affinity on three pieces use two of them (`FourTasksLeaveAPiece`). It uses all m
  pieces for n tasks whatever their affinities are iff `(m - 1) * ceil(n/m) < n`
  (`CloseUsesAllIff`); for tasks that share one affinity the same condition is
  exact for each split (`ThreadsUseAllPiecesIff`), and `ThreadsUsePieceIff` says
  which pieces are used.
* Without pieces (more pieces asked for than processing units, or none) the
  policies behave differently: explicit colours give `QV_ERR_SPLIT`, close raises
  `QV_ERR_NOT_SUPPORTED`, packed succeeds with no colours at all, and spread
  divides by zero. Colours of both signs fail the colour mapper's assertion or,
  where that is compiled out, a checked access after it. `OutcomeOfColors` decides
  every list of colours.
* A root that fails between the gathers and the barrier leaves every other rank
  waiting for ever; two ranks with colours 0 and -1 are enough (`TwoRanksHang`).
  `AllOrNobodyFinishes` gives the exact condition: no rank completes the split for
  colours of both signs and for close and spread without pieces, and every rank
  does otherwise. The one exception is packed without pieces. There the split
  succeeds, and the root then reads colours past the end of an empty list, which
  is undefined: it may crash, or scatter whatever is still stored there, and the
  ranks hang or finish accordingly (`PackedMayEndEitherWay`).
* A task of a close split ends up with nothing of its affinity exactly if all
  pieces it overlaps are full with smaller tasks that overlap them when the first
  of the two rounds comes to it (`CloseSplitInRounds`).
* As many new threads as there are tasks get one task each only while no other
  group advances the shared counter and the counter does not wrap out of step;
  `NewThreadsDifferIff` is the exact condition on the counter, and
  `WrapSharesATask` and `OtherGroupSharesATask` are inputs on which two threads
  share a task although another is unused.
* The comment at src/qvi-hwsplit.cc:156-165 describes splits with undefined and
  with mixed colours; the code answers `QV_ERR_INVLD_ARG` to negative colours
  that are not all one supported constant. The model follows the code.

## Model

| member | source | states |
|---|---|---|
| `StableMatching.StepInvariant` | src/qvi-map.cc:539-571 | One proposal keeps the tables coherent, every refusal justified by a better holder, and no source past a slot it has in some stable matching |
| `StableMatching.NeverExhausted` | src/qvi-map.cc:544-550 | With at least as many slots as sources, a free source always has a slot left to ask |
| `StableMatching.RunsAreBounded` | src/qvi-map.cc:539-571 | No run, in whatever order free sources are served, is longer than sources times slots |
| `StableMatching.RunsNeverGetStuck` | src/qvi-map.cc:539-571 | Every run that has left a source free can go on with that source |
| `StableMatching.CompleteIsStable` | src/qvi-map.cc:589-643 | When everybody is matched no source and slot would rather have each other |
| `StableMatching.CompleteIsSourceOptimal` | src/qvi-map.cc:532-572 | When everybody is matched every source has the best slot it has in any stable matching |
| `StableMatching.SourceOptimalIsUnique` | src/qvi-map.cc:532-572 | There is only one such matching |
| `StableMatching.SourceOptimalIsSlotPessimal` | src/qvi-map.cc:532-572 | In it every slot has its worst partner over all stable matchings |
| `StableMatching.SourceOptimalExists` | src/qvi-map.cc:532-572 | With at least as many slots as sources such a matching exists |
| `StableMatching.OrderDoesNotMatter` | src/qvi-map.cc:534-571 | Any two complete runs, whatever their order of serving, end in the same, source-optimal, matching |
| `Affinity.MaxIPerKIsLeast` | src/qvi-utils.cc:565-572 | j slots per destination suffice for all sources iff j is at least this number |
| `Affinity.MarketIsDetermined` | src/qvi-map.cc:324-429 | The affinities fix all preference lists: the comparators leave no ties |
| `Affinity.DeniedOnlyForCause` | src/qvi-map.cc:324-429 | A source that ends on a destination it did not want lost every slot of every wanted destination to a source with affinity for it and a smaller number |
| `Affinity.AffinityGuaranteed` | src/qvi-map.cc:392-429 | A source is sure of a wanted destination if fewer smaller sources want some wanted destination than it has slots |
| `Affinity.FirstSourceIsSatisfied` | src/qvi-map.cc:392-429 | Source 0 always gets a destination it has affinity for, if there is one |
| `Affinity.OccupiedSlotsFormPrefix` | src/qvi-map.cc:324-381 | The occupied slots of a destination are its first ones, held in the destination's own order of preference |
| `Affinity.LoadIsBounded` | src/qvi-map.cc:478-526 | No destination gets more than ceil(n/m) sources |
| `Affinity.DivisibleLoad` | src/qvi-map.cc:478-526 | If m divides n every destination gets exactly n/m |
| `Affinity.EveryDestIsUsed` | src/qvi-map.cc:478-526 | If the slots of all destinations but one are too few for the sources, every destination gets a source |
| `SlotLists.FirstComeFirstServed` | src/qvi-map.cc:532-572 | With equal lists and slots that prefer smaller numbers, source i has the i-th slot in every stable matching |
| `SlotLists.SharedAffinityClosedForm` | src/qvi-map.cc:290-381 | If all want the same set, source i is on place i / ceil(n/m) of that set ascending followed by the others ascending, in slot i mod ceil(n/m) |
| `Rounds.StableMatchingIsUnique` | src/qvi-map.cc:324-429 | The market of the affinities has only one stable matching |
| `Rounds.StableIsTwoRounds` | src/qvi-map.cc:532-572 | It puts every source where two rounds do: first each source in order takes the best destination it wants that has room, then each one left over the best that has room |
| `Rounds.DeniedIffCrowdedOut` | src/qvi-map.cc:532-572 | A source ends on a destination it has no affinity for iff all it wants are full when the first round comes to it |
| `Rounds.CloseMappingIsTwoRounds` | src/qvi-map.cc:649-664 | A mapping is the close mapping iff it is that of the two rounds |
| `Contention.CloseIffRightful` | src/qvi-map.cc:649-664 | A mapping is the close mapping iff every source has one destination, none has more than ceil(n/m) sources, and a better one (wanted, else wanted by fewer, else smaller) is full with sources that come before it there |
| `Contention.ContentionDecides` | src/qvi-map.cc:324-381 | A source is on d although fewer sources want e, or as many and e < d, only if e holds ceil(n/m) sources: smaller ones that want e if the source wants it, else ones that want e or are smaller |
| `Contention.SharedBitsDecide` | src/qvi-map.cc:666-693 | The same for bitmaps, with sharing a bit for wanting, and for a destination shared with instead of one that is not |
| `Contention.FirstSourceChoosesLeastContended` | src/qvi-map.cc:324-381 | Source 0 gets the destination it wants that the fewest sources want, the smallest number on ties |
| `Contention.LeavesTheContendedOne` | src/qvi-map.cc:324-381 | Of two sources with bits {0,1} and {0} the first goes to {1} and leaves {0} to the second |
| `Contention.EmptyMeansAny` | src/qvi-map.cc:299-305 | A source with an empty set of affinities is treated as one that names every destination |
| `Solver.StableMarriageSolver.CalculateDstContention` | src/qvi-map.cc:290-313 | The counts are the numbers of sources with affinity for each destination |
| `Solver.StableMarriageSolver.BuildSrcPrefs` | src/qvi-map.cc:324-381 | The list enumerates all slots in ascending order of affinity, contention, destination, index |
| `Solver.StableMarriageSolver.BuildSlotPreferences` | src/qvi-map.cc:392-429 | The list enumerates all sources, those with affinity first, each group by number |
| `Solver.StableMarriageSolver.SlotPrefersNew` | src/qvi-map.cc:434-454 | The early-terminating scan compares ranks in the slot's list, a stranger ranking last |
| `Solver.StableMarriageSolver.constructor` | src/qvi-map.cc:479-526 | The tables describe the market of the affinities and hold the initial state |
| `Solver.StableMarriageSolver.ServeSource` | src/qvi-map.cc:547-570 | One iteration is one proposal step, and afterwards the queue enumerates exactly the free sources |
| `Solver.StableMarriageSolver.Solve` | src/qvi-map.cc:532-572 | Raises exactly for sources without destinations; otherwise a run of at most n * m * ceil(n/m) proposals that matches everybody |
| `Solver.StableMarriageSolver.SourceIsContent` | src/qvi-map.cc:603-640 | Scanning the list up to the current slot decides whether the source is in any blocking pair |
| `Solver.StableMarriageSolver.IsStable` | src/qvi-map.cc:589-643 | True exactly when all sources are matched and no pair blocks |
| `Solver.StableMarriageSolver.GetMatching` | src/qvi-map.cc:577-584 | Every matched source is mapped to the one destination of its slot |
| `Solver.SolveApMapping` | src/qvi-map.cc:649-664 | Raises exactly for sources without destinations (never from the stability check); else returns the destinations of the source-optimal stable matching |
| `Solver.CloseMappingIsDetermined` | src/qvi-map.cc:649-664 | The affinities alone determine that mapping |
| `Solver.CloseMappingExists` | src/qvi-map.cc:649-664 | There is one unless there are sources and no destination |
| `Chunks.ChunksCoverAll` | src/qvi-hwloc.cc:355-380 | The base-and-remainder chunks end exactly at the total |
| `Chunks.ChunkIsUnique` | src/qvi-hwloc.cc:355-380 | A position lies in one chunk only |
| `Chunks.VectorSplit` | src/qvi-utils.h:362-386 | Piece i is chunk i of the vector; nothing for an impossible split |
| `Chunks.ChunksJoin` | src/qvi-utils.h:362-386 | The pieces put together are the vector, and their lengths differ by at most one |
| `Mappers.InvertMap` | src/qvi-map.cc:23-34 | Computes the relational converse |
| `Mappers.ConverseIsInvolutive` | src/qvi-map.cc:23-34 | Inverting twice gives the map back iff no source is mapped to an empty set |
| `Mappers.MapUniq` | src/qvi-map.cc:86-106 | Each source gets its first destination that no smaller source got, or none if all are taken |
| `Mappers.UniqIsInjective` | src/qvi-map.cc:86-106 | No destination is used twice, and every pair comes from the argument |
| `Mappers.UniqIsDetermined` | src/qvi-map.cc:86-106 | That description fixes the result |
| `Mappers.UniqIsIdentityIff` | src/qvi-map.cc:86-106 | The result is the argument iff the argument gives one destination each and shares none |
| `Mappers.UniqOfThree` | src/qvi-map.cc:86-106 | Of {3,5}, {3,5} and {5} the first source keeps 3, the second 5, the third nothing |
| `Mappers.MapCalcAffinities` | src/qvi-map.cc:108-130 | A source is related to the destinations it shares a bit with; sources that share none are absent |
| `Mappers.MapPacked` | src/qvi-map.cc:160-208 | Every source has one destination or every destination one source, in base-and-remainder shares; the pairs are those of consecutive chunks, of sources or of destinations whichever are more; empty if a count is zero |
| `Mappers.MapSpread` | src/qvi-map.cc:210-246 | The same shares; the pairs are those of the residue of the source, or of the destination where there are more; divides by zero exactly when one of the counts is zero |
| `Mappers.PackedSources` | src/qvi-map.cc:182-193 | Destination d has exactly the consecutive sources of its chunk |
| `Mappers.PackedIsMonotone` | src/qvi-map.cc:182-193 | Later sources have no earlier destination |
| `Mappers.SpreadSources` | src/qvi-map.cc:228-231 | Spreading loads each destination exactly as packing does |
| `Mappers.PackedIsBalanced` | src/qvi-map.cc:182-193 | One destination each, and base-and-remainder loads |
| `Mappers.SpreadIsBalanced` | src/qvi-map.cc:228-231 | The same for spread |
| `Mappers.ConverseIsBalanced` | src/qvi-map.cc:194-198 | With fewer sources every destination has exactly one source, and the shares are balanced |
| `Mappers.MapClose` | src/qvi-map.cc:666-693 | The close mapping of the computed affinities; raises exactly for sources without destinations |
| `Mappers.CloseMappingLoads` | src/qvi-map.cc:666-693 | At most ceil(n/m) sources per destination, n/m if m divides n |
| `Mappers.CloseMappingIsInjective` | src/qvi-map.cc:666-693 | With no more sources than destinations nobody shares |
| `Colors.MapColors` | src/qvi-map.cc:132-158 | Each source is on the piece its colour names; aborts exactly when some colour is negative |
| `Colors.MapClampColors` | src/qvi-map.cc:703-720 | In place, each colour becomes the number of distinct smaller ones |
| `Colors.ClampKeepsOrder` | src/qvi-map.cc:703-720 | The relabelling is strictly monotone in both directions and below the number of distinct colours |
| `Colors.ClampIsOnto` | src/qvi-map.cc:703-720 | The result uses exactly the numbers below the number of distinct colours |
| `Colors.ClampIsIdempotent` | src/qvi-map.cc:703-720 | Clamping twice is clamping once |
| `Hwloc.NobjsInCpuset` | src/qvi-hwloc.cc:973-991 | Counts the non-empty objects inside the cpuset |
| `Hwloc.InsideIsInOrder` | src/qvi-hwloc.cc:973-1022 | The objects listed are those at the places of the non-empty ones inside the cpuset, by increasing place, each once |
| `Hwloc.ObjInCpuset` | src/qvi-hwloc.cc:1010-1022 | The index-th of them, an error exactly when there are not that many |
| `Hwloc.SplitCpusetByRange` | src/qvi-hwloc.cc:1105-1135 | The union of a range of them, an error exactly when the range does not fit |
| `Hwloc.CpusetForNobjs` | src/qvi-hwloc.cc:1137-1167 | The union of the first ones, an error exactly when there are fewer |
| `Hwloc.BitmapSplit` | src/qvi-hwloc.cc:346-382 | Piece i is the union of chunk i of the processing units inside the bitmap; as many as asked for if that is at least one and at most the number of units, else none |
| `Hwloc.PieceOfUnit` | src/qvi-hwloc.cc:346-382 | The unit at position p lies in piece i if the packed mapper puts p on i, and is disjoint from the piece otherwise |
| `Hwloc.PiecesAreDisjoint` | src/qvi-hwloc.cc:346-382 | Pieces are non-empty and pairwise disjoint |
| `Hwloc.PiecesCoverAll` | src/qvi-hwloc.cc:346-382 | Together they are exactly the processing units inside the bitmap |
| `Hwloc.PieceHoldsItsChunk` | src/qvi-hwloc.cc:346-382 | The processing units that lie inside piece i are exactly those of chunk i, in logical order |
| `Hwloc.PiecesAreBalanced` | src/qvi-hwloc.cc:346-382 | A piece has the base-and-remainder number of processing units, so two pieces differ by at most one |
| `Cutting.EvenSplitCuts` | src/qvi-hwloc.cc:346-382 | q pieces iff 0 < q <= the number of units inside, else none; they consist of units, are disjoint, take the units in order, N / q each and one more in the first N mod q |
| `HwPool.HwPool.DeviceInPool` | src/qvi-hwpool.cc:75-83 | Whether a device of the type with that bus ID is there |
| `HwPool.HwPool.AddDevice` | src/qvi-hwpool.cc:168-189 | Adds the device unless its bus ID is there, touches no other type, and keeps the list ordered by ID without repeated bus IDs |
| `HwPool.SortedListOk` | src/qvi-hwpool.cc:180-186 | Sorting keeps a list of distinct devices distinct and of one type |
| `HwPool.AddsBusId` | src/qvi-hwpool.cc:168-189 | The bus IDs of the device's type grow by exactly its own |
| `HwPool.HwPool.Populate` | src/qvi-hwpool.cc:85-113 | Sets the cpuset and adds exactly the supported devices whose affinity lies inside it |
| `HwPool.SetUnion` | src/qvi-hwpool.cc:191-212 | A valid pool with the union of the cpusets and, per type, the union of the bus IDs, each device from one of the pools |
| `HwPool.UnionHasWhatSomeHas` | src/qvi-hwpool.cc:191-212 | A bit, or the bus ID of a GPU or NIC, is in the union iff some pool has it |
| `HwPool.UnionIgnoresOrder` | src/qvi-hwpool.cc:191-212 | Neither the order nor the repetition of pools matters |
| `HwPool.UnionIsIdempotent` | src/qvi-hwpool.cc:191-212 | Uniting the union with its parts changes nothing |
| `HwPool.UnionExists` | src/qvi-hwpool.cc:191-212 | Well-formed pools always have a union |
| `HwPool.UnionIsNoLarger` | src/qvi-hwpool.cc:191-212 | Of each type a union has no more devices than its parts together |
| `HwSplit.Splitter.Receive` | src/qvi-hwsplit.cc:341-348 | The gathered colours and affinities, with a fresh, empty pool for every member |
| `HwSplit.Splitter.Reserve` | src/qvi-hwsplit.cc:86-93 | As many fresh, empty pools as tasks, with the given colours and affinity |
| `HwSplit.Splitter.PrimaryCpusetForSplit` | src/qvi-hwsplit.cc:95-123 | For GPU and NIC a bit is in it iff some device of the type in the pool has it in its affinity; for every other type it is the pool's cpuset |
| `HwSplit.Splitter.SplitCpuset` | src/qvi-hwsplit.cc:125-143 | The cut of that cpuset into the size asked for, or the group size if that is less: as many pieces, evenly, if there are as many units, else none |
| `HwSplit.PiecesAreCut` | src/qvi-hwsplit.cc:125-143 | The pieces of a split are a cut of what is to be divided, into what is asked for or the number of tasks, whichever is less |
| `HwSplit.Splitter.DetermineMapping` | src/qvi-hwsplit.cc:145-231 | Which mapper runs on which arguments, or which error is returned, and the colours left behind: usable ones as they are, otherwise the number of distinct smaller ones |
| `HwSplit.NormalizedKeepsOrder` | src/qvi-hwsplit.cc:168-185 | Whether clamped or not, explicit colours keep their order and stay distinct |
| `HwSplit.NormalizedInRange` | src/qvi-hwsplit.cc:168-187 | They index pieces exactly when there are no more distinct colours than pieces |
| `HwSplit.ApplyMap` | src/qvi-hwsplit.cc:246-254 | What each configuration maps, or how it fails |
| `HwSplit.Splitter.AssignCpusets` | src/qvi-hwsplit.cc:257-266 | Every task has the cpuset and the number of the one piece it is mapped to |
| `HwSplit.MapDevices` | src/qvi-hwsplit.cc:280-295 | The close mapping of devices to pools, also where it is made unique |
| `HwSplit.PlaceNext` | src/qvi-hwsplit.cc:296-305 | Placing the next device keeps all devices so far placed once and where they were mapped |
| `HwSplit.Splitter.DistributeDevices` | src/qvi-hwsplit.cc:270-309 | The pools hold exactly the base pool's devices of the type, each where the close mapping puts it; nothing else changes |
| `HwSplit.Splitter.AssignDevices` | src/qvi-hwsplit.cc:270-309 | The same for all supported types at once, no other type appearing |
| `HwSplit.Splitter.MapTasks` | src/qvi-hwsplit.cc:243-266 | Outcome as a function of colours and pieces, for every list of colours; on success each task is placed as its policy says |
| `HwSplit.Splitter.MSplit` | src/qvi-hwsplit.cc:233-311 | The whole split: the cut of its pool, its outcome for every list of colours, and on success policy, cpusets and devices of every pool |
| `HwSplit.SplitExists` | src/qvi-hwsplit.cc:233-311 | Whenever colours and pieces call for success, colours and pools as a split promises them exist |
| `SplitGuarantees.ColorsDecideCpusets` | src/qvi-hwsplit.cc:233-311 | Colours in range, cpusets non-empty; same colour iff equal cpusets, different colours iff disjoint ones |
| `SplitGuarantees.RequestedColorsDecideCpusets` | src/qvi-hwsplit.cc:168-199 | With explicit colours two tasks share a cpuset iff they asked for the same colour |
| `SplitGuarantees.UsableColorsAreKept` | src/qvi-hwsplit.cc:168-180 | If every requested colour is below the number of pieces, task i has its requested colour and that piece |
| `SplitGuarantees.UnusableColorsAreCounted` | src/qvi-hwsplit.cc:168-180 | If some non-negative colour is not, a task's colour is the number of distinct smaller colours asked for |
| `SplitGuarantees.OutcomeOfColors` | src/qvi-hwsplit.cc:166-231 | For every list of colours which code is returned or raised: explicit ones succeed iff some placement on the pieces gives two tasks the same piece exactly when they asked for the same |
| `SplitGuarantees.PoliciesUseAllPieces` | src/qvi-hwsplit.cc:206-227 | Packed and spread use every piece, and so does close, whatever the affinities, if all pieces but one have too few slots |
| `SplitGuarantees.CloseUsesAllIff` | src/qvi-map.cc:666-693 | Close uses every one of m destinations whatever the affinities of the n sources are iff (m - 1) * ceil(n/m) < n |
| `SplitGuarantees.FourTasksLeaveAPiece` | src/qvi-map.cc:666-693 | A split of four tasks that leaves one of three pieces unused |
| `SplitGuarantees.CloseSplitInRounds` | src/qvi-hwsplit.cc:206-266 | A close split colours every task as the two rounds do, and a task's cpuset has nothing of its affinity iff it was crowded out of all pieces it overlaps |
| `SplitGuarantees.PolicyPlaces` | src/qvi-hwsplit.cc:206-266 | With -3 task i is on the piece of its chunk, with -4 on piece i mod m, with -2 on one it shares no bit with only if those it shares one with are full of smaller tasks that do too |
| `SplitGuarantees.UsedPiecesCoverAll` | src/qvi-hwsplit.cc:125-143 | Pools never exceed the processing units of the primary cpuset, and cover them when every piece is used |
| `SplitGuarantees.TaskStaysInside` | src/qvi-hwsplit.cc:95-143 | In a split at GPU or NIC every bit of a task's cpuset is in the affinity of a device of the type, else in the pool's cpuset, and it belongs to a whole unit |
| `SplitGuarantees.TaskHasItsShare` | src/qvi-hwsplit.cc:125-143 | With N units and q pieces asked for, 0 < q <= N, every task has N / q or N / q + 1 of the units; otherwise no task has any, nor a colour |
| `SplitGuarantees.UnitsAreCovered` | src/qvi-hwsplit.cc:125-143 | When every piece is used every unit to be divided is wholly with some task |
| `SplitGuarantees.PoliciesMakeAllCpusets` | src/qvi-hwsplit.cc:206-227 | The tasks of a packed or spread split hold exactly q different cpusets |
| `SplitGuarantees.DevicesStayNear` | src/qvi-hwsplit.cc:270-309 | A device is in a pool it shares no bit with, although it shares one with another pool, only if that one holds its full share of nearer, earlier devices |
| `SplitGuarantees.DeviceInOnePool` | src/qvi-hwsplit.cc:270-309 | Every device of a supported type is in exactly one pool |
| `SplitGuarantees.DeviceCountsAddUp` | src/qvi-hwsplit.cc:270-309 | Device counts of the pools sum to the base pool's |
| `SplitGuarantees.ThreadsFillPiecesInOrder` | src/qvi-hwsplit.cc:430-440 | Thread i of a close split is on place i / ceil(n/m) of the overlapped pieces ascending followed by the others |
| `SplitGuarantees.ThreadsUsePieceIff` | src/qvi-hwsplit.cc:430-440 | The piece at place j is used iff j * ceil(n/m) is below the number of threads |
| `SplitGuarantees.ThreadsUseAllPiecesIff` | src/qvi-hwsplit.cc:430-440 | Threads with one affinity use every piece iff (m - 1) * ceil(n/m) < n |
| `SplitGuarantees.ThreadSplit` | src/qvi-hwsplit.cc:406-448 | The split for k threads with the parent's pool and the replicated affinity, into the pieces asked for or k, whichever is less; nothing is handed out on failure |
| `CollectiveSplit.ReachableInv` | src/qvi-hwsplit.cc:366-404 | Every reachable state keeps the invariant that fixes each rank's calls, data and codes |
| `CollectiveSplit.SameCollectives` | src/qvi-hwsplit.cc:313-404 | The n-th collective of any two ranks is of the same kind |
| `CollectiveSplit.SameReturnCode` | src/qvi-hwsplit.cc:385-404 | Finished ranks return the same code after the same number of calls, success exactly if they scattered |
| `CollectiveSplit.NoDeadlock` | src/qvi-hwsplit.cc:366-404 | Unless the root has crashed, some rank can move or all have finished |
| `CollectiveSplit.EnabledIffStep` | src/qvi-hwsplit.cc:366-404 | A rank can move exactly if it has a successor state, the root's computation included |
| `CollectiveSplit.RootSplit` | src/qvi-hwsplit.cc:337-383 | Uniting the gathered pools and splitting the union, into the pieces asked for or the group size, whichever is less, computes what the protocol expects of its root |
| `CollectiveSplit.AllOrNobodyFinishes` | src/qvi-hwsplit.cc:352-404 | Every run that cannot go on has all ranks finished, or none; unless packed has no pieces, none exactly for colours of both signs and for close and spread without pieces |
| `CollectiveSplit.PackedMayEndEitherWay` | src/qvi-hwsplit.cc:257-359 | For packed without pieces there is a run in which all ranks finish and one in which none does |
| `CollectiveSplit.RunCanEnd` | src/qvi-hwsplit.cc:366-404 | Every run can be continued to one that cannot go on |
| `CollectiveSplit.TwoRanksHang` | src/qvi-hwsplit.cc:366-404 | Two ranks that ask for colours 0 and -1 reach a state in which nobody can move and nobody has finished |
| `CollectiveSplit.RunsAreFinite` | src/qvi-hwsplit.cc:366-404 | No run takes more than 17 steps a rank |
| `CollectiveSplit.RaisedMeansNobodyFinishes` | src/qvi-hwsplit.cc:374-390 | Where the root has crashed every rank is unfinished, in every reachable state |
| `CollectiveSplit.RootRaisesExactly` | src/qvi-hwsplit.cc:374-383 | The root's computation fails exactly for colours of both signs, and for close and spread without pieces |
| `CollectiveSplit.RanksHoldTheSplit` | src/qvi-hwsplit.cc:352-404 | On success rank i holds the root's i-th pool of a split of the union of all ranks' pools; with pieces also its i-th colour, equal colours iff equal cpusets; success without pieces is packed, with empty cpusets |
| `CollectiveSplit.RanksShareTheUnits` | src/qvi-hwsplit.cc:352-404 | If all ranks succeed they hold even shares of the units of the united pools, or nothing if there are too few; only what devices are near to in a split at a device type; and in a packed or spread split q different cpusets that leave no unit out |
| `LruCache.LruCache.constructor` | src/qvi-utils.h:63-67 | An empty cache with no history |
| `LruCache.LruCache.Put` | src/qvi-utils.h:71-95 | List and index stay in agreement, without duplicates and within capacity, in the order of recency of the longer history |
| `LruCache.LruCache.Get` | src/qvi-utils.h:100-115 | Answers from the history alone: the last value put, iff fewer than capacity other keys were touched since |
| `LruCache.RecencyIsOk` | src/qvi-utils.h:71-115 | In the recency order, the keys before a key are exactly those touched since its last touch |
| `LruCache.HitIffRecent` | src/qvi-utils.h:100-115 | A key is found iff it is at one of the first capacity places of that order |
| `LruCache.TakeAfterTouch` | src/qvi-utils.h:71-95 | Evicting the last entry loses nothing: moving to the front of everything ever touched agrees with what the bounded list does |
| `LruCache.FoundAgain` | src/qvi-utils.h:71-115 | What was put, or found by a get, is found again after operations that do not put it anew and name fewer other keys than the capacity |
| `LruCache.GoneWhenCrowded` | src/qvi-utils.h:71-115 | A key is not found after as many other keys as the capacity were put without an operation on it |
| `ThreadGroup.ThreadGroup.Task` | src/qvi-group-thread.h:60-83 | The stored index on a hit, else the counter modulo the task count, the counter advancing only then, modulo 2^64 |
| `ThreadGroup.StoredIndexInRange` | src/qvi-group-thread.h:60-83 | Every cached index is a task of the group |
| `ThreadGroup.StaysRemembered` | src/qvi-group-thread.h:60-83 | A thread's index stays cached while fewer other threads than the capacity call |
| `ThreadGroup.TaskIsSticky` | src/qvi-group-thread.h:60-83 | Two calls of a thread get the same task if fewer than 8 * nthreads other threads called in between |
| `ThreadGroup.NewThreadsInTurn` | src/qvi-group-thread.h:60-83 | While no other group advances the counter new threads get the tasks round-robin from where it stands |
| `ThreadGroup.NewThreadsDifferIff` | src/qvi-group-thread.h:60-83 | n new threads in a row get n different tasks iff the counter does not wrap on the way or n divides 2^64 |
| `ThreadGroup.EveryTaskGetsOne` | src/qvi-group-thread.h:60-83 | Without a wrap each of n tasks gets exactly one of n new threads |
| `ThreadGroup.WrapSharesATask` | src/qvi-group-thread.h:60-83 | Two new threads of three tasks get task 0 around the wrap |
| `ThreadGroup.OtherGroupSharesATask` | src/qvi-group-thread.h:60-83 | Two new threads of two tasks get task 0 when another group was served in between |
| `ByteBuffers.ByteBuffer.Append` | src/qvi-bbuff.cc:81-103 | The contents grow by exactly the given bytes, whether or not the store is reallocated |
| `ByteBuffers.Displacements` | src/qvi-mpi.cc:95-104 | Displacements are the prefix sums of the counts, and the total is their sum |
| `ByteBuffers.FlatHoldsMessages` | src/qvi-mpi.cc:95-104 | The messages tile the flat buffer, each between its displacement and the next |
| `ByteBuffers.Gatherv` | src/qvi-mpi.cc:106-111 | Data received at these displacements fill the flat buffer with the messages in rank order (section 5.5 of MPI-3.1) |
| `ByteBuffers.GatherBuffers` | src/qvi-mpi.cc:70-123 | The root's buffer i holds exactly the bytes rank i sent |
| `ByteBuffers.ScatterBuffers` | src/qvi-mpi.cc:125-174 | Rank i receives exactly the bytes of the root's buffer i |
| `ByteBuffers.ScatterThenGather` | src/qvi-mpi.cc:70-174 | Gathering what was scattered gives the original list back |
| `TypedCollectives.NumberRoundTrip` | src/qvi-bbuff.h:91-96 | Eight bytes hold every length below 2^64 |
| `TypedCollectives.UnpackPacked` | src/qvi-bbuff.h:80-127 | Unpacking reads back the first packed value, whatever bytes follow |
| `TypedCollectives.Pack` | src/qvi-bbuff.h:80-102 | Appends length and archive to what the buffer holds |
| `TypedCollectives.GatherValues` | src/qvi-coll.h:23-50 | The root receives exactly the values sent, in rank order |
| `TypedCollectives.ScatterValues` | src/qvi-coll.h:52-81 | Rank i receives exactly the root's i-th value |
| `TypedCollectives.BcastValue` | src/qvi-coll.h:83-101 | Every rank receives the root's value |
| `LineWrap.ReadWord` | src/qvi-utils.cc:147-149 | Extraction takes the next word and leaves the others |
| `LineWrap.PlaceWord` | src/qvi-utils.cc:150-170 | Cutting a long word in the loop places its pieces as the greedy layout does |
| `LineWrap.Swrap` | src/qvi-utils.cc:138-177 | Computes the greedy layout of the cut words; a limit of zero leaves the text alone |
| `LineWrap.WrappedWords` | src/qvi-utils.cc:138-177 | The words of the result are the words of the text, the long ones cut |
| `LineWrap.WrappedLinesFit` | src/qvi-utils.cc:138-177 | Every line has at least one and at most the given number of characters, and ends only where the next word did not fit |
| `LineWrap.WrappedIsTidy` | src/qvi-utils.cc:138-177 | White space in the result is one blank or one newline between two words, and nothing else |
| `LineWrap.PiecesAreFull` | src/qvi-utils.cc:150-158 | A long word is cut into pieces of the full length and a last one that is not empty |
| `LineWrap.WrappingKeepsText` | src/qvi-utils.cc:138-177 | The characters other than white space are the same, in the same order |
| `LineWrap.WrappingKeepsCounts` | src/qvi-utils.cc:138-177 | Every character that is not white space occurs as often as before |
| `LineWrap.WrappingIsIdempotent` | src/qvi-utils.cc:138-177 | Wrapping a wrapped text changes nothing, even where words were cut |

## Left out

- Colors.MapColors: does not tell a failed assertion from the refused access that follows where assertions are compiled out; both are `Aborted`, so nothing is said about the pools such a call leaves behind.
- CollectiveSplit.AllOrNobodyFinishes: decides nothing for packed without pieces, because what a read past the end of the list of colours does is undefined; the model allows a crash and going on with any values, and no other effect.
- CollectiveSplit.RanksHoldTheSplit: says nothing about the ranks' colours in that case.
- HwSplit.Splitter.DetermineMapping: the casts of piece counts and piece numbers to `int` (src/qvi-hwsplit.cc:172, 263) are not modelled; with more than `INT_MAX` pieces they would narrow.
- Hwloc.SplitCpusetByRange: positions and extents are not narrowed to the source's `uint_t`.
- ByteBuffers.GatherBuffers: models the whole group's call at once rather than each process's part, and MPI's own transfers by what they move; MPI failures do not occur.
- ByteBuffers.ByteBuffer.Append: allocation always succeeds.
- TypedCollectives.UnpackPacked: the archive format is a parameter that round-trips; the byte order of the length is fixed to little-endian.
- ThreadGroup.ThreadGroup.Task: the mutex is not modelled, calls are atomic; the counter shared by all groups is an argument.
- LruCache.LruCache.constructor: requires a capacity of at least one; with zero the source takes the last element of an empty list.
- HwPool.HwPool.AddDevice: devices are values, not shared pointers; the sort makes no promise on equal IDs.
- Affinity statistics computed and logged in `stable()`, verbose output of mappings, and all other logging.
- Splits called with an empty group.
- hwloc discovery, XML import and export, binding calls, `get_nobjs_in_cpuset` for devices.
- The RPC server and client, daemon start-up, MPI communicator handling, process and scope objects, the bind stack, `qvi_cantor_pairing` and the Fortran and C wrappers: I/O plumbing, or easy members.
- Groups other than the MPI and thread ones; the collectives of the thread group.

# A verified model of BWAP's placement, tracking and tuning

BWAP spreads a process's pages over NUMA nodes in proportion to per-node weights, keeps a list of the
process's memory regions by wrapping the allocator, and tunes the placement from noisy stall-rate
samples. This project models those parts in Dafny over an arbitrary number N of nodes (the library is
compiled for two) and proves what they are for.

Run `dafny verify dfyconfig.toml` in this directory to check everything.

## What is proved

**Weighted placement.** Round i deals `a * (w_i - w_{i-1})` percent of a region round-robin to the `a`
nodes still in play and then drops node i. The proofs connect the loops of the library, written as the
loops they are, with the page count of every node in the end. `Dealing` holds the core argument, once
for all layouts: summation by parts for the ideal rounds, floor and ceiling errors per round, residue
counting inside a round, and the round in which the region runs out early. From it follow the two-sided
error bounds of the mbind form (`InterleavedProportional`), the page-array form (`FinalShares`) and the
contiguous form (`ContiguousProportional`), for weights of any total, and the bound on how far two
layouts can disagree (`LayoutsAgree`). The calls tile the region exactly although every round truncates
before it rounds up (`ChunksTileRegion`). `RescaledProportional` follows the whole path from a shift
towards the worker to the pages each node owns.

**Region tracker.** `RegionTracker` is the state machine of the handlers with its invariant over every
admissible run: the list is exactly the boot segments, untouched but for the heap's end, and the live
blocks outside the heap, pairwise disjoint (`ReachableList`); removing by containment removes exactly
the block's own segment and announces it (`ReleaseIsExact`); and the announcements to the mode balance
(`LedgerBalances`). The heap ends at the last reported break, and every segment carries the name of the
handler that recorded it. `BootRecords` says which lines of the maps file the list starts from.
`MemoryMap` is the class with the mutable list and the heap pointer; each handler is proved to do one step
of that machine.

**Ratios, sweep, samples.** The calls of a whole increasing sweep leave one to four workers with what the
ratio gives them at every step (`SweepCallsHoldRatio`, `AdaptiveSweepHoldsRatio`); the two-node migration
is exact and nested in the ratio (`RemoteCount`, `RemoteSetGrows`); the trimmed mean is robust and monotone
(`MeanIsRobust`, `MeanIsMonotone`).

**Names, guard, search.** The in-place trimming of a packed name buffer and its lookups undo each other
(`ValueRoundTrip`); the re-entrancy guard is analysed over every finite call tree (`RunKeeps`,
`TrackedExactly`, `DiesExactly`); a search for weights stays on points, and on numbers, exactly as long as
no iteration derails (`SearchStaysIff`).

### Findings stated as theorems

Where the code does less than one would expect, the model follows the code and the exact condition is
proved.

- On 17, 18 and 19 nodes, and no others, the first ratio of the adaptive sweep is below an even share, so
  the placement ends the process (`GuardsNeverFire`).
- All tables of N nodes pass the check after rescaling if and only if N is at most nine (`NeverFailsIff`).
- The migration by ratio needs two different nodes, but the source sets both to node 0
  (`ConfiguredNodesCoincide`).
- `find_minimum` compares with a truncated minimum, so the shift can leave weights down to, but not
  including, -1; exactly when, says `LeftoverIff`. An iteration from a point leads to a point exactly when
  the moved weights neither spoil (some weight is left negative, and another is above the one picked) nor
  vanish (all the same and none positive, so that the source divides by zero): `RecentredIsAPoint`. From the
  program's own start, if the first neighbour takes 82 seconds more over its three runs, the second 81
  and the others the same, one iteration ends with a weight over 570 and six under -78
  (`IterationLeavesNegative`).
- `malloc` and `calloc` clear the guard before they trace, the other wrappers after; an allocation made
  by the trace is tracked in the first case and not in the second (`TracesDiffer`).
- A wrapped call ends the process exactly when it is an mremap, when a brk, sbrk or mbind gets through to
  its unimplemented handler, or when dlsym asks for the temporary buffer while it is lent out, anywhere in
  the tree of calls (`DiesExactly`).
- Segments end at an inclusive address, while page alignment treats the end as exclusive; the last byte
  is lost exactly when its address is page-aligned (`AlignedRange`).
- Removing by containment takes the heap segment out of the list, and leaves its pointer dangling, exactly
  when the heap contains the address (`HeapLostIff`). Releasing a block that is older than the library
  takes the whole boot segment around it (`ReleaseInsideBoot`).
- `force_uniform_interleave` passes on the start and the length of a segment as they are; unless both are
  page-aligned the process ends (`ForceUniformInterleave`).
- The rescaled table stays sorted under every shift towards the worker if and only if the worker is last
  (`StaysSortedIff`). The sums it divides by start at zero, and the only call in start-up that would set
  them is commented out (unstickymem.cpp:98), as is the call that would place by the rescaled table.
- Aligning up inside the last page of the address space wraps to zero (`MaskUpWraps`).

The project's own README says that the tuner goes on while the stall rate drops; the code goes on until
a sample and its doubled re-sample both exceed the best rate by 0.1 percent, and that is what is modelled.

### Assumptions

- An mbind call that interleaves whole pages deals them round-robin over its node set; the order of the
  nodes and the starting point are the kernel's choice, different for each call. One that binds leaves it to
  the kernel which node of the set each page gets. The theorems hold for every choice.
  At an address off the page boundary it fails. All placements but the uniform one are called with
  page-aligned ranges.
- Weights, ratios, rates and times are exact. The truncations, `round` and `lround` of the source are
  explicit (`Rounding`).
- The weight table is sorted with no negative weight, as `read_weights` leaves it, and has one record per
  node.
- Allocator and kernel: blocks are non-empty, new blocks overlap nothing tracked, the heap grows and
  shrinks only where it stays clear of other segments and keeps its live blocks, an mmap is not placed at
  the break, and a munmap matches its mmap (`Admissible`).
- Of the blocks that are older than the library, an admissible run releases only those in the heap
  (`BootEstablishes` starts from any set of them). What the release of any other one does to the list is
  `ReleaseInsideBoot`; it is not part of the runs.

Products of a count and a real are written `Times(n, x)`, repeated addition, which `TimesIsProduct` shows
to be the product; `Bytes(p, g)` is `p * g` and `PageOf(x, g)` is `x / g` (`BytesIsProduct`,
`PagesAreQuotients`). Only the shape differs: it keeps non-linear terms out of the proofs. Every lemma
states its own induction and switches the automatic one off.

## Model

| member | source | states |
|---|---|---|
| InterleavedShares.InterleavedProportional | src/unstickymem/PagePlacement.cpp:880-918 | for every region in whole pages, every kernel choice and every node at position k: fewer than k + 1 pages above its percentage, and fewer than 2N - 1 plus what the weights exceed the region by below, clamp and early exit included |
| InterleavedShares.WantsAreExact | src/unstickymem/PagePlacement.cpp:351-365 | a round asks for the least whole number of pages whose bytes are above its exact size less one byte: truncated to bytes, then rounded up to pages |
| InterleavedShares.RegionCovered | src/unstickymem/PagePlacement.cpp:351-371 | with weights of 100 or more, N at most the page size and a whole number of pages, the chunks use up the region although every round truncates |
| InterleavedShares.UncoveredTail | src/unstickymem/PagePlacement.cpp:351-371 | with a total weight W of 100 or less, less than (100 - W) percent of the region plus N bytes stays uncovered |
| InterleavedShares.PlanTiles | src/unstickymem/PagePlacement.cpp:366-383 | the calls are consecutive, non-empty and do not overlap, whatever each round asks for |
| InterleavedShares.CallsAreRounds | src/unstickymem/PagePlacement.cpp:374-388 | whatever order and starting point the kernel picks for each call, the pages end up as rounds dealt over the call's nodes |
| Dealing.Proportional | src/unstickymem/PagePlacement.cpp:351-389 | for any sizing that keeps each round within a page of its ideal, node k ends with less than k + 1 pages too many and less than 2N - 1 plus the excess of the shares too few, and less than k + 1 too few when no round up to its own is cut short |
| Dealing.LastRound | src/unstickymem/PagePlacement.cpp:366-369 | when the region runs out in a round, what each of its nodes misses stays within two pages of the earlier rounds' error |
| Dealing.DealShare | src/unstickymem/PagePlacement.cpp:834-838 | dealing a range of pages by page number modulo the node count gives each node a closed-form count within one page of an even share, wherever the range starts |
| WeightedPlacement.PlacePagesWeighted | src/unstickymem/PagePlacement.cpp:331-392 | the interleaving loop makes exactly the calls that the cuts and the nodes still in play prescribe; one call per non-empty round, none after the region is used up (the same loop is at lines 861-921 over the other table) |
| WeightedPlacement.PlacePagesContiguous | src/unstickymem/PagePlacement.cpp:722-769 | the slice loop makes exactly one bind call per non-empty slice, each to its own node, in table order |
| ContiguousShares.LayoutsAgree | src/unstickymem/PagePlacement.cpp:722-921 | under the same weights and region no node's total differs by 2N pages, plus what the weights exceed the region by, between the two layouts |
| ContiguousShares.ContiguousProportional | src/unstickymem/PagePlacement.cpp:736-766 | each slice has fewer than one page above its percentage, and fewer than k + 1 plus what the weights exceed the region by below |
| ContiguousShares.SlicesAreExact | src/unstickymem/PagePlacement.cpp:736-750 | so does a slice, of the share of its node |
| ContiguousShares.SlicesTileRegion | src/unstickymem/PagePlacement.cpp:736-762 | with weights of 100 or more the slices tile the region from its first byte to its last, in order |
| ContiguousShares.ChunksTileRegion | src/unstickymem/PagePlacement.cpp:880-913 | so do the interleaved chunks |
| PageArray.FinalShares | src/unstickymem/PagePlacement.cpp:800-846 | in the finished array every node has its share to within fewer than k + 1 pages (2N - 1 and the excess below, for weights above 100); the default node also has the tail, which is less than what the weights leave over plus N pages, and at most N - 1 for weights of 100 or more |
| PageArray.ArrayOwner | src/unstickymem/PagePlacement.cpp:800-846 | page j of a round is on the node at position j modulo the number of nodes in play, and behind the last round on node 0 |
| PageArray.ClampNeverBites | src/unstickymem/PagePlacement.cpp:821-831 | for weights of 100 or less every round gets what it computes, from where the last one stopped |
| PageArray.MovePagesInitial | src/unstickymem/PagePlacement.cpp:772-858 | the array holds exactly the dealt rounds, followed by the default node 0 |
| UniformInterleave.ForceUniformInterleave | src/unstickymem/PagePlacement.cpp:61-95 | succeeds exactly on whole pages from a page boundary on, or on nothing, and ends the process with the right message otherwise; 64 pages go to each node in rotation until the region is used up |
| UniformInterleave.UniformOwner | src/unstickymem/PagePlacement.cpp:76-89 | page j of the region is on node (j / 64) modulo the number of nodes, whatever the kernel does |
| UniformInterleave.PagesAfter | src/unstickymem/PagePlacement.cpp:76-89 | after every call the count of each node in closed form, the short last call included |
| UniformInterleave.UniformBalanced | src/unstickymem/PagePlacement.cpp:76-89 | no node ends with more than 64 pages more than another |
| UniformInterleave.UniformTiles | src/unstickymem/PagePlacement.cpp:76-89 | the calls tile the region |
| Rescaling.RescaledProportional | src/unstickymem/PagePlacement.cpp:471-595 | with the worker last and a shift towards it, although the rounded weights need not total 100, every node owns the share the shift gives it, up to the pages of the rounds, p/2000 above and (N+1)p/2000 below |
| Rescaling.NeverFailsIff | src/unstickymem/PagePlacement.cpp:582-586 | all tables of N nodes pass the sum check for all shifts if and only if N is at most nine |
| Rescaling.TenNodesCanFail | src/unstickymem/PagePlacement.cpp:582-586 | for every N of ten or more a sorted table with the worker last fails it, without any shift |
| Rescaling.NewSumNearHundred | src/unstickymem/PagePlacement.cpp:482-572 | the new weights, rounded to tenths, sum to 100 within N/20 |
| Rescaling.StaysSortedIff | src/unstickymem/PagePlacement.cpp:482-594 | with the worker at one position of a sorted table, the new table is sorted under every shift towards it if and only if that position is the last |
| Rescaling.RescaledStaysSorted | src/unstickymem/PagePlacement.cpp:482-594 | with the worker last and a shift towards it the new table is sorted again |
| Rescaling.Weights.Rescale | src/unstickymem/PagePlacement.cpp:474-591 | the table is rescaled once and kept: with one worker node 0 gets its part of sum_ww + s and every other node its part of the rest, with two workers node 1, to the nearest tenth; fails exactly when the new weights do not round to 100 or the number of workers is not supported |
| Rescaling.ScaleIs | src/unstickymem/PagePlacement.cpp:488-495 | a node's part of a share is to the share as its weight is to the sum |
| Rescaling.Weights.PlacePagesWeightedS | src/unstickymem/PagePlacement.cpp:471-595 | succeeds exactly when the rescaling does, and makes the placement calls of the weighted loop over the rescaled table |
| Rescaling.Weights.GetSums | src/unstickymem/unstickymem.cpp:229-331 | with one worker the weights of node 0 are added to sum_ww and all others to sum_nww, with two those of node 1; succeeds exactly for one or two workers and a rounded total of 100, and adds nothing for another number |
| Rescaling.CheckSum | src/unstickymem/unstickymem.cpp:137-145 | the sum of the weights, rounded half away from zero |
| RemoteRatio.RemoteCount | src/unstickymem/PagePlacement.cpp:194-233 | the count is the ratio of all pages, to nearest with ties down up to 50, rounded down above |
| RemoteRatio.RemoteSetGrows | src/unstickymem/PagePlacement.cpp:194-233 | the remote set is nested in the ratio, across 50 as well: raising it never moves a page back |
| RemoteRatio.MovePagesRemote | src/unstickymem/PagePlacement.cpp:156-240 | up to 50 the odd pages below twice the ratio of all pages are remote and all others local; above 50 the even pages below twice the missing ratio are local and all others remote |
| RemoteRatio.ConfiguredNodesCoincide | src/unstickymem/PagePlacement.cpp:184-191 | with the nodes the source sets, every ratio sends every page to node 0 |
| SplitPlacement.SweepCallsHoldRatio | src/unstickymem/PagePlacement.cpp:597-663 | after the calls of an increasing sweep, each with its own kernel choice, one to four workers together hold what the ratio gives them: less than a page for each too few, less than a page for each and one more too many |
| SplitPlacement.OneWorkerHolds | src/unstickymem/PagePlacement.cpp:597-646 | for a single worker that is the ratio of the region, less than one page too few and less than two too many |
| SplitPlacement.StepShares | src/unstickymem/PagePlacement.cpp:633-663 | a call keeps the prefix and gives the rest to node 0 with one worker, and in even shares to within one page to nodes 0 and 1 with two, 1 to 3 with three, and 0 to 3 with four; with any other number every page stays where it was |
| SplitPlacement.SweepKeepsPrefix | src/unstickymem/PagePlacement.cpp:597-663 | after any increasing sweep the region is the initial one up to the last ratio's prefix, and the rest is dealt evenly to the workers |
| SplitPlacement.PrefixIsExact | src/unstickymem/PagePlacement.cpp:599-604 | the prefix is the interleave ratio of all pages, rounded down |
| SplitPlacement.PlacePages | src/unstickymem/PagePlacement.cpp:597-676 | accepted exactly for ratios from an even share to 1, with the message of the check that fails otherwise; all length checks pass; the calls are those of the split |
| SplitPlacement.RatioBalance | src/unstickymem/PagePlacement.cpp:599-600 | n - 1 interleave ratios are n times the part that the worker is not to hold |
| SplitPlacement.RatiosValid | src/unstickymem/PagePlacement.cpp:599-615 | all ratio guards hold if and only if 1/n <= r <= 1 |
| SplitPlacement.PartsTotal | src/unstickymem/PagePlacement.cpp:603-621 | the two parts always total the page-floored length |
| SplitPlacement.SuffixGrows | src/unstickymem/PagePlacement.cpp:599-606 | the part bound to the workers only grows with the ratio |
| AdaptiveSweep.AdaptiveSweepHoldsRatio | src/unstickymem/mode/AdaptiveMode.cpp:73-106 | after the calls of every visit of the sweep the one to four workers together hold what the ratio gives them |
| AdaptiveSweep.SingleWorkerHoldsRatio | src/unstickymem/mode/AdaptiveMode.cpp:73-106 | a single worker holds its ratio of the region: less than one page too few, less than two too many |
| AdaptiveSweep.GuardsNeverFire | src/unstickymem/mode/AdaptiveMode.cpp:73-79 | every visited ratio is at least an even share for n >= 2 except 17, 18 and 19, and there the first one is not |
| AdaptiveSweep.Adapt | src/unstickymem/mode/AdaptiveMode.cpp:73-106 | for every trace the loop ends, has visited a prefix of the possible ratios, keeps the least sample, and stops exactly at the first visit whose sample and re-sample both exceed the least so far by more than a tenth of a percent |
| AdaptiveSweep.StartBounds | src/unstickymem/mode/AdaptiveMode.cpp:73 | the first ratio is the least multiple of five percent from the even share, rounded down, on |
| AdaptiveSweep.VisitsShape | src/unstickymem/mode/AdaptiveMode.cpp:73-76 | it visits only 100 percent, or the odd multiples of five from the start |
| AdaptiveSweep.StopsAfterBest | src/unstickymem/mode/AdaptiveMode.cpp:93-104 | with non-negative rates it only stops on a ratio that an earlier one beat |
| Sampling.MeanIsRobust | src/unstickymem/PerformanceCounters.cpp:463-479 | with at most k arbitrary samples the result stays between the least and the greatest good one |
| Sampling.MeanOfMiddle | src/unstickymem/PerformanceCounters.cpp:463-479 | the result times the number of samples kept is the total of all samples less the k least and the k greatest |
| Sampling.MeanIsMonotone | src/unstickymem/PerformanceCounters.cpp:463-479 | raising samples never lowers the result |
| Sampling.OrderIrrelevant | src/unstickymem/PerformanceCounters.cpp:463-479 | permuting the samples does not change the result |
| Sampling.AverageStallRate | src/unstickymem/PerformanceCounters.cpp:439-480 | the first sample is thrown away, and the result is the mean of the rest without its k least and k greatest, or not a number when none is left |
| RegionTracker.ReachableList | src/unstickymem/memory/MemoryMap.cpp:90-275 | after every admissible run the list is exactly the boot segments, each of them unchanged up to the heap's end and no other, and the live blocks outside the heap with their byte ranges and the name of the handler that recorded them, pairwise disjoint; the heap segment is in place and ends at the last break that a handler was to report |
| RegionTracker.ReleaseIsExact | src/unstickymem/memory/MemoryMap.cpp:167-177 | in every reachable state a free, realloc or munmap of a block outside the heap removes the block's own segment and no other, announces that one, and leaves none that contains the old address |
| RegionTracker.LedgerBalances | src/unstickymem/memory/MemoryMap.cpp:169-187 | announced additions less announced removals are the list without the stack, after every run |
| RegionTracker.StepKeeps | src/unstickymem/memory/MemoryMap.cpp:115-275 | every admissible handler call keeps the invariant |
| RegionTracker.HeapLostIff | src/unstickymem/memory/MemoryMap.cpp:199-216 | the removal drops the heap segment exactly when the heap contains the address |
| RegionTracker.ReleaseInsideBoot | src/unstickymem/memory/MemoryMap.cpp:208-215 | releasing an address inside another boot segment removes that whole segment, announces it, and keeps the invariant |
| BootScan.BootRecords | src/unstickymem/memory/MemoryMap.cpp:31-63 | the list holds exactly the lines of the heap, the stack, the text and data addresses and those without a name, in order and each under its kind; all but the stack are announced; the heap is the last line of that name; fails exactly when one of the four is missing, with that message |
| BootScan.BootEstablishes | src/unstickymem/memory/MemoryMap.cpp:31-63 | the list built from disjoint maps lines satisfies the invariant for any blocks that are already live in the heap |
| MemoryMap.MemoryMap.Create | src/unstickymem/memory/MemoryMap.cpp:31-63 | the objects built line by line represent the scanned list, the heap pointer is the last heap line; ends the process exactly when a segment is missing, with that message |
| MemoryMap.RemoveIf | src/unstickymem/memory/MemoryMap.cpp:169-176 | remove_if keeps exactly the segments that do not contain the address, in order, and reports the others |
| MemoryMap.MemoryMap.UpdateHeapEnd | src/unstickymem/memory/MemoryMap.cpp:90-96 | rewriting the end through the heap pointer changes exactly the heap entry of the list |
| MemoryMap.MemoryMap.HandleMalloc | src/unstickymem/memory/MemoryMap.cpp:115-133 | one malloc step of the machine; the heap ends at the break |
| MemoryMap.MemoryMap.HandleCalloc | src/unstickymem/memory/MemoryMap.cpp:135-153 | one calloc step; the heap ends at the break |
| MemoryMap.MemoryMap.HandleRealloc | src/unstickymem/memory/MemoryMap.cpp:155-190 | one realloc step; the heap ends at the break, and its pointer stays good exactly when the moved heap does not swallow an outside block, which no admissible call does |
| MemoryMap.MemoryMap.HandleFree | src/unstickymem/memory/MemoryMap.cpp:198-217 | one free step; the heap ends at the break if the block was in it, and where it did otherwise |
| MemoryMap.MemoryMap.HandlePosixMemalign | src/unstickymem/memory/MemoryMap.cpp:219-240 | one posix_memalign step; the heap ends at the break |
| MemoryMap.MemoryMap.HandleMmap | src/unstickymem/memory/MemoryMap.cpp:242-258 | one mmap step |
| MemoryMap.MemoryMap.HandleMunmap | src/unstickymem/memory/MemoryMap.cpp:260-275 | one munmap step; the heap pointer stays good exactly when the address is outside the heap, as in every admissible call |
| Segments.AlignedRange | src/unstickymem/memory/MemorySegment.cpp:66-82 | the aligned range holds every byte but the last, and the last exactly when its address is not page-aligned; it reaches less than a page too far at either end |
| Segments.AlignedWhole | src/unstickymem/memory/MemorySegment.cpp:66-82 | it is a whole number of pages |
| Segments.IntersectsIffShared | src/unstickymem/memory/MemorySegment.cpp:104-111 | the interval test holds exactly when a byte is shared, and is symmetric |
| Alignment.MaskDownRounds | include/unstickymem/PagePlacement.hpp:11-17 | masking rounds down to a page for every power-of-two page size, the int mask being converted to a word |
| Alignment.MaskUpRounds | include/unstickymem/PagePlacement.hpp:12-17 | absent overflow, adding the complement and masking rounds up |
| Alignment.MaskUpWraps | include/unstickymem/PagePlacement.hpp:12-17 | with overflow the result is zero |
| EnumNames.ValueRoundTrip | include/better-enums/enum.h:737-752 | every declared value has a name that parses back to it, even when values repeat |
| EnumNames.CaseRoundTrip | include/better-enums/enum.h:764-769 | so does every ASCII case variant if the names stay distinct in lower case |
| EnumNames.NameRoundTrip | include/better-enums/enum.h:676-707 | a name comes back from its value exactly when its constant is the first with that value |
| EnumNames.UnknownNames | include/better-enums/enum.h:747-752 | a string is rejected exactly when it is no declared name |
| EnumNames.ParsesToFirst | include/better-enums/enum.h:747-752 | a name parses to the value of the first constant that has it |
| EnumNames.ParsesToFirstNocase | include/better-enums/enum.h:764-769 | so does a string that is the name up to ASCII case |
| EnumNames.UnknownNamesNocase | include/better-enums/enum.h:764-769 | a string is rejected exactly when it is no declared name up to ASCII case |
| EnumNames.NamedByFirst | include/better-enums/enum.h:737-744 | a value has the name of the first constant with it, and none exactly when there is no such constant |
| EnumNames.TrimIsName | include/better-enums/enum.h:414-478 | the name is the declaration up to its first equals sign, space, tab or newline |
| EnumNames.SameLetter | include/better-enums/enum.h:439-441 | two characters compare equal without case exactly when they are the same or the two cases of one ASCII letter |
| EnumNames.TrimNames | include/better-enums/enum.h:464-478 | the loop cuts every slot of the packed storage, records where each starts and changes nothing else |
| EnumNames.SlotReadsTrimmed | include/better-enums/enum.h:464-478 | read back from the trimmed storage, every name is its raw name cut at the first ender |
| EnumNames.MatchIffTrimmed | include/better-enums/enum.h:443-451 | a raw name matches a reference exactly when the reference is the raw name cut at its first ender |
| EnumNames.NocaseIffTrimmed | include/better-enums/enum.h:453-462 | the same up to ASCII case |
| EnumNames.NameTable.ToString | include/better-enums/enum.h:737-744 | the string read from the storage is the trimmed name of the first constant with the value, or none |
| EnumNames.NameTable.FromString | include/better-enums/enum.h:747-752 | the value of the first constant with that name, or none |
| EnumNames.NameTable.FromStringNocase | include/better-enums/enum.h:764-769 | the same up to ASCII case |
| Reentrancy.RunKeeps | src/unstickymem/unstickymem.cpp:335-525 | over every finite call tree at most one handler is active, the flag is set exactly while a handler or the trace behind it is, every dispatch obeys it, and every call leaves it as it was |
| Reentrancy.TrackedExactly | src/unstickymem/unstickymem.cpp:335-525 | exactly the outermost calls, and what the traces of malloc and calloc allocate, are tracked; nothing a handler allocates is |
| Reentrancy.DiesExactly | src/unstickymem/unstickymem.cpp:358-525 | the process ends exactly when the tree holds an mremap, lets a brk, sbrk or mbind through to its unimplemented handler, or asks for the temporary buffer while it is lent out |
| Reentrancy.TracesDiffer | src/unstickymem/unstickymem.cpp:341-395 | an allocation in the trace of realloc is passed on, in the trace of malloc it is tracked |
| Reentrancy.EveryOperation | src/unstickymem/unstickymem.cpp:335-525 | for each wrapped call: brk, sbrk, mbind and mremap end the process, all others are tracked, and an allocation in the trace is tracked behind malloc and calloc only |
| Reentrancy.OnlyCallocLends | src/unstickymem/unstickymem.cpp:350-426 | a calloc made by a lookup gets the temporary buffer behind calloc only, a second one ends the process, and a free of the buffer returns it |
| Reentrancy.ThreadGuard.Invoke | src/unstickymem/unstickymem.cpp:335-525 | a wrapped call does what the call tree prescribes and keeps the guard's invariant |
| WeightSearch.SearchStaysIff | test/bwap_gd_executor.c:143-271 | a search that starts at a point stays on points and never divides by zero exactly when no iteration from a point spoils or vanishes |
| WeightSearch.Optimise | test/bwap_gd_executor.c:143-271 | the loop of main goes through the places of a search, from the weights it is given to those it leaves |
| WeightSearch.RecentredIsAPoint | test/bwap_gd_executor.c:238-263 | an iteration ends at a point if and only if the moved weights neither spoil nor vanish; without a spoiling order the source divides by zero exactly when they vanish, and otherwise the result totals 100 |
| WeightSearch.LandsOnce | test/bwap_gd_executor.c:168-263 | the measured times determine where an iteration ends |
| WeightSearch.IterationLeavesNegative | test/bwap_gd_executor.c:117-263 | from the program's initial weights, whatever the three runs there take in whole seconds, eight times that the program can measure lead one iteration to a weight over 570 and six under -78 |
| WeightSearch.LeftoverIff | test/bwap_gd_executor.c:238-247 | a weight stays negative after the shift exactly when a smaller entry stands before the last one below the least truncated value |
| WeightSearch.ShiftAboveMinusOne | test/bwap_gd_executor.c:238-247 | after the shift every weight is above -1 and the picked one is not negative |
| WeightSearch.NeighbourIsAPoint | test/bwap_gd_executor.c:172-194 | every neighbour of a non-negative point can be normalised, is non-negative and totals 100 |
| WeightSearch.NeighbourIs | test/bwap_gd_executor.c:171-182 | a neighbour has seven more along its own weight, up to 100, and one less along the others, down to zero |
| WeightSearch.MovesDownhill | test/bwap_gd_executor.c:217-233 | a weight moves against the slope by seven times the difference in time over that in weight: away from a slower neighbour, towards a faster one; it falls by seven if the neighbour has the same weight |
| WeightSearch.ShiftKeepsDifferences | test/bwap_gd_executor.c:238-247 | the shift keeps all differences and brings a negative pick to zero; without one it changes nothing |
| WeightSearch.NormalisedTotals | test/bwap_gd_executor.c:254-263 | the normalised weights total 100 and are in proportion to what they were, whatever the signs |
| WeightSearch.FindMinimum | test/bwap_gd_executor.c:97-111 | the index is the last entry strictly below the least truncated value, or else the first that truncates to it |
| WeightSearch.Iterate | test/bwap_gd_executor.c:168-263 | one iteration moves along the measured slopes, shifts and normalises; the new weights total 100 |

## Left out

- Rounding of `float` and `double`: arithmetic is exact, so sizes above 2^24 bytes, which a `float` product cannot hold exactly, are placed here more precisely than by the library.
- Integer widths: `int page_count` and `int i * pagesize` overflow on very large regions, `size_t` sums near the top of the address space; only the page masks are modelled with their widths.
- libnuma, `mbind` calls that fail for another reason than their address, failing `move_pages` calls, memory policies set elsewhere, and pages that are not yet faulted in.
- `/proc/self/maps`, weight files, environment variables and options: parsed lines and a weight table are inputs.
- Tables that are not sorted or repeat a node: `read_weights` sorts.
- Thread interleavings and locks in the memory map, and the per-thread counters: handlers run one after the other.
- Failed allocations, zero-size requests and failing munmap: the handlers record nonsense ranges then; excluded by `Admissible`.
- The reallocarray handler, which only calls the real function, and an mremap handler: the guard shows where the wrapped calls go, the tracker has no step for them.
- Rescaling.Weights.PlacePagesWeightedS: needs a rescaled table that is still sorted; a negative difference would be converted to an unsigned size, which C++ leaves undefined.
- Rescaling.Weights.Rescale: both sums must not be zero. With a zero sum the source's weights become infinities or NaN, which `lround` turns into an unspecified number before the check; this is the state of the shipped library, where nothing calls `get_sum_nww_ww` (unstickymem.cpp:98, FixedRatioMode.cpp:90 and ScanMode.cpp:88 are comments).
- SplitPlacement.PlacePages: one node with the ratio 1 is excluded, where the local ratio is 0 / 0 and its conversion to a length undefined.
- Sampling.AverageStallRate: filtering more samples than there are is excluded, where the source erases beyond its vector. The sort is an insertion sort, which `SortUnique` shows to be any sort.
- MemoryMap.MemoryMap.Create: segment names are kinds, and list-node addresses are keys.
- MemoryMap.MemoryMap.HandleFree: like the other handlers it starts from a good heap pointer; once it dangles the source's behaviour is undefined.
- AdaptiveSweep.Adapt: the rates are an arbitrary trace by number of visit; sleeping, logging and the placement of several segments are not modelled.
- WeightSearch.Iterate: the completion times are an arbitrary input, and the number of iterations is that of the times given, not 20.
- WeightSearch.Optimise: after a division by a zero sum the source goes on with infinities and NaN, whose conversion to int in `find_minimum` is undefined; the search has no weights from then on.
- Reentrancy.ThreadGuard.Invoke: the library is either initialised for the whole run or not; the contents of the temporary buffer, calls that the real allocator makes, and what the final message of a dying process calls are not modelled.
- EnumNames.NameTable.constructor: raw names contain no NUL; the macro layer that generates the tables, the exceptions and the all-constexpr variant are left out.
- `place_pages_weighted_dwp`: the weights it computes are not used for placement; only its call to `move_pages_remote` matters.
- The scan, fixed-ratio, disabled and weighted-adaptive modes: thin calls into the placement code.
- Hardware counters, the log files, benchmarks and build files.

# Sparrow core, modelled in Dafny

Sparrow is a distributed boosting system. A head node keeps the model, a
set of trees. Scanners search grids of the feature space for new weak
rules. Samplers keep a stratified sample of the training data on disk.
The nodes exchange `TaskPacket`s about tree nodes. This project models
the data structures and the bookkeeping under that design:

- the fan-out script that copies the training files to every node of a
  cluster (`FanOut`, scripts/aws/transmit-training-files.py);
- the free-slot bitmap and the disk buffer of fixed-size blocks built on
  it (`BitMaps`, `DiskBuffers`);
- the discretisation of feature values into bins, in its common and its
  booster variant (`CommonBins`, `BoosterBins`);
- LibSVM parsing (`LibSvm`);
- the in-memory and batched data readers and the score buffer
  (`InMemData`, `DataReaders`, `ScoresBuffer`);
- trees, the model of trees and task packets (`Trees`, `Models`,
  `Packets`);
- the three schedulers that hand tree nodes or grids to scanners
  (`SamplerScheduling`, `MasterScheduling`, `HeadScheduling`);
- the packet statistics that drive the sampler's gamma updates
  (`PacketStatistics`);
- the k-d tree that cuts the feature space into grids (`KdTrees`);
- the error-rate and ROC points of the validator (`Validation`).

Each Rust struct whose methods update its fields is a Dafny `class`.
The bitmap's word vector is an `array`, updated in place. The other
vectors the source indexes and updates in place (the score buffer, the
schedulers' task and status vectors, the tree's node vectors) are `seq`
fields that the methods reassign; maps are `map` fields. Pure helpers are
functions. Every loop of the source is a `while` loop with invariants,
proved against a specification function. That function's properties
are proved as lemmas.

The code sometimes disagrees with what a comment or a test implies. The
model then follows the code, and the row or the "Left out" line says so.

The files are `wrappers.dfy`, which holds `Option`, and one file per
modelled source file.

## Model

| member | source | states |
|---|---|---|
| BitMaps.Log | src/data_loader/stratified_loader/bitmap.rs:56-68 | the binary search returns the position of the highest set bit of any value below 2^33, and 0 for 0 |
| BitMaps.FirstInWord | src/data_loader/stratified_loader/bitmap.rs:26-34 | for a non-zero word, `log(k & -k)` is the lowest set bit: set, with every bit below it clear |
| BitMaps.WidenIsolate | src/data_loader/stratified_loader/bitmap.rs:26-30 | sign-extending the `i32` word to `i64` before `k & -k` isolates the same bit, and keeps zero exactly when the word is zero |
| BitMaps.LogOfBit | src/data_loader/stratified_loader/bitmap.rs:56-68 | `log` of an isolated bit `1 << p` is `p` |
| BitMaps.SetBit | src/data_loader/stratified_loader/bitmap.rs:46 | `w \| (1 << r)` sets bit `r` and leaves every other bit |
| BitMaps.ClearBit | src/data_loader/stratified_loader/bitmap.rs:53 | `w & !(1 << r)` clears bit `r` and leaves every other bit |
| BitMaps.IsolateAt | src/data_loader/stratified_loader/bitmap.rs:30 | `k & -k` of a word whose lowest set bit is `p` is exactly `1 << p` |
| BitMaps.LowestFrom | src/data_loader/stratified_loader/bitmap.rs:30 | a non-zero word has a lowest set bit, with every bit below it clear |
| BitMaps.WordBits | src/data_loader/stratified_loader/bitmap.rs:10-15 | the word `0` has no free slot and the word `-1` has all 32 free |
| BitMaps.BitMap.constructor | src/data_loader/stratified_loader/bitmap.rs:8-20 | `(size + 31) / 32` words; the free slots are `0 .. size - 1`, or none when `all_full` |
| BitMaps.BitMap.GetFirstFree | src/data_loader/stratified_loader/bitmap.rs:22-40 | returns the smallest free slot, and `None` exactly when no slot is free |
| BitMaps.BitMap.MarkFree | src/data_loader/stratified_loader/bitmap.rs:42-47 | the free set gains `position` and nothing else changes |
| BitMaps.BitMap.MarkFilled | src/data_loader/stratified_loader/bitmap.rs:49-54 | the free set loses `position` and nothing else changes |
| BitMaps.TestAllFull | src/data_loader/stratified_loader/bitmap.rs:76-86 | a full map offers no slot; after filling slot 105 it still offers none; after freeing 105 it offers 105; after filling it again it offers none |
| BitMaps.TestAllEmpty | src/data_loader/stratified_loader/bitmap.rs:88-98 | an empty map hands out 0, 1, 2, and after 0 is freed, 0 again |
| BoosterBins.Midpoint | src/booster/bins.rs:31 | the threshold placed between two values lies strictly between them |
| BoosterBins.Quotient | src/booster/bins.rs:24 | the average bin size is the integer quotient: `q * size <= total < (q + 1) * size`, and `total` itself for one bin |
| BoosterBins.NewBins | src/booster/bins.rs:23-41 | the thresholds are exactly those of the reference walk `Walk` with the integer average bin size; they are strictly increasing; each lies halfway between two neighbouring distinct values; there are fewer than `size` of them and fewer than the values; all lie strictly inside the range of values; one bin gives no threshold |
| BoosterBins.WalkBinCount | src/booster/bins.rs:24-36 | the reference walk closes fewer bins than `size`: each closed bin holds more than the average |
| BoosterBins.WalkThresholds | src/booster/bins.rs:27-36 | the thresholds of the whole walk have the properties `NewBins` promises |
| BoosterBins.WalkShape | src/booster/bins.rs:28-36 | after `i` values the walk has placed fewer than `i` thresholds and remembers value `i - 1` as the last value |
| BoosterBins.WalkMidpoints | src/booster/bins.rs:30-33 | every threshold placed is the midpoint of the gap it was placed in |
| BoosterBins.WalkBounds | src/booster/bins.rs:28-36 | every threshold lies above the smallest value and below the last value visited |
| BoosterBins.WalkIncreasing | src/booster/bins.rs:28-36 | the thresholds come out strictly increasing |
| BoosterBins.WalkCounter | src/booster/bins.rs:30-34 | the counter never exceeds the number of values visited, so with `avg >= total` no threshold is placed |
| BoosterBins.GetSplitIndex | src/booster/bins.rs:53-68 | 0 at or below the first threshold; otherwise the `r` with `vals[r - 1] < val <= vals[r]` (or `r == size` past the last); on sorted thresholds, the number of thresholds strictly below `val` |
| BoosterBins.CountBelowSplit | src/booster/bins.rs:57-67 | when exactly the first `k` thresholds are below `val`, the count below `val` is `k` |
| BoosterBins.CountBelowMonotone | src/booster/bins.rs:53-68 | a larger value has at least as many thresholds below it |
| BoosterBins.SplitIndexMonotone | src/booster/bins.rs:53-68 | a larger value never gets a smaller split index |
| CommonBins.Bump | src/commons/bins.rs:92-93 | `entry(val).or_insert(0) += 1` keeps the keys sorted and the counts positive |
| CommonBins.BumpCount | src/commons/bins.rs:92-93 | the count of `val` grows by one and every other count stays |
| CommonBins.BumpSum | src/commons/bins.rs:90-94 | the sum of the counts grows by one, so it stays equal to `total_vals` |
| CommonBins.DistinctValues.constructor | src/commons/bins.rs:83-88 | no value seen and a total of 0 |
| CommonBins.DistinctValues.Update | src/commons/bins.rs:90-94 | the total grows by one and the map gains one occurrence of `val` |
| CommonBins.AvgBinSize | src/commons/bins.rs:34 | the ceiling of `total / size`: `avg * size >= total` and `(avg - 1) * size < total`; a zero `size` saturates to `usize::MAX`, or gives 0 for 0 / 0 |
| CommonBins.NewBins | src/commons/bins.rs:33-54 | the thresholds are exactly the reference `Thresholds` (a value is kept when the running count passes the average, and the largest value closes an unfinished bin); strictly increasing distinct values; none exactly when there are no values; the largest value is always the last threshold; at most `size` of them; one bin keeps only the largest value |
| CommonBins.ThresholdsSpec | src/commons/bins.rs:33-54 | the reference thresholds are strictly increasing distinct values, end with the largest value, are empty exactly when there are no values, and number at most `size` |
| CommonBins.KeptBinCount | src/commons/bins.rs:34-49 | each kept value closes a bin holding more than the average, so the kept values plus the closing one number at most `size` |
| CommonBins.KeptInv | src/commons/bins.rs:34-49 | the reference state after any number of values meets the loop invariant: kept values strictly increasing keys, the last value the latest key, a pending count only above the last kept value, the counter at most the count seen, and nothing kept with one bin |
| CommonBins.KeepStep | src/commons/bins.rs:38-46 | one step of the walk: the value is kept exactly when the count passes the average, which resets the counter |
| CommonBins.KeptAll | src/commons/bins.rs:38-49 | after the walk, the kept values are increasing distinct values and the open bin ends at the largest value |
| CommonBins.CounterStep | src/commons/bins.rs:39 | the counter stays within the running total of the counts |
| CommonBins.Len | src/commons/bins.rs:57-59 | the size is the number of thresholds |
| CommonBins.GetSplitIndex | src/commons/bins.rs:67-79 | 0 with no thresholds; otherwise `r < size` with `vals[r] <= val` when `r > 0` and `val < vals[r + 1]`; on sorted thresholds, one less than the number of thresholds at or below `val`, with 0 also standing for "below every threshold" |
| CommonBins.CountAtMostSplit | src/commons/bins.rs:68-78 | when exactly the first `k` thresholds are at or below `val`, the count is `k` |
| CommonBins.CountAtMostMonotone | src/commons/bins.rs:67-79 | a larger value has at least as many thresholds at or below it, so its split index is never smaller |
| InMemData.DataInMem.constructor | src/buffer_loader/data_reader/data_in_mem.rs:30-36 | an empty store with size 0 and the cursor at 0 |
| InMemData.DataInMem.Fetch | src/buffer_loader/data_reader/data_in_mem.rs:17-21 | returns the `batch_size` examples from the cursor on and moves the cursor past them; reading past the end panics, so the caller must stay in bounds |
| InMemData.DataInMem.Reset | src/buffer_loader/data_reader/data_in_mem.rs:23-25 | the cursor returns to 0 and the data stays |
| InMemData.DataInMem.Append | src/buffer_loader/data_reader/data_in_mem.rs:38-41 | the example is added at the end and the size grows by one |
| InMemData.DataInMem.Release | src/buffer_loader/data_reader/data_in_mem.rs:43-48 | the data keeps the same examples (a permutation); without `shuffle` it is unchanged |
| DataReaders.StepKeeps | src/buffer_loader/data_reader/mod.rs:79-90 | every step leaves the cursor at the start or short of `size`; a full batch unless the pass ends; never past `size` |
| DataReaders.Pass | src/buffer_loader/data_reader/mod.rs:79-90 | a pass from any cursor before the end holds at least one batch |
| DataReaders.PassSum | src/buffer_loader/data_reader/mod.rs:79-90 | the batch sizes of a pass from cursor `c` add up to the examples left after `c` batches |
| DataReaders.PassLength | src/buffer_loader/data_reader/mod.rs:79-90 | a pass over a non-empty store has exactly `num_batch` batches |
| DataReaders.CeilBounds | src/buffer_loader/data_reader/mod.rs:41 | `(size + batch_size - 1) / batch_size` is the ceiling of `size / batch_size` |
| DataReaders.BatchesConcat | src/buffer_loader/data_reader/data_in_mem.rs:17-21 | consecutive fetches, joined, read the data in order with no gap and no overlap |
| DataReaders.PassReadsAll | src/buffer_loader/data_reader/mod.rs:63-90 | one pass from cursor 0 reads every example exactly once, in order |
| DataReaders.FetchAndReset | src/buffer_loader/data_reader/mod.rs:105-111 | returns the next `batch_size` examples, then rewinds the store exactly when `reset` |
| DataReaders.DataReader.constructor | src/buffer_loader/data_reader/mod.rs:40-53 | the cursor at 0, no current batch; a rewound store large enough is in step with the reader |
| DataReaders.DataReader.GetNumBatches | src/buffer_loader/data_reader/mod.rs:55-57 | the number of batches covers `size` and one fewer would not |
| DataReaders.DataReader.GetNextBatchSize | src/buffer_loader/data_reader/mod.rs:79-90 | returns the cursor before the call, and a full batch and the next cursor, or the tail and cursor 0 at the end of a pass |
| DataReaders.DataReader.FetchNextBatch | src/buffer_loader/data_reader/mod.rs:63-77 | the current batch becomes the examples at `curr_loc * batch_size` on, as many as the batch size; `reset` is true exactly when the pass wrapped; the store stays in step |
| DiskBuffers.DiskBuffer.constructor | src/stratified_storage/strata/disk_buffer.rs:24-39 | an empty file of size 0 with every one of the `capacity` slots free |
| DiskBuffers.DiskBuffer.Write | src/stratified_storage/strata/disk_buffer.rs:41-60 | stores the block at the lowest free slot and returns that slot, which is at most `size`; the size grows exactly when the slot is `size`; with no free slot it returns `None` (the panic) and changes nothing |
| DiskBuffers.DiskBuffer.Read | src/stratified_storage/strata/disk_buffer.rs:62-74 | returns the block stored at `position`, of the block size, and frees that slot |
| DiskBuffers.DiskBuffer.GetSize | src/stratified_storage/strata/disk_buffer.rs:76-78 | the size, never above the capacity |
| DiskBuffers.TestRwOnce | src/stratified_storage/strata/disk_buffer.rs:107-120 | the first write goes to slot 0 and reading it back gives the block written |
| DiskBuffers.TestRwOneByOne | src/stratified_storage/strata/disk_buffer.rs:122-139 | writing and reading back one block at a time always uses slot 0, keeps the size at 1 and reads back each block |
| DiskBuffers.TestRwSeq | src/stratified_storage/strata/disk_buffer.rs:141-162 | five writes in a row fill slots 0 to 4 and the size counts 1 to 5; reading slot `i` gives the `i`-th block |
| DiskBuffers.TestWriteFull | src/stratified_storage/strata/disk_buffer.rs:172-182 | the sixth write into five slots finds no free slot |
| FanOut.Strip | scripts/aws/transmit-training-files.py:18 | `line.strip()`: the result is exactly the line without its leading and trailing whitespace runs; it neither starts nor ends with whitespace; it is empty exactly when the line is all whitespace; a line without surrounding whitespace is kept as it is |
| FanOut.LeadingSpaces | scripts/aws/transmit-training-files.py:18 | the whitespace that `strip()` removes at the front: all of it whitespace, and the next character is not |
| FanOut.TrailingSpaces | scripts/aws/transmit-training-files.py:18 | the whitespace that `strip()` removes at the back: all of it whitespace, and the character before it is not |
| FanOut.FirstNewline | scripts/aws/transmit-training-files.py:17 | the first `'\n'` of the text, with none before it, or the length when there is none |
| FanOut.SplitLines | scripts/aws/transmit-training-files.py:17 | `readlines()` without the separators: at least one line, and no line holds a `'\n'` |
| FanOut.StripAll | scripts/aws/transmit-training-files.py:18 | every line stripped, one result per line |
| FanOut.NonBlank | scripts/aws/transmit-training-files.py:19 | only non-empty lines, as a subsequence of the input (order kept), each non-empty line kept as many times as it occurs; a list with no empty line is kept |
| FanOut.LoadRoster | scripts/aws/transmit-training-files.py:15-19 | every address loaded is non-empty, stripped and on one line |
| FanOut.SplitJoin | scripts/aws/transmit-training-files.py:35-36 | splitting `'\n'.join(lines)` at the newlines gives the lines back |
| FanOut.RosterRoundTrip | scripts/aws/transmit-training-files.py:15-36 | a roster written with `'\n'.join` and read back by lines 15-19 is the same roster, so the master's rewrite at line 36 and each child's roster file at line 76 lose no address |
| FanOut.Count | scripts/aws/transmit-training-files.py:38-113 | each log line adds the addresses it takes out of the roster to the departed list |
| FanOut.ResetCommands | scripts/aws/transmit-training-files.py:29-34 | one `rm` of the roster file per address, in roster order |
| FanOut.ResetNodes | scripts/aws/transmit-training-files.py:29-34 | the master's loop logs exactly those commands, and they take no address out of the roster |
| FanOut.ResetNeutral | scripts/aws/transmit-training-files.py:29-34 | the reset commands leave the tally empty |
| FanOut.FanOutSplit | scripts/aws/transmit-training-files.py:73-76 | `remain[:mid]` and `remain[mid:]` with `mid = len // 2` rejoin to the roster; with two or more addresses the child's half is non-empty and the rest is shorter |
| FanOut.Survivors | scripts/aws/transmit-training-files.py:105-111 | the children kept are exactly those whose `poll()` is not `None` |
| FanOut.ExitEvents | scripts/aws/transmit-training-files.py:105-108 | the reaper logs only `Exited` lines, which take no address out of the roster |
| FanOut.UncountedNeutral | scripts/aws/transmit-training-files.py:38-113 | log lines that neither pop, copy nor send a roster leave the tally unchanged |
| FanOut.ExitEventsNeutral | scripts/aws/transmit-training-files.py:105-111 | reaping leaves the tally unchanged |
| FanOut.Emit | scripts/aws/transmit-training-files.py:38-113 | one log line is appended and counted, and nothing else changes |
| FanOut.EmitFaithful | scripts/aws/transmit-training-files.py:38-113 | the tally kept beside the log stays the tally of the log |
| FanOut.Select | scripts/aws/transmit-training-files.py:39-63 | with no copy in flight the front address is popped and probed: if it is already working, only the two probes are logged and the pass is cut short; if it has the payload, it becomes the current node and no copy starts; otherwise a copy starts under the next handle and the handle counter advances; with a copy in flight nothing happens; the pass is cut short exactly when the popped node is already working |
| FanOut.CheckTransfer | scripts/aws/transmit-training-files.py:65-68 | the copy in flight is observed as finished exactly when its `poll()` is `None` (as written), which makes the probed node ready |
| FanOut.FanOutStep | scripts/aws/transmit-training-files.py:70-103 | a ready node with two or more addresses left gets the first half as its roster and a child worker, and the worker keeps the rest; the log gains exactly the roster copy, the credential probe, the credential copy only when the probe finds no credential, and the launch; otherwise nothing happens |
| FanOut.FanOutStepState | scripts/aws/transmit-training-files.py:70-103 | the hand-off moves the first half into the departed list, adds one child with a new handle, and clears the ready node |
| FanOut.Reap | scripts/aws/transmit-training-files.py:105-111 | the children become the survivors and the log gains one `Exited` per dropped child, in order |
| FanOut.ReapStep | scripts/aws/transmit-training-files.py:106-110 | one more child either joins the survivors or adds one `Exited` line |
| FanOut.SelectKeeps | scripts/aws/transmit-training-files.py:39-63 | popping keeps the invariant: every address leaves the roster once and in order, one copy at most in flight, handles below the next one |
| FanOut.SelectFaithful | scripts/aws/transmit-training-files.py:39-63 | popping keeps the tally faithful to the log |
| FanOut.CheckTransferKeeps | scripts/aws/transmit-training-files.py:65-68 | observing a copy keeps the invariant |
| FanOut.CheckTransferFaithful | scripts/aws/transmit-training-files.py:65-68 | observing a copy keeps the tally faithful |
| FanOut.FanOutKeeps | scripts/aws/transmit-training-files.py:70-103 | the hand-off keeps the invariant and leaves no ready node beside a splittable roster |
| FanOut.HandOffKeeps | scripts/aws/transmit-training-files.py:99-103 | any state the hand-off produces satisfies the loop-head invariant |
| FanOut.FanOutFaithful | scripts/aws/transmit-training-files.py:70-103 | the hand-off keeps the tally faithful |
| FanOut.ReapKeeps | scripts/aws/transmit-training-files.py:105-111 | reaping keeps the loop-head invariant |
| FanOut.ReapFaithful | scripts/aws/transmit-training-files.py:105-111 | reaping keeps the tally faithful |
| FanOut.ReadyIsNext | scripts/aws/transmit-training-files.py:56-84 | at the hand-off the ready node is the node last probed, so the credential probe of line 84, which names `next_remote`, probes the node being launched |
| FanOut.Start | scripts/aws/transmit-training-files.py:11-36 | the roster is loaded from the file; the master logs one reset per address and rewrites the file; the state satisfies the loop-head invariant |
| FanOut.PrepareKeeps | scripts/aws/transmit-training-files.py:39-103 | the three phases before the reaper keep the invariant and the faithful tally |
| FanOut.PrepareProgress | scripts/aws/transmit-training-files.py:39-103 | the log only grows; the roster never grows and shrinks whenever an address could be popped; while a copy is in flight nothing is popped |
| FanOut.Pass | scripts/aws/transmit-training-files.py:39-113 | one pass keeps the invariant and the faithful tally; the log only grows; the roster shrinks whenever no copy is in flight; while a copy is in flight no address is popped |
| FanOut.PassKeeps | scripts/aws/transmit-training-files.py:39-111 | the full pass, not cut short at line 49, has the properties `Pass` promises |
| FanOut.Run | scripts/aws/transmit-training-files.py:11-113 | when the loop has stopped, the log shows every address of the loaded roster leaving it exactly once, in roster order; the loop invariant and the tally's agreement with the log hold at the end of every run |
| HeadScheduling.IdleScanners | src/head/scheduler/mod.rs:57-62 | exactly the idle scanners, in ascending index order |
| HeadScheduling.Chosen | src/head/scheduler/mod.rs:83-87 | `take(capacity)`: the first idle scanners, as many as the capacity or all of them |
| HeadScheduling.Assigned | src/head/scheduler/mod.rs:88-91 | the list of scanner tasks keeps its length |
| HeadScheduling.AssignChangesOnlyChosen | src/head/scheduler/mod.rs:83-91 | a scanner's task changes exactly when it was chosen; a chosen scanner was idle and now works on node 0; a busy scanner keeps its task |
| HeadScheduling.AssignLowestFirst | src/head/scheduler/mod.rs:57-87 | an idle scanner is never passed over for a scanner with a higher index |
| HeadScheduling.AssignAllWhenRoom | src/head/scheduler/mod.rs:54-96 | when the capacity covers every idle scanner, every idle scanner gets node 0 |
| HeadScheduling.Scheduler.constructor | src/head/scheduler/mod.rs:34-47 | no scanner registered |
| HeadScheduling.Scheduler.AddScanner | src/head/scheduler/mod.rs:49-52 | the address is registered at the end, as an idle scanner |
| HeadScheduling.Scheduler.GetNewGrid | src/head/scheduler/mod.rs:191-205 | every new task is node 0 |
| HeadScheduling.Scheduler.Assign | src/head/scheduler/mod.rs:76-96 | the first `min(capacity, idle)` scanners given get node 0, and for each the address and node are returned, in order |
| HeadScheduling.Scheduler.SetAssignments | src/head/scheduler/mod.rs:54-73 | the chosen idle scanners get node 0, nothing else changes, and their addresses are returned in ascending scanner order |
| HeadScheduling.Scheduler.HandleAccept | src/head/scheduler/mod.rs:126-130 | an accept packet is always reported handled |
| HeadScheduling.Scheduler.HandleEmpty | src/head/scheduler/mod.rs:132-143 | an empty packet is always reported handled, and frees nothing |
| HeadScheduling.EmptyKeepsScannerBusy | src/head/scheduler/mod.rs:105-118 | since `handle_empty` frees nothing, the scanner that sent an empty packet keeps its task through the following assignment |
| KdTrees.InsertMultiset | src/head/scheduler/kdtree.rs:100 | inserting one number into a list adds exactly that number to its bag of values |
| KdTrees.InsertSorted | src/head/scheduler/kdtree.rs:100 | inserting into an ascending list keeps it ascending and adds exactly the inserted number |
| KdTrees.SortedOf | src/head/scheduler/kdtree.rs:100 | sorting keeps the number of values |
| KdTrees.SortedOfSorted | src/head/scheduler/kdtree.rs:100 | the sort used by the median leaves the numbers ascending and a permutation of the input |
| KdTrees.MedianSplitsSorted | src/head/scheduler/kdtree.rs:98-106 | the median is at least every value in the lower half of the sorted list and at most every value in the upper half |
| KdTrees.MedianBetween | src/head/scheduler/kdtree.rs:98-106 | the median lies between two of the given numbers (it is one of them when the count is odd) |
| KdTrees.SwapRemoveFirst | src/head/scheduler/kdtree.rs:74 | removing the first example shortens the list by one and loses exactly that example |
| KdTrees.Partition | src/head/scheduler/kdtree.rs:71-80 | draining the examples sends each to exactly one bucket, the left one holding precisely those at most the split value in the split feature |
| KdTrees.CreateTree | src/head/scheduler/kdtree.rs:60-85 | the built tree holds exactly the given examples, every example sits on its side of each split above it, every leaf is small, and the root is a leaf exactly when there are at most `2 * minSize` examples |
| KdTrees.ChooseSplit | src/head/scheduler/kdtree.rs:65-69 | the split feature is one of the features and the split value is the median of the examples' values in it |
| KdTrees.EqualSampleStaysWhole | src/head/scheduler/kdtree.rs:60-85 | splitting a sample of equal examples at the median of any feature sends every example left and none right |
| KdTrees.StemRouted | src/head/scheduler/kdtree.rs:81-84 | two routed subtrees built from the buckets of a split make a routed stem holding both buckets |
| KdTrees.Push | src/head/scheduler/kdtree.rs:49-54 | every grid gains the condition at its end and nothing else |
| KdTrees.LeavesOf | src/head/scheduler/kdtree.rs:41-58 | one grid per leaf; a leaf alone gives the single empty grid, and each grid of a stem ends with that stem's test, true for the left leaves and false for the right |
| KdTrees.PushAll | src/head/scheduler/kdtree.rs:49-54 | the loop appends the condition to every grid |
| KdTrees.GetLeaves | src/head/scheduler/kdtree.rs:41-58 | the grids collected recursively are exactly the leaf grids of the tree |
| KdTrees.MatchCountPush | src/head/scheduler/kdtree.rs:132-137 | after appending a condition a point satisfies as many grids as before when it passes the condition, and none when it fails it |
| KdTrees.ExactlyOneGrid | src/head/scheduler/kdtree.rs:127-144 | every point with every feature the tree splits on satisfies exactly one grid of the tree |
| KdTrees.LeafExamples | src/head/scheduler/kdtree.rs:41-58 | there is one bucket of examples per leaf |
| KdTrees.LeafExamplesSatisfyGrid | src/head/scheduler/kdtree.rs:41-85 | every example stored in a leaf satisfies the grid of that same leaf |
| KdTrees.NewKdTree | src/head/scheduler/kdtree.rs:23-28 | the tree built from a non-empty sample holds exactly those examples, routed and with small leaves, and stays a leaf exactly when the sample is small |
| LibSvm.TokenLength | src/commons/io.rs:114 | the token at the start of a string is a maximal run of non-white-space characters |
| LibSvm.SplitWhitespaceRuns | src/commons/io.rs:114 | the tokens are exactly the maximal runs of non-white characters, in order: one token per position where a run starts |
| LibSvm.SplitJoin | src/commons/io.rs:114 | tokens written out with single spaces split back into the same tokens |
| LibSvm.Find | src/commons/io.rs:124 | the position found holds the separator and none comes before it; no position means the separator is absent |
| LibSvm.ParseUsize | src/commons/io.rs:126 | an index parses exactly when, after one optional `+`, it is a non-empty run of decimal digits whose value is below 2^64, and then its value is that of the digits |
| LibSvm.ShowNat | src/commons/io.rs:126 | writing an index out gives a non-empty run of decimal digits |
| LibSvm.ShowNatValue | src/commons/io.rs:126 | the digits written for an index have that index as their value |
| LibSvm.ParseShowUsize | src/commons/io.rs:126 | every index below the `usize` limit written in decimal parses back to itself |
| LibSvm.ParsePair | src/commons/io.rs:124-138 | an `index:value` token parses exactly when it has a separator, its index parses and is below the vector size, and its value (or `0` for `nan`) parses; the pair is then the index before the first `:` and the value after it |
| LibSvm.ParsePairs | src/commons/io.rs:123-135 | all tokens parse to their pairs in order, and the whole fails exactly when one token fails |
| LibSvm.ParsePairsOf | src/commons/io.rs:123-135 | tokens that each parse give exactly their pairs, in order |
| LibSvm.LastValueUnset | src/commons/io.rs:122 | a position no pair names keeps the missing value |
| LibSvm.LastValueWins | src/commons/io.rs:136-138 | the last pair naming a position decides its value, so a later duplicate overwrites an earlier one |
| LibSvm.Label | src/commons/io.rs:115-121 | the label is 1 exactly when the first token equals the positive label, and -1 exactly otherwise |
| LibSvm.Filled | src/commons/io.rs:122-138 | the vector has the given size and each position holds the value the pairs last set there, or the missing value |
| LibSvm.ParseLibsvmOneLine | src/commons/io.rs:102-139 | a line fails exactly when it is blank or one of its feature tokens fails; otherwise the features have the given size and the label is decided by the first token |
| LibSvm.Collect | src/commons/io.rs:153-155 | all values in order, failing exactly when one of them is missing |
| LibSvm.ParseLibsvm | src/commons/io.rs:141-156 | every line parsed in order, failing exactly when one line fails |
| LibSvm.TestParseLibsvmOneLine | src/commons/io.rs:163-170 | the line `0 1:2 3:5 4:10` with six features and positive label `1` parses to features `0 2 0 5 10 0` and label -1 |
| LibSvm.ExampleLine | src/commons/io.rs:163-170 | the tokens of the test line parse to features `0 2 0 5 10 0` and label -1 |
| LibSvm.ExampleTokens | src/commons/io.rs:163-170 | the test line splits into its four tokens |
| LibSvm.ExamplePairs | src/commons/io.rs:163-170 | the test line's feature tokens parse to the pairs (1, 2), (3, 5) and (4, 10) |
| LibSvm.ExampleFeatures | src/commons/io.rs:163-170 | those pairs fill six positions as `0 2 0 5 10 0` |
| MasterScheduling.IdleScannersSpec | src/master/model_manager/scheduler/mod.rs:51-56 | the idle scanners are listed in ascending order, each is idle, and every idle scanner is listed |
| MasterScheduling.IdleBounded | src/master/model_manager/scheduler/mod.rs:51-56 | every listed idle scanner is a scanner |
| MasterScheduling.AfterStep | src/master/model_manager/scheduler/mod.rs:122-124 | one more hand-out changes exactly the next idle scanner's task and the next grid's holder |
| MasterScheduling.AfterSpec | src/master/model_manager/scheduler/mod.rs:116-128 | handing out grids one by one gives the `k`-th idle scanner grid `next + k` with its node, and the grid names it back, nothing else changing |
| MasterScheduling.AssignedAllBusy | src/master/model_manager/scheduler/mod.rs:116-128 | after every idle scanner took a grid no scanner is idle |
| MasterScheduling.AssignedAll | src/master/model_manager/scheduler/mod.rs:116-128 | handing a grid to every idle scanner keeps grids and scanners naming each other and leaves none idle |
| MasterScheduling.AssignDone | src/master/model_manager/scheduler/mod.rs:116-128 | the hand-out of the assignment loop yields the assignment above, linked and with every scanner busy |
| MasterScheduling.Scheduler.constructor | src/master/model_manager/scheduler/mod.rs:33-45 | a new scheduler has every scanner idle, no grid, and hands out from grid 0 |
| MasterScheduling.Scheduler.Update | src/master/model_manager/scheduler/mod.rs:50-72 | every idle scanner, lowest first, takes the next grid and its node; the count returned is the number of idle scanners, and afterwards every scanner is busy and linked to its grid |
| MasterScheduling.Scheduler.Assign | src/master/model_manager/scheduler/mod.rs:116-128 | grid `next_available + k` goes to the `k`-th idle scanner, which records it with its node; the rest is unchanged and the links are kept |
| MasterScheduling.Scheduler.GetNewGrid | src/master/model_manager/scheduler/mod.rs:130-136 | the next grid is returned, recorded as held by the scanner, and the hand-out position advances by one |
| MasterScheduling.Scheduler.ReleaseGrid | src/master/model_manager/scheduler/mod.rs:138-146 | a held grid and its scanner are both freed; a free grid leaves everything as it is |
| MasterScheduling.Scheduler.GetNodeId | src/master/model_manager/scheduler/mod.rs:148-162 | the scanner's grid and node are returned exactly when the scanner is busy with the node the packet names |
| MasterScheduling.Scheduler.HandlePacket | src/master/model_manager/scheduler/mod.rs:90-100 | a packet about the scanner's current node frees that scanner and its grid and is reported handled; any other packet changes nothing |
| MasterScheduling.Scheduler.HandleAccept | src/master/model_manager/scheduler/mod.rs:74-76 | an accept packet for the current node frees the sender's grid and clears its task, leaving the rest; any other changes nothing |
| MasterScheduling.Scheduler.HandleEmpty | src/master/model_manager/scheduler/mod.rs:78-80 | an empty packet for the current node frees the sender's grid and clears its task, leaving the rest; any other changes nothing |
| MasterScheduling.Scheduler.ResetAssign | src/master/model_manager/scheduler/mod.rs:102-113 | with grids waiting, they become current, every grid and scanner is freed, hand-out restarts and the version grows by one; otherwise nothing changes |
| MasterScheduling.Scheduler.RefreshGrid | src/master/model_manager/scheduler/mod.rs:82-88 | freshly loaded grids, or else grids already waiting, become current under a new version, with every grid free, every scanner without a task, the scan cursor at 0 and nothing waiting; with neither, nothing changes |
| MasterScheduling.NewThenUpdatePanics | src/master/model_manager/scheduler/mod.rs:46 | with at least one scanner, the `update` inside `new` asks for grid 0 of an empty grid list |
| Models.SumPredictSplit | src/commons/model.rs:26-29 | the summed prediction of a list of trees is the sum over a prefix plus the sum over the rest, whatever the grouping of the parallel sum |
| Models.SumPredictSteps | src/commons/model.rs:26-29 | each tree in turn adds its own prediction to the running sum |
| Models.Model.constructor | src/commons/model.rs:14-19 | a new model has no trees and base size 0 |
| Models.Model.Size | src/commons/model.rs:21-23 | the size is the number of trees |
| Models.Model.GetPrediction | src/commons/model.rs:25-31 | the prediction is the sum of the predictions of the trees from `version` on, paired with (model size, `version`) |
| Models.Model.Append | src/commons/model.rs:33-35 | the tree goes last and the base size is kept |
| Models.Model.GetLastNewTree | src/commons/model.rs:37-43 | nothing exactly when no tree lies past the base size, otherwise a fresh copy of the last tree |
| Models.Model.SetBaseSize | src/commons/model.rs:45-47 | every tree so far becomes part of the base and the trees are kept |
| Models.BaseSizeHidesOldTrees | src/commons/model.rs:37-47 | right after the base size is set there is no new tree, and after one more append the new tree is a copy of the appended one |
| Packets.NewTaskPacket | src/commons/packet.rs:33-41 | a new task packet has id 0 and no model, gamma, node to expand or sample version |
| Packets.EqualsReflexive | src/commons/packet.rs:63-67 | every task packet equals itself |
| Packets.EqualsNotSymmetric | src/commons/packet.rs:63-67 | `equals` is not symmetric: a packet naming a node equals its copy naming none, but not the other way round |
| Packets.CloneWithExpand | src/commons/packet.rs:69-78 | the copy keeps id, model and gamma, keeps a set node to expand and sample version, and takes each unset one from the other packet |
| Packets.CloneWithExpandIdempotent | src/commons/packet.rs:69-78 | filling in from the same packet a second time changes nothing |
| Packets.CloneWithExpandEquals | src/commons/packet.rs:63-78 | the filled-in copy equals the packet it was made from |
| Packets.Classify | src/commons/packet.rs:119-132 | a mismatch exactly when the base size differs from the model size, otherwise empty exactly when there is no tree and accept exactly when there is one; never unset |
| Packets.UpdatePacket.constructor | src/commons/packet.rs:97-113 | a new update packet has id 0, is not yet classified and holds the given tree, base size, task, sample version and sample size |
| Packets.UpdatePacket.SetPacketType | src/commons/packet.rs:119-132 | the packet type becomes the classification of the packet against the model size and nothing else changes |
| PacketStatistics.SumBump | src/sampler/model_sync/packet_stats.rs:79-81 | adding one to one scanner's count adds one to the sum over the scanners |
| PacketStatistics.SumZeros | src/sampler/model_sync/packet_stats.rs:155-162 | a vector of zeros sums to zero |
| PacketStatistics.AcceptRateBounds | src/sampler/model_sync/packet_stats.rs:196 | the accept rate, with the denominator at least 1, lies between 0 and 1 |
| PacketStatistics.GetConditionUpdates | src/sampler/model_sync/packet_stats.rs:193-208 | the condition is too slow exactly when the new rate is at most the threshold, too fast exactly when it is above the threshold and at least one minus it, and okay exactly in between |
| PacketStatistics.SmoothedRateBetween | src/sampler/model_sync/packet_stats.rs:197 | the new smoothed rate lies between the old average and the current accept rate |
| PacketStatistics.SmoothedRateInUnit | src/sampler/model_sync/packet_stats.rs:196-197 | an old average between 0 and 1 gives a new one between 0 and 1 |
| PacketStatistics.SmoothedRateFixed | src/sampler/model_sync/packet_stats.rs:197 | an average equal to the current accept rate does not move |
| PacketStatistics.ZeroedTallied | src/sampler/model_sync/packet_stats.rs:50-76 | the counters of no packets add up: the total is the sum of accepted, empty and rejected, each parent the sum of its sub-kinds, and each per-scanner vector sums to its counter |
| PacketStatistics.Bump | src/sampler/model_sync/packet_stats.rs:81 | one entry grows by one and the others stay |
| PacketStatistics.CountPacketTallied | src/sampler/model_sync/packet_stats.rs:78-113 | counting a packet keeps every counter the sum of its parts and every per-scanner vector summing to its counter |
| PacketStatistics.SumBumped | src/sampler/model_sync/packet_stats.rs:81 | bumping one entry adds one to the sum |
| PacketStatistics.CountPacketCounts | src/sampler/model_sync/packet_stats.rs:78-113 | the total and the scanner's count grow by one, and exactly the kind and sub-kind of the packet grow by one |
| PacketStatistics.PacketStats.constructor | src/sampler/model_sync/packet_stats.rs:50-76 | a new record has every counter zero, one entry per scanner, an average rate of one half, the fixed threshold and both conditions okay |
| PacketStatistics.PacketStats.HandleNewPacket | src/sampler/model_sync/packet_stats.rs:78-113 | the counters become those of one more packet of that kind from that scanner; rates and conditions are kept |
| PacketStatistics.PacketStats.UpdateCondition | src/sampler/model_sync/packet_stats.rs:115-123 | the current condition becomes the last one, and the average rate and current condition become the smoothed update; the counters are kept |
| PacketStatistics.PacketStats.Reset | src/sampler/model_sync/packet_stats.rs:140-163 | every counter and per-scanner entry returns to zero, the trigger is off, and rates and conditions are kept |
| PacketStatistics.ZeroAll | src/sampler/model_sync/packet_stats.rs:155-162 | every entry is set to zero and the length is kept |
| PacketStatistics.TrendsExclusive | src/sampler/model_sync/packet_stats.rs:129-138 | the same-trend and opposite-trend tests never hold together |
| PacketStatistics.TriggerStaysOn | src/sampler/model_sync/packet_stats.rs:78-127 | a new packet never switches the trigger off |
| PacketStatistics.TriggerAfterEnoughPackets | src/sampler/model_sync/packet_stats.rs:125-127 | after a reset the trigger fires exactly once `max(10, 2 * num_machines)` packets have arrived |
| SamplerScheduling.ValidOrRestricted | src/sampler/model_sync/scheduler.rs:136-160 | a non-root node is never both valid and held back by gamma, and an unassigned, shallow, childless non-root node is one of the two |
| SamplerScheduling.ValidUnassigned | src/sampler/model_sync/scheduler.rs:136-149 | a valid node has no scanner |
| SamplerScheduling.ValidNodes | src/sampler/model_sync/scheduler.rs:64-67 | the valid nodes, in ascending order, each valid and every valid node listed |
| SamplerScheduling.IdleScanners | src/sampler/model_sync/scheduler.rs:68-73 | the idle scanners, in ascending order, each idle and every idle scanner listed |
| SamplerScheduling.RestrictedCount | src/sampler/model_sync/scheduler.rs:90-92 | the count is positive exactly when some non-root node is held back by gamma alone |
| SamplerScheduling.OffRoot | src/sampler/model_sync/scheduler.rs:44-56 | the number of scanners not on the root is zero exactly when every scanner is on the root |
| SamplerScheduling.PairedStep | src/sampler/model_sync/scheduler.rs:77-80 | one more pairing gives the next idle scanner the next valid node and that node the scanner |
| SamplerScheduling.PairedNone | src/sampler/model_sync/scheduler.rs:76-77 | pairing no scanner changes nothing |
| SamplerScheduling.PairedLinked | src/sampler/model_sync/scheduler.rs:77-84 | pairing idle scanners with unassigned nodes keeps scanners and nodes naming each other |
| SamplerScheduling.RootStepIdle | src/sampler/model_sync/scheduler.rs:46-48 | an idle scanner goes to the root and counts as one update |
| SamplerScheduling.RootStepStay | src/sampler/model_sync/scheduler.rs:45-55 | a scanner already on the root stays and does not count |
| SamplerScheduling.RootStepRelease | src/sampler/model_sync/scheduler.rs:49-54 | a scanner on a non-root node releases it, keeping the node's last failed gamma, and goes to the root, counting as one update |
| SamplerScheduling.RootedAll | src/sampler/model_sync/scheduler.rs:44-61 | once every scanner is on the root the links agree, the root's status is kept, every other node is free, and the count is the number of scanners that were off the root |
| SamplerScheduling.Scheduler.constructor | src/sampler/model_sync/scheduler.rs:24-39 | one status per tree node and one task per scanner, after a first update from every node free and every scanner idle: with too few new trees every scanner works on the root and every node stays free; otherwise scanner `s` takes the `s`-th valid node while there are any (`FirstPairing`), the rest stay idle, and untaken nodes stay free |
| SamplerScheduling.PairedFresh | src/sampler/model_sync/scheduler.rs:24-84 | from every node free and every scanner idle, the pairing of `update` is the first pairing: scanner `s` takes the `s`-th valid node |
| SamplerScheduling.AllIdle | src/sampler/model_sync/scheduler.rs:68-73 | with no task anywhere the idle scanners are `0, 1, ..., n - 1` |
| SamplerScheduling.Scheduler.IsValidNode | src/sampler/model_sync/scheduler.rs:136-149 | a node reported valid has no scanner |
| SamplerScheduling.Scheduler.GetNodeId | src/sampler/model_sync/scheduler.rs:162-176 | the node is returned exactly when the packet's scanner works on the node the packet names |
| SamplerScheduling.Scheduler.Update | src/sampler/model_sync/scheduler.rs:41-97 | with too few new trees available every scanner goes to the root and the count is those moved; otherwise the idle scanners take the valid nodes pairwise in ascending order, the count is the smaller number, and the restricted flag is set exactly when nothing was assigned, some scanner is idle and some node is held back by gamma |
| SamplerScheduling.Scheduler.AssignAllToRoot | src/sampler/model_sync/scheduler.rs:44-61 | every scanner ends on the root, the nodes they held are released and the count is those moved |
| SamplerScheduling.Scheduler.AssignPairs | src/sampler/model_sync/scheduler.rs:77-84 | the `k`-th idle scanner takes the `k`-th valid node for every `k` below the count, with links kept |
| SamplerScheduling.Scheduler.HandleSuccess | src/sampler/model_sync/scheduler.rs:99-118 | a packet for the scanner's own node releases the node exactly when it is no longer valid, which a held non-root node never is; anything else changes nothing |
| SamplerScheduling.Scheduler.HandleFailure | src/sampler/model_sync/scheduler.rs:120-128 | a packet for the scanner's own node releases it and records the packet's gamma as its last failed gamma; anything else changes nothing |
| SamplerScheduling.Scheduler.Release | src/sampler/model_sync/scheduler.rs:120-123 | the node gets the given gamma and no scanner, and the scanner becomes idle |
| SamplerScheduling.Scheduler.AppendNewNodes | src/sampler/model_sync/scheduler.rs:130-134 | the status list grows up to the largest new index, old statuses are kept and new nodes are free with last failed gamma 1 |
| SamplerScheduling.MaxOf | src/sampler/model_sync/scheduler.rs:131 | the largest index of the list, or 0 for none |
| ScoresBuffer.Zeros | src/buffer_loader/scores_in_mem.rs:34-36 | `n` scores, all zero |
| ScoresBuffer.Repeat | src/buffer_loader/scores_in_mem.rs:33 | `n` versions, all equal to the given one |
| ScoresBuffer.AddAtOutside | src/buffer_loader/scores_in_mem.rs:81-85 | adding scores to a slice changes no score outside it |
| ScoresBuffer.AddAtInverse | src/buffer_loader/scores_in_mem.rs:81-85 | adding scores to a slice and then subtracting them gives the scores back |
| ScoresBuffer.ScoresInMem.constructor | src/buffer_loader/scores_in_mem.rs:25-44 | a new buffer has every score and version 0, the batch count rounded up, batch 0 current and not synced |
| ScoresBuffer.ScoresInMem.SetBaseScores | src/buffer_loader/scores_in_mem.rs:46-52 | every batch starts at the base version with the base scores as scores and no relative score; position and sync are kept |
| ScoresBuffer.ScoresInMem.GetRelativeScores | src/buffer_loader/scores_in_mem.rs:54-57 | the relative scores, only once the current batch is synced |
| ScoresBuffer.ScoresInMem.GetAbsoluteScores | src/buffer_loader/scores_in_mem.rs:59-64 | the scores of the current batch's slice, once it is synced |
| ScoresBuffer.ScoresInMem.UnsetScoresSync | src/buffer_loader/scores_in_mem.rs:66-69 | the given batch becomes current and not synced, and nothing else changes |
| ScoresBuffer.ScoresInMem.GetScoresVersion | src/buffer_loader/scores_in_mem.rs:71-73 | the version of the current batch |
| ScoresBuffer.ScoresInMem.UpdateScores | src/buffer_loader/scores_in_mem.rs:75-97 | a synced buffer is left unchanged; otherwise the update is added to the current batch's slice, the relative scores become that slice minus the base scores, the batch takes the tree count as its version and the buffer is synced |
| ScoresBuffer.ScoresInMem.ResetScores | src/buffer_loader/scores_in_mem.rs:99-102 | every version and score returns to 0 and the base and relative scores are kept |
| Trees.NodesOf | src/commons/tree.rs:16-25 | node `i` is read off the six parallel vectors at index `i` |
| Trees.LeafOf | src/commons/tree.rs:88-99 | the walk from a node ends at a leaf at or after it |
| Trees.SplitNodes | src/commons/tree.rs:72-86 | a split adds exactly two nodes |
| Trees.SplitLinked | src/commons/tree.rs:72-86 | splitting keeps every child index after its parent and within the tree |
| Trees.SplitFeaturesBounded | src/commons/tree.rs:79 | a split on a feature cast to `u16` keeps every split feature in the `u16` range |
| Trees.NodesOfSplit | src/commons/tree.rs:76-86 | the six vectors after a split hold exactly the nodes of the split: the parent tests the feature with the threshold and links to two new leaves, one level deeper, predicting the parent's value plus their own |
| Trees.SplitRoutes | src/commons/tree.rs:72-99 | splitting a leaf reroutes exactly the points that reached it, to the left child when the split feature is at most the threshold and to the right child otherwise; every other point reaches the same leaf as before |
| Trees.SplitRoutesFrom | src/commons/tree.rs:88-99 | the rerouting above holds for the walk from any node |
| Trees.SameTreeReflexive | src/commons/tree.rs:120-136 | every tree equals itself |
| Trees.SameTreeSymmetric | src/commons/tree.rs:120-136 | tree equality is symmetric |
| Trees.SameTreeNotTransitive | src/commons/tree.rs:127-131 | equality is not transitive: predictions `ALMOST_ZERO` apart compare equal but `2 * ALMOST_ZERO` apart do not |
| Trees.FullAfter | src/commons/tree.rs:43-44 | a new tree with room for `(num_splits + 1) * 2` nodes is full exactly after more than `num_splits` splits |
| Trees.Tree.Nodes | src/commons/tree.rs:16-25 | the tree has as many nodes as `num_leaves` says |
| Trees.Tree.constructor | src/commons/tree.rs:43-61 | a new tree is one root leaf predicting 0 at depth 0, with the node limit `(num_splits + 1) * 2` cast to `u16` |
| Trees.Tree.AddNewNode | src/commons/tree.rs:109-117 | one more node, last, with no children, no split, a zero threshold and the given prediction and depth; nothing else changes |
| Trees.Tree.Split | src/commons/tree.rs:72-86 | the nodes become those of `SplitNodes` with the feature cast to `u16`, and the indices of the two new children are returned |
| Trees.Tree.GetLeafIndexPrediction | src/commons/tree.rs:88-99 | the walk from the root ends at the leaf the point reaches and returns that leaf's prediction |
| Trees.Tree.IsFullTree | src/commons/tree.rs:105-107 | full exactly when the node count reaches the limit |
| Trees.Tree.Clone | src/commons/tree.rs:27-40 | a fresh tree with the same limit, node count and vectors |
| Trees.Tree.Equals | src/commons/tree.rs:120-136 | equal exactly when node counts, splits, links and thresholds agree and predictions differ by at most `ALMOST_ZERO` |
| Validation.Errors | src/validator.rs:45-52 | the number of wrongly signed pairs is at most the number of pairs |
| Validation.GetErrorRate | src/validator.rs:44-54 | no rate (the source's NaN) exactly for no pairs; otherwise a fraction between 0 and 1 |
| Validation.ErrorRateExtremes | src/validator.rs:44-54 | no pair wrong gives rate 0 and every pair wrong gives rate 1 |
| Validation.NoErrors | src/validator.rs:47-51 | pairs whose score and label share a sign count no error |
| Validation.AllErrors | src/validator.rs:47-51 | pairs whose score and label never share a sign count every pair |
| Validation.Positives | src/validator.rs:122-131 | the positives among the first `i` pairs number at most `i` |
| Validation.PositivesPrefix | src/validator.rs:130-132 | a longer prefix has at least as many positives and at least as many negatives |
| Validation.ChangePoints | src/validator.rs:124-129 | the positions where the score changes by at least the tolerance `ALMOST_ZERO`, in increasing order and after the first pair |
| Validation.Cuts | src/validator.rs:124-137 | the prefix lengths at which a point is recorded, increasing and ending with the whole list |
| Validation.PointsAtSnoc | src/validator.rs:135-137 | recording the counts at one more cut extends the points by one |
| Validation.PointsAtChange | src/validator.rs:125-129 | a change of score at a position records the counts of the pairs before it |
| Validation.GetFpsTps | src/validator.rs:112-143 | one point per cut, holding the negatives and positives before the cut and the last score; along the points the counts never fall and their sum strictly grows, and the last point counts every pair and every positive |
| Validation.PointsPair | src/validator.rs:124-137 | of two points the earlier has no larger counts and a smaller sum |
| Validation.PointsMonotone | src/validator.rs:124-137 | along the points the counts never fall and their sum strictly grows |
| Validation.PointsLast | src/validator.rs:135-137 | the last point counts every pair, and its true positives are all the positives |
| Validation.FpsTpsMonotone | src/validator.rs:124-137 | along the cuts the positives and negatives before the cut never fall and the cut strictly grows |
| Validation.EqualScoresOnePoint | src/validator.rs:125-129 | with all scores equal no change of score is seen, so the only point is the one at the end |

## Left out

- Floating point: every `f32` is a `real`, so rounding, NaN and infinities are not modelled (the NaN of `get_error_rate` on an empty list is `None`).
- Integer widths: `usize` counters and indices are unbounded, so their overflow is not modelled; the `u16` casts of the tree and the `i32`/`i64` words of the bitmap are written out.
- I/O and clocks: ssh, scp, `poll()` and `time.sleep` of the fan-out script are the oracles of a `World`, and its prints become log events; file reads and writes, S3, `upload_assignments`, the performance monitor and all `debug!` lines are left out.
- FanOut.Run: the polling loop is observed for at most `fuel` passes, because the script's own termination depends on the oracles.
- FanOut.CheckTransfer: the inverted `poll() is None` test of line 65 is kept as written, so a copy counts as finished while it still runs.
- FanOut.Reap: the inverted `poll()` test of line 107 is kept as written, so finished children are kept and running ones are dropped.
- FanOut.SplitLines: lines end only at `'\n'`; the universal-newline mode of Python text files, which also ends lines at `'\r'` and `'\r\n'`, is not modelled.
- FanOut.FanOutStep: the credential probe of line 84 asks `next_remote`, as written. `FanOut.ReadyIsNext` proves that it equals `cur_remote` whenever the fan-out fires.
- BitMaps.Log: the contract names the highest set bit only for values below 2^33; `get_first_free` calls `log` only on single bits below 2^32.
- DiskBuffers: `get_disk_buffer`, which builds the buffer for the tests, is not part of this model; the tests use a capacity of 5 blocks.
- DiskBuffers.DiskBuffer.Write: the block-size mismatch panic of line 42 is a precondition; it is not a `None` result.
- DiskBuffers.DiskBuffer.Read: reading past `size` (the panic of line 63) is a precondition.
- The tests `test_disk_buffer_normal_write`, `test_disk_buffer_read_panic` and `test_disk_buffer_write_feature_size_mismatch_panic` are covered by those preconditions and by `TestRwSeq`; they have no members of their own.
- CommonBins and BoosterBins: `create_bins`, `load_bins` (configuration and file input) and the `get_vals` getters are left out.
- BoosterBins.NewBins: requires `size > 0`; with zero bins the integer division of line 24 panics, and that panic is not modelled as a result.
- LibSvm: the label type `TLabel` is the integer 1 or -1; `read_k_labeled_data` and the other file readers and writers of src/commons/io.rs are file I/O.
- LibSvm.ParseLibsvm: the parallel map is a map in list order.
- DataReaders: the on-disk store, `load_to_memory` and the `get_curr_batch` getter (a read of the `currBatch` field) are left out.
- DataReaders.DataReader.constructor: requires `batchSize > 0`; with a zero batch size the division of line 41 panics, and that panic is not modelled as a result.
- ScoresBuffer.ScoresInMem.constructor: requires `batchSize > 0`; with a zero batch size the division of line 26 panics, and that panic is not modelled as a result.
- ScoresBuffer.ScoresInMem.GetAbsoluteScores, ScoresBuffer.ScoresInMem.UpdateScores and ScoresBuffer.ScoresInMem.GetScoresVersion: require the current batch's slice and version index to be in range (lines 59-63, 71-72, 75-90); out-of-range panics are not modelled.
- InMemData.DataInMem.Release: `shuffle` is an arbitrary permutation; allocation changes (`with_capacity`, `shrink_to_fit`) are not modelled.
- InMemData.DataInMem.Fetch: requires the batch to end within the data; the source slice of line 18 panics past the end, and that panic is not modelled.
- Trees: `release` (`shrink_to_fit`) and serialisation are left out; `get_leaf_prediction` is the prediction part of `GetLeafIndexPrediction`.
- Trees.Tree.Split and Trees.Tree.AddNewNode: a `num_leaves` past the `u16` range (an overflow panic) is excluded by a precondition.
- Trees.Tree.GetLeafIndexPrediction: requires `FeaturesFit`, that every split feature of the tree indexes the point. This asks more than the source, which reads only the split features on the point's path; a point shorter than one of those makes `feature[split_feature as usize]` at src/commons/tree.rs:92 panic, and that panic is not modelled as a result.
- Models.Model.GetPrediction: the parallel `f32` sum is a sum of reals in list order.
- Models.Model.GetPrediction: requires `version <= |models|`; slicing from a larger `version` panics at line 26, and that panic is not modelled.
- Models.Model.GetPrediction: also requires `Scorable`, that every tree is well formed and meets `FeaturesFit` for the point, which asks more than the features on each path; the panic of src/commons/tree.rs:92 on a shorter point is not modelled as a result.
- Models.Model.Append: the model stores a reference to the caller's tree, where Rust moves the tree into the vector. A later change through another reference to that tree would change the model; Rust's ownership rules that out, and the model does not.
- Packets: the `TaskPacket` and `UpdatePacket` setters only assign one field each and are left out; so is `BoosterState`.
- SamplerScheduling.Scheduler.constructor: requires a tree with at least one node. With none, the emergency path of `update` would point scanners at a root that does not exist.
- SamplerScheduling: the `ModelStats` and `Gamma` types are reduced to the fields the scheduler reads; `print_log` is left out.
- SamplerScheduling.Scheduler.AppendNewNodes: requires `MaxOf(newNodeIndices) + 1 >= |nodeStatus|`. The subtraction of line 132 underflows otherwise, for example for an empty list of indices on a tree of two or more nodes, and callers do not rule that out; the underflow panic is not modelled.
- SamplerScheduling.Scheduler.GetNodeId, SamplerScheduling.Scheduler.HandleSuccess and SamplerScheduling.Scheduler.HandleFailure: require `p.sourceMachineId < |scannerTask|`. A packet from an unknown sender makes `scanner_task[packet.source_machine_id]` at src/sampler/model_sync/scheduler.rs:163 panic, and that panic is not modelled as a result.
- MasterScheduling.Scheduler.Update: the node index that `ModelWithVersion::add_grid` returns for each grid is an input (`nodeIds`); `get_new_grids` (S3 and shuffling) is left out.
- MasterScheduling.Scheduler.Assign: the two passes of lines 117-126 write different fields and are merged into one loop.
- MasterScheduling.Scheduler.Update, MasterScheduling.Scheduler.Assign and MasterScheduling.Scheduler.GetNewGrid: require `nextAvailable + |idle| <= |currGrids|`, since line 132 panics when it indexes past the last grid. The source reaches that panic in normal operation. `release_grid` (lines 138-146) frees a slot in `availability`, but `get_new_grid` (lines 130-136) ignores it and always takes `next_available`, which only `reset_assign` lowers. So once every grid has been handed out, a scanner freed by `handle_accept` or `handle_empty` makes the next `update` panic unless `refresh_grid` ran first, although the comment of line 115 promises a grid not taken. The model does not reuse freed grids and does not model that panic.
- MasterScheduling.Scheduler.GetNodeId, MasterScheduling.Scheduler.HandlePacket, MasterScheduling.Scheduler.HandleAccept and MasterScheduling.Scheduler.HandleEmpty: require `p.sourceMachineId < |scannerTask|`. A packet from an unknown sender makes `scanner_task[packet.source_machine_id]` at src/master/model_manager/scheduler/mod.rs:149 panic, and that panic is not modelled as a result.
- HeadScheduling: gamma, the packet statistics, `handle_packet`, `adjust_gamma`, `print_log` and the commented-out grid code are left out.
- PacketStatistics: `PacketType` is declared outside the files of this model, so its six cases are taken from the match; `print_log` is left out.
- PacketStatistics.PacketStats.HandleNewPacket: requires `machineId < numMachines`. A larger sender id makes `num_packs[machine_id]` at src/sampler/model_sync/packet_stats.rs:81 panic, and that panic is not modelled as a result.
- KdTrees.CreateTree: the random split feature is an arbitrary one below `num_features`. Recursion is bounded by `fuel`. In the source, lines 60-85 stop only on size, and `KdTrees.EqualSampleStaysWhole` shows that a sample of more than `2 * min_size` equal examples splits into itself, so the source recursion never ends there. A builder that stops on such a split is not part of this model.
- KdTrees.ChooseSplit: the `f32` mean of the two middle values is a real mean.
- KdTrees.CreateTree and KdTrees.ChooseSplit: require every example to have exactly `numFeatures` features, and `numFeatures > 0` wherever a split is made. The source panics only on `% 0` with no features (line 65) or on an example shorter than the chosen dimension (line 66); the model asks for uniform lengths, as the examples of one data set have, and does not model those panics as results.
- KdTrees.NewKdTree: requires a non-empty sample; `examples[0]` at line 24 panics on an empty one, and that panic is not modelled.
- KdTrees.GetLeaves: the tree is an immutable value. The source `take()`s both subtrees (lines 47-48), so it empties the tree it reads and a second call returns `[[]]`; that destructive read is not modelled.
- KdTrees.CreateTree and KdTrees.NewKdTree: the test's lower bound `min_size <= count` on every leaf is not proved. With many equal values a median split can leave one side almost empty, so only the upper bound, `LeavesSmall`, is stated.
- Validation: `validate`, `get_adaboost_loss`, `get_auc`, `get_auroc` and `get_auprc` are floating-point metrics and are left out. `is_zero` follows src/commons.rs, whose bounds are strict.

## Findings

| source | as written | input that shows it | evidently intended | confidence | as-written member | corrected member |
|---|---|---|---|---|---|---|
| src/master/model_manager/scheduler/mod.rs:46 | `new` calls `update` while `curr_grids` is still empty, so the first idle scanner asks for grid 0 of an empty list (line 132) | `num_machines = 1` | a new scheduler starts with every scanner idle and waits for grids before assigning | high, not executed | MasterScheduling.NewThenUpdatePanics | MasterScheduling.Scheduler.constructor |

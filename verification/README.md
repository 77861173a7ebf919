# colddfs block placement and bookkeeping, in Dafny

colddfs is a small distributed file system. A metadata node tracks which
blocks are in use with a bitmap. A pluggable placement policy chooses which
data node receives each new block. Benchmark code then reports fill level and
load balance, and two plotting scripts tabulate and label the results.

This project models, as pure functions and loop-carrying methods:

- **The block bitmap** (`src/bitmap.c`). A bitmap is a sequence of 64-bit
  words. Each word is written as the sequence of its 64 bits, least
  significant first. `bitmap_init` sets the padding bits past `nbits`.
  `bitmap_alloc` takes the lowest clear bit. `bitmap_free` and `bitmap_set`
  change one bit. `__builtin_ctzl` becomes a lowest-set-bit search.
- **The placement policies**:
  - round robin, least loaded, sequential, weighted round robin, random and
    file aware (`src/*.c`);
  - the name registry that selects one of them (`src/allocationpolicy.c`).

  The global `md` becomes a `Metadata` value, which holds `num_nodes`,
  `blocks_free` and `fs_capacity`. The policy's `state` becomes an explicit
  state value, passed in and returned. The caller's `*node_index` becomes an
  input `prev` and an output. This is because several paths leave it
  unwritten. The values `rand()` would return are a sequence `draws` supplied
  by the caller. Each model also returns how many draws it consumed.
- **The deterministic parts of `src/metric.c`**:
  - distribution names;
  - the block counts of `generate_file_size`;
  - the `size_t` bookkeeping of `capture_metrics`, with its wrap-around and
    `int` conversion written out;
  - the max/min scan of `calculate_load_balance`.
- **The two `plot_blocks.py` scripts**:
  - the `format_bytes` tick labels;
  - the last-row-wins dictionaries that `plot` and `build_df` fill;
  - the sorted series plotted from them;
  - Python's list indexing in `metric_str`.

Each operation is paired with something independent of its body:

- an inverse: `bitmap_free` after `bitmap_alloc`, and reading a label or a
  number back;
- a reference predicate: the argmax with tie-breaking, or the rotation
  order;
- a multi-call property: the k-th round-robin node, the permanence of
  sequential exhaustion, and the allocation order from a fresh bitmap.

`metric_str` in results/batch/block/plot_blocks.py:4-5 indexes a Python list
with the metric number directly, so a number outside -3..2 raises
`IndexError`; that is what is modelled.

## Model

| member | source | states |
|---|---|---|
| Bitmap.WordCount | src/bitmap.c:8 | the word count covers `nbits` bits with less than one word to spare |
| Bitmap.SetBitsFrom | src/bitmap.c:15-17 | after the padding loop, bit k is set iff it was set before or k >= the first padding position |
| Bitmap.TrailingZeros | src/bitmap.c:30 | `__builtin_ctzl` of a non-zero word is the position of its lowest set bit: that bit is set and every lower one is clear |
| Bitmap.Init | src/bitmap.c:6-21 | a fresh bitmap has the right number of words, no block below `nbits` in use, and every padding bit set |
| Bitmap.InitIsEmptyPrefix | src/bitmap.c:6-21 | a fresh bitmap is exactly "padding in use, nothing handed out" |
| Bitmap.AllocFrom | src/bitmap.c:27-41 | the scan from word idx, given full earlier words, returns -1 iff the whole bitmap is full; on 0 it returns the lowest clear bit below `nbits` and sets only that bit; on 1 every real block is in use and some padding bit is clear |
| Bitmap.Alloc | src/bitmap.c:23-44 | rc -1 iff every bit is set, with nothing changed; on 0, the lowest clear index below `nbits` is returned and only that bit changes; rc 1 only when the padding invariant is broken, and alloc preserves that invariant |
| Bitmap.AllocNext | src/bitmap.c:23-44 | from a bitmap whose blocks 0..k-1 are in use, alloc hands out block k and moves to 0..k; with all blocks in use it returns -1 |
| Bitmap.Free | src/bitmap.c:46-56 | for an in-range set bit, free clears that bit only and keeps the padding invariant |
| Bitmap.FreeUndoesAlloc | src/bitmap.c:46-56 | freeing the index alloc just returned restores the bitmap it started from |
| Bitmap.IsSet | src/bitmap.c:73-79 | index `w * 64 + k` with `k < 64` reads bit `k` of word `w`: every index addresses exactly one bit of the word array |
| Bitmap.Set | src/bitmap.c:58-71 | after set, `isset(index) == val`, every other bit is unchanged, and the padding invariant holds |
| Bitmap.FreeIsSetFalse | src/bitmap.c:46-71 | free of a set bit equals set(.., false) |
| Bitmap.SetSameValue | src/bitmap.c:58-78 | setting a bit to the value isset reports leaves the bitmap unchanged |
| Selection.MostFree | src/leastloaded.c:17-26 | the scan returns -1 iff no node has the minimum free count; otherwise the node with the most free blocks, lowest index among ties |
| Selection.MostFreeUnique | src/leastloaded.c:23 | the argmax rule with strict `>` names exactly one node |
| Selection.FirstWithFree | src/rand.c:26-31 | the fallback scan returns the lowest node with a free block, or -1 iff there is none |
| Selection.Probe | src/rand.c:18-24 | probing stops at the first draw landing on a node with room and returns that node; if no draw lands, all attempts were used and all missed |
| RoundRobin.Init | src/roundrobin.c:11-19 | fails iff there is no node; otherwise the cursor starts at -1 |
| RoundRobin.Allocate | src/roundrobin.c:21-27 | always succeeds with a node in range; the next node after the cursor, wrapping to 0; the cursor becomes the node |
| RoundRobin.RunFrom | src/roundrobin.c:24-25 | from cursor c, call k hands out `(c + 1 + k) mod n` |
| RoundRobin.KthAllocation | src/roundrobin.c:11-27 | after init, the k-th allocation is node `k mod num_nodes` |
| RoundRobin.IgnoresFreeCounts | src/roundrobin.c:21-27 | runs over clusters of the same size choose the same nodes whatever the free counts, full nodes included |
| LeastLoaded.Init | src/leastloaded.c:7-13 | fails iff there is no node |
| LeastLoaded.Allocate | src/leastloaded.c:15-35 | fails iff every node's free count is negative, leaving `*node_index` alone; otherwise the node with the most free blocks, lowest index on ties |
| LeastLoaded.NoNodesFails | src/leastloaded.c:18-31 | with no node the call fails |
| LeastLoaded.FullNodeEligible | src/leastloaded.c:19-24 | a node with exactly 0 free blocks can be chosen |
| Sequential.Init | src/sequential.c:11-21 | fails iff there is no node; otherwise the cursor starts at node 0 |
| Sequential.Allocate | src/sequential.c:23-41 | -1 iff the cursor is at `num_nodes`, with nothing written; otherwise the cursor's node, and the cursor advances by one iff that node had fewer than 2 free blocks; the cursor never decreases and stays in 0..num_nodes |
| Sequential.CursorNeverBacks | src/sequential.c:28-31 | once the cursor reaches `num_nodes`, every call fails |
| Sequential.FailureIsFinal | src/sequential.c:28-38 | after the first failing call, every later call fails |
| WeightedRoundRobin.Init | src/weightedroundrobin.c:13-33 | fails iff there is no node; otherwise the rotation starts after -1 |
| WeightedRoundRobin.MaxBlocksPerNode | src/weightedroundrobin.c:40-41 | the per-node block share is the floor of capacity / (block size * node count): m * 4096 * n <= capacity < (m + 1) * 4096 * n |
| WeightedRoundRobin.Weight | src/weightedroundrobin.c:43-51 | a node's weight key is never negative and is 0 exactly when its free count is not positive |
| WeightedRoundRobin.RotSlot | src/weightedroundrobin.c:56-57 | the scan position p visits a node whose position is p |
| WeightedRoundRobin.SlotRot | src/weightedroundrobin.c:56-57 | every node is visited, at its position |
| WeightedRoundRobin.ScanOrderIsSlotOrder | src/weightedroundrobin.c:56-63 | the first maximum in scan order is the node with the largest weight that the rotation reaches first |
| WeightedRoundRobin.Allocate | src/weightedroundrobin.c:35-74 | always succeeds: the node of largest weight, the first such after the last choice; the cursor becomes that node (the -1 branch is unreachable) |
| WeightedRoundRobin.RotationArgmaxUnique | src/weightedroundrobin.c:53-63 | the rotating-argmax rule names exactly one node |
| WeightedRoundRobin.MostFreeWhenDivisorPositive | src/weightedroundrobin.c:43-63 | with a positive divisor the chosen node has the most free blocks, counting non-positive counts as 0 |
| WeightedRoundRobin.EqualWeightsIsRoundRobin | src/weightedroundrobin.c:53-63 | when all weights are equal the choice is exactly round robin's from the same cursor |
| WeightedRoundRobin.AllFullStillChooses | src/weightedroundrobin.c:48-68 | with every node full a node is still returned: the one after the last choice |
| RandPolicy.Init | src/rand.c:6-12 | fails iff there is no node |
| RandPolicy.Allocate | src/rand.c:14-35 | fails iff no node has a free block, leaving `*node_index` alone; a success always names a node with room; probing stops exactly at the first draw that lands on a node with room, which decides, and otherwise all `num_nodes` draws miss and the lowest node with room is taken |
| FileAware.Init | src/fileaware.c:9-14 | fails iff there is no node |
| FileAware.RandomPhase | src/fileaware.c:20-29 | files under 4 blocks get up to 2*num_nodes probes and the first landing one; files of 4 or more blocks consume no draw |
| FileAware.AllocateAsWritten | src/fileaware.c:16-51 | fails iff no node has a free block; a file under 4 blocks probes until the first draw that lands on a node with room, which decides, or misses on all 2*num_nodes draws; larger files take no draw; without a landing probe success is reported with the caller's earlier `*node_index` |
| FileAware.Allocate | src/fileaware.c:16-51 | the same probing as written (a small file takes the first landing draw within 2*num_nodes, a large one takes none), except that the fallback stores its node: that node has room, and it has the most free blocks (lowest index on ties) |
| FileAware.DroppedChoiceExample | src/fileaware.c:32-50 | with nodes [0, 5] free and `*node_index` 0, a 4-block file is reported on full node 0 as written and on node 1 when corrected |
| AllocationPolicy.FindFrom | src/allocationpolicy.c:16-17 | lookup returns the first table entry with the given name, or none iff no entry has it |
| AllocationPolicy.PolicyInit | src/allocationpolicy.c:13-23 | an unknown name gives false with `policy` NULL; a known name becomes current even if its init fails; the result is true iff the name is registered and there is a node; only a successful round-robin init replaces its state |
| AllocationPolicy.PolicyEnd | src/allocationpolicy.c:25-30 | always leaves `policy` NULL; destroys round robin's state only when round robin was current |
| AllocationPolicy.EndIdempotent | src/allocationpolicy.c:25-30 | ending twice is the same as ending once |
| AllocationPolicy.UnregisteredNamesFail | include/allocationpolicy.h:9-12 | leastloaded, sequential, weightedroundrobin and fileaware are not in the table: selecting them fails and leaves `policy` NULL |
| AllocationPolicy.RoundRobinAfterInit | src/allocationpolicy.c:13-23 | selecting round robin on a non-empty cluster succeeds, and the first allocation is node 0 |
| Metric.DistToString | src/metric.c:165-174 | the name is "unknown" exactly for values outside the five distributions |
| Metric.DistFromString | src/metric.c:165-174 | a recognised name stands for one of the five distributions |
| Metric.DistNameRoundTrip | src/metric.c:165-174 | each distribution's name reads back as that distribution; "unknown" reads back as none |
| Metric.DistNamesDistinct | src/metric.c:165-174 | the five names are distinct |
| Metric.GenerateFileSize | src/metric.c:121-163 | a positive multiple of the block size; blocks in the distribution's range; at most two draws; bimodal is small iff draw mod 100 < 80; web is tiny iff < 70 and medium iff in 70..89 |
| Metric.EveryCountReachable | src/metric.c:124-160 | every block count in a distribution's range is produced by some draws, so the ranges are exact |
| Metric.ToInt32 | src/metric.c:46 | the `int` conversion lands in the 32-bit range and keeps values that fit |
| Metric.UsedBlocks | src/metric.c:44 | used plus free is `num_blocks` modulo 2^64 |
| Metric.FillPercentage | src/metric.c:46 | the fill field is a 32-bit `int` |
| Metric.BlockCounts | src/metric.c:44-46 | `blocks_used + blocks_free == num_blocks` in size_t arithmetic, and `blocks_free` is copied |
| Metric.FillIsPercentage | src/metric.c:44-46 | with free <= num and no overflow, used is the difference and fill is the rounded-down percentage, within 0..100 |
| Metric.FillExtremes | src/metric.c:44-46 | an empty store reads 0% and a full one 100% |
| Metric.FillMonotone | src/metric.c:44-46 | more blocks in use never gives a lower fill percentage |
| Metric.LoadBounds | src/metric.c:13-27 | max is max(0, counts) and min is min(INT_MAX, counts); each is either the start value or some node's count; max >= min for at least one node with non-negative counts |
| Metric.CaptureCounters | src/metric.c:37-64 | the block fields are those of BlockCounts; min and max are min(INT_MAX, counts) and max(0, counts): every node's count lies between them, and each is attained by some node or is its start value; the counters are copied |
| Decimal.NatToString | results/blocks/plot_blocks.py:59-62 | a number prints as a non-empty digit string with no leading zero |
| Decimal.IntToString | results/blocks/plot_blocks.py:59-62 | a number prints with a leading "-" iff negative, digits after it |
| Decimal.NatRoundTrip | results/blocks/plot_blocks.py:59-62 | parsing a printed natural number gives it back |
| Decimal.IntRoundTrip | results/blocks/plot_blocks.py:59-62 | parsing a printed integer gives it back |
| Decimal.IntToStringInjective | results/blocks/plot_blocks.py:59-62 | distinct numbers print differently |
| ByteFormat.FormatBytes | results/blocks/plot_blocks.py:57-62 | the label ends in " MB" iff x >= 1 MiB, in " KB" iff 1 KiB <= x < 1 MiB, and in " B" iff x < 1 KiB |
| ByteFormat.ParseLabel | results/blocks/plot_blocks.py:57-62 | a label reads back with a unit of 1, 1024 or 1048576 |
| ByteFormat.FormatThenParse | results/blocks/plot_blocks.py:57-62 | the label of x reads back as the largest unit not above x (bytes below 1 KB) and the number of whole units in x; the same function is at results/batch/block/plot_blocks.py:55-60 |
| ByteFormat.RoundsDown | results/batch/block/plot_blocks.py:55-60 | 1536 bytes is "1 KB" and 3 MB + 1 is "3 MB" |
| Tables.LastWins | results/batch/block/plot_blocks.py:19-25 | the table's keys are exactly the rows' keys |
| Tables.LastWinsValue | results/batch/block/plot_blocks.py:19-25 | each key holds the value of its last row |
| Tables.Nested | results/blocks/plot_blocks.py:21-29 | the outer keys are exactly the rows' policies |
| Tables.NestedIsLastWinsPerPolicy | results/blocks/plot_blocks.py:21-29 | each policy's inner table is the last-wins table of that policy's rows |
| Tables.Insert | results/blocks/plot_blocks.py:37 | inserting into a strictly increasing list keeps it strictly increasing and adds exactly the new value |
| Tables.SortedDistinct | results/blocks/plot_blocks.py:37 | the result is strictly increasing and holds exactly the distinct keys |
| Tables.SeriesOf | results/batch/block/plot_blocks.py:31-34 | x-values are the table's keys in strictly increasing order; each y is the table's entry for its x |
| Tables.LastRowIsPlotted | results/batch/block/plot_blocks.py:19-34 | the last row for each block size appears as a point of the line |
| Tables.PolicySeries | results/blocks/plot_blocks.py:36-38 | a policy's line has its block sizes in increasing order and each y is that policy's entry for its x |
| BatchPlot.PyIndex | results/batch/block/plot_blocks.py:4-5 | Python indexing accepts -len..len-1, negative indices counting from the end |
| BatchPlot.MetricStr | results/batch/block/plot_blocks.py:4-5 | 0 and -3 are "Create", 1 and -2 "Write", 2 and -1 "Read"; anything else raises |
| BatchPlot.Component | results/batch/block/plot_blocks.py:34 | indexing a timing triple fails exactly outside -3..2 |
| BatchPlot.LabelNamesColumn | results/batch/block/plot_blocks.py:31-42 | the title names the component that is plotted, and both fail together |
| BatchPlot.PlotSeries | results/batch/block/plot_blocks.py:31-41 | the plot fails iff the metric index is out of range; otherwise the x-values are the sorted block sizes and each y is that component of the size's triple |

## Left out

- Memory allocation failure is not modelled: the `malloc` calls in the round-robin, sequential and weighted-round-robin `init` functions, and the leaks on their failure paths. Each `init` is modelled as if allocation succeeds.
- Random numbers are not modelled: `srand(time(NULL))` and `rand()` itself. Callers supply the draws. They supply at least as many as the most a call can use, standing in for an endless `rand()` stream.
- Pointers, `policy->state` and the function-pointer table are plain values. The `state` field of the `rand` entry is never set, so only round robin's state is kept.
- Header/implementation signature drift is not modelled. `allocate_block` is declared without the `AllocContext` that some policies take. `blocks_free` and `blocks_per_node` are read from `md` but are missing from the header's struct. The policies take these as parameters.
- WeightedRoundRobin.Weight: the `double` weights are replaced by an integer key with the same order. With a positive divisor the key is the free count itself. Two distinct quotients of 32-bit counts by one divisor stay distinct in a 53-bit mantissa. With a zero divisor every positive count is +inf and every other count 0.0. Floating-point rounding itself is not modelled.
- WeightedRoundRobin.Valid: requires `fs_capacity >= 0`. A negative capacity would wrap in the conversion to `size_t` and is not modelled. The `weights` buffer and its initial 1.0 values are left out, because every call overwrites all weights before reading any.
- FileAware.RandomPhase: `num_nodes * 2` is taken as exact. Its `int` overflow past 2^30 nodes is not modelled.
- Bitmap.IsSet: the unused `nbits` parameter of `bitmap_isset` is dropped. Its `uint32_t` index arithmetic cannot overflow for the word counts involved, and is not written out.
- Floating-point metrics are not modelled: timestamps, latencies, standard deviation and imbalance.
- `metadata_bytes` (it depends on `sizeof`), `print_metrics`, `export_metrics_csv` and `get_time_ms` are not modelled.
- Metric.FillPercentage: its own contract states only the `int` range. The percentage meaning is stated by Metric.FillIsPercentage, when `free_blocks <= num_blocks` and `num_blocks * 100` fits in 64 bits.
- Metric.BlockCounts: requires `num_blocks > 0`. src/metric.c:46 divides by `md->num_blocks` unguarded, and `metadatanode_init` (src/metadatanode.c:75-90) never sets it, so a zero count is a division by zero in the source; that crash is not modelled, and FillPercentage and CaptureCounters carry the same requires.
- Metric.LoadBounds: `blocks_per_node` is a parameter, because the header does not declare it.
- Plot scripts, not modelled:
  - file discovery, CSV loading, pandas value types (block sizes are taken as Python integers), and the matplotlib calls;
  - `plot` in results/blocks/plot_blocks.py, which labels x ticks with the block sizes of the last policy drawn only;
  - the legend order, which follows dictionary insertion order;
  - `build_df`, which ignores its argument and always reads `avg_seq.csv`.
- ByteFormat.FormatBytes: labels are modelled for integer sizes only. exp/batch_block.c:108 writes `block_size` next to three `%.6f` columns, so `iterrows` in results/batch/block/plot_blocks.py:19-20 yields float rows and that script's ticks read "4.0 KB" and "1.0 KB" instead of "4 KB" and "1 KB".
- Outside this model: socket framing (src/communication.c), process management and stub operations (src/metadatanode.c, src/datanode.c), and the benchmark drivers under workload/ and exp/. None of them is part of the placement or bookkeeping logic.

## Findings

| source | as written | input that shows it | evidently intended | confidence | as-written member | corrected member |
|---|---|---|---|---|---|---|
| src/fileaware.c:46-50 | when the random phase does not decide, the least-loaded scan computes `least_loaded`, then returns 0 without storing it in `*node_index` | a file of 4 blocks, `num_nodes` 2, `blocks_free` [0, 5], `*node_index` 0 beforehand: returns 0 and `*node_index` stays 0, a full node | `*node_index = least_loaded;` before `return 0`, as in `leastloaded.c` | high, not executed | FileAware.AllocateAsWritten, FileAware.DroppedChoiceExample | FileAware.Allocate |

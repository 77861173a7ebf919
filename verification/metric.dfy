/** The deterministic parts of `metric.c`: the names of the file-size
    distributions, the block counts `generate_file_size` draws, and the
    integer fields of `capture_metrics` with the max/min of
    `calculate_load_balance`. */
module Metric {
  import opened Cluster
  import opened Wrappers
  import Modular

  /** `FileDistribution`: the enumerators in declaration order. */
  const UniformSmall: int := 0
  const UniformLarge: int := 1
  const Bimodal: int := 2
  const WebRealistic: int := 3
  const Video: int := 4

  /** `dist_to_string`. */
  function DistToString(dist: int): (name: string)
    ensures 0 <= dist <= 4 <==> name != "unknown"
  {
    if dist == UniformSmall then "uniform_small"
    else if dist == UniformLarge then "uniform_large"
    else if dist == Bimodal then "bimodal"
    else if dist == WebRealistic then "web_realistic"
    else if dist == Video then "video"
    else "unknown"
  }

  /** The distribution a name stands for, if any. */
  function DistFromString(name: string): (dist: Option<int>)
    ensures dist.Some? ==> 0 <= dist.value <= 4
  {
    if name == "uniform_small" then Some(UniformSmall)
    else if name == "uniform_large" then Some(UniformLarge)
    else if name == "bimodal" then Some(Bimodal)
    else if name == "web_realistic" then Some(WebRealistic)
    else if name == "video" then Some(Video)
    else None
  }

  /** Every distribution's name leads back to it, and "unknown" to none, so
      the five names are distinct. */
  lemma DistNameRoundTrip(dist: int)
    ensures 0 <= dist <= 4 ==> DistFromString(DistToString(dist)) == Some(dist)
    ensures !(0 <= dist <= 4) ==> DistFromString(DistToString(dist)) == None
  {
  }

  lemma DistNamesDistinct(a: int, b: int)
    requires 0 <= a <= 4 && 0 <= b <= 4 && DistToString(a) == DistToString(b)
    ensures a == b
  {
    DistNameRoundTrip(a);
    DistNameRoundTrip(b);
  }

  /** The result of `generate_file_size`: the size in bytes and how many
      values of `rand()` it consumed. */
  datatype Sized = Sized(bytes: nat, drawsUsed: nat)

  /** The block counts a distribution can produce. */
  predicate InRange(dist: int, blocks: int)
  {
    if dist == UniformSmall then 1 <= blocks <= 2
    else if dist == UniformLarge then 8 <= blocks <= 16
    else if dist == Bimodal then blocks == 1 || blocks == 16
    else if dist == WebRealistic then 1 <= blocks <= 2 || 4 <= blocks <= 8 || 16 <= blocks <= 32
    else if dist == Video then 32 <= blocks <= 128
    else blocks == 1
  }

  /** `generate_file_size`, with the values of `rand()` taken from `draws`.
      `rand()` is never negative, so C's `%` is Dafny's. */
  function GenerateFileSize(dist: int, draws: seq<nat>): (r: Sized)
    requires |draws| >= 2
    ensures r.bytes > 0 && r.bytes % BlockSize == 0
    ensures InRange(dist, r.bytes / BlockSize)
    ensures r.drawsUsed <= 2
    ensures dist == Bimodal ==> (r.bytes == BlockSize <==> draws[0] % 100 < 80)
    ensures dist == WebRealistic ==>
      && (draws[0] % 100 < 70 <==> r.bytes <= 2 * BlockSize)
      && (70 <= draws[0] % 100 < 90 <==> 4 * BlockSize <= r.bytes <= 8 * BlockSize)
  {
    var pick: (nat, nat) :=
      if dist == UniformSmall then (1 + draws[0] % 2, 1)
      else if dist == UniformLarge then (8 + draws[0] % 9, 1)
      else if dist == Bimodal then (if draws[0] % 100 < 80 then 1 else 16, 1)
      else if dist == WebRealistic then
        var r := draws[0] % 100;
        if r < 70 then (1 + draws[1] % 2, 2)
        else if r < 90 then (4 + draws[1] % 5, 2)
        else (16 + draws[1] % 17, 2)
      else if dist == Video then (32 + draws[0] % 97, 1)
      else (1, 0);
    Sized(pick.0 * BlockSize, pick.1)
  }

  /** Every block count in a distribution's range is produced by some pair
      of draws, so the ranges above are exact. */
  lemma EveryCountReachable(dist: int, blocks: int)
    requires InRange(dist, blocks)
    ensures exists draws: seq<nat> :: |draws| == 2 && GenerateFileSize(dist, draws).bytes == blocks * BlockSize
  {
    var draws: seq<nat> :=
      if dist == UniformSmall then [blocks - 1, 0]
      else if dist == UniformLarge then [blocks - 8, 0]
      else if dist == Bimodal then [if blocks == 1 then 0 else 80, 0]
      else if dist == WebRealistic then
        if blocks <= 2 then [0, blocks - 1]
        else if blocks <= 8 then [70, blocks - 4]
        else [90, blocks - 16]
      else if dist == Video then [blocks - 32, 0]
      else [0, 0];
    assert GenerateFileSize(dist, draws).bytes == blocks * BlockSize;
  }

  /** `size_t` of the target: 64 bits. */
  const SizeBound: int := 0x1_0000_0000_0000_0000
  type size_t = x: int | 0 <= x < SizeBound

  /** C's conversion of an unsigned value to a 32-bit `int`: the low 32 bits,
      read as two's complement. */
  function ToInt32(x: nat): (r: int)
    ensures -0x8000_0000 <= r <= IntMax
    ensures x <= IntMax ==> r == x
  {
    var low := x % 0x1_0000_0000;
    if low <= IntMax then low else low - 0x1_0000_0000
  }

  /** The block fields of `SystemMetrics` filled by `capture_metrics`. */
  datatype BlockFields = BlockFields(fillPercentage: int, blocksUsed: size_t, blocksFree: size_t)

  /** `blocks_used = num_blocks - free_blocks` in `size_t` arithmetic. */
  function UsedBlocks(numBlocks: size_t, freeBlocks: size_t): (used: size_t)
    ensures (used + freeBlocks) % SizeBound == numBlocks
  {
    Modular.ModAdd(numBlocks - freeBlocks, freeBlocks, SizeBound);
    Modular.ModUnique(numBlocks, SizeBound, 0, numBlocks);
    (numBlocks - freeBlocks) % SizeBound
  }

  /** `fill_percentage = (int)((blocks_used * 100) / num_blocks)`: a
      `size_t` product and quotient, then the conversion to `int`. */
  function FillPercentage(used: size_t, numBlocks: size_t): (fill: int)
    requires numBlocks > 0
    ensures -0x8000_0000 <= fill <= IntMax
  {
    ToInt32(((used * 100) % SizeBound) / numBlocks)
  }

  /** The block fields of `capture_metrics`.  The source divides by
      `num_blocks` unguarded. */
  function BlockCounts(numBlocks: size_t, freeBlocks: size_t): (r: BlockFields)
    requires numBlocks > 0
    ensures (r.blocksUsed + r.blocksFree) % SizeBound == numBlocks
    ensures r.blocksFree == freeBlocks
  {
    var used := UsedBlocks(numBlocks, freeBlocks);
    BlockFields(FillPercentage(used, numBlocks), used, freeBlocks)
  }

  /** `used * 100 / num` lies in [0, 100] when `used <= num`. */
  lemma PercentBounds(used: nat, numBlocks: nat)
    requires numBlocks > 0 && used <= numBlocks
    ensures 0 <= used * 100 / numBlocks <= 100
    ensures (used * 100 / numBlocks) * numBlocks <= used * 100 < (used * 100 / numBlocks + 1) * numBlocks
  {
    var q := used * 100 / numBlocks;
    Modular.MulLeq(used, numBlocks, 100);
    Modular.MulBound(q - 100, numBlocks);
  }

  /** When no more blocks are free than exist and the product by 100 fits
      in a `size_t`, `blocks_used` is the difference and `fill_percentage` is
      the percentage of blocks in use, rounded down. */
  lemma FillIsPercentage(numBlocks: size_t, freeBlocks: size_t)
    requires numBlocks > 0 && freeBlocks <= numBlocks && numBlocks * 100 < SizeBound
    ensures BlockCounts(numBlocks, freeBlocks).blocksUsed == numBlocks - freeBlocks
    ensures var fill := BlockCounts(numBlocks, freeBlocks).fillPercentage;
      && fill == (numBlocks - freeBlocks) * 100 / numBlocks
      && 0 <= fill <= 100
      && fill * numBlocks <= (numBlocks - freeBlocks) * 100 < (fill + 1) * numBlocks
  {
    var used := numBlocks - freeBlocks;
    Modular.ModUnique(used, SizeBound, 0, used);
    Modular.MulLeq(used, numBlocks, 100);
    Modular.ModUnique(used * 100, SizeBound, 0, used * 100);
    PercentBounds(used, numBlocks);
  }

  /** An empty store reads 0% and a full one 100%. */
  lemma FillExtremes(numBlocks: size_t)
    requires numBlocks > 0 && numBlocks * 100 < SizeBound
    ensures BlockCounts(numBlocks, numBlocks).fillPercentage == 0
    ensures BlockCounts(numBlocks, 0).fillPercentage == 100
  {
    FillIsPercentage(numBlocks, numBlocks);
    FillIsPercentage(numBlocks, 0);
    Modular.ModUnique(numBlocks * 100, numBlocks, 100, 0);
  }

  /** Using more blocks never lowers the fill percentage. */
  lemma FillMonotone(numBlocks: size_t, freeA: size_t, freeB: size_t)
    requires numBlocks > 0 && numBlocks * 100 < SizeBound
    requires freeB <= freeA <= numBlocks
    ensures BlockCounts(numBlocks, freeA).fillPercentage <= BlockCounts(numBlocks, freeB).fillPercentage
  {
    FillIsPercentage(numBlocks, freeA);
    FillIsPercentage(numBlocks, freeB);
    Modular.MulLeq(numBlocks - freeA, numBlocks - freeB, 100);
    Modular.QuotientMonotone((numBlocks - freeA) * 100, (numBlocks - freeB) * 100, numBlocks);
  }

  /** The max/min part of `calculate_load_balance` over the first `numNodes`
      per-node block counts: the maximum starts at 0 and the minimum at
      `INT_MAX`, so they are max(0, counts) and min(INT_MAX, counts). */
  method LoadBounds(counts: seq<int>, numNodes: int) returns (maxBlocks: int, minBlocks: int)
    requires numNodes <= |counts|
    ensures 0 <= maxBlocks && minBlocks <= IntMax
    ensures forall i :: 0 <= i < numNodes ==> minBlocks <= counts[i] <= maxBlocks
    ensures maxBlocks == 0 || exists i :: 0 <= i < numNodes && counts[i] == maxBlocks
    ensures minBlocks == IntMax || exists i :: 0 <= i < numNodes && counts[i] == minBlocks
    ensures numNodes >= 1 && (forall i :: 0 <= i < numNodes ==> 0 <= counts[i]) ==> minBlocks <= maxBlocks
  {
    maxBlocks, minBlocks := 0, IntMax;
    var i := 0;
    while i < numNodes
      invariant 0 <= i && (i <= numNodes || i == 0)
      invariant 0 <= maxBlocks && minBlocks <= IntMax
      invariant forall k :: 0 <= k < i ==> minBlocks <= counts[k] <= maxBlocks
      invariant maxBlocks == 0 || exists k :: 0 <= k < i && counts[k] == maxBlocks
      invariant minBlocks == IntMax || exists k :: 0 <= k < i && counts[k] == minBlocks
    {
      var blocks := counts[i];
      if blocks > maxBlocks {
        maxBlocks := blocks;
      }
      if blocks < minBlocks {
        minBlocks := blocks;
      }
      i := i + 1;
    }
    if numNodes >= 1 {
      assert minBlocks <= counts[0] <= maxBlocks;
    }
  }

  /** The integer fields of `SystemMetrics`. */
  datatype Counters = Counters(
    block: BlockFields, maxBlocksOnNode: int, minBlocksOnNode: int,
    writeCount: int, readCount: int, numFiles: int)

  /** `capture_metrics` without its timestamp, latencies, standard deviation
      and metadata estimate. */
  method CaptureCounters(numBlocks: size_t, freeBlocks: size_t, blocksPerNode: seq<int>, numNodes: int,
                         numFiles: int, writeCount: int, readCount: int) returns (m: Counters)
    requires numBlocks > 0 && numNodes <= |blocksPerNode|
    ensures m.block == BlockCounts(numBlocks, freeBlocks)
    ensures forall i :: 0 <= i < numNodes ==> m.minBlocksOnNode <= blocksPerNode[i] <= m.maxBlocksOnNode
    ensures 0 <= m.maxBlocksOnNode && m.minBlocksOnNode <= IntMax
    ensures m.maxBlocksOnNode == 0 || exists i :: 0 <= i < numNodes && blocksPerNode[i] == m.maxBlocksOnNode
    ensures m.minBlocksOnNode == IntMax || exists i :: 0 <= i < numNodes && blocksPerNode[i] == m.minBlocksOnNode
    ensures m.writeCount == writeCount && m.readCount == readCount && m.numFiles == numFiles
  {
    var maxBlocks, minBlocks := LoadBounds(blocksPerNode, numNodes);
    m := Counters(BlockCounts(numBlocks, freeBlocks), maxBlocks, minBlocks, writeCount, readCount, numFiles);
  }
}

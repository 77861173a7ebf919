/** `fileaware.c`: small files go to a random node with room, larger ones
    (and small ones whose probes all miss) to the node with the most free
    blocks.

    As written, the least-loaded branch computes its node and then returns 0
    without storing it in `*node_index`, so the caller keeps whatever it held
    before.  `AllocateAsWritten` models that; `Allocate` stores the node, as
    the comment on the branch and every other policy intend. */
module FileAware {
  import opened Cluster
  import Selection

  /** `SMALL_FILE`: files of fewer blocks take the random path. */
  const SmallFile: int := 4

  /** `fileaware_init`: only checks that there is a node. */
  function Init(md: Metadata): (rc: int)
    ensures rc == -1 <==> md.numNodes < 1
    ensures rc == 0 || rc == -1
  {
    if md.numNodes < 1 then -1 else 0
  }

  /** The random phase: `2 * num_nodes` probes for a file of fewer than
      `SmallFile` blocks, none otherwise.  Returns the node hit (or -1) and
      the draws consumed. */
  method RandomPhase(md: Metadata, fileBlocks: int, draws: seq<nat>) returns (hit: int, used: nat)
    requires md.Readable() && 2 * md.numNodes <= |draws|
    ensures used <= |draws|
    ensures fileBlocks >= SmallFile || md.numNodes < 1 ==> hit == -1 && used == 0
    ensures fileBlocks < SmallFile && md.numNodes >= 1 ==> used <= 2 * md.numNodes
    ensures hit == -1 && fileBlocks < SmallFile && md.numNodes >= 1 ==>
      used == 2 * md.numNodes && forall k :: 0 <= k < used ==> !Selection.Hits(md, draws[k])
    ensures hit != -1 ==> md.numNodes >= 1 && 1 <= used && hit == draws[used - 1] % md.numNodes
    ensures hit != -1 ==> Selection.Hits(md, draws[used - 1]) && forall k :: 0 <= k < used - 1 ==> !Selection.Hits(md, draws[k])
  {
    if fileBlocks < SmallFile && md.numNodes >= 1 {
      hit, used := Selection.Probe(md, draws, md.numNodes * 2);
    } else {
      hit, used := -1, 0;
    }
  }

  /** `fileaware_allocate_block` as written: when the least-loaded branch
      succeeds, the outcome reports success with the caller's `prev`. */
  method AllocateAsWritten(md: Metadata, fileBlocks: int, draws: seq<nat>, prev: int) returns (out: Outcome, used: nat)
    requires md.Readable() && 2 * md.numNodes <= |draws|
    ensures used <= |draws|
    ensures out.rc == 0 || out.rc == -1
    ensures out.rc == -1 <==> Selection.NoneQualifies(md, 1)
    ensures out.rc == -1 ==> out.nodeIndex == prev
    ensures fileBlocks >= SmallFile ==> used == 0
    // a small file probes until the first draw that lands, at most `2 * num_nodes` times
    ensures fileBlocks < SmallFile && md.numNodes >= 1 ==> used <= 2 * md.numNodes
    ensures fileBlocks < SmallFile && md.numNodes >= 1 ==>
      || (1 <= used && Selection.Hits(md, draws[used - 1]) && forall k :: 0 <= k < used - 1 ==> !Selection.Hits(md, draws[k]))
      || (used == 2 * md.numNodes && forall k :: 0 <= k < used ==> !Selection.Hits(md, draws[k]))
    ensures md.numNodes >= 1 && 1 <= used && Selection.Hits(md, draws[used - 1]) ==>
      out == Outcome(0, draws[used - 1] % md.numNodes)
    ensures !(md.numNodes >= 1 && 1 <= used && Selection.Hits(md, draws[used - 1])) && out.rc == 0 ==>
      out.nodeIndex == prev
  {
    var hit;
    hit, used := RandomPhase(md, fileBlocks, draws);
    if hit != -1 {
      return Outcome(0, hit), used;
    }
    var leastLoaded := Selection.MostFree(md, 1);
    if leastLoaded == -1 {
      return Outcome(-1, prev), used;
    }
    return Outcome(0, prev), used;
  }

  /** `fileaware_allocate_block` with the least-loaded node stored: whenever
      it succeeds the node has room, and without a random hit it is the node
      with the most free blocks (the lowest such). */
  method Allocate(md: Metadata, fileBlocks: int, draws: seq<nat>, prev: int) returns (out: Outcome, used: nat)
    requires md.Readable() && 2 * md.numNodes <= |draws|
    ensures used <= |draws|
    ensures out.rc == 0 || out.rc == -1
    ensures out.rc == -1 <==> Selection.NoneQualifies(md, 1)
    ensures out.rc == -1 ==> out.nodeIndex == prev
    ensures out.rc == 0 ==> md.IsNode(out.nodeIndex) && md.blocksFree[out.nodeIndex] > 0
    ensures fileBlocks >= SmallFile ==> used == 0
    // a small file probes until the first draw that lands, at most `2 * num_nodes` times
    ensures fileBlocks < SmallFile && md.numNodes >= 1 ==> used <= 2 * md.numNodes
    ensures fileBlocks < SmallFile && md.numNodes >= 1 ==>
      || (1 <= used && Selection.Hits(md, draws[used - 1]) && forall k :: 0 <= k < used - 1 ==> !Selection.Hits(md, draws[k]))
      || (used == 2 * md.numNodes && forall k :: 0 <= k < used ==> !Selection.Hits(md, draws[k]))
    ensures md.numNodes >= 1 && 1 <= used && Selection.Hits(md, draws[used - 1]) ==>
      out == Outcome(0, draws[used - 1] % md.numNodes)
    ensures !(md.numNodes >= 1 && 1 <= used && Selection.Hits(md, draws[used - 1])) && out.rc == 0 ==>
      Selection.IsMostFree(md, 1, out.nodeIndex)
  {
    var hit;
    hit, used := RandomPhase(md, fileBlocks, draws);
    if hit != -1 {
      return Outcome(0, hit), used;
    }
    var leastLoaded := Selection.MostFree(md, 1);
    if leastLoaded == -1 {
      return Outcome(-1, prev), used;
    }
    return Outcome(0, leastLoaded), used;
  }

  /** Two nodes, the first full: a four-block file is reported placed on
      the full node 0 (the caller's earlier value) by the code as written,
      and on node 1 once the chosen node is stored. */
  method DroppedChoiceExample() returns (asWritten: Outcome, corrected: Outcome)
    ensures asWritten == Outcome(0, 0)
    ensures corrected == Outcome(0, 1)
  {
    var md := Metadata(2, [0, 5], 10 * BlockSize);
    var draws: seq<nat> := [0, 0, 0, 0];
    assert !Selection.NoneQualifies(md, 1) by {
      assert md.blocksFree[1] >= 1;
    }
    var used;
    asWritten, used := AllocateAsWritten(md, SmallFile, draws, 0);
    corrected, used := Allocate(md, SmallFile, draws, 0);
  }
}

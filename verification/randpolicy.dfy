/** `rand.c`: probe random nodes, then fall back to the first node with room.

    `srand(time(NULL))` and `rand()` are not modelled: the values `rand()`
    would return are the sequence `draws`, read from the front. */
module RandPolicy {
  import opened Cluster
  import Selection

  /** `rand_init`: only checks that there is a node. */
  function Init(md: Metadata): (rc: int)
    ensures rc == -1 <==> md.numNodes < 1
    ensures rc == 0 || rc == -1
  {
    if md.numNodes < 1 then -1 else 0
  }

  /** `rand_allocate_block`: `num_nodes` random probes, then a scan from node
      0.  Returns the outcome and the number of draws consumed.  With no node
      neither loop runs and no draw is taken. */
  method Allocate(md: Metadata, draws: seq<nat>, prev: int) returns (out: Outcome, used: nat)
    requires md.Readable() && md.numNodes <= |draws|
    ensures used <= |draws| && (used <= md.numNodes || used == 0)
    ensures out.rc == 0 || out.rc == -1
    ensures out.rc == -1 <==> Selection.NoneQualifies(md, 1)
    ensures out.rc == -1 ==> out.nodeIndex == prev
    ensures out.rc == 0 ==> md.IsNode(out.nodeIndex) && md.blocksFree[out.nodeIndex] > 0
    // a draw that hits a node with room decides the outcome
    ensures md.numNodes >= 1 ==> forall k :: 0 <= k < used - 1 ==> !Selection.Hits(md, draws[k])
    ensures md.numNodes >= 1 && 1 <= used && Selection.Hits(md, draws[used - 1]) ==>
      out == Outcome(0, draws[used - 1] % md.numNodes)
    // probing stops at the first draw that lands, and only then before the last attempt
    ensures md.numNodes >= 1 ==>
      || (1 <= used && Selection.Hits(md, draws[used - 1]))
      || (used == md.numNodes && forall k :: 0 <= k < used ==> !Selection.Hits(md, draws[k]))
    // when every probe misses, the lowest node with room is taken
    ensures md.numNodes >= 1 && (forall k :: 0 <= k < md.numNodes ==> !Selection.Hits(md, draws[k])) ==>
      used == md.numNodes && (out.rc == 0 ==> forall j :: 0 <= j < out.nodeIndex ==> md.blocksFree[j] <= 0)
  {
    if md.numNodes < 1 {
      return Outcome(-1, prev), 0;
    }
    var hit;
    hit, used := Selection.Probe(md, draws, md.numNodes);
    if hit != -1 {
      return Outcome(0, hit), used;
    }
    var first := Selection.FirstWithFree(md);
    if first == -1 {
      return Outcome(-1, prev), used;
    }
    return Outcome(0, first), used;
  }
}

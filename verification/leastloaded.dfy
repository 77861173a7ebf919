/** `leastloaded.c`: place the block on the node with the most free blocks. */
module LeastLoaded {
  import opened Cluster
  import Selection

  /** `leastloaded_init`: only checks that there is a node; stores no state. */
  function Init(md: Metadata): (rc: int)
    ensures rc == -1 <==> md.numNodes < 1
    ensures rc == 0 || rc == -1
  {
    if md.numNodes < 1 then -1 else 0
  }

  /** `leastloaded_allocate_block`: the argmax over nodes whose free count is
      not negative (a node with zero free blocks still qualifies).  `prev` is
      the caller's `*node_index`, left as it was on failure.  The call is
      stateless. */
  method Allocate(md: Metadata, prev: int) returns (out: Outcome)
    requires md.Readable()
    ensures out.rc == 0 || out.rc == -1
    ensures out.rc == -1 <==> Selection.NoneQualifies(md, 0)
    ensures out.rc == -1 ==> out.nodeIndex == prev
    ensures out.rc == 0 ==> Selection.IsMostFree(md, 0, out.nodeIndex)
  {
    var leastLoaded := Selection.MostFree(md, 0);
    if leastLoaded == -1 {
      return Outcome(-1, prev);
    }
    return Outcome(0, leastLoaded);
  }

  /** With no node at all the call fails, as it does when every count is
      negative. */
  lemma NoNodesFails(md: Metadata)
    requires md.Readable() && md.numNodes < 1
    ensures Selection.NoneQualifies(md, 0)
  {
  }

  /** A cluster whose only node is full still gets that node: the guard
      skips negative counts only. */
  lemma FullNodeEligible(md: Metadata)
    requires md.Readable() && md.numNodes == 1 && md.blocksFree[0] == 0
    ensures Selection.IsMostFree(md, 0, 0)
  {
  }
}

/** What every block-placement policy reads from the metadata node, and the
    shape of what it returns.  The C policies read the global `md`; here the
    relevant fields are an explicit value. */
module Cluster {
  import opened Wrappers

  /** `BLOCK_SIZE`: bytes per block. */
  const BlockSize: nat := 4096

  /** `INT_MAX` for the 32-bit `int` of the target. */
  const IntMax: int := 0x7FFF_FFFF

  /** The fields of `md` the policies read: `num_nodes`, the per-node
      `blocks_free` array and `fs_capacity` (total bytes). */
  datatype Metadata = Metadata(numNodes: int, blocksFree: seq<int>, fsCapacity: int)
  {
    /** `blocks_free` has an entry for every node the policy may index. */
    predicate Readable()
    {
      numNodes <= |blocksFree|
    }

    /** `i` names a node. */
    predicate IsNode(i: int)
    {
      0 <= i < numNodes
    }
  }

  /** The return code of an `allocate_block` call and the value of the caller's
      `*node_index` afterwards.  The policies only write `*node_index` on some
      paths, so the value before the call is an input of every model. */
  datatype Outcome = Outcome(rc: int, nodeIndex: int)

  /** An `allocate_block` call of a policy that keeps a cursor in
      `policy->state`: its outcome and the state afterwards. */
  datatype Step<S> = Step(out: Outcome, state: S)

  /** What an `init` call returns and the state it stores in `policy->state`
      (`None` when it stores nothing). */
  datatype Started<S> = Started(rc: int, state: Option<S>)
}

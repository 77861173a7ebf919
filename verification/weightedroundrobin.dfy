/** `weightedroundrobin.c`: the node with the largest share of free blocks,
    ties broken by a round-robin rotation that starts after the node chosen
    last time.

    The C weights are `double`s, `blocks_free[i] / max_blocks_per_node`, set
    to 0.0 when `blocks_free[i] <= 0`.  All of them share one divisor, so
    they are ordered like an integer key: the free count itself when the
    divisor is positive, and, when it is 0, the same value (positive
    infinity) for every node with a free block. */
module WeightedRoundRobin {
  import opened Cluster
  import opened Wrappers
  import Modular
  import RoundRobin

  /** `WRRState` without its `weights` buffer: every call overwrites all
      weights before reading any of them, so only `last_index` carries over. */
  datatype State = State(lastIndex: int)

  predicate Valid(md: Metadata, s: State)
  {
    md.Readable() && md.numNodes >= 1 && md.fsCapacity >= 0 && -1 <= s.lastIndex < md.numNodes
  }

  /** `weightedroundrobin_init`: fails without a node; otherwise the rotation
      starts at node 0.  (The initial weights of 1.0 are never read.) */
  function Init(md: Metadata): (r: Started<State>)
    ensures r.rc == -1 <==> md.numNodes < 1
    ensures r.rc == -1 ==> r.state == None
    ensures r.rc != -1 ==> r.rc == 0 && r.state == Some(State(-1))
    ensures r.rc == 0 && md.Readable() && md.fsCapacity >= 0 ==> Valid(md, r.state.value)
  {
    if md.numNodes < 1 then Started(-1, None) else Started(0, Some(State(-1)))
  }

  /** `max_blocks_per_node`: a node's share of the capacity, in whole blocks,
      which is the floor of `fs_capacity / (BLOCK_SIZE * num_nodes)`.  Both
      divisions have non-negative operands, so C's truncation is Dafny's. */
  function MaxBlocksPerNode(md: Metadata): (m: nat)
    requires md.numNodes >= 1 && md.fsCapacity >= 0
    ensures m * BlockSize * md.numNodes <= md.fsCapacity < (m + 1) * BlockSize * md.numNodes
  {
    Modular.NestedDivBounds(md.fsCapacity, md.numNodes, BlockSize);
    var nodeCapacity := md.fsCapacity / md.numNodes;
    nodeCapacity / BlockSize
  }

  /** The integer key ordered like node `i`'s weight. */
  function Weight(md: Metadata, i: int): (w: int)
    requires md.Readable() && md.numNodes >= 1 && md.fsCapacity >= 0 && md.IsNode(i)
    ensures w >= 0
    ensures w == 0 <==> md.blocksFree[i] <= 0
  {
    if md.blocksFree[i] <= 0 then 0
    else if MaxBlocksPerNode(md) == 0 then 1
    else md.blocksFree[i]
  }

  /** The node visited at position `p` of the scan that starts after
      `last_index`. */
  function Rot(md: Metadata, s: State, p: int): int
    requires Valid(md, s) && 0 <= p < md.numNodes
  {
    (s.lastIndex + 1 + p) % md.numNodes
  }

  /** The position at which the scan visits node `i`. */
  function Slot(md: Metadata, s: State, i: int): int
    requires Valid(md, s)
  {
    if i >= s.lastIndex + 1 then i - (s.lastIndex + 1) else i - (s.lastIndex + 1) + md.numNodes
  }

  /** The scan visits every node exactly once: `Rot` and `Slot` are inverse
      bijections between positions and nodes. */
  lemma RotSlot(md: Metadata, s: State, p: int)
    requires Valid(md, s) && 0 <= p < md.numNodes
    ensures md.IsNode(Rot(md, s, p)) && Slot(md, s, Rot(md, s, p)) == p
  {
    Modular.ModSmall(s.lastIndex + 1 + p, md.numNodes);
  }

  lemma SlotRot(md: Metadata, s: State, i: int)
    requires Valid(md, s) && md.IsNode(i)
    ensures 0 <= Slot(md, s, i) < md.numNodes && Rot(md, s, Slot(md, s, i)) == i
  {
    Modular.ModSmall(s.lastIndex + 1 + Slot(md, s, i), md.numNodes);
  }

  /** Node `i` has the largest weight, and every node the scan reaches
      before it has a strictly smaller one. */
  predicate IsRotationArgmax(md: Metadata, s: State, i: int)
    requires Valid(md, s)
  {
    && md.IsNode(i)
    && (forall j :: 0 <= j < md.numNodes ==> Weight(md, j) <= Weight(md, i))
    && (forall j :: 0 <= j < md.numNodes && Slot(md, s, j) < Slot(md, s, i) ==> Weight(md, j) < Weight(md, i))
  }

  /** `weightedroundrobin_allocate_block`.  The source's `best_idx == -1`
      failure branch is unreachable: every weight is at least 0.0, above the
      initial best of -1.0, so the first node scanned is always taken. */
  method Allocate(md: Metadata, s: State) returns (r: Step<State>)
    requires Valid(md, s)
    ensures r.out.rc == 0
    ensures IsRotationArgmax(md, s, r.out.nodeIndex)
    ensures r.state == State(r.out.nodeIndex) && Valid(md, r.state)
  {
    var n := md.numNodes;
    var bestIdx := -1;
    var bestWeight := -1;
    ghost var bestPos := 0;
    var node := 0;
    while node < n
      invariant 0 <= node <= n
      invariant bestIdx == -1 <==> node == 0
      invariant bestIdx == -1 ==> bestWeight == -1
      invariant bestIdx != -1 ==> 0 <= bestPos < node && bestIdx == Rot(md, s, bestPos)
      invariant bestIdx != -1 ==> md.IsNode(bestIdx) && bestWeight == Weight(md, bestIdx)
      invariant forall p :: 0 <= p < node ==> Weight(md, Rot(md, s, p)) <= bestWeight
      invariant bestIdx != -1 ==> forall p :: 0 <= p < bestPos ==> Weight(md, Rot(md, s, p)) < bestWeight
    {
      var i := (s.lastIndex + 1 + node) % n;
      RotSlot(md, s, node);
      var w := Weight(md, i);
      if w > bestWeight {
        bestWeight := w;
        bestIdx := i;
        bestPos := node;
      }
      node := node + 1;
    }
    assert bestIdx != -1;
    ScanOrderIsSlotOrder(md, s, bestPos);
    r := Step(Outcome(0, bestIdx), State(bestIdx));
  }

  /** What the scan establishes about positions, restated about nodes. */
  lemma ScanOrderIsSlotOrder(md: Metadata, s: State, pos: int)
    requires Valid(md, s) && 0 <= pos < md.numNodes
    requires forall p :: 0 <= p < md.numNodes ==> Weight(md, Rot(md, s, p)) <= Weight(md, Rot(md, s, pos))
    requires forall p :: 0 <= p < pos ==> Weight(md, Rot(md, s, p)) < Weight(md, Rot(md, s, pos))
    ensures IsRotationArgmax(md, s, Rot(md, s, pos))
  {
    RotSlot(md, s, pos);
    forall j | 0 <= j < md.numNodes
      ensures Weight(md, j) <= Weight(md, Rot(md, s, pos))
      ensures Slot(md, s, j) < Slot(md, s, Rot(md, s, pos)) ==> Weight(md, j) < Weight(md, Rot(md, s, pos))
    {
      SlotRot(md, s, j);
    }
  }

  /** The rule names one node. */
  lemma RotationArgmaxUnique(md: Metadata, s: State, i: int, k: int)
    requires Valid(md, s) && IsRotationArgmax(md, s, i) && IsRotationArgmax(md, s, k)
    ensures i == k
  {
    SlotRot(md, s, i);
    SlotRot(md, s, k);
    if Slot(md, s, i) == Slot(md, s, k) {
      assert Rot(md, s, Slot(md, s, i)) == Rot(md, s, Slot(md, s, k));
    }
  }

  /** With a positive divisor the chosen node has the most free blocks,
      counting full or overdrawn nodes as 0. */
  lemma MostFreeWhenDivisorPositive(md: Metadata, s: State, i: int, j: int)
    requires Valid(md, s) && MaxBlocksPerNode(md) > 0 && IsRotationArgmax(md, s, i) && md.IsNode(j)
    ensures (if md.blocksFree[j] < 0 then 0 else md.blocksFree[j]) <= (if md.blocksFree[i] < 0 then 0 else md.blocksFree[i])
  {
    assert Weight(md, j) <= Weight(md, i);
  }

  /** When every node weighs the same (in particular when all are full) the
      policy behaves like plain round robin from the same cursor. */
  lemma EqualWeightsIsRoundRobin(md: Metadata, s: State, i: int)
    requires Valid(md, s) && IsRotationArgmax(md, s, i)
    requires forall j :: 0 <= j < md.numNodes ==> Weight(md, j) == Weight(md, 0)
    ensures i == RoundRobin.Allocate(md, RoundRobin.State(s.lastIndex)).out.nodeIndex
  {
    var first := Rot(md, s, 0);
    RotSlot(md, s, 0);
    SlotRot(md, s, i);
    assert Weight(md, first) == Weight(md, i);
    assert i == Rot(md, s, Slot(md, s, i));
  }

  /** A cluster with no free block anywhere still gets a node: the one after
      the last choice. */
  lemma AllFullStillChooses(md: Metadata, s: State, i: int)
    requires Valid(md, s) && IsRotationArgmax(md, s, i)
    requires forall j :: 0 <= j < md.numNodes ==> md.blocksFree[j] <= 0
    ensures i == (s.lastIndex + 1) % md.numNodes
  {
    EqualWeightsIsRoundRobin(md, s, i);
  }
}

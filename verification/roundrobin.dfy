/** `roundrobin.c`: hand blocks to the nodes in turn, ignoring how full they are. */
module RoundRobin {
  import opened Cluster
  import opened Wrappers
  import Modular

  /** `RRState`: the node handed out last, -1 before the first call. */
  datatype State = State(lastIndex: int)

  /** The state `init` stores and every allocation keeps. */
  predicate Valid(md: Metadata, s: State)
  {
    md.numNodes >= 1 && -1 <= s.lastIndex < md.numNodes
  }

  /** `roundrobin_init`: fails without a node; otherwise the cursor starts
      before node 0.  (A failing `malloc` is not modelled.) */
  function Init(md: Metadata): (r: Started<State>)
    ensures r.rc == -1 <==> md.numNodes < 1
    ensures r.rc == -1 ==> r.state == None
    ensures r.rc != -1 ==> r.rc == 0 && r.state == Some(State(-1)) && Valid(md, r.state.value)
  {
    if md.numNodes < 1 then Started(-1, None) else Started(0, Some(State(-1)))
  }

  /** `roundrobin_allocate_block`: the node after the last one, wrapping
      around.  Both operands of the C `%` are non-negative here, so it agrees
      with Dafny's `%`. */
  function Allocate(md: Metadata, s: State): (r: Step<State>)
    requires Valid(md, s)
    ensures r.out.rc == 0
    ensures md.IsNode(r.out.nodeIndex)
    ensures r.state.lastIndex == r.out.nodeIndex && Valid(md, r.state)
    ensures r.out.nodeIndex == s.lastIndex + 1 || (r.out.nodeIndex == 0 && s.lastIndex == md.numNodes - 1)
  {
    var next := (s.lastIndex + 1) % md.numNodes;
    Step(Outcome(0, next), State(next))
  }

  /** Every snapshot is of the same cluster of `n` nodes; only the free
      counts may differ between calls. */
  predicate SameNodes(mds: seq<Metadata>, n: int)
  {
    forall i :: 0 <= i < |mds| ==> mds[i].numNodes == n
  }

  /** The nodes handed out by consecutive calls, one per metadata snapshot. */
  function Run(mds: seq<Metadata>, s: State): (nodes: seq<int>)
    requires |mds| > 0 ==> Valid(mds[0], s)
    requires |mds| > 0 ==> SameNodes(mds, mds[0].numNodes)
    ensures |nodes| == |mds|
    decreases |mds|
  {
    if |mds| == 0 then []
    else
      var step := Allocate(mds[0], s);
      [step.out.nodeIndex] + Run(mds[1..], step.state)
  }

  /** From cursor `last`, the k-th call (from 0) hands out node
      `(last + 1 + k) mod n`, whatever the free counts are. */
  lemma {:induction false} RunFrom(mds: seq<Metadata>, n: int, s: State)
    requires n >= 1 && SameNodes(mds, n)
    requires -1 <= s.lastIndex < n
    ensures forall k :: 0 <= k < |mds| ==> Run(mds, s)[k] == (s.lastIndex + 1 + k) % n
    decreases |mds|
  {
    if |mds| > 0 {
      var step := Allocate(mds[0], s);
      RunFrom(mds[1..], n, step.state);
      forall k | 0 <= k < |mds| ensures Run(mds, s)[k] == (s.lastIndex + 1 + k) % n {
        if k > 0 {
          assert Run(mds, s)[k] == Run(mds[1..], step.state)[k - 1];
          Modular.ModAdd(s.lastIndex + 1, k, n);
        }
      }
    }
  }

  /** After `init`, the k-th allocation (from 0) is node `k mod num_nodes`. */
  lemma KthAllocation(mds: seq<Metadata>, n: int)
    requires n >= 1 && SameNodes(mds, n)
    ensures forall k :: 0 <= k < |mds| ==> Run(mds, State(-1))[k] == k % n
  {
    RunFrom(mds, n, State(-1));
  }

  /** Two runs over clusters of the same size hand out the same nodes: the
      free counts play no part, and full nodes are chosen too. */
  lemma IgnoresFreeCounts(a: seq<Metadata>, b: seq<Metadata>, n: int)
    requires n >= 1 && SameNodes(a, n) && SameNodes(b, n) && |a| == |b|
    ensures Run(a, State(-1)) == Run(b, State(-1))
  {
    KthAllocation(a, n);
    KthAllocation(b, n);
  }
}

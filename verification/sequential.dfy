/** `sequential.c`: fill node 0, then node 1, and so on, never going back. */
module Sequential {
  import opened Cluster
  import opened Wrappers

  /** `SState`: the node currently being filled; `num_nodes` once every node
      has been passed. */
  datatype State = State(currentIndex: int)

  predicate Valid(md: Metadata, s: State)
  {
    md.Readable() && md.numNodes >= 1 && 0 <= s.currentIndex <= md.numNodes
  }

  /** `sequential_init`: fails without a node; otherwise starts at node 0. */
  function Init(md: Metadata): (r: Started<State>)
    ensures r.rc == -1 <==> md.numNodes < 1
    ensures r.rc == -1 ==> r.state == None
    ensures r.rc != -1 ==> r.rc == 0 && r.state == Some(State(0))
    ensures md.Readable() && r.rc == 0 ==> Valid(md, r.state.value)
  {
    if md.numNodes < 1 then Started(-1, None) else Started(0, Some(State(0)))
  }

  /** `sequential_allocate_block`: hands out the current node, and moves past
      it once it is down to its last free block. */
  function Allocate(md: Metadata, s: State, prev: int): (r: Step<State>)
    requires Valid(md, s)
    ensures r.out.rc == -1 <==> s.currentIndex == md.numNodes
    ensures r.out.rc == -1 ==> r.out.nodeIndex == prev && r.state == s
    ensures r.out.rc != -1 ==> r.out.rc == 0 && r.out.nodeIndex == s.currentIndex && md.IsNode(r.out.nodeIndex)
    ensures r.out.rc == 0 ==>
      r.state.currentIndex == (if md.blocksFree[s.currentIndex] < 2 then s.currentIndex + 1 else s.currentIndex)
    ensures s.currentIndex <= r.state.currentIndex <= s.currentIndex + 1
    ensures Valid(md, r.state)
  {
    if s.currentIndex == md.numNodes then
      Step(Outcome(-1, prev), s)
    else
      var next := if md.blocksFree[s.currentIndex] < 2 then s.currentIndex + 1 else s.currentIndex;
      Step(Outcome(0, s.currentIndex), State(next))
  }

  /** Every snapshot has the same `n` nodes, all readable. */
  predicate SameNodes(mds: seq<Metadata>, n: int)
  {
    forall i :: 0 <= i < |mds| ==> mds[i].numNodes == n && mds[i].Readable()
  }

  /** The return codes of consecutive calls, one per metadata snapshot. */
  function Codes(mds: seq<Metadata>, s: State, prev: int): (codes: seq<int>)
    requires |mds| > 0 ==> SameNodes(mds, mds[0].numNodes) && Valid(mds[0], s)
    ensures |codes| == |mds|
    decreases |mds|
  {
    if |mds| == 0 then []
    else
      var step := Allocate(mds[0], s, prev);
      [step.out.rc] + Codes(mds[1..], step.state, step.out.nodeIndex)
  }

  /** Once the cursor has reached `num_nodes`, every call fails. */
  lemma {:induction false} CursorNeverBacks(mds: seq<Metadata>, s: State, prev: int)
    requires |mds| > 0 && SameNodes(mds, mds[0].numNodes) && Valid(mds[0], s)
    requires s.currentIndex == mds[0].numNodes
    ensures forall k :: 0 <= k < |mds| ==> Codes(mds, s, prev)[k] == -1
    decreases |mds|
  {
    var step := Allocate(mds[0], s, prev);
    if |mds| > 1 {
      CursorNeverBacks(mds[1..], step.state, step.out.nodeIndex);
    }
  }

  /** Once a call fails, every later call fails too: the cursor never
      decreases and a failing call leaves it at `num_nodes`. */
  lemma {:induction false} FailureIsFinal(mds: seq<Metadata>, s: State, prev: int, k: nat)
    requires |mds| > 0 && SameNodes(mds, mds[0].numNodes) && Valid(mds[0], s)
    requires k < |mds| && Codes(mds, s, prev)[k] == -1
    ensures forall j :: k <= j < |mds| ==> Codes(mds, s, prev)[j] == -1
    decreases |mds|
  {
    var step := Allocate(mds[0], s, prev);
    if k == 0 {
      CursorNeverBacks(mds, s, prev);
    } else {
      assert Codes(mds, s, prev)[1..] == Codes(mds[1..], step.state, step.out.nodeIndex);
      FailureIsFinal(mds[1..], step.state, step.out.nodeIndex, k - 1);
    }
  }
}

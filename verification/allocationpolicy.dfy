/** `allocationpolicy.c`: the table of registered placement policies and the
    global `policy` pointer selecting one of them.

    The table is built from the `ALLOCPOLICIES` list of
    `allocationpolicy.h`, which registers `rand` and `roundrobin` only; the
    other policies exist as code but cannot be chosen by name. */
module AllocationPolicy {
  import opened Cluster
  import opened Wrappers
  import RandPolicy
  import RoundRobin

  /** The `name` fields of `alloc_policies`, in table order. */
  const Names: seq<string> := ["rand", "roundrobin"]
  const RandEntry: nat := 0
  const RoundRobinEntry: nat := 1

  /** The mutable part of the registry: which entry `policy` points at
      (`None` for NULL), and the `state` field of the round-robin entry (the
      random entry never stores one). */
  datatype Registry = Registry(current: Option<nat>, rrState: Option<RoundRobin.State>)

  /** What `alloc_policy_init` returns and the registry afterwards. */
  datatype InitResult = InitResult(ok: bool, registry: Registry)

  /** The first entry at or after `i` whose name equals `name` (`strcmp`). */
  function FindFrom(name: string, i: nat): (r: Option<nat>)
    requires i <= |Names|
    ensures r.Some? ==> i <= r.value < |Names| && Names[r.value] == name
    ensures r.Some? ==> forall k :: i <= k < r.value ==> Names[k] != name
    ensures r.None? <==> forall k :: i <= k < |Names| ==> Names[k] != name
    decreases |Names| - i
  {
    if i == |Names| then None
    else if Names[i] == name then Some(i)
    else FindFrom(name, i + 1)
  }

  /** `alloc_policy_init(name)`: clear `policy`, point it at the first entry
      named `name`, and report whether that entry's `init` returned 0.  The
      entry stays selected even when its `init` fails. */
  function PolicyInit(reg: Registry, name: string, md: Metadata): (r: InitResult)
    ensures name !in Names ==> !r.ok && r.registry == Registry(None, reg.rrState)
    ensures r.registry.current.Some? ==> r.registry.current.value < |Names|
    ensures name in Names ==> r.registry.current.Some? && Names[r.registry.current.value] == name
    ensures r.ok <==> name in Names && md.numNodes >= 1
    ensures name == "roundrobin" && r.ok ==> r.registry.rrState == Some(RoundRobin.State(-1))
    ensures !(name == "roundrobin" && r.ok) ==> r.registry.rrState == reg.rrState
  {
    match FindFrom(name, 0)
    case None => InitResult(false, Registry(None, reg.rrState))
    case Some(i) =>
      if i == RandEntry then
        InitResult(RandPolicy.Init(md) == 0, Registry(Some(i), reg.rrState))
      else
        var started := RoundRobin.Init(md);
        var rrState := if started.rc == 0 then started.state else reg.rrState;
        InitResult(started.rc == 0, Registry(Some(i), rrState))
  }

  /** `alloc_policy_end`: run the selected entry's `destroy` (round robin
      frees and clears its state; random has nothing to free), then clear
      `policy`. */
  function PolicyEnd(reg: Registry): (r: Registry)
    ensures r.current == None
    ensures reg.current == Some(RoundRobinEntry) ==> r.rrState == None
    ensures reg.current != Some(RoundRobinEntry) ==> r.rrState == reg.rrState
  {
    match reg.current
    case None => Registry(None, reg.rrState)
    case Some(i) =>
      if i == RoundRobinEntry then Registry(None, None) else Registry(None, reg.rrState)
  }

  /** Ending twice is the same as ending once. */
  lemma EndIdempotent(reg: Registry)
    ensures PolicyEnd(PolicyEnd(reg)) == PolicyEnd(reg)
  {
  }

  /** The policies the table leaves out cannot be selected. */
  lemma UnregisteredNamesFail(reg: Registry, md: Metadata)
    ensures forall name :: name in ["leastloaded", "sequential", "weightedroundrobin", "fileaware"] ==>
      !PolicyInit(reg, name, md).ok && PolicyInit(reg, name, md).registry.current == None
  {
  }

  /** Selecting round robin on a cluster and then allocating starts from
      node 0. */
  lemma RoundRobinAfterInit(reg: Registry, md: Metadata)
    requires md.numNodes >= 1
    ensures PolicyInit(reg, "roundrobin", md).ok
    ensures RoundRobin.Allocate(md, PolicyInit(reg, "roundrobin", md).registry.rrState.value).out.nodeIndex == 0
  {
    assert "roundrobin" == Names[1];
  }
}

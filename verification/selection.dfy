/** The node-selection loops the placement policies are built from: the
    argmax scan of `leastloaded.c` and `fileaware.c`, the first-fit scan of
    `rand.c`, and the random probing of `rand.c` and `fileaware.c`.

    `rand()` is not modelled; the values it would return are a sequence of
    draws handed in by the caller, of which a prefix is consumed. */
module Selection {
  import opened Cluster

  /** Node `i` is the one an argmax scan over nodes with at least `minFree`
      free blocks, using a strict `>`, ends on: it qualifies, no qualifying
      node has more free blocks, and every node before it has strictly fewer
      (so ties go to the lowest index). */
  predicate IsMostFree(md: Metadata, minFree: int, i: int)
    requires md.Readable()
  {
    && md.IsNode(i)
    && md.blocksFree[i] >= minFree
    && (forall j :: 0 <= j < md.numNodes && md.blocksFree[j] >= minFree ==> md.blocksFree[j] <= md.blocksFree[i])
    && (forall j :: 0 <= j < i ==> md.blocksFree[j] < md.blocksFree[i])
  }

  /** No node has `minFree` free blocks. */
  predicate NoneQualifies(md: Metadata, minFree: int)
    requires md.Readable()
  {
    forall j :: 0 <= j < md.numNodes ==> md.blocksFree[j] < minFree
  }

  /** The argmax rule names at most one node. */
  lemma MostFreeUnique(md: Metadata, minFree: int, i: int, k: int)
    requires md.Readable()
    requires IsMostFree(md, minFree, i) && IsMostFree(md, minFree, k)
    ensures i == k
  {
  }

  /** The scan `for i < num_nodes: skip blocks_free[i] < minFree; keep i if it
      is the first or has strictly more free blocks than the kept one`.
      Returns the kept index, or -1 when nothing qualified. */
  method MostFree(md: Metadata, minFree: int) returns (best: int)
    requires md.Readable()
    ensures best == -1 <==> NoneQualifies(md, minFree)
    ensures best != -1 ==> IsMostFree(md, minFree, best)
  {
    best := -1;
    var i := 0;
    while i < md.numNodes
      invariant 0 <= i && (i <= md.numNodes || i == 0)
      invariant best == -1 <==> forall j :: 0 <= j < i ==> md.blocksFree[j] < minFree
      invariant best != -1 ==> 0 <= best < i && md.blocksFree[best] >= minFree
      invariant best != -1 ==> forall j :: 0 <= j < i && md.blocksFree[j] >= minFree ==> md.blocksFree[j] <= md.blocksFree[best]
      invariant best != -1 ==> forall j :: 0 <= j < best ==> md.blocksFree[j] < md.blocksFree[best]
    {
      if md.blocksFree[i] < minFree {
        // skipped
      } else if best == -1 || md.blocksFree[i] > md.blocksFree[best] {
        best := i;
      }
      i := i + 1;
    }
  }

  /** The fallback scan of `rand.c`: the lowest node with a free block, or -1. */
  method FirstWithFree(md: Metadata) returns (first: int)
    requires md.Readable()
    ensures first == -1 <==> NoneQualifies(md, 1)
    ensures first != -1 ==> md.IsNode(first) && md.blocksFree[first] > 0
    ensures first != -1 ==> forall j :: 0 <= j < first ==> md.blocksFree[j] <= 0
  {
    var idx := 0;
    while idx < md.numNodes
      invariant 0 <= idx && (idx <= md.numNodes || idx == 0)
      invariant forall j :: 0 <= j < idx ==> md.blocksFree[j] <= 0
    {
      if 0 < md.blocksFree[idx] {
        return idx;
      }
      idx := idx + 1;
    }
    return -1;
  }

  /** Draw `d` (a value of `rand()`) lands on a node with a free block. */
  predicate Hits(md: Metadata, d: nat)
    requires md.Readable() && md.numNodes >= 1
  {
    md.blocksFree[d % md.numNodes] > 0
  }

  /** The random probing loop: up to `attempts` draws, each taken modulo
      `num_nodes`, stopping at the first node with a free block.  Returns the
      node hit (or -1) and how many draws were consumed. */
  method Probe(md: Metadata, draws: seq<nat>, attempts: int) returns (hit: int, used: nat)
    requires md.Readable() && md.numNodes >= 1
    requires attempts <= |draws|
    ensures used <= |draws| && (used <= attempts || used == 0)
    ensures forall k :: 0 <= k < used && hit == -1 ==> !Hits(md, draws[k])
    ensures hit == -1 ==> used == (if attempts < 0 then 0 else attempts)
    ensures hit != -1 ==> 1 <= used && hit == draws[used - 1] % md.numNodes && Hits(md, draws[used - 1])
    ensures hit != -1 ==> forall k :: 0 <= k < used - 1 ==> !Hits(md, draws[k])
  {
    var attempt := 0;
    while attempt < attempts
      invariant 0 <= attempt && (attempt <= attempts || attempt == 0)
      invariant forall k :: 0 <= k < attempt ==> !Hits(md, draws[k])
    {
      var idx := draws[attempt] % md.numNodes;
      if 0 < md.blocksFree[idx] {
        return idx, attempt + 1;
      }
      attempt := attempt + 1;
    }
    return -1, attempt;
  }
}

/** The older, simpler graph of src/graph.cpp: the constructor sorts the
    caller's list but adds no reversed copies, and `getEdge` guards its
    second argument with a shift where a comparison was meant. */
module LegacyGraph {
  import opened Wrappers
  import W = Graph

  /** `2^n`. */
  function Pow2(n: nat): (r: nat)
    ensures r >= 1
  {
    if n == 0 then 1 else 2 * Pow2(n - 1)
  }

  /** Unsigned `j >> n`: n halvings, which drop the low n bits. For a shift
      count of 32 or more C++ leaves the result undefined; the model keeps
      halving, which gives 0 for every 32-bit `j`. */
  function ShiftRight(j: nat, n: nat): nat
  {
    if n == 0 then j else ShiftRight(j / 2, n - 1)
  }

  /** `j >> n` is zero exactly when j is below `2^n`. */
  lemma {:induction false} ShiftRightZero(j: nat, n: nat)
    ensures ShiftRight(j, n) == 0 <==> j < Pow2(n)
  {
    if n > 0 {
      ShiftRightZero(j / 2, n - 1);
    }
  }

  /** For n >= 2 the number n + 1 lies strictly between n and 2^n. */
  lemma {:induction false} Pow2Exceeds(n: nat)
    requires n >= 2
    ensures n + 1 < Pow2(n)
  {
    if n > 2 {
      Pow2Exceeds(n - 1);
    }
  }

  class Graph {
    var edges: seq<map<nat, nat>>
    var nodeCount: nat

    ghost predicate Valid()
      reads this
    {
      |edges| == nodeCount + 1
    }

    /** `Graph(input, nodes)`: sorts the caller's list by first column in
        place and builds one map per node 0..nodes from the triples whose
        first column is that node; no reversed copies are added. */
    constructor (input: W.EdgeList, nodes: nat)
      modifies input
      ensures Valid() && nodeCount == nodes
      ensures input.items == W.SortByFirst(old(input.items))
      ensures forall i :: 0 <= i <= nodes ==> edges[i] == W.FirstWeights(input.items, i)
    {
      W.SortInput(input);
      var es := W.BuildEdges(input.items, nodes);
      edges := es;
      nodeCount := nodes;
    }

    /** `getEdge` as written: the guard tests `j >> nodeCount`, so it throws
        for j at or above `2^nodeCount` instead of above nodeCount. */
    function GetEdgeAsWritten(i: nat, j: nat): (r: Result<int>)
      reads this
      requires Valid()
      ensures r.Err? <==> i > nodeCount || j >= Pow2(nodeCount)
      ensures r.Err? ==> r.error == InvalidArgument
      ensures r.Ok? ==> r.value >= -1
      ensures r.Ok? ==> (r.value >= 0 <==> W.Max(i, j) in edges[W.Min(i, j)])
      ensures r.Ok? && r.value >= 0 ==> r.value == edges[W.Min(i, j)][W.Max(i, j)]
    {
      ShiftRightZero(j, nodeCount);
      if i > nodeCount || ShiftRight(j, nodeCount) != 0 then Err(InvalidArgument)
      else if i < j then Ok(W.Lookup(edges[i], j))
      else Ok(W.Lookup(edges[j], i))
    }

    /** `getEdge` with the guard evidently intended, `j > nodeCount`. */
    function GetEdge(i: nat, j: nat): (r: Result<int>)
      reads this
      requires Valid()
      ensures r.Err? <==> i > nodeCount || j > nodeCount
      ensures r.Err? ==> r.error == InvalidArgument
      ensures r.Ok? ==> r.value >= -1
      ensures r.Ok? ==> (r.value >= 0 <==> W.Max(i, j) in edges[W.Min(i, j)])
      ensures r.Ok? && r.value >= 0 ==> r.value == edges[W.Min(i, j)][W.Max(i, j)]
    {
      if i > nodeCount || j > nodeCount then Err(InvalidArgument)
      else if i < j then Ok(W.Lookup(edges[i], j))
      else Ok(W.Lookup(edges[j], i))
    }

    /** Both guards agree on every in-range pair and for nodeCount <= 1. */
    lemma GuardsAgreeInRange(i: nat, j: nat)
      requires Valid() && (j <= nodeCount || nodeCount <= 1)
      ensures GetEdgeAsWritten(i, j) == GetEdge(i, j)
    {
      if nodeCount == 1 {
        assert Pow2(1) == 2;
      }
      Pow2AtLeast(nodeCount);
    }

    /** The discrepancy: with nodeCount >= 2, the node nodeCount + 1 passes
        the shift guard, so the function answers instead of throwing. */
    lemma ShiftGuardLetsThrough(i: nat)
      requires Valid() && nodeCount >= 2 && i <= nodeCount
      ensures GetEdgeAsWritten(i, nodeCount + 1).Ok?
      ensures GetEdge(i, nodeCount + 1).Err?
    {
      Pow2Exceeds(nodeCount);
    }

    /** The lookup is symmetric, in both versions. */
    lemma GetEdgeSymmetric(i: nat, j: nat)
      requires Valid() && i <= nodeCount && j <= nodeCount
      ensures GetEdge(i, j) == GetEdge(j, i)
      ensures GetEdgeAsWritten(i, j) == GetEdgeAsWritten(j, i)
    {
      GuardsAgreeInRange(i, j);
      GuardsAgreeInRange(j, i);
    }

    /** In a graph built from `input`, only triples listed smaller node
        first are found: `getEdge(i, j)` answers an edge exactly when the
        input holds (min(i, j), max(i, j), w) for some w; a triple (a, b, w)
        with a > b is stored in a map the lookup never consults. */
    lemma GetEdgeOneDirection(input: seq<W.Triple>, i: nat, j: nat)
      requires Valid() && i <= nodeCount && j <= nodeCount
      requires forall k :: 0 <= k <= nodeCount ==> edges[k] == W.FirstWeights(W.SortByFirst(input), k)
      ensures GetEdge(i, j).Ok?
      ensures GetEdge(i, j).value >= 0 <==> exists t :: t in input && t.a == W.Min(i, j) && t.b == W.Max(i, j)
    {
      W.FirstWeightsKeys(W.SortByFirst(input), W.Min(i, j), W.Max(i, j));
      W.SortKeepsElements(input);
    }
  }

  /** `2^n` is above n. */
  lemma {:induction false} Pow2AtLeast(n: nat)
    ensures n < Pow2(n)
  {
    if n > 0 {
      Pow2AtLeast(n - 1);
    }
  }

  /** apps/testGraphInsert.cpp: the list {2,3,3}, {1,2,1} over three nodes
      queried at (1, 2), (3, 2) and (3, 1). The reversed query (3, 2) finds
      the triple stored as (2, 3); (3, 1) has no triple (1, 3). */
  method Fixture() returns (a: Result<int>, b: Result<int>, c: Result<int>)
    ensures a == Ok(1) && b == Ok(3) && c == Ok(-1)
  {
    var input := new W.EdgeList([W.Triple(2, 3, 3), W.Triple(1, 2, 1)]);
    var g := new Graph(input, 3);
    FixtureSorted();
    FixtureEdges();
    assert Pow2(3) == 8;
    a := g.GetEdgeAsWritten(1, 2);
    b := g.GetEdgeAsWritten(3, 2);
    c := g.GetEdgeAsWritten(3, 1);
  }

  lemma FixtureSorted()
    ensures W.SortByFirst([W.Triple(2, 3, 3), W.Triple(1, 2, 1)]) == [W.Triple(1, 2, 1), W.Triple(2, 3, 3)]
  {
  }

  lemma FixtureEdges()
    ensures W.FirstWeights([W.Triple(1, 2, 1), W.Triple(2, 3, 3)], 1) == map[2 := 1]
    ensures W.FirstWeights([W.Triple(1, 2, 1), W.Triple(2, 3, 3)], 2) == map[3 := 3]
  {
  }
}

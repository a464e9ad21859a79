/** The fixed edge lists of ext/galib/src/testGraphs.cpp and the
    `getGraphByType` dispatch that turns a type code into a graph. Every
    builder fills its list with a loop; each is proved equal to a list
    described position by position. */
module TestGraphs {
  import opened Wrappers
  import opened Graph
  import RandomGraph

  /** Every triple is listed smaller node first. */
  predicate ForwardEdges(s: seq<Triple>)
  {
    forall k :: 0 <= k < |s| ==> s[k].a < s[k].b
  }

  /** Every endpoint lies in 1..n. */
  predicate Within(s: seq<Triple>, n: nat)
  {
    forall k :: 0 <= k < |s| ==> 1 <= s[k].a && s[k].b <= n
  }

  /** Every weight is at least 1. */
  predicate PositiveWeights(s: seq<Triple>)
  {
    forall k :: 0 <= k < |s| ==> s[k].w >= 1
  }

  /** The positions of the triples that have x as an endpoint. */
  function Incident(s: seq<Triple>, x: nat): set<nat>
  {
    set k: nat | k < |s| && (s[k].a == x || s[k].b == x)
  }

  // ---------------------------------------------------------------------
  // simpleConnComp and exampleGraph

  /** Two components, {1, 2, 3, 4, 5} and {6, 7}, over seven nodes. */
  const SimpleList: seq<Triple> :=
    [Triple(1, 5, 3), Triple(2, 4, 1), Triple(3, 4, 5), Triple(4, 5, 5), Triple(6, 7, 5)]

  /** The nine-node example. */
  const ExampleList: seq<Triple> := [
    Triple(1, 2, 3), Triple(1, 4, 2), Triple(1, 9, 4), Triple(2, 8, 4), Triple(3, 4, 6),
    Triple(3, 6, 1), Triple(3, 8, 2), Triple(4, 5, 1), Triple(5, 9, 8), Triple(6, 7, 8)]

  /** `simpleConnComp(param)` as written: it throws unless param is 9. */
  function SimpleConnCompAsWritten(param: nat): (r: Result<seq<Triple>>)
    ensures r.Err? <==> param != 9
    ensures r.Err? ==> r.error == InvalidArgument
    ensures r.Ok? ==> r.value == SimpleList
  {
    if param != 9 then Err(InvalidArgument) else Ok(SimpleList)
  }

  /** `simpleConnComp` with the guard its message and its default argument
      state: the list spans exactly the nodes 1..7. */
  function SimpleConnComp(param: nat): (r: Result<seq<Triple>>)
    ensures r.Err? <==> param != 7
    ensures r.Err? ==> r.error == InvalidArgument
    ensures r.Ok? ==> r.value == SimpleList
  {
    if param != 7 then Err(InvalidArgument) else Ok(SimpleList)
  }

  /** The discrepancy: the value the message asks for is refused, and the
      accepted value 9 names two nodes the list never uses. */
  lemma SimpleGuardMismatch()
    ensures SimpleConnCompAsWritten(7).Err?
    ensures SimpleConnCompAsWritten(9).Ok? && Within(SimpleList, 7)
    ensures Incident(SimpleList, 8) == {} && Incident(SimpleList, 9) == {}
  {
    assert forall k :: 0 <= k < |SimpleList| ==> SimpleList[k].b <= 7;
  }

  /** The corrected builder accepts its one size, and the list it returns
      runs forward within 1..param and touches every node of 1..param. */
  lemma SimpleConnCompShape(param: nat)
    requires SimpleConnComp(param).Ok?
    ensures ForwardEdges(SimpleList) && Within(SimpleList, param) && PositiveWeights(SimpleList)
    ensures forall x :: 1 <= x <= param ==> Incident(SimpleList, x) != {}
  {
    assert 0 in Incident(SimpleList, 1) && 1 in Incident(SimpleList, 2) && 2 in Incident(SimpleList, 3);
    assert 1 in Incident(SimpleList, 4) && 0 in Incident(SimpleList, 5);
    assert 4 in Incident(SimpleList, 6) && 4 in Incident(SimpleList, 7);
  }

  /** `exampleGraph(param)`: exactly 9 is accepted. */
  function ExampleGraph(param: nat): (r: Result<seq<Triple>>)
    ensures r.Err? <==> param != 9
    ensures r.Err? ==> r.error == InvalidArgument
    ensures r.Ok? ==> |r.value| == 10 && r.value == ExampleList
  {
    if param != 9 then Err(InvalidArgument) else Ok(ExampleList)
  }

  /** The example runs forward within 1..9 and touches all nine nodes. */
  lemma ExampleGraphShape(param: nat)
    requires ExampleGraph(param).Ok?
    ensures ForwardEdges(ExampleList) && Within(ExampleList, param) && PositiveWeights(ExampleList)
    ensures forall x :: 1 <= x <= param ==> Incident(ExampleList, x) != {}
  {
    assert 0 in Incident(ExampleList, 1) && 0 in Incident(ExampleList, 2) && 4 in Incident(ExampleList, 3);
    assert 1 in Incident(ExampleList, 4) && 7 in Incident(ExampleList, 5) && 5 in Incident(ExampleList, 6);
    assert 9 in Incident(ExampleList, 7) && 3 in Incident(ExampleList, 8) && 2 in Incident(ExampleList, 9);
  }

  // ---------------------------------------------------------------------
  // ringGraphTricky and ringGraphAscending

  /** The weight of the edge (i, i + 1): 2 in the tricky ring, i + 1 in the
      ascending one. */
  function RingWeight(i: nat, ascending: bool): nat
  {
    if ascending then i + 1 else 2
  }

  /** The ring over 1..n: (1, n, 1) first, then (i, i + 1) for i = 1..n-1. */
  function RingList(n: nat, ascending: bool): (r: seq<Triple>)
    requires n >= 1
    ensures |r| == n
  {
    [Triple(1, n, 1)] + seq(n - 1, k requires 0 <= k => Triple(k + 1, k + 2, RingWeight(k + 1, ascending)))
  }

  /** The loop both ring builders share. */
  method RingEdges(n: nat, ascending: bool) returns (data: seq<Triple>)
    requires n >= 1
    ensures data == RingList(n, ascending)
  {
    data := [Triple(1, n, 1)];
    for i := 1 to n
      invariant data == [Triple(1, n, 1)] + seq(i - 1, k requires 0 <= k => Triple(k + 1, k + 2, RingWeight(k + 1, ascending)))
    {
      data := data + [Triple(i, i + 1, RingWeight(i, ascending))];
    }
  }

  /** `ringGraphTricky(param)`. */
  method RingGraphTricky(param: nat) returns (r: Result<seq<Triple>>)
    ensures r.Err? <==> param < 3
    ensures r.Err? ==> r.error == InvalidArgument
    ensures r.Ok? ==> r.value == RingList(param, false)
  {
    if param < 3 {
      return Err(InvalidArgument);
    }
    var data := RingEdges(param, false);
    return Ok(data);
  }

  /** `ringGraphAscending(param)`. */
  method RingGraphAscending(param: nat) returns (r: Result<seq<Triple>>)
    ensures r.Err? <==> param < 3
    ensures r.Err? ==> r.error == InvalidArgument
    ensures r.Ok? ==> r.value == RingList(param, true)
  {
    if param < 3 {
      return Err(InvalidArgument);
    }
    var data := RingEdges(param, true);
    return Ok(data);
  }

  /** A ring of n >= 3 nodes has n forward edges within 1..n, the closing
      edge (1, n, 1) first and (i, i + 1) at position i. */
  lemma RingShape(n: nat, ascending: bool)
    requires n >= 3
    ensures |RingList(n, ascending)| == n && RingList(n, ascending)[0] == Triple(1, n, 1)
    ensures forall i :: 1 <= i < n ==> RingList(n, ascending)[i] == Triple(i, i + 1, RingWeight(i, ascending))
    ensures ForwardEdges(RingList(n, ascending)) && Within(RingList(n, ascending), n)
    ensures PositiveWeights(RingList(n, ascending))
  {
  }

  /** Every node of a ring lies on exactly two of its edges, so the list
      is one cycle through 1..n: node 1 on the closing edge and (1, 2),
      node n on the closing edge and (n - 1, n), and every other node x on
      (x - 1, x) and (x, x + 1). */
  lemma RingDegreeTwo(n: nat, ascending: bool, x: nat)
    requires n >= 3 && 1 <= x <= n
    ensures Incident(RingList(n, ascending), x) == if x == 1 then {0, 1} else if x == n then {0, n - 1} else {x - 1, x}
  {
    var r := RingList(n, ascending);
    RingShape(n, ascending);
    var want: set<nat> := if x == 1 then {0, 1} else if x == n then {0, n - 1} else {x - 1, x};
    forall k: nat | k < |r| ensures k in Incident(r, x) <==> k in want {
      if k > 0 {
        assert r[k] == Triple(k, k + 1, RingWeight(k, ascending));
      }
    }
    forall k: nat | k in want ensures k < |r| {
    }
  }

  // ---------------------------------------------------------------------
  // kiteGraph

  /** The j-th triple of the kite: block j / 4 is the diamond on
      3i+1, 3i+2, 3i+3, 3i+4 with i = j / 4. */
  function KiteEntry(j: nat): (t: Triple)
    ensures t.a < t.b && t.b <= 3 * (j / 4) + 4 && t.a >= 3 * (j / 4) + 1
  {
    var i := j / 4;
    var m := j % 4;
    if m == 0 then Triple(3 * i + 1, 3 * i + 2, 3)
    else if m == 1 then Triple(3 * i + 1, 3 * i + 3, 1)
    else if m == 2 then Triple(3 * i + 2, 3 * i + 4, 1)
    else Triple(3 * i + 3, 3 * i + 4, 1)
  }

  /** The list of `blocks` diamonds. */
  function KiteList(blocks: nat): (r: seq<Triple>)
    ensures |r| == 4 * blocks
  {
    seq(4 * blocks, j requires 0 <= j => KiteEntry(j))
  }

  /** The loop: one diamond per i in 0..blocks-1, four triples each. */
  method KiteBlocks(blocks: nat) returns (data: seq<Triple>)
    ensures data == KiteList(blocks)
  {
    data := [];
    for i := 0 to blocks
      invariant data == KiteList(i)
    {
      var quad := [Triple(3 * i + 1, 3 * i + 2, 3), Triple(3 * i + 1, 3 * i + 3, 1),
                   Triple(3 * i + 2, 3 * i + 4, 1), Triple(3 * i + 3, 3 * i + 4, 1)];
      KiteStep(i);
      data := data + quad;
    }
  }

  lemma KiteStep(i: nat)
    ensures KiteList(i + 1) == KiteList(i) + [Triple(3 * i + 1, 3 * i + 2, 3), Triple(3 * i + 1, 3 * i + 3, 1),
                                              Triple(3 * i + 2, 3 * i + 4, 1), Triple(3 * i + 3, 3 * i + 4, 1)]
  {
    var l := KiteList(i + 1);
    assert l[4 * i] == KiteEntry(4 * i);
    assert (4 * i) / 4 == i && (4 * i + 1) / 4 == i && (4 * i + 2) / 4 == i && (4 * i + 3) / 4 == i;
    assert (4 * i) % 4 == 0 && (4 * i + 1) % 4 == 1 && (4 * i + 2) % 4 == 2 && (4 * i + 3) % 4 == 3;
  }

  /** `kiteGraph(param)` as written: the guard `param < 3 && param % 3 != 1`
      throws only for 0 and 2. */
  method KiteGraphAsWritten(param: nat) returns (r: Result<seq<Triple>>)
    ensures r.Err? <==> param == 0 || param == 2
    ensures r.Err? ==> r.error == InvalidArgument
    ensures r.Ok? ==> r.value == KiteList(param / 3)
  {
    if param < 3 && param % 3 != 1 {
      return Err(InvalidArgument);
    }
    var data := KiteBlocks(param / 3);
    return Ok(data);
  }

  /** `kiteGraph` with the guard its message states: at least 4 and of the
      form 3k + 1. */
  method KiteGraph(param: nat) returns (r: Result<seq<Triple>>)
    ensures r.Err? <==> param < 4 || param % 3 != 1
    ensures r.Err? ==> r.error == InvalidArgument
    ensures r.Ok? ==> r.value == KiteList(param / 3)
  {
    if param < 4 || param % 3 != 1 {
      return Err(InvalidArgument);
    }
    var data := KiteBlocks(param / 3);
    return Ok(data);
  }

  /** The kite of `blocks` diamonds runs forward, and its largest node is
      3 * blocks + 1, reached by the last triple. */
  lemma KiteShape(blocks: nat)
    ensures ForwardEdges(KiteList(blocks)) && PositiveWeights(KiteList(blocks))
    ensures Within(KiteList(blocks), 3 * blocks + 1)
    ensures blocks > 0 ==> KiteList(blocks)[4 * blocks - 1].b == 3 * blocks + 1
  {
    var l := KiteList(blocks);
    forall j | 0 <= j < |l| ensures 1 <= l[j].a && l[j].b <= 3 * blocks + 1 {
      assert j / 4 < blocks;
    }
    if blocks > 0 {
      assert (4 * blocks - 1) / 4 == blocks - 1 && (4 * blocks - 1) % 4 == 3;
    }
  }

  /** The discrepancy: for param a multiple of 3, the guard lets it through
      and the list reaches node param + 1, beyond the `param` nodes the
      graph is built over. The graph drops only triples whose first node
      exceeds param, so the maps of param - 1 and param keep the key
      param + 1, and `getEdge` on such a pair throws. */
  lemma KiteGuardLetsThrough(param: nat)
    requires param >= 3 && param % 3 == 0
    ensures KiteList(param / 3)[4 * (param / 3) - 1].b == param + 1
    ensures Within(KiteList(param / 3), param + 1) && !Within(KiteList(param / 3), param)
  {
    KiteShape(param / 3);
  }

  /** With the corrected guard the kite uses exactly the nodes 1..param:
      all endpoints are within it and the last triple ends at param. */
  lemma KiteGraphFits(param: nat)
    requires param >= 4 && param % 3 == 1
    ensures Within(KiteList(param / 3), param)
    ensures KiteList(param / 3)[|KiteList(param / 3)| - 1].b == param
  {
    KiteShape(param / 3);
  }

  // ---------------------------------------------------------------------
  // antiLoop

  /** The anti-loop over n = param - 1 inner nodes: (1, 2, 5n), the long
      way (2, n, n - 3), the chain (i, i + 1, 1) for 2 <= i < n, and
      (n, n + 1, 5n). */
  function AntiLoopList(param: nat): (r: seq<Triple>)
    requires param >= 4
    ensures |r| == param
  {
    var n := param - 1;
    [Triple(1, 2, 5 * n), Triple(2, n, n - 3)]
      + seq(n - 2, k requires 0 <= k => Triple(k + 2, k + 3, 1))
      + [Triple(n, n + 1, n * 5)]
  }

  /** The loop of antiLoop for a list of at least four nodes. */
  method AntiLoopEdges(param: nat) returns (data: seq<Triple>)
    requires param >= 4
    ensures data == AntiLoopList(param)
  {
    var nodes := param - 1;
    data := [Triple(1, 2, 5 * nodes), Triple(2, nodes, nodes - 3)];
    for i := 2 to nodes
      invariant data == [Triple(1, 2, 5 * nodes), Triple(2, nodes, nodes - 3)]
        + seq(i - 2, k requires 0 <= k => Triple(k + 2, k + 3, 1))
    {
      data := data + [Triple(i, i + 1, 1)];
    }
    data := data + [Triple(nodes, nodes + 1, nodes * 5)];
  }

  /** `antiLoop(param)` as written: it throws only for param < 4. */
  method AntiLoopAsWritten(param: nat) returns (r: Result<seq<Triple>>)
    ensures r.Err? <==> param < 4
    ensures r.Err? ==> r.error == InvalidArgument
    ensures r.Ok? ==> r.value == AntiLoopList(param)
  {
    if param < 4 {
      return Err(InvalidArgument);
    }
    var data := AntiLoopEdges(param);
    return Ok(data);
  }

  /** `antiLoop` with the guard that keeps every weight positive, as its
      message promises: the long way weighs param - 4. */
  method AntiLoop(param: nat) returns (r: Result<seq<Triple>>)
    ensures r.Err? <==> param < 5
    ensures r.Err? ==> r.error == InvalidArgument
    ensures r.Ok? ==> r.value == AntiLoopList(param)
  {
    if param < 5 {
      return Err(InvalidArgument);
    }
    var data := AntiLoopEdges(param);
    return Ok(data);
  }

  /** For param >= 4 the list has param triples within 1..param, all
      forward, with the entries at the documented positions. */
  lemma AntiLoopShape(param: nat)
    requires param >= 4
    ensures AntiLoopList(param)[0] == Triple(1, 2, 5 * (param - 1))
    ensures AntiLoopList(param)[1] == Triple(2, param - 1, param - 4)
    ensures forall i :: 2 <= i < param - 1 ==> AntiLoopList(param)[i] == Triple(i, i + 1, 1)
    ensures AntiLoopList(param)[param - 1] == Triple(param - 1, param, 5 * (param - 1))
    ensures Within(AntiLoopList(param), param) && ForwardEdges(AntiLoopList(param))
  {
  }

  /** With the corrected guard every weight is positive. */
  lemma AntiLoopPositive(param: nat)
    requires param >= 5
    ensures PositiveWeights(AntiLoopList(param))
  {
    AntiLoopShape(param);
  }

  /** The discrepancy: param = 4 passes the guard, yet the long way (2, 3)
      weighs 0, and the chain lists the same pair (2, 3) again. */
  lemma AntiLoopZeroWeight()
    ensures AntiLoopList(4) == [Triple(1, 2, 15), Triple(2, 3, 0), Triple(2, 3, 1), Triple(3, 4, 15)]
    ensures !PositiveWeights(AntiLoopList(4))
  {
    AntiLoopShape(4);
  }

  // ---------------------------------------------------------------------
  // getGraphByType

  /** What `getGraphByType` produced. */
  datatype Produced =
    | Made(graph: Graph)
    | Threw(error: Error)
    | Unfinished        // the recursive generator did not settle within its fuel
    | Rejection         // code 1: erdosGraphRejection, which this model leaves out

  /** The list codes 2..6 choose, or the empty list for a code outside
      0..6. */
  function ListFor(i: int, param: nat): (r: Result<seq<Triple>>)
    requires i != 0 && i != 1
    ensures r.Err? ==> r.error == InvalidArgument
    ensures r.Err? <==> (i == 2 && param != 9) || ((i == 3 || i == 4) && param < 3)
                        || (i == 5 && (param == 0 || param == 2)) || (i == 6 && param < 4)
  {
    if i == 2 then ExampleGraph(param)
    else if i == 3 then (if param < 3 then Err(InvalidArgument) else Ok(RingList(param, false)))
    else if i == 4 then (if param < 3 then Err(InvalidArgument) else Ok(RingList(param, true)))
    else if i == 5 then (if param == 0 || param == 2 then Err(InvalidArgument) else Ok(KiteList(param / 3)))
    else if i == 6 then (if param < 4 then Err(InvalidArgument) else Ok(AntiLoopList(param)))
    else Ok([])
  }

  /** Every list the dispatch builds from runs forward. It stays within
      1..param except for a kite whose param is a multiple of 3, and all its
      weights are positive except for the anti-loop over param = 4. */
  lemma ListForShape(i: int, param: nat)
    requires i != 0 && i != 1 && ListFor(i, param).Ok?
    ensures ForwardEdges(ListFor(i, param).value)
    ensures Within(ListFor(i, param).value, param) <==> !(i == 5 && param % 3 == 0)
    ensures PositiveWeights(ListFor(i, param).value) <==> !(i == 6 && param == 4)
  {
    if i == 2 {
      ExampleGraphShape(param);
    } else if i == 3 {
      RingShape(param, false);
    } else if i == 4 {
      RingShape(param, true);
    } else if i == 5 {
      KiteShape(param / 3);
      if param % 3 == 0 {
        KiteGuardLetsThrough(param);
      } else {
        assert 3 * (param / 3) + 1 <= param;
      }
    } else if i == 6 {
      AntiLoopShape(param);
      if param == 4 {
        AntiLoopZeroWeight();
      } else {
        AntiLoopPositive(param);
      }
    }
  }

  /** The `switch` of getGraphByType for codes other than 0 and 1. */
  method FixedInput(i: int, param: nat) returns (input: Result<seq<Triple>>)
    requires i != 0 && i != 1
    ensures input == ListFor(i, param)
  {
    if i == 2 {
      input := ExampleGraph(param);
    } else if i == 3 {
      input := RingGraphTricky(param);
    } else if i == 4 {
      input := RingGraphAscending(param);
    } else if i == 5 {
      input := KiteGraphAsWritten(param);
    } else if i == 6 {
      input := AntiLoopAsWritten(param);
    } else {
      input := Ok([]);
    }
  }

  /** `getGraphByType(i, param, param2, seed)`: code 0 runs the recursive
      generator (its draws passed in), whose graph, when it settles, is
      built from a list linking every two nodes; code 1 the rejection
      generator, and
      every other code builds `Graph(input, param)` from the fixed list, a
      builder's exception passing through. */
  method GetGraphByType(i: int, param: nat, below: nat -> bool, rand: nat -> nat -> nat,
                        pick: nat -> nat -> nat, fuel: nat) returns (r: Produced)
    ensures i == 1 ==> r == Rejection
    ensures i == 0 ==> r.Made? || r.Unfinished?
    ensures r.Made? ==> r.graph.Valid() && r.graph.nodeCount == param
    ensures i == 0 && r.Made? ==> exists input, comps :: RandomGraph.RoundState(input, comps, param) && |comps| <= 1 && r.graph.Built(input)
    ensures i == 0 && r.Made? ==>
      exists input :: r.graph.Built(input) && forall x, y :: 1 <= x <= param && 1 <= y <= param ==> RandomGraph.Linked(input, x, y)
    ensures i != 0 && i != 1 && ListFor(i, param).Err? ==> r == Threw(InvalidArgument)
    ensures i != 0 && i != 1 && ListFor(i, param).Ok? ==> r.Made? && r.graph.Built(ListFor(i, param).value)
  {
    if i == 0 {
      var input, comps, g := RandomGraph.ErdosGraphRecursive(param, below, rand, pick, fuel);
      r := if g.Some? then Made(g.value) else Unfinished;
      if g.Some? {
        forall x, y | 1 <= x <= param && 1 <= y <= param ensures RandomGraph.Linked(input, x, y) {
          RandomGraph.OneComponentConnected(input, comps, param, x, y);
        }
      }
    } else if i == 1 {
      r := Rejection;
    } else {
      var input := FixedInput(i, param);
      if input.Err? {
        r := Threw(input.error);
      } else {
        var list := new EdgeList(input.value);
        var g := new Graph(list, param);
        r := Made(g);
      }
    }
  }
}

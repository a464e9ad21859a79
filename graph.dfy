/** The weighted graph of ext/galib/src/graph.cpp: an undirected graph over
    the nodes 1..nodeCount, built from `{a, b, w}` triples, with a
    neighbour→weight map per node (slot 0 is an unused sentinel) and the
    path walk that is the genetic algorithm's objective. */
module Graph {
  import opened Wrappers

  /** One input line `{a, b, w}`: an edge between a and b of weight w. */
  datatype Triple = Triple(a: nat, b: nat, w: nat)

  function Flip(t: Triple): Triple { Triple(t.b, t.a, t.w) }

  function Flipped(s: seq<Triple>): (r: seq<Triple>)
    ensures |r| == |s| && forall k :: 0 <= k < |s| ==> r[k] == Flip(s[k])
  {
    seq(|s|, k requires 0 <= k < |s| => Flip(s[k]))
  }

  // ---------------------------------------------------------------------
  // Sorting by the first column (sortInput / compareIndex)

  predicate SortedByFirst(s: seq<Triple>)
  {
    forall p, q :: 0 <= p < q < |s| ==> s[p].a <= s[q].a
  }

  /** Inserts `t` in front of the first entry whose first column is at
      least `t`'s, so it goes before the entries it ties with. */
  function InsertByFirst(t: Triple, s: seq<Triple>): (r: seq<Triple>)
    requires SortedByFirst(s)
    ensures SortedByFirst(r) && |r| == |s| + 1
    ensures forall k :: 0 <= k < |r| ==> r[k].a >= t.a || (|s| > 0 && r[k].a >= s[0].a)
  {
    if s == [] || t.a <= s[0].a then [t] + s
    else
      var rest := InsertByFirst(t, s[1..]);
      [s[0]] + rest
  }

  /** `std::sort` with `compareIndex`, which compares the first column only.
      The model fixes one order among triples with equal first column: a
      stable insertion sort. */
  function SortByFirst(s: seq<Triple>): (r: seq<Triple>)
    ensures SortedByFirst(r) && |r| == |s|
  {
    if s == [] then [] else InsertByFirst(s[0], SortByFirst(s[1..]))
  }

  /** Inserting adds `t` and loses nothing. */
  lemma {:induction false} InsertPermutes(t: Triple, s: seq<Triple>)
    requires SortedByFirst(s)
    ensures multiset(InsertByFirst(t, s)) == multiset(s) + multiset{t}
  {
    if s != [] && t.a > s[0].a {
      InsertPermutes(t, s[1..]);
      assert s == [s[0]] + s[1..];
    }
  }

  /** Sorting is a permutation. */
  lemma {:induction false} SortPermutes(s: seq<Triple>)
    ensures multiset(SortByFirst(s)) == multiset(s)
  {
    if s != [] {
      var rest := SortByFirst(s[1..]);
      SortPermutes(s[1..]);
      InsertPermutes(s[0], rest);
      assert SortByFirst(s) == InsertByFirst(s[0], rest);
      assert s == [s[0]] + s[1..];
      assert multiset(s) == multiset{s[0]} + multiset(s[1..]);
    }
  }

  /** The caller's `std::vector<std::vector<unsigned int>>`, which the
      constructor receives by reference and changes. */
  class EdgeList {
    var items: seq<Triple>

    constructor (items: seq<Triple>)
      ensures this.items == items
    {
      this.items := items;
    }
  }

  method SortInput(input: EdgeList)
    modifies input
    ensures input.items == SortByFirst(old(input.items))
  {
    input.items := SortByFirst(input.items);
  }

  /** Appends the reversed copy of every triple to the caller's list, then
      sorts it: afterwards the list holds both directions of every edge. */
  method InputFix(input: EdgeList)
    modifies input
    ensures input.items == SortByFirst(old(input.items) + Flipped(old(input.items)))
  {
    var initSize := |input.items|;
    for i := 0 to initSize
      invariant input.items == old(input.items) + Flipped(old(input.items)[..i])
    {
      var t := input.items[i];
      assert Flipped(old(input.items)[..i + 1]) == Flipped(old(input.items)[..i]) + [Flip(t)];
      input.items := input.items + [Flip(t)];
    }
    assert old(input.items)[..initSize] == old(input.items);
    SortInput(input);
  }

  // ---------------------------------------------------------------------
  // The per-node maps

  /** The map the constructor builds for node `i` out of the list `s`: key j
      for every triple (i, j, w), holding the weight of the FIRST such triple,
      because `std::unordered_map::insert` leaves an existing key alone. */
  function FirstWeights(s: seq<Triple>, i: nat): map<nat, nat>
  {
    if s == [] then map[]
    else
      var m := FirstWeights(s[1..], i);
      if s[0].a == i then m[s[0].b := s[0].w] else m
  }

  /** Inserting one more triple at the end adds its key only if it is new. */
  lemma {:induction false} FirstWeightsAppend(s: seq<Triple>, t: Triple, i: nat)
    ensures FirstWeights(s + [t], i)
         == if t.a == i && t.b !in FirstWeights(s, i) then FirstWeights(s, i)[t.b := t.w]
            else FirstWeights(s, i)
  {
    if s != [] {
      assert (s + [t])[1..] == s[1..] + [t];
      FirstWeightsAppend(s[1..], t, i);
    }
  }

  /** Triples of other nodes contribute nothing. */
  lemma {:induction false} FirstWeightsOtherNode(s: seq<Triple>, i: nat)
    requires forall k :: 0 <= k < |s| ==> s[k].a != i
    ensures FirstWeights(s, i) == map[]
  {
    if s != [] {
      FirstWeightsOtherNode(s[1..], i);
    }
  }

  /** Appending triples of other nodes changes nothing. */
  lemma {:induction false} FirstWeightsOtherSuffix(x: seq<Triple>, y: seq<Triple>, i: nat)
    requires forall k :: 0 <= k < |y| ==> y[k].a != i
    ensures FirstWeights(x + y, i) == FirstWeights(x, i)
  {
    if x == [] {
      assert x + y == y;
      FirstWeightsOtherNode(y, i);
    } else {
      assert (x + y)[1..] == x[1..] + y;
      FirstWeightsOtherSuffix(x[1..], y, i);
    }
  }

  /** Node i's map has key j exactly when some triple (i, j, w) is in the list. */
  lemma {:induction false} FirstWeightsKeys(s: seq<Triple>, i: nat, j: nat)
    ensures j in FirstWeights(s, i) <==> exists t :: t in s && t.a == i && t.b == j
  {
    if s != [] {
      FirstWeightsKeys(s[1..], i, j);
      assert forall t :: t in s <==> t == s[0] || t in s[1..];
    }
  }

  /** The stored weight is that of the first triple (i, j, w) in the list. */
  lemma {:induction false} FirstWeightsFirst(s: seq<Triple>, k: nat)
    requires k < |s|
    requires forall q :: 0 <= q < k ==> !(s[q].a == s[k].a && s[q].b == s[k].b)
    ensures s[k].b in FirstWeights(s, s[k].a) && FirstWeights(s, s[k].a)[s[k].b] == s[k].w
  {
    if k > 0 {
      FirstWeightsFirst(s[1..], k - 1);
    }
  }

  /** After `inputFix`, node i's map has key j exactly when the original
      input held (i, j, w) or (j, i, w) for some w. */
  lemma FixedInputKeys(input: seq<Triple>, i: nat, j: nat)
    ensures j in FirstWeights(SortByFirst(input + Flipped(input)), i)
        <==> exists t :: t in input && ((t.a == i && t.b == j) || (t.a == j && t.b == i))
  {
    var both := input + Flipped(input);
    FirstWeightsKeys(SortByFirst(both), i, j);
    SortKeepsElements(both);
    BothDirections(input, i, j);
  }

  /** The doubled list holds a triple from i to j exactly when the input
      joins i and j in either direction. */
  lemma BothDirections(input: seq<Triple>, i: nat, j: nat)
    ensures (exists t :: t in input + Flipped(input) && t.a == i && t.b == j)
        <==> exists t :: t in input && ((t.a == i && t.b == j) || (t.a == j && t.b == i))
  {
    var both := input + Flipped(input);
    if exists t :: t in both && t.a == i && t.b == j {
      var t :| t in both && t.a == i && t.b == j;
      if t !in input {
        var k :| 0 <= k < |Flipped(input)| && Flipped(input)[k] == t;
        assert input[k] in input;
      }
    }
    if exists t :: t in input && ((t.a == i && t.b == j) || (t.a == j && t.b == i)) {
      var t :| t in input && ((t.a == i && t.b == j) || (t.a == j && t.b == i));
      var k :| 0 <= k < |input| && input[k] == t;
      if !(t.a == i && t.b == j) {
        assert Flipped(input)[k] in both;
      }
    }
  }

  /** Sorting neither adds nor drops a triple. */
  lemma SortKeepsElements(s: seq<Triple>)
    ensures forall t :: t in SortByFirst(s) <==> t in s
  {
    var r := SortByFirst(s);
    SortPermutes(s);
    forall t ensures t in r <==> t in s {
      assert t in r <==> t in multiset(r);
      assert t in s <==> t in multiset(s);
    }
  }

  /** The constructor's loop: for every node 0..nodes in turn, the run of
      the sorted list whose first column is that node goes into its map. */
  method BuildEdges(s: seq<Triple>, nodes: nat) returns (es: seq<map<nat, nat>>)
    requires SortedByFirst(s)
    ensures |es| == nodes + 1
    ensures forall i :: 0 <= i <= nodes ==> es[i] == FirstWeights(s, i)
  {
    es := [];
    var iter := 0;
    for index := 0 to nodes + 1
      invariant |es| == index && iter <= |s|
      invariant forall i :: 0 <= i < index ==> es[i] == FirstWeights(s, i)
      invariant forall k :: 0 <= k < iter ==> s[k].a < index
      invariant forall k :: iter <= k < |s| ==> s[k].a >= index
    {
      var edgeMap;
      edgeMap, iter := CollectRun(s, iter, index);
      es := es + [edgeMap];
    }
  }

  /** The inner `while`: consumes the triples of node `index` starting at
      `iter` and returns that node's map and the new cursor. */
  method CollectRun(s: seq<Triple>, start: nat, index: nat) returns (edgeMap: map<nat, nat>, iter: nat)
    requires SortedByFirst(s) && start <= |s|
    requires forall k :: 0 <= k < start ==> s[k].a < index
    requires forall k :: start <= k < |s| ==> s[k].a >= index
    ensures start <= iter <= |s|
    ensures edgeMap == FirstWeights(s, index)
    ensures forall k :: 0 <= k < iter ==> s[k].a < index + 1
    ensures forall k :: iter <= k < |s| ==> s[k].a >= index + 1
  {
    edgeMap := map[];
    iter := start;
    FirstWeightsOtherNode(s[..iter], index);
    while iter < |s| && s[iter].a == index
      invariant start <= iter <= |s|
      invariant edgeMap == FirstWeights(s[..iter], index)
      invariant forall k :: 0 <= k < iter ==> s[k].a <= index
    {
      assert s[..iter + 1] == s[..iter] + [s[iter]];
      FirstWeightsAppend(s[..iter], s[iter], index);
      if s[iter].b !in edgeMap {
        edgeMap := edgeMap[s[iter].b := s[iter].w];
      }
      iter := iter + 1;
    }
    assert forall k :: iter <= k < |s| ==> s[k].a > index by {
      forall k | iter <= k < |s| ensures s[k].a > index {
        assert s[iter].a <= s[k].a;
      }
    }
    assert s == s[..iter] + s[iter..];
    FirstWeightsOtherSuffix(s[..iter], s[iter..], index);
  }

  function Lookup(m: map<nat, nat>, key: nat): (r: int)
    ensures r >= -1
    ensures r >= 0 <==> key in m
  {
    if key in m then m[key] else -1
  }

  function Min(i: nat, j: nat): nat { if i < j then i else j }
  function Max(i: nat, j: nat): nat { if i < j then j else i }

  ghost predicate AllOnes(edges: seq<map<nat, nat>>)
  {
    forall i, j :: 0 <= i < |edges| && j in edges[i] ==> edges[i][j] == 1
  }

  class Graph {
    var edges: seq<map<nat, nat>>
    var nodeCount: nat

    ghost predicate Valid()
      reads this
    {
      |edges| == nodeCount + 1
    }

    /** `Graph(input, nodes)`: fixes the caller's list (both directions,
        sorted) and builds one map per node 0..nodes out of it. Triples whose
        first column exceeds `nodes` are never reached and so dropped. */
    constructor (input: EdgeList, nodes: nat)
      modifies input
      ensures Valid() && nodeCount == nodes
      ensures input.items == SortByFirst(old(input.items) + Flipped(old(input.items)))
      ensures forall i :: 0 <= i <= nodes ==> edges[i] == FirstWeights(input.items, i)
      ensures Built(old(input.items))
    {
      InputFix(input);
      var es := BuildEdges(input.items, nodes);
      edges := es;
      nodeCount := nodes;
    }

    /** The maps are those the constructor builds from `input`. */
    ghost predicate Built(input: seq<Triple>)
      reads this
      requires Valid()
    {
      forall k :: 0 <= k <= nodeCount ==> edges[k] == FirstWeights(SortByFirst(input + Flipped(input)), k)
    }

    /** `getEdge` is symmetric: both orders consult the map of the smaller index. */
    lemma GetEdgeSymmetric(i: nat, j: nat)
      requires Valid()
      ensures GetEdge(i, j) == GetEdge(j, i)
    {
    }

    /** In a graph built from `input`, `getEdge(i, j)` finds an edge exactly
        when the input joins i and j, in either direction. */
    lemma GetEdgeOfInput(input: seq<Triple>, i: nat, j: nat)
      requires Valid() && Built(input) && i <= nodeCount && j <= nodeCount
      ensures GetEdge(i, j).Ok?
      ensures GetEdge(i, j).value >= 0
        <==> exists t :: t in input && ((t.a == i && t.b == j) || (t.a == j && t.b == i))
    {
      FixedInputKeys(input, Min(i, j), Max(i, j));
    }

    /** The weight `getEdge` reports is that of the first triple for the pair
        in the fixed, sorted list: `insert` keeps the first value of a key. */
    lemma GetEdgeFirstWeight(input: seq<Triple>, k: nat)
      requires Valid() && Built(input)
      requires var s := SortByFirst(input + Flipped(input));
        k < |s| && s[k].a < s[k].b <= nodeCount
        && forall q :: 0 <= q < k ==> !(s[q].a == s[k].a && s[q].b == s[k].b)
      ensures var s := SortByFirst(input + Flipped(input));
        GetEdge(s[k].a, s[k].b) == Ok(s[k].w)
    {
      FirstWeightsFirst(SortByFirst(input + Flipped(input)), k);
    }

    /** Sets every stored weight to 1 and keeps every key. */
    method Oneify()
      requires Valid()
      modifies this
      ensures Valid() && nodeCount == old(nodeCount)
      ensures forall i :: 0 <= i < |edges| ==> edges[i].Keys == old(edges[i]).Keys
      ensures AllOnes(edges)
    {
      var k := 0;
      while k < |edges|
        invariant 0 <= k <= |edges| && Valid() && nodeCount == old(nodeCount)
        invariant forall i :: 0 <= i < |edges| ==> edges[i].Keys == old(edges[i]).Keys
        invariant forall i, j :: 0 <= i < k && j in edges[i] ==> edges[i][j] == 1
      {
        edges := edges[k := map j | j in edges[k] :: 1];
        k := k + 1;
      }
    }

    /** The weight of the edge between i and j, or -1 when there is none;
        either order asks the map of the smaller index. */
    function GetEdge(i: nat, j: nat): (r: Result<int>)
      reads this
      requires Valid()
      ensures r.Err? <==> i > nodeCount || j > nodeCount
      ensures r.Err? ==> r.error == InvalidArgument
      ensures r.Ok? ==> r.value >= -1
      ensures r.Ok? ==> (r.value >= 0 <==> Max(i, j) in edges[Min(i, j)])
      ensures r.Ok? && r.value >= 0 ==> r.value == edges[Min(i, j)][Max(i, j)]
    {
      if i > nodeCount || j > nodeCount then Err(InvalidArgument)
      else if i < j then Ok(Lookup(edges[i], j))
      else Ok(Lookup(edges[j], i))
    }

    /** The neighbour→weight map of node i; for every neighbour above i it
        holds exactly what `getEdge` answers. */
    function GetNodeEdgeSet(i: nat): (r: map<nat, nat>)
      reads this
      requires Valid() && i <= nodeCount
      ensures forall j :: i < j <= nodeCount ==> (j in r <==> GetEdge(i, j).value >= 0)
      ensures forall j :: j in r && i < j <= nodeCount ==> GetEdge(i, j) == Ok(r[j])
    {
      edges[i]
    }

    /** One neighbour of node i, drawn by `std::sample`; the model makes an
        arbitrary choice. The map must not be empty. */
    method GetRandomEdge(i: nat) returns (j: nat)
      requires Valid() && i <= nodeCount && |edges[i]| > 0
      ensures j in edges[i]
    {
      var keys := edges[i].Keys;
      assert |keys| > 0;
      j :| j in keys;
    }

    /** The weight of the hop i→j, -1 when it is no edge or out of range. */
    function Weight(i: nat, j: nat): (r: int)
      reads this
      requires Valid()
      ensures r >= 0 ==> i <= nodeCount && j <= nodeCount
    {
      var e := GetEdge(i, j);
      if e.Ok? then e.value else -1
    }

    /** `b` is where the walk goes from `a`: the preference of `a`, joined
        to it by an edge. */
    predicate Hop(prefs: seq<nat>, a: nat, b: nat)
      reads this
      requires Valid()
    {
      a < |prefs| && b == prefs[a] && Weight(a, b) >= 0
    }

    /** `ns` is the sequence of nodes the walk from `prefs[0]` visits: every
        next node is the preference of the one before, joined to it by an
        edge, and no node repeats. */
    ghost predicate IsWalk(prefs: seq<nat>, ns: seq<nat>)
      reads this
      requires Valid()
    {
      && |ns| >= 1 && 0 < |prefs| && nodeCount < |prefs|
      && ns[0] == prefs[0] < |prefs|
      && (forall k :: 0 <= k < |ns| - 1 ==> Hop(prefs, ns[k], ns[k + 1]))
      && (forall p, q :: 0 <= p < q < |ns| ==> ns[p] != ns[q])
    }

    /** Every node of a walk indexes `prefs`; past the first, every node is in range. */
    lemma WalkInRange(prefs: seq<nat>, ns: seq<nat>)
      requires Valid() && IsWalk(prefs, ns)
      ensures forall k :: 0 <= k < |ns| ==> ns[k] < |prefs|
      ensures |ns| >= 2 ==> forall k :: 0 <= k < |ns| ==> ns[k] <= nodeCount
    {
      forall k | 0 < k < |ns| ensures ns[k] <= nodeCount {
        assert Hop(prefs, ns[k - 1], ns[k]);
      }
      if |ns| >= 2 {
        assert Hop(prefs, ns[0], ns[1]);
      }
    }

    /** The walk stops normally at its last node c: the preferred hop from c
        is no edge, or leads back into the walk. */
    ghost predicate Halts(prefs: seq<nat>, ns: seq<nat>)
      reads this
      requires Valid() && IsWalk(prefs, ns)
    {
      WalkInRange(prefs, ns);
      var c := ns[|ns| - 1];
      c <= nodeCount && prefs[c] <= nodeCount && (Weight(c, prefs[c]) < 0 || prefs[c] in ns)
    }

    /** The walk stops with `getEdge` throwing: its last node or that node's
        preference lies beyond nodeCount. */
    ghost predicate Throws(prefs: seq<nat>, ns: seq<nat>)
      reads this
      requires Valid() && IsWalk(prefs, ns)
    {
      WalkInRange(prefs, ns);
      var c := ns[|ns| - 1];
      c > nodeCount || prefs[c] > nodeCount
    }

    /** The total weight of the hops of a node sequence. */
    ghost function WalkWeight(ns: seq<nat>): int
      reads this
      requires Valid()
    {
      if |ns| < 2 then 0
      else WalkWeight(ns[..|ns| - 1]) + Weight(ns[|ns| - 2], ns[|ns| - 1])
    }

    /** One more hop along an edge to an unvisited node extends a walk. */
    lemma WalkStep(prefs: seq<nat>, ns: seq<nat>, next: nat)
      requires Valid() && IsWalk(prefs, ns)
      requires ns[|ns| - 1] < |prefs| && next == prefs[ns[|ns| - 1]]
      requires Weight(ns[|ns| - 1], next) >= 0 && next !in ns
      ensures IsWalk(prefs, ns + [next])
      ensures WalkWeight(ns + [next]) == WalkWeight(ns) + Weight(ns[|ns| - 1], next)
      ensures (ns + [next])[..|ns|] == ns
      ensures |ns| + 1 <= nodeCount + 1
    {
      var ms := ns + [next];
      assert ms[..|ms| - 1] == ns;
      forall k | 0 <= k < |ms| - 1
        ensures Hop(prefs, ms[k], ms[k + 1])
      {
        if k < |ns| - 1 {
          assert ms[k] == ns[k] && ms[k + 1] == ns[k + 1];
        } else {
          assert ms[k] == ns[|ns| - 1] && ms[k + 1] == next;
        }
      }
      forall p, q | 0 <= p < q < |ms| ensures ms[p] != ms[q] {
        assert ms[p] == ns[p];
        if q < |ns| {
          assert ms[q] == ns[q];
        } else {
          assert ms[q] == next;
        }
      }
      assert IsWalk(prefs, ms);
      WalkInRange(prefs, ms);
      DistinctBound(ms, nodeCount);
    }

    /** `computePath`: `[totalWeight, n1, n2, ...]` for the walk that starts
        at `prefs[0]` and follows `prefs` while there is an edge to an
        unvisited node. The ghost `walk` is the node sequence visited, also
        when `getEdge` throws. */
    method ComputePath(prefs: seq<nat>) returns (r: Result<seq<nat>>, ghost walk: seq<nat>)
      requires Valid() && nodeCount < |prefs| && prefs[0] < |prefs|
      ensures IsWalk(prefs, walk)
      ensures r.Ok? ==> |r.value| == |walk| + 1 && r.value[1..] == walk
      ensures r.Ok? ==> Halts(prefs, walk) && r.value[0] == WalkWeight(walk)
      ensures r.Ok? ==> |walk| <= nodeCount + 1
      ensures r.Err? ==> r.error == InvalidArgument && Throws(prefs, walk)
    {
      var visited: set<nat> := {};
      var current := prefs[0];
      var path: seq<nat> := [0];
      walk := [current];
      while true
        invariant IsWalk(prefs, walk) && walk[|walk| - 1] == current
        invariant |path| == |walk| && path[0] == WalkWeight(walk)
        invariant path[1..] == walk[..|walk| - 1]
        invariant forall x :: x in visited <==> x in walk[..|walk| - 1]
        invariant |walk| <= nodeCount + 1
        decreases nodeCount + 1 - |walk|
      {
        Visit(walk, visited, path);
        visited := visited + {current};
        path := path + [current];
        WalkInRange(prefs, walk);
        var next := prefs[current];
        var w := GetEdge(current, next);
        if w.Err? {
          StopThrows(prefs, walk);
          return Err(InvalidArgument), walk;
        }
        if w.value >= 0 && next !in visited {
          WalkStep(prefs, walk, next);
          path := path[0 := path[0] + w.value];
          walk := walk + [next];
          current := next;
        } else {
          StopHalts(prefs, walk, visited + {current});
          return Ok(path), walk;
        }
      }
    }

    /** A prefix of a walk is a walk. */
    lemma WalkPrefix(prefs: seq<nat>, ns: seq<nat>, m: nat)
      requires Valid() && IsWalk(prefs, ns) && 1 <= m <= |ns|
      ensures IsWalk(prefs, ns[..m])
    {
      forall k | 0 <= k < m - 1 ensures Hop(prefs, ns[..m][k], ns[..m][k + 1]) {
        assert Hop(prefs, ns[k], ns[k + 1]);
      }
    }

    /** Walks from the same preferences agree on their common length. */
    lemma {:induction false} WalksAgree(prefs: seq<nat>, a: seq<nat>, b: seq<nat>)
      requires Valid() && IsWalk(prefs, a) && IsWalk(prefs, b) && |a| <= |b|
      ensures a == b[..|a|]
    {
      if |a| > 1 {
        var m := |a| - 1;
        WalkPrefix(prefs, a, m);
        WalksAgree(prefs, a[..m], b);
        assert a[m - 1] == b[m - 1];
        assert Hop(prefs, a[m - 1], a[m]) && Hop(prefs, b[m - 1], b[m]);
        assert a == a[..m] + [a[m]];
      }
    }

    /** The walk `computePath` reports is determined by the preferences: two
        walks that both end, normally or by a throw, are the same walk. */
    lemma WalkUnique(prefs: seq<nat>, a: seq<nat>, b: seq<nat>)
      requires Valid() && IsWalk(prefs, a) && IsWalk(prefs, b)
      requires Halts(prefs, a) || Throws(prefs, a)
      requires Halts(prefs, b) || Throws(prefs, b)
      ensures a == b
    {
      if |a| < |b| {
        CannotExtend(prefs, a, b);
        assert false;
      } else if |b| < |a| {
        CannotExtend(prefs, b, a);
        assert false;
      } else {
        WalksAgree(prefs, a, b);
      }
    }

    /** A proper prefix of a walk has not ended: its last hop is an edge
        in range and leads to an unvisited node. */
    lemma CannotExtend(prefs: seq<nat>, a: seq<nat>, b: seq<nat>)
      requires Valid() && IsWalk(prefs, a) && IsWalk(prefs, b) && |a| < |b|
      ensures !Halts(prefs, a) && !Throws(prefs, a)
    {
      WalksAgree(prefs, a, b);
      var m := |a|;
      assert a[m - 1] == b[m - 1];
      assert Hop(prefs, b[m - 1], b[m]);
      assert b[m] !in b[..m] by {
        forall p | 0 <= p < m ensures b[p] != b[m] {
        }
      }
    }

    /** After `oneify` every hop weighs 1, so a walk's weight is its number of hops. */
    lemma {:induction false} OneifiedWalkWeight(ns: seq<nat>)
      requires Valid() && AllOnes(edges) && |ns| >= 1
      requires forall k :: 0 <= k < |ns| - 1 ==> Weight(ns[k], ns[k + 1]) >= 0
      ensures WalkWeight(ns) == |ns| - 1
    {
      if |ns| >= 2 {
        var m := |ns| - 1;
        OneifiedWalkWeight(ns[..m]);
        assert Weight(ns[m - 1], ns[m]) >= 0;
      }
    }

    /** On the triangle graph the walk for [1, 2, 3, 1] is 1, 2, 3, of weight 4. */
    lemma TriangleWalk(prefs: seq<nat>, walk: seq<nat>)
      requires Valid() && nodeCount == 3
      requires edges[1] == map[2 := 1, 3 := 5] && edges[2] == map[3 := 3, 1 := 1]
      requires prefs == [1, 2, 3, 1] && IsWalk(prefs, walk)
      requires Halts(prefs, walk) || Throws(prefs, walk)
      ensures walk == [1, 2, 3] && Halts(prefs, walk) && WalkWeight(walk) == 4
    {
      var expected := [1, 2, 3];
      assert Hop(prefs, 1, 2) && Hop(prefs, 2, 3);
      assert IsWalk(prefs, expected);
      assert Halts(prefs, expected);
      WalkUnique(prefs, walk, expected);
      assert Weight(1, 2) == 1 && Weight(2, 3) == 3;
      assert expected[..2] == [1, 2] && [1, 2][..1] == [1];
      assert WalkWeight([1, 2]) == 1;
    }

    /** The walk ends normally where `getEdge` answers but the preferred
        hop is no edge or leads to a visited node. */
    lemma StopHalts(prefs: seq<nat>, walk: seq<nat>, visited: set<nat>)
      requires Valid() && IsWalk(prefs, walk) && walk[|walk| - 1] < |prefs|
      requires forall x :: x in visited <==> x in walk
      requires var c := walk[|walk| - 1]; var e := GetEdge(c, prefs[c]);
        e.Ok? && !(e.value >= 0 && prefs[c] !in visited)
      ensures Halts(prefs, walk)
    {
    }

    /** The walk ends with an exception where `getEdge` throws. */
    lemma StopThrows(prefs: seq<nat>, walk: seq<nat>)
      requires Valid() && IsWalk(prefs, walk) && walk[|walk| - 1] < |prefs|
      requires var c := walk[|walk| - 1]; GetEdge(c, prefs[c]).Err?
      ensures Throws(prefs, walk)
    {
    }

    /** What marking the current node visited and appending it to the path
        does to the loop's view of the walk. */
    lemma Visit(walk: seq<nat>, visited: set<nat>, path: seq<nat>)
      requires |walk| >= 1 && |path| == |walk|
      requires path[1..] == walk[..|walk| - 1]
      requires forall x :: x in visited <==> x in walk[..|walk| - 1]
      ensures (path + [walk[|walk| - 1]])[1..] == walk
      ensures forall x :: x in visited + {walk[|walk| - 1]} <==> x in walk
    {
      assert walk == walk[..|walk| - 1] + [walk[|walk| - 1]];
    }
  }

  /** The triangle {2,3,3}, {1,2,1}, {1,3,5} on three nodes, walked with the
      preferences [1, 2, 3, 1]: 1 → 2 (weight 1) → 3 (weight 3), then the
      preferred hop back to 1 is refused, so the path is [4, 1, 2, 3]. */
  method TriangleExample() returns (r: Result<seq<nat>>)
    ensures r == Ok([4, 1, 2, 3])
  {
    var g := TriangleGraph();
    var prefs := [1, 2, 3, 1];
    ghost var walk;
    r, walk := g.ComputePath(prefs);
    g.TriangleWalk(prefs, walk);
    assert r.Ok? && r.value[0] == 4 && r.value[1..] == [1, 2, 3];
    assert r.value == [r.value[0]] + r.value[1..] == [4, 1, 2, 3];
  }

  /** `Graph(simpleTriangle(), 3)`. */
  method TriangleGraph() returns (g: Graph)
    ensures g.Valid() && g.nodeCount == 3
    ensures g.edges[1] == map[2 := 1, 3 := 5] && g.edges[2] == map[3 := 3, 1 := 1]
  {
    var input := new EdgeList([Triple(2, 3, 3), Triple(1, 2, 1), Triple(1, 3, 5)]);
    g := new Graph(input, 3);
    ghost var orig := [Triple(2, 3, 3), Triple(1, 2, 1), Triple(1, 3, 5)];
    assert Flipped(orig) == [Triple(3, 2, 3), Triple(2, 1, 1), Triple(3, 1, 5)];
    assert orig + Flipped(orig) == [Triple(2, 3, 3), Triple(1, 2, 1), Triple(1, 3, 5), Triple(3, 2, 3), Triple(2, 1, 1), Triple(3, 1, 5)];
    TriangleSorted0();
    TriangleEdges();
  }

  /** The maps the constructor builds for the triangle's nodes 1 and 2. */
  lemma TriangleEdges()
    ensures FirstWeights([Triple(1, 2, 1), Triple(1, 3, 5), Triple(2, 3, 3), Triple(2, 1, 1), Triple(3, 2, 3), Triple(3, 1, 5)], 1)
      == map[2 := 1, 3 := 5]
    ensures FirstWeights([Triple(1, 2, 1), Triple(1, 3, 5), Triple(2, 3, 3), Triple(2, 1, 1), Triple(3, 2, 3), Triple(3, 1, 5)], 2)
      == map[3 := 3, 1 := 1]
  {
  }

  /** The stable order of the doubled triangle list, one insertion at a
      time: TriangleSortedK sorts the suffix from position K. */
  lemma TriangleSorted5()
    ensures SortByFirst([Triple(3, 1, 5)])
      == [Triple(3, 1, 5)]
  {
  }

  lemma TriangleSorted4()
    ensures SortByFirst([Triple(2, 1, 1), Triple(3, 1, 5)])
      == [Triple(2, 1, 1), Triple(3, 1, 5)]
  {
    TriangleSorted5();
  }

  lemma TriangleSorted3()
    ensures SortByFirst([Triple(3, 2, 3), Triple(2, 1, 1), Triple(3, 1, 5)])
      == [Triple(2, 1, 1), Triple(3, 2, 3), Triple(3, 1, 5)]
  {
    TriangleSorted4();
  }

  lemma TriangleSorted2()
    ensures SortByFirst([Triple(1, 3, 5), Triple(3, 2, 3), Triple(2, 1, 1), Triple(3, 1, 5)])
      == [Triple(1, 3, 5), Triple(2, 1, 1), Triple(3, 2, 3), Triple(3, 1, 5)]
  {
    TriangleSorted3();
  }

  lemma TriangleSorted1()
    ensures SortByFirst([Triple(1, 2, 1), Triple(1, 3, 5), Triple(3, 2, 3), Triple(2, 1, 1), Triple(3, 1, 5)])
      == [Triple(1, 2, 1), Triple(1, 3, 5), Triple(2, 1, 1), Triple(3, 2, 3), Triple(3, 1, 5)]
  {
    TriangleSorted2();
  }

  lemma TriangleSorted0()
    ensures SortByFirst([Triple(2, 3, 3), Triple(1, 2, 1), Triple(1, 3, 5), Triple(3, 2, 3), Triple(2, 1, 1), Triple(3, 1, 5)])
      == [Triple(1, 2, 1), Triple(1, 3, 5), Triple(2, 3, 3), Triple(2, 1, 1), Triple(3, 2, 3), Triple(3, 1, 5)]
  {
    TriangleSorted1();
  }

  /** `{0, 1, ..., n}`. */
  function Upto(n: nat): (r: set<nat>)
    ensures forall x: nat :: x in r <==> x <= n
    ensures |r| == n + 1
  {
    if n == 0 then {0} else Upto(n - 1) + {n}
  }

  /** A repetition-free sequence of nodes 0..n has at most n + 1 entries. */
  lemma DistinctBound(s: seq<nat>, n: nat)
    requires forall k :: 0 <= k < |s| ==> s[k] <= n
    requires forall p, q :: 0 <= p < q < |s| ==> s[p] != s[q]
    ensures |s| <= n + 1
  {
    var elems := set k | 0 <= k < |s| :: s[k];
    DistinctCard(s);
    assert elems <= Upto(n);
    SubsetCard(elems, Upto(n));
  }

  lemma SubsetCard(a: set<nat>, b: set<nat>)
    requires a <= b
    ensures |a| <= |b|
  {
    assert b == a + (b - a);
  }

  lemma {:induction false} DistinctCard(s: seq<nat>)
    requires forall p, q :: 0 <= p < q < |s| ==> s[p] != s[q]
    ensures |set k | 0 <= k < |s| :: s[k]| == |s|
  {
    if s != [] {
      var t := s[..|s| - 1];
      DistinctCard(t);
      var st := set k | 0 <= k < |t| :: t[k];
      assert (set k | 0 <= k < |s| :: s[k]) == st + {s[|s| - 1]};
      assert s[|s| - 1] !in st;
    }
  }
}

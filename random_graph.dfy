/** The random-graph side of ext/galib/src/randomGraph.cpp: the one-pass
    connected-components finder, the Erdős–Rényi edge-list generator with
    its random draws passed in, and the edge-splicing loop of the recursive
    generator. */
module RandomGraph {
  import opened Wrappers
  import opened Graph

  /** A connected component as the finder builds it: its nodes in the order
      they were added. */
  type Component = seq<nat>

  // ---------------------------------------------------------------------
  // listContains and the component search

  /** `listContains(haystack, needle)`, `std::find` over the vector. */
  function ListContains(h: seq<nat>, n: nat): (r: bool)
    ensures r <==> n in h
  {
    if |h| == 0 then false else h[0] == n || ListContains(h[1..], n)
  }

  /** The index of the first component holding x, or |out| when none does. */
  function CompIndex(out: seq<Component>, x: nat): (k: nat)
    ensures k <= |out|
    ensures k < |out| ==> x in out[k]
    ensures forall m :: 0 <= m < k ==> x !in out[m]
  {
    if |out| == 0 then 0
    else if x in out[0] then 0
    else 1 + CompIndex(out[1..], x)
  }

  /** Only the first holder satisfies the three properties of `CompIndex`. */
  lemma {:induction false} CompIndexUnique(out: seq<Component>, x: nat, k: nat)
    requires k <= |out| && (k < |out| ==> x in out[k])
    requires forall m :: 0 <= m < k ==> x !in out[m]
    ensures CompIndex(out, x) == k
  {
    if |out| > 0 && k > 0 {
      CompIndexUnique(out[1..], x, k - 1);
    }
  }

  /** The iterator walks of findConnectedComponents: advance over the
      component list until one contains x. */
  method FindComponent(out: seq<Component>, x: nat) returns (k: nat)
    ensures k == CompIndex(out, x)
  {
    k := 0;
    while k < |out| && !ListContains(out[k], x)
      invariant k <= |out|
      invariant forall m :: 0 <= m < k ==> x !in out[m]
    {
      k := k + 1;
    }
    CompIndexUnique(out, x, k);
  }

  // ---------------------------------------------------------------------
  // The state of the pass over the edges

  /** No node lies in two components. */
  ghost predicate Disjoint(out: seq<Component>)
  {
    forall p, q :: 0 <= p < |out| && 0 <= q < |out| && p != q ==> forall x :: x in out[p] ==> x !in out[q]
  }

  /** x and y lie in the same component. */
  ghost predicate SameComp(out: seq<Component>, x: nat, y: nat)
  {
    CompIndex(out, x) < |out| && y in out[CompIndex(out, x)]
  }

  /** In disjoint components, a node's component is the one it is found in. */
  lemma CompIndexOf(out: seq<Component>, k: nat, x: nat)
    requires Disjoint(out) && k < |out| && x in out[k]
    ensures CompIndex(out, x) == k
  {
  }

  /** Every component built from an edge has at least two entries. */
  ghost predicate AtLeastTwo(out: seq<Component>)
  {
    forall k :: 0 <= k < |out| ==> |out[k]| >= 2
  }

  /** Every node in a component has been visited. */
  ghost predicate OnlyVisited(out: seq<Component>, visited: seq<bool>)
  {
    forall k :: 0 <= k < |out| ==> forall x :: x in out[k] ==> x < |visited| && visited[x]
  }

  /** Every visited node is in some component. */
  ghost predicate Covered(out: seq<Component>, visited: seq<bool>)
  {
    forall x: nat :: x < |visited| && visited[x] ==> CompIndex(out, x) < |out|
  }

  /** The invariant of the pass: the components built from edges so far
      have at least two entries each, hold exactly the visited nodes, and
      are pairwise disjoint. */
  ghost predicate EdgePartition(out: seq<Component>, visited: seq<bool>)
  {
    AtLeastTwo(out) && OnlyVisited(out, visited) && Covered(out, visited) && Disjoint(out)
  }

  /** Every component of `out` is contained in component `img[k]` of `out'`,
      so nodes joined before stay joined. */
  ghost predicate Grows(out: seq<Component>, out': seq<Component>, img: seq<nat>)
  {
    && |img| == |out|
    && (forall k :: 0 <= k < |out| ==> img[k] < |out'|)
    && (forall k :: 0 <= k < |out| ==> forall z :: z in out[k] ==> z in out'[img[k]])
  }

  lemma GrowsKeepsJoined(out: seq<Component>, out': seq<Component>, img: seq<nat>)
    requires Disjoint(out) && Disjoint(out') && Grows(out, out', img)
    ensures forall x: nat, y: nat :: SameComp(out, x, y) ==> SameComp(out', x, y)
  {
    forall x: nat, y: nat | SameComp(out, x, y) ensures SameComp(out', x, y) {
      var k := CompIndex(out, x);
      CompIndexOf(out', img[k], x);
    }
  }

  /** The identity image, for steps that only append to components. */
  function Identity(n: nat): (img: seq<nat>)
    ensures |img| == n && forall k :: 0 <= k < n ==> img[k] == k
  {
    seq(n, k => k)
  }

  // ---------------------------------------------------------------------
  // The four per-edge cases

  /** Removing component f after folding it into component s. */
  function Merge(out: seq<Component>, s: nat, f: nat): (m: seq<Component>)
    requires s < |out| && f < |out| && s != f
    ensures |m| == |out| - 1
  {
    var folded := out[s := out[s] + out[f]];
    folded[..f] + folded[f + 1..]
  }

  /** The old index of slot j after removing slot f. */
  function Src(f: nat, j: nat): nat
  {
    if j < f then j else j + 1
  }

  /** Where old slot k ends up after merging component f into component s. */
  function Dst(s: nat, f: nat, k: nat): nat
    requires s != f
  {
    if k == f then (if s < f then s else s - 1) else if k < f then k else k - 1
  }

  /** The image of every old slot under a merge. */
  function MergeImage(n: nat, s: nat, f: nat): (img: seq<nat>)
    requires s != f
    ensures |img| == n && forall k :: 0 <= k < n ==> img[k] == Dst(s, f, k)
  {
    seq(n, k requires 0 <= k => Dst(s, f, k))
  }

  lemma MergeAt(out: seq<Component>, s: nat, f: nat, j: nat)
    requires s < |out| && f < |out| && s != f && j < |out| - 1
    ensures Merge(out, s, f)[j] == if Src(f, j) == s then out[s] + out[f] else out[Src(f, j)]
  {
  }

  /** Every slot of the merged list, described by the slot it came from. */
  lemma MergeSlots(out: seq<Component>, s: nat, f: nat)
    requires s < |out| && f < |out| && s != f
    ensures forall j :: 0 <= j < |out| - 1 ==>
      Merge(out, s, f)[j] == if Src(f, j) == s then out[s] + out[f] else out[Src(f, j)]
  {
    forall j | 0 <= j < |out| - 1
      ensures Merge(out, s, f)[j] == if Src(f, j) == s then out[s] + out[f] else out[Src(f, j)]
    {
      MergeAt(out, s, f, j);
    }
  }

  /** Every old component lands inside its image slot. */
  lemma MergeGrows(out: seq<Component>, s: nat, f: nat)
    requires s < |out| && f < |out| && s != f
    ensures Grows(out, Merge(out, s, f), MergeImage(|out|, s, f))
  {
    var m := Merge(out, s, f);
    MergeSlots(out, s, f);
    forall k | 0 <= k < |out| ensures forall z :: z in out[k] ==> z in m[Dst(s, f, k)] {
      assert Src(f, Dst(s, f, k)) == if k == f then s else k;
    }
  }

  lemma MergeOnlyVisited(out: seq<Component>, visited: seq<bool>, s: nat, f: nat)
    requires OnlyVisited(out, visited) && s < |out| && f < |out| && s != f
    ensures OnlyVisited(Merge(out, s, f), visited)
  {
    var m := Merge(out, s, f);
    MergeSlots(out, s, f);
    forall j, x: nat | 0 <= j < |m| && x in m[j] ensures x < |visited| && visited[x] {
      if Src(f, j) == s && x in out[f] {
      } else {
        assert x in out[Src(f, j)];
      }
    }
  }

  lemma MergeDisjoint(out: seq<Component>, s: nat, f: nat)
    requires Disjoint(out) && s < |out| && f < |out| && s != f
    ensures Disjoint(Merge(out, s, f))
  {
    var m := Merge(out, s, f);
    MergeSlots(out, s, f);
    forall p, q, x: nat | 0 <= p < |m| && 0 <= q < |m| && p != q && x in m[p] ensures x !in m[q] {
      var sp, sq := Src(f, p), Src(f, q);
      assert sp != sq && sp != f && sq != f;
      assert x in out[sp] || (sp == s && x in out[f]);
    }
  }

  /** Merging two components keeps the partition and joins their nodes. */
  lemma MergeKeepsPartition(out: seq<Component>, visited: seq<bool>, s: nat, f: nat)
    requires EdgePartition(out, visited) && s < |out| && f < |out| && s != f
    ensures EdgePartition(Merge(out, s, f), visited)
    ensures Grows(out, Merge(out, s, f), MergeImage(|out|, s, f))
    ensures forall y :: y in out[s] + out[f] ==> CompIndex(Merge(out, s, f), y) == Dst(s, f, s)
  {
    var m := Merge(out, s, f);
    var img := MergeImage(|out|, s, f);
    MergeGrows(out, s, f);
    MergeOnlyVisited(out, visited, s, f);
    MergeDisjoint(out, s, f);
    MergeSlots(out, s, f);
    assert AtLeastTwo(m) by {
      forall j | 0 <= j < |m| ensures |m[j]| >= 2 {
        assert |out[Src(f, j)]| >= 2;
      }
    }
    assert Covered(m, visited) by {
      forall x: nat | x < |visited| && visited[x] ensures CompIndex(m, x) < |m| {
        var k := CompIndex(out, x);
        assert x in m[img[k]];
      }
    }
    var t := Dst(s, f, s);
    assert m[t] == out[s] + out[f];
    forall y | y in out[s] + out[f] ensures CompIndex(m, y) == t {
      CompIndexOf(m, t, y);
    }
  }

  /** Appending an unvisited node to component s. */
  lemma AppendKeepsPartition(out: seq<Component>, visited: seq<bool>, s: nat, z: nat)
    requires EdgePartition(out, visited) && s < |out| && z < |visited| && !visited[z]
    ensures EdgePartition(out[s := out[s] + [z]], visited[z := true])
    ensures Grows(out, out[s := out[s] + [z]], Identity(|out|))
    ensures forall y :: y in out[s] + [z] ==> CompIndex(out[s := out[s] + [z]], y) == s
  {
    var out' := out[s := out[s] + [z]];
    var visited' := visited[z := true];
    assert out'[s] == out[s] + [z];
    forall k, x: nat | 0 <= k < |out'| && x in out'[k] && x != z ensures x in out[k] {
    }
    assert AtLeastTwo(out') by {
      forall k | 0 <= k < |out'| ensures |out'[k]| >= 2 {
        assert |out[k]| >= 2;
      }
    }
    assert OnlyVisited(out', visited') by {
      forall k, x: nat | 0 <= k < |out'| && x in out'[k] ensures x < |visited'| && visited'[x] {
        if x != z {
          assert x in out[k];
          assert OnlyVisited(out, visited);
          assert x < |visited| && visited[x];
        }
      }
    }
    assert Covered(out', visited') by {
      forall x: nat | x < |visited'| && visited'[x] ensures CompIndex(out', x) < |out'| {
        if x != z {
          assert x in out'[CompIndex(out, x)];
        } else {
          assert z in out'[s];
        }
      }
    }
    assert Disjoint(out') by {
      forall p, q, x: nat | 0 <= p < |out'| && 0 <= q < |out'| && p != q && x in out'[p] ensures x !in out'[q] {
        if x != z {
          assert x in out[p];
          assert x !in out[q];
        } else {
          assert z !in out[p] && z !in out[q];
        }
      }
    }
    forall y | y in out'[s] ensures CompIndex(out', y) == s {
      CompIndexOf(out', s, y);
    }
  }

  /** Opening a new component [a, b] for two unvisited nodes. */
  lemma NewKeepsPartition(out: seq<Component>, visited: seq<bool>, a: nat, b: nat)
    requires EdgePartition(out, visited) && a < |visited| && b < |visited| && !visited[a] && !visited[b]
    ensures EdgePartition(out + [[a, b]], visited[a := true][b := true])
    ensures Grows(out, out + [[a, b]], Identity(|out|))
    ensures CompIndex(out + [[a, b]], a) == |out| && CompIndex(out + [[a, b]], b) == |out|
  {
    var visited' := visited[a := true][b := true];
    NewIndex(out, visited, a, b);
    NewDisjoint(out, visited, a, b);
    NewAtLeastTwo(out, [a, b]);
    OnlyVisitedMore(out, visited, visited');
    OnlyVisitedAppend(out, visited', [a, b]);
    NewCovered(out, visited, a, b);
    NewGrows(out, [a, b]);
  }

  /** A new component of two entries keeps every component at two or more. */
  lemma NewAtLeastTwo(out: seq<Component>, c: Component)
    requires AtLeastTwo(out) && |c| >= 2
    ensures AtLeastTwo(out + [c])
  {
    forall k | 0 <= k < |out| + 1 ensures |(out + [c])[k]| >= 2 {
      if k < |out| {
        assert (out + [c])[k] == out[k];
      }
    }
  }

  /** Appending a component leaves every old component in its slot. */
  lemma NewGrows(out: seq<Component>, c: Component)
    ensures Grows(out, out + [c], Identity(|out|))
  {
    forall k | 0 <= k < |out| ensures (out + [c])[k] == out[k] {
    }
  }

  /** After opening [a, b], every visited node still has a component. */
  lemma NewCovered(out: seq<Component>, visited: seq<bool>, a: nat, b: nat)
    requires EdgePartition(out, visited) && a < |visited| && b < |visited| && !visited[a] && !visited[b]
    ensures Covered(out + [[a, b]], visited[a := true][b := true])
  {
    var out' := out + [[a, b]];
    var visited' := visited[a := true][b := true];
    forall x: nat | x < |visited'| && visited'[x] ensures CompIndex(out', x) < |out'| {
      if x != a && x != b {
        assert x in out'[CompIndex(out, x)];
      } else {
        assert x in out'[|out|];
      }
    }
  }

  /** Setting more flags keeps every component visited. */
  lemma OnlyVisitedMore(out: seq<Component>, visited: seq<bool>, visited': seq<bool>)
    requires OnlyVisited(out, visited) && |visited'| == |visited|
    requires forall x :: 0 <= x < |visited| && visited[x] ==> visited'[x]
    ensures OnlyVisited(out, visited')
  {
  }

  /** A new component of visited nodes keeps every component visited. */
  lemma OnlyVisitedAppend(out: seq<Component>, visited: seq<bool>, c: Component)
    requires OnlyVisited(out, visited)
    requires forall x :: x in c ==> x < |visited| && visited[x]
    ensures OnlyVisited(out + [c], visited)
  {
    forall k | 0 <= k < |out| + 1 ensures forall x :: x in (out + [c])[k] ==> x < |visited| && visited[x] {
      if k < |out| {
        assert (out + [c])[k] == out[k];
      }
    }
  }

  /** The new pair is found in the new last slot. */
  lemma NewIndex(out: seq<Component>, visited: seq<bool>, a: nat, b: nat)
    requires OnlyVisited(out, visited) && a < |visited| && b < |visited| && !visited[a] && !visited[b]
    ensures CompIndex(out + [[a, b]], a) == |out| && CompIndex(out + [[a, b]], b) == |out|
  {
    var out' := out + [[a, b]];
    forall m | 0 <= m < |out| ensures a !in out'[m] && b !in out'[m] {
      assert out'[m] == out[m];
    }
    CompIndexUnique(out', a, |out|);
    CompIndexUnique(out', b, |out|);
  }

  lemma NewDisjoint(out: seq<Component>, visited: seq<bool>, a: nat, b: nat)
    requires OnlyVisited(out, visited) && Disjoint(out) && a < |visited| && b < |visited| && !visited[a] && !visited[b]
    ensures Disjoint(out + [[a, b]])
  {
    var out' := out + [[a, b]];
    forall p, q, x: nat | 0 <= p < |out'| && 0 <= q < |out'| && p != q && x in out'[p] ensures x !in out'[q] {
      if p < |out| && q < |out| {
        assert x in out[p];
        assert x !in out[q];
      } else if p < |out| {
        assert x in out[p];
        assert x != a && x != b;
      } else {
        assert x == a || x == b;
        assert x !in out[q];
      }
    }
  }

  /** What the loop body does with the edge (a, b): when b is visited,
      a's component is merged into b's (unless they coincide), or a
      unvisited node a joins b's component; when b is unvisited, it joins
      a's component, or the pair opens a new one. */
  ghost function Step(out: seq<Component>, visited: seq<bool>, a: nat, b: nat): seq<Component>
    requires a < |visited| && b < |visited| && EdgePartition(out, visited)
  {
    var second := CompIndex(out, b);
    var first := CompIndex(out, a);
    if visited[b] then
      if !visited[a] then out[second := out[second] + [a]]
      else if first == second then out
      else Merge(out, second, first)
    else if first == |out| then out + [[a, b]]
    else out[first := out[first] + [b]]
  }

  /** Each step keeps the partition. */
  lemma StepPartition(out: seq<Component>, visited: seq<bool>, a: nat, b: nat)
    requires a < |visited| && b < |visited| && EdgePartition(out, visited)
    ensures EdgePartition(Step(out, visited, a, b), visited[a := true][b := true])
  {
    var second := CompIndex(out, b);
    var first := CompIndex(out, a);
    if visited[b] {
      if !visited[a] {
        AppendKeepsPartition(out, visited, second, a);
        assert visited[a := true][b := true] == visited[a := true];
      } else if first == second {
        assert visited[a := true][b := true] == visited;
      } else {
        MergeKeepsPartition(out, visited, second, first);
        assert visited[a := true][b := true] == visited;
      }
    } else if first == |out| {
      assert !visited[a];
      NewKeepsPartition(out, visited, a, b);
    } else {
      assert a != b;
      AppendKeepsPartition(out, visited, first, b);
      assert visited[a := true][b := true] == visited[b := true];
    }
  }

  /** Each step puts a and b in one component and never separates two
      nodes already joined. */
  lemma StepConnects(out: seq<Component>, visited: seq<bool>, a: nat, b: nat)
    requires a < |visited| && b < |visited| && EdgePartition(out, visited)
    ensures SameComp(Step(out, visited, a, b), a, b)
    ensures forall x: nat, y: nat :: SameComp(out, x, y) ==> SameComp(Step(out, visited, a, b), x, y)
  {
    var out' := Step(out, visited, a, b);
    var second := CompIndex(out, b);
    var first := CompIndex(out, a);
    if visited[b] {
      if !visited[a] {
        AppendKeepsPartition(out, visited, second, a);
        GrowsKeepsJoined(out, out', Identity(|out|));
      } else if first == second {
      } else {
        MergeKeepsPartition(out, visited, second, first);
        GrowsKeepsJoined(out, out', MergeImage(|out|, second, first));
      }
    } else if first == |out| {
      assert !visited[a];
      NewKeepsPartition(out, visited, a, b);
      GrowsKeepsJoined(out, out', Identity(|out|));
    } else {
      assert a != b;
      AppendKeepsPartition(out, visited, first, b);
      GrowsKeepsJoined(out, out', Identity(|out|));
    }
  }

  /** Each step keeps the partition, puts a and b in one component and
      never separates two nodes already joined. */
  lemma StepKeepsPartition(out: seq<Component>, visited: seq<bool>, a: nat, b: nat)
    requires a < |visited| && b < |visited| && EdgePartition(out, visited)
    ensures EdgePartition(Step(out, visited, a, b), visited[a := true][b := true])
    ensures SameComp(Step(out, visited, a, b), a, b)
    ensures forall x: nat, y: nat :: SameComp(out, x, y) ==> SameComp(Step(out, visited, a, b), x, y)
  {
    StepPartition(out, visited, a, b);
    StepConnects(out, visited, a, b);
  }

  /** The number of components grows by one for a new pair, drops by one
      for a merge, and stays the same otherwise. */
  lemma StepCount(out: seq<Component>, visited: seq<bool>, a: nat, b: nat)
    requires a < |visited| && b < |visited| && EdgePartition(out, visited)
    ensures |Step(out, visited, a, b)| == |out|
      + (if !visited[a] && !visited[b] then 1 else 0)
      - (if visited[a] && visited[b] && CompIndex(out, a) != CompIndex(out, b) then 1 else 0)
  {
    if !visited[b] && visited[a] {
      assert CompIndex(out, a) < |out|;
    }
    if !visited[a] {
      OutsideComponents(out, visited, a);
    }
  }

  /** An unvisited node lies in no component. */
  lemma OutsideComponents(out: seq<Component>, visited: seq<bool>, a: nat)
    requires a < |visited| && !visited[a] && OnlyVisited(out, visited)
    ensures CompIndex(out, a) == |out|
  {
  }

  /** The body of the `for (auto line : input)` loop for the edge (a, b). */
  method ProcessEdge(out: seq<Component>, visited: seq<bool>, a: nat, b: nat)
      returns (out': seq<Component>, visited': seq<bool>)
    requires a < |visited| && b < |visited| && EdgePartition(out, visited)
    ensures visited' == visited[a := true][b := true]
    ensures out' == Step(out, visited, a, b)
  {
    if visited[b] {
      var second := FindComponent(out, b);
      if visited[a] {
        var first := FindComponent(out, a);
        if first != second {
          out' := Merge(out, second, first);
        } else {
          out' := out;
        }
        visited' := visited;
      } else {
        out' := out[second := out[second] + [a]];
        visited' := visited[a := true];
      }
    } else {
      var second := FindComponent(out, a);
      if second == |out| {
        out' := out + [[a, b]];
      } else {
        out' := out[second := out[second] + [b]];
      }
      visited' := visited[a := true][b := true];
    }
  }

  // ---------------------------------------------------------------------
  // The whole pass

  /** Some edge of `es` has x as an endpoint. */
  ghost predicate Touched(es: seq<Triple>, x: nat)
  {
    exists e :: 0 <= e < |es| && (es[e].a == x || es[e].b == x)
  }

  /** The nodes 1..m that no edge of `es` touches, in increasing order. */
  ghost function Lonely(es: seq<Triple>, m: nat): seq<nat>
  {
    if m == 0 then [] else Lonely(es, m - 1) + (if Touched(es, m) then [] else [m])
  }

  /** `Lonely` lists exactly the untouched nodes of 1..m, each once, in
      increasing order. */
  lemma {:induction false} LonelyFacts(es: seq<Triple>, m: nat)
    ensures forall k :: 0 <= k < |Lonely(es, m)| ==> 1 <= Lonely(es, m)[k] <= m && !Touched(es, Lonely(es, m)[k])
    ensures forall x :: 1 <= x <= m && !Touched(es, x) ==> x in Lonely(es, m)
    ensures forall j, k :: 0 <= j < k < |Lonely(es, m)| ==> Lonely(es, m)[j] < Lonely(es, m)[k]
  {
    if m > 0 {
      LonelyFacts(es, m - 1);
    }
  }

  /** One single-node component per listed node. */
  function Singletons(xs: seq<nat>): (r: seq<Component>)
    ensures |r| == |xs| && forall k :: 0 <= k < |xs| ==> r[k] == [xs[k]]
  {
    seq(|xs|, k requires 0 <= k < |xs| => [xs[k]])
  }

  /** Appending components does not move a node found in the front part. */
  lemma {:induction false} CompIndexPrefix(out: seq<Component>, more: seq<Component>, x: nat)
    requires CompIndex(out, x) < |out|
    ensures CompIndex(out + more, x) == CompIndex(out, x)
  {
    if x !in out[0] {
      assert (out + more)[1..] == out[1..] + more;
      CompIndexPrefix(out[1..], more, x);
    }
  }

  /** Joined nodes stay joined when components are appended. */
  lemma SameCompPrefix(out: seq<Component>, more: seq<Component>, x: nat, y: nat)
    requires SameComp(out, x, y)
    ensures SameComp(out + more, x, y)
  {
    CompIndexPrefix(out, more, x);
  }

  /** No singleton shares a node with an edge-built component. */
  lemma SingletonsApart(out: seq<Component>, visited: seq<bool>, xs: seq<nat>, p: nat, q: nat, x: nat)
    requires OnlyVisited(out, visited)
    requires forall k :: 0 <= k < |xs| ==> xs[k] < |visited| && !visited[xs[k]]
    requires p < |out| && |out| <= q < |out| + |xs|
    ensures x in out[p] ==> x !in (out + Singletons(xs))[q]
  {
    assert (out + Singletons(xs))[q] == [xs[q - |out|]];
    assert x in out[p] ==> visited[x];
  }

  /** The edge-built components followed by singletons for unvisited nodes
      still form a partition. */
  lemma WithSingletons(out: seq<Component>, visited: seq<bool>, xs: seq<nat>)
    requires EdgePartition(out, visited)
    requires forall k :: 0 <= k < |xs| ==> xs[k] < |visited| && !visited[xs[k]]
    requires forall j, k :: 0 <= j < k < |xs| ==> xs[j] < xs[k]
    ensures Disjoint(out + Singletons(xs))
  {
    var all := out + Singletons(xs);
    forall p, q, x: nat | 0 <= p < |all| && 0 <= q < |all| && p != q && x in all[p] ensures x !in all[q] {
      if p < |out| && q < |out| {
        assert all[p] == out[p] && all[q] == out[q];
      } else if p < |out| {
        assert all[p] == out[p];
        SingletonsApart(out, visited, xs, p, q, x);
      } else if q < |out| {
        assert all[p] == [xs[p - |out|]] && all[q] == out[q];
        SingletonsApart(out, visited, xs, q, p, x);
      } else {
        assert all[p] == [xs[p - |out|]] && all[q] == [xs[q - |out|]];
        assert xs[p - |out|] != xs[q - |out|];
      }
    }
  }

  /** Both endpoints of every edge of `es` share a component of `out`. */
  ghost predicate AllJoined(out: seq<Component>, es: seq<Triple>)
  {
    forall e :: 0 <= e < |es| ==> SameComp(out, es[e].a, es[e].b)
  }

  /** One step joins its own edge and keeps the earlier edges joined. */
  lemma StepJoins(out: seq<Component>, visited: seq<bool>, es: seq<Triple>, t: Triple)
    requires t.a < |visited| && t.b < |visited| && EdgePartition(out, visited) && AllJoined(out, es)
    ensures EdgePartition(Step(out, visited, t.a, t.b), visited[t.a := true][t.b := true])
    ensures AllJoined(Step(out, visited, t.a, t.b), es + [t])
  {
    StepKeepsPartition(out, visited, t.a, t.b);
    var es' := es + [t];
    forall e | 0 <= e < |es'| ensures SameComp(Step(out, visited, t.a, t.b), es'[e].a, es'[e].b) {
      if e < |es| {
        assert es'[e] == es[e];
      }
    }
  }

  // ---------------------------------------------------------------------
  // Connectivity through the edges

  /** Some edge of `es` joins u and v, in either order. */
  ghost predicate Adjacent(es: seq<Triple>, u: nat, v: nat)
  {
    exists e :: 0 <= e < |es| && ((es[e].a == u && es[e].b == v) || (es[e].a == v && es[e].b == u))
  }

  /** `p` is a walk from x to y along edges of `es`. */
  ghost predicate IsChain(es: seq<Triple>, p: seq<nat>, x: nat, y: nat)
  {
    |p| >= 1 && p[0] == x && p[|p| - 1] == y && forall i :: 0 <= i < |p| - 1 ==> Adjacent(es, p[i], p[i + 1])
  }

  /** x reaches y through edges of `es`. */
  ghost predicate Linked(es: seq<Triple>, x: nat, y: nat)
  {
    exists p :: IsChain(es, p, x, y)
  }

  /** Any two nodes of one component are linked by the edges. */
  ghost predicate Connected(out: seq<Component>, es: seq<Triple>)
  {
    forall k, x, y :: 0 <= k < |out| && x in out[k] && y in out[k] ==> Linked(es, x, y)
  }

  lemma LinkedRefl(es: seq<Triple>, x: nat)
    ensures Linked(es, x, x)
  {
    assert IsChain(es, [x], x, x);
  }

  /** An edge links its endpoints both ways. */
  lemma LinkedEdge(es: seq<Triple>, t: Triple)
    requires t in es
    ensures Linked(es, t.a, t.b) && Linked(es, t.b, t.a)
  {
    var e :| 0 <= e < |es| && es[e] == t;
    assert Adjacent(es, t.a, t.b) && Adjacent(es, t.b, t.a);
    assert IsChain(es, [t.a, t.b], t.a, t.b);
    assert IsChain(es, [t.b, t.a], t.b, t.a);
  }

  /** Two walks that meet make one. */
  lemma LinkedTrans(es: seq<Triple>, x: nat, y: nat, z: nat)
    requires Linked(es, x, y) && Linked(es, y, z)
    ensures Linked(es, x, z)
  {
    var p :| IsChain(es, p, x, y);
    var q :| IsChain(es, q, y, z);
    var r := p + q[1..];
    forall i | 0 <= i < |r| - 1 ensures Adjacent(es, r[i], r[i + 1]) {
      if i < |p| - 1 {
        assert r[i] == p[i] && r[i + 1] == p[i + 1];
      } else {
        var j := i - |p| + 1;
        assert r[i] == q[j] && r[i + 1] == q[j + 1];
      }
    }
    assert IsChain(es, r, x, z);
  }

  /** A walk along the edges of `es` stays a walk when an edge is added. */
  lemma LinkedMore(es: seq<Triple>, t: Triple, x: nat, y: nat)
    requires Linked(es, x, y)
    ensures Linked(es + [t], x, y)
  {
    var p :| IsChain(es, p, x, y);
    forall i | 0 <= i < |p| - 1 ensures Adjacent(es + [t], p[i], p[i + 1]) {
      var e :| 0 <= e < |es| && ((es[e].a == p[i] && es[e].b == p[i + 1]) || (es[e].a == p[i + 1] && es[e].b == p[i]));
      assert (es + [t])[e] == es[e];
    }
    assert IsChain(es + [t], p, x, y);
  }

  lemma ConnectedMore(out: seq<Component>, es: seq<Triple>, t: Triple)
    requires Connected(out, es)
    ensures Connected(out, es + [t])
  {
    forall k, x, y | 0 <= k < |out| && x in out[k] && y in out[k] ensures Linked(es + [t], x, y) {
      LinkedMore(es, t, x, y);
    }
  }

  /** Adding z, linked both ways to the member w, keeps component s linked. */
  lemma AppendConnected(out: seq<Component>, es: seq<Triple>, s: nat, w: nat, z: nat)
    requires Connected(out, es) && s < |out| && w in out[s]
    requires Linked(es, z, w) && Linked(es, w, z)
    ensures Connected(out[s := out[s] + [z]], es)
  {
    var out' := out[s := out[s] + [z]];
    forall k, x, y | 0 <= k < |out'| && x in out'[k] && y in out'[k] ensures Linked(es, x, y) {
      if k != s {
        assert out'[k] == out[k];
      } else if x == z && y == z {
        LinkedRefl(es, z);
      } else if x == z {
        LinkedTrans(es, z, w, y);
      } else if y == z {
        LinkedTrans(es, x, w, z);
      }
    }
  }

  /** Merging two components holding u and v, linked both ways, keeps
      every component linked. */
  lemma MergeConnected(out: seq<Component>, es: seq<Triple>, s: nat, f: nat, u: nat, v: nat)
    requires Connected(out, es) && s < |out| && f < |out| && s != f
    requires u in out[s] && v in out[f] && Linked(es, u, v) && Linked(es, v, u)
    ensures Connected(Merge(out, s, f), es)
  {
    var m := Merge(out, s, f);
    MergeSlots(out, s, f);
    forall j, x, y | 0 <= j < |m| && x in m[j] && y in m[j] ensures Linked(es, x, y) {
      if Src(f, j) != s {
        assert m[j] == out[Src(f, j)];
      } else if x in out[s] && y in out[f] {
        LinkedTrans(es, x, u, v);
        LinkedTrans(es, x, v, y);
      } else if x in out[f] && y in out[s] {
        LinkedTrans(es, x, v, u);
        LinkedTrans(es, x, u, y);
      }
    }
  }

  /** A new component [a, b] of linked nodes keeps every component linked. */
  lemma NewConnected(out: seq<Component>, es: seq<Triple>, a: nat, b: nat)
    requires Connected(out, es) && Linked(es, a, b) && Linked(es, b, a)
    ensures Connected(out + [[a, b]], es)
  {
    var out' := out + [[a, b]];
    forall k, x, y | 0 <= k < |out'| && x in out'[k] && y in out'[k] ensures Linked(es, x, y) {
      if k < |out| {
        assert out'[k] == out[k];
      } else if x == y {
        LinkedRefl(es, x);
      }
    }
  }

  /** Each step keeps every component linked through the edges seen so far. */
  lemma StepConnected(out: seq<Component>, visited: seq<bool>, es: seq<Triple>, t: Triple)
    requires t.a < |visited| && t.b < |visited| && EdgePartition(out, visited) && Connected(out, es)
    ensures Connected(Step(out, visited, t.a, t.b), es + [t])
  {
    var es' := es + [t];
    var a, b := t.a, t.b;
    ConnectedMore(out, es, t);
    LinkedEdge(es', t);
    var second := CompIndex(out, b);
    var first := CompIndex(out, a);
    if visited[b] {
      if !visited[a] {
        AppendConnected(out, es', second, b, a);
      } else if first != second {
        MergeConnected(out, es', second, first, b, a);
      }
    } else if first == |out| {
      NewConnected(out, es', a, b);
    } else {
      AppendConnected(out, es', first, a, b);
    }
  }

  /** Singleton components are linked trivially. */
  lemma SingletonsConnected(out: seq<Component>, es: seq<Triple>, xs: seq<nat>)
    requires Connected(out, es)
    ensures Connected(out + Singletons(xs), es)
  {
    var all := out + Singletons(xs);
    forall k, x, y | 0 <= k < |all| && x in all[k] && y in all[k] ensures Linked(es, x, y) {
      if k < |out| {
        assert all[k] == out[k];
      } else {
        assert all[k] == [xs[k - |out|]];
        LinkedRefl(es, x);
      }
    }
  }

  /** The first loop over the edges: the resulting components and flags
      form a partition, the flags mark exactly the touched nodes, and each
      edge's endpoints share a component. */
  method EdgePass(input: seq<Triple>, nodes: nat) returns (out: seq<Component>, visited: seq<bool>)
    requires forall e :: 0 <= e < |input| ==> input[e].a <= nodes && input[e].b <= nodes
    ensures visited == Marks(input, nodes) && EdgePartition(out, visited)
    ensures AllJoined(out, input) && Connected(out, input)
  {
    visited := seq(nodes + 1, _ => false);
    out := [];
    for i := 0 to |input|
      invariant visited == Marks(input[..i], nodes) && EdgePartition(out, visited)
      invariant AllJoined(out, input[..i]) && Connected(out, input[..i])
    {
      var line := input[i];
      StepJoins(out, visited, input[..i], line);
      StepConnected(out, visited, input[..i], line);
      MarksStep(input, i, nodes);
      out, visited := ProcessEdge(out, visited, line.a, line.b);
    }
    assert input[..|input|] == input;
  }

  /** Taking one more edge sets the flags of its two endpoints. */
  lemma MarksStep(input: seq<Triple>, i: nat, nodes: nat)
    requires i < |input|
    requires forall e :: 0 <= e < |input| ==> input[e].a <= nodes && input[e].b <= nodes
    ensures input[..i + 1] == input[..i] + [input[i]]
    ensures Marks(input[..i + 1], nodes) == Marks(input[..i], nodes)[input[i].a := true][input[i].b := true]
  {
    assert input[..i + 1][..i] == input[..i];
  }

  /** What the result of the whole pass satisfies, given the state after
      the edge loop. */
  lemma ComponentsResult(out: seq<Component>, visited: seq<bool>, input: seq<Triple>, nodes: nat)
    requires forall e :: 0 <= e < |input| ==> input[e].a <= nodes && input[e].b <= nodes
    requires visited == Marks(input, nodes) && EdgePartition(out, visited)
    requires AllJoined(out, input)
    ensures Disjoint(out + Singletons(Lonely(input, nodes)))
    ensures forall x :: 1 <= x <= nodes ==>
      CompIndex(out + Singletons(Lonely(input, nodes)), x) < |out + Singletons(Lonely(input, nodes))|
    ensures forall k :: 0 <= k < |out + Singletons(Lonely(input, nodes))| ==>
      forall x :: x in (out + Singletons(Lonely(input, nodes)))[k] ==> x <= nodes && (x >= 1 || Touched(input, 0))
    ensures AllJoined(out + Singletons(Lonely(input, nodes)), input)
  {
    var lonely := Lonely(input, nodes);
    LonelyFacts(input, nodes);
    forall x | 0 <= x <= nodes ensures visited[x] <==> Touched(input, x) {
      MarksTouched(input, nodes, x);
    }
    WithSingletons(out, visited, lonely);
    ComponentsCover(out, visited, lonely, input, nodes);
    ComponentsBounded(out, visited, lonely, input, nodes);
    forall e | 0 <= e < |input| ensures SameComp(out + Singletons(lonely), input[e].a, input[e].b) {
      SameCompPrefix(out, Singletons(lonely), input[e].a, input[e].b);
    }
  }

  /** `findConnectedComponents(input, nodes)`. Every endpoint must index
      the `visited` vector of nodes + 1 flags. The result lists the
      components built from the edges (each with at least two entries)
      and then one singleton per untouched node 1..nodes in increasing
      order; components are pairwise disjoint, cover 1..nodes, hold only
      nodes up to `nodes` (node 0 only when an edge touches it), and both
      endpoints of every edge share a component; conversely any two nodes
      of one component are linked by a walk along the edges. */
  method FindConnectedComponents(input: seq<Triple>, nodes: nat) returns (comps: seq<Component>)
    requires forall e :: 0 <= e < |input| ==> input[e].a <= nodes && input[e].b <= nodes
    ensures |comps| >= |Lonely(input, nodes)|
    ensures comps[|comps| - |Lonely(input, nodes)|..] == Singletons(Lonely(input, nodes))
    ensures forall k :: 0 <= k < |comps| - |Lonely(input, nodes)| ==> |comps[k]| >= 2
    ensures Disjoint(comps)
    ensures forall x :: 1 <= x <= nodes ==> CompIndex(comps, x) < |comps|
    ensures forall k :: 0 <= k < |comps| ==> forall x :: x in comps[k] ==> x <= nodes && (x >= 1 || Touched(input, 0))
    ensures AllJoined(comps, input)
    ensures forall k, x, y :: 0 <= k < |comps| && x in comps[k] && y in comps[k] ==> Linked(input, x, y)
    ensures forall k :: 0 <= k < |comps| ==> comps[k] != []
  {
    var edgeBuilt, visited := EdgePass(input, nodes);
    comps := AddSingletons(input, nodes, edgeBuilt, visited);
    ComponentsResult(edgeBuilt, visited, input, nodes);
    SingletonsConnected(edgeBuilt, input, Lonely(input, nodes));
    DropFront(edgeBuilt, Singletons(Lonely(input, nodes)));
  }

  /** The closing loop: a singleton [i] for every unvisited node 1..nodes. */
  method AddSingletons(input: seq<Triple>, nodes: nat, out: seq<Component>, visited: seq<bool>)
      returns (comps: seq<Component>)
    requires forall e :: 0 <= e < |input| ==> input[e].a <= nodes && input[e].b <= nodes
    requires visited == Marks(input, nodes)
    ensures comps == out + Singletons(Lonely(input, nodes))
  {
    comps := out;
    for i := 1 to nodes + 1
      invariant comps == out + Singletons(Lonely(input, i - 1))
    {
      MarksTouched(input, nodes, i);
      if !visited[i] {
        assert Singletons(Lonely(input, i)) == Singletons(Lonely(input, i - 1)) + [[i]];
        comps := comps + [[i]];
      } else {
        assert Lonely(input, i) == Lonely(input, i - 1);
      }
    }
  }

  /** Dropping the front part of a concatenation leaves the back part. */
  lemma DropFront<T>(front: seq<T>, back: seq<T>)
    ensures (front + back)[|front|..] == back
    ensures forall k :: 0 <= k < |front| ==> (front + back)[k] == front[k]
  {
  }

  /** The `visited` flags after marking both endpoints of every edge of `es`. */
  function Marks(es: seq<Triple>, nodes: nat): (v: seq<bool>)
    requires forall e :: 0 <= e < |es| ==> es[e].a <= nodes && es[e].b <= nodes
    ensures |v| == nodes + 1
  {
    if es == [] then seq(nodes + 1, _ => false)
    else Marks(es[..|es| - 1], nodes)[es[|es| - 1].a := true][es[|es| - 1].b := true]
  }

  /** A flag is set exactly for the nodes some edge touches. */
  lemma {:induction false} MarksTouched(es: seq<Triple>, nodes: nat, x: nat)
    requires forall e :: 0 <= e < |es| ==> es[e].a <= nodes && es[e].b <= nodes
    requires x <= nodes
    ensures Marks(es, nodes)[x] <==> Touched(es, x)
  {
    if es != [] {
      var init := es[..|es| - 1];
      MarksTouched(init, nodes, x);
      if Touched(init, x) {
        var e :| 0 <= e < |init| && (init[e].a == x || init[e].b == x);
        assert es[e] == init[e];
      }
      if Touched(es, x) && es[|es| - 1].a != x && es[|es| - 1].b != x {
        var e :| 0 <= e < |es| && (es[e].a == x || es[e].b == x);
        assert init[e] == es[e];
      }
    }
  }

  /** Every node 1..nodes is found: visited nodes in an edge-built
      component, the others in their singleton. */
  lemma ComponentsCover(out: seq<Component>, visited: seq<bool>, lonely: seq<nat>, input: seq<Triple>, nodes: nat)
    requires |visited| == nodes + 1 && EdgePartition(out, visited)
    requires forall x :: 0 <= x <= nodes ==> (visited[x] <==> Touched(input, x))
    requires lonely == Lonely(input, nodes)
    ensures forall x :: 1 <= x <= nodes ==> CompIndex(out + Singletons(lonely), x) < |out + Singletons(lonely)|
  {
    LonelyFacts(input, nodes);
    forall x | 1 <= x <= nodes ensures CompIndex(out + Singletons(lonely), x) < |out + Singletons(lonely)| {
      if visited[x] {
        CompIndexPrefix(out, Singletons(lonely), x);
      } else {
        var k :| 0 <= k < |lonely| && lonely[k] == x;
        assert (out + Singletons(lonely))[|out| + k] == [x];
      }
    }
  }

  /** Components hold nodes up to `nodes` only, and node 0 only when an
      edge touches it. */
  lemma ComponentsBounded(out: seq<Component>, visited: seq<bool>, lonely: seq<nat>, input: seq<Triple>, nodes: nat)
    requires |visited| == nodes + 1 && EdgePartition(out, visited)
    requires forall x :: 0 <= x <= nodes ==> (visited[x] <==> Touched(input, x))
    requires lonely == Lonely(input, nodes)
    ensures forall k :: 0 <= k < |out + Singletons(lonely)| ==>
      forall x :: x in (out + Singletons(lonely))[k] ==> x <= nodes && (x >= 1 || Touched(input, 0))
  {
    var all := out + Singletons(lonely);
    LonelyFacts(input, nodes);
    forall k | 0 <= k < |all| ensures forall x :: x in all[k] ==> x <= nodes && (x >= 1 || Touched(input, 0)) {
      if k < |out| {
        assert all[k] == out[k];
      } else {
        assert all[k] == [lonely[k - |out|]];
      }
    }
  }

  // ---------------------------------------------------------------------
  // erdosInputGen

  /** The pair (t.a, t.b) comes strictly before (u.a, u.b) in row-major order. */
  predicate PairBefore(t: Triple, u: Triple)
  {
    t.a < u.a || (t.a == u.a && t.b < u.b)
  }

  /** Neighbouring triples are in strictly increasing pair order. */
  predicate Ascending(s: seq<Triple>)
  {
    forall k :: 0 <= k < |s| - 1 ==> PairBefore(s[k], s[k + 1])
  }

  /** Every triple joins a smaller node to a larger one of 1..nodes and
      weighs between 1 and nodes^2. */
  predicate GenShape(s: seq<Triple>, nodes: nat)
  {
    forall k :: 0 <= k < |s| ==> 1 <= s[k].a < s[k].b <= nodes && 1 <= s[k].w <= nodes * nodes
  }

  /** Increasing neighbours make the whole list increasing, so no pair
      appears twice. */
  lemma {:induction false} AscendingPairwise(s: seq<Triple>)
    requires Ascending(s)
    ensures forall j, k :: 0 <= j < k < |s| ==> PairBefore(s[j], s[k])
    ensures forall j, k :: 0 <= j < k < |s| ==> (s[j].a, s[j].b) != (s[k].a, s[k].b)
  {
    if |s| > 1 {
      var init := s[..|s| - 1];
      assert Ascending(init) by {
        forall k | 0 <= k < |init| - 1 ensures PairBefore(init[k], init[k + 1]) {
          assert init[k] == s[k] && init[k + 1] == s[k + 1];
        }
      }
      AscendingPairwise(init);
      forall j, k | 0 <= j < k < |s| ensures PairBefore(s[j], s[k]) {
        if k < |s| - 1 {
          assert init[j] == s[j] && init[k] == s[k];
        } else if j < k - 1 {
          assert init[j] == s[j] && init[k - 1] == s[k - 1];
          assert PairBefore(s[k - 1], s[k]);
        }
      }
    }
  }

  /** Every listed pair comes before the pair (x, y). */
  predicate AllBefore(s: seq<Triple>, x: nat, y: nat)
  {
    forall k :: 0 <= k < |s| ==> s[k].a < x || (s[k].a == x && s[k].b < y)
  }

  /** Appending the pair (x, y) after every listed pair keeps the shape and
      the order, and the list then lies before every later pair. */
  lemma GenAppend(data: seq<Triple>, nodes: nat, x: nat, y: nat, r: nat)
    requires GenShape(data, nodes) && Ascending(data)
    requires 1 <= x < y <= nodes
    requires forall k :: 0 <= k < |data| ==> data[k].a < x || (data[k].a == x && data[k].b < y)
    ensures nodes * nodes > 0
    ensures GenShape(data + [Triple(x, y, r % (nodes * nodes) + 1)], nodes)
    ensures Ascending(data + [Triple(x, y, r % (nodes * nodes) + 1)])
    ensures AllBefore(data + [Triple(x, y, r % (nodes * nodes) + 1)], x, y + 1)
  {
    assert nodes * nodes >= nodes;
    var t := Triple(x, y, r % (nodes * nodes) + 1);
    var d := data + [t];
    forall k | 0 <= k < |d| - 1 ensures PairBefore(d[k], d[k + 1]) {
      assert d[k] == data[k];
      if k + 1 < |data| {
        assert d[k + 1] == data[k + 1];
      }
    }
  }

  /** `erdosInputGen(nodes, p, seed)`. `rand(c)` is the value of the c-th
      `rand()` call after `srand(seed)`; `below(r)` says whether
      `r / RAND_MAX` as a float is under p. Each pair x < y draws once and,
      when accepted, draws its weight from the next value. */
  method ErdosInputGen(nodes: nat, below: nat -> bool, rand: nat -> nat) returns (data: seq<Triple>)
    ensures GenShape(data, nodes) && Ascending(data)
  {
    data := [];
    var c := 0;
    for xi := 1 to nodes + 1
      invariant GenShape(data, nodes) && Ascending(data)
      invariant forall k :: 0 <= k < |data| ==> data[k].a < xi
    {
      for yi := xi + 1 to nodes + 1
        invariant GenShape(data, nodes) && Ascending(data)
        invariant forall k :: 0 <= k < |data| ==> data[k].a < xi || (data[k].a == xi && data[k].b < yi)
      {
        var r := rand(c);
        c := c + 1;
        if below(r) {
          GenAppend(data, nodes, xi, yi, rand(c));
          var w := rand(c) % (nodes * nodes);
          c := c + 1;
          data := data + [Triple(xi, yi, w + 1)];
        }
      }
    }
  }

  // ---------------------------------------------------------------------
  // The splice loop of erdosGraphRecursive

  /** Edge t joins some node of component entry.a - 1 to some node of
      component entry.b - 1, smaller node first, with the entry's weight. */
  ghost predicate Spliced(t: Triple, comps: seq<Component>, entry: Triple)
    requires 1 <= entry.a <= |comps| && 1 <= entry.b <= |comps|
  {
    exists u, v :: u in comps[entry.a - 1] && v in comps[entry.b - 1] &&
      t == Triple(Min(u, v), Max(u, v), entry.w)
  }

  /** The `for (auto entry : input2)` loop: every edge of the
      component graph becomes one real edge appended to `input`. `pick(c)`
      stands for the c-th `std::sample` draw, taken modulo the size of the
      component sampled. */
  method SpliceEdges(input: seq<Triple>, comps: seq<Component>, entries: seq<Triple>, pick: nat -> nat)
      returns (r: seq<Triple>)
    requires forall k :: 0 <= k < |comps| ==> comps[k] != []
    requires forall e :: 0 <= e < |entries| ==> 1 <= entries[e].a <= |comps| && 1 <= entries[e].b <= |comps|
    ensures |r| == |input| + |entries| && r[..|input|] == input
    ensures forall e :: 0 <= e < |entries| ==> Spliced(r[|input| + e], comps, entries[e])
  {
    r := input;
    var c := 0;
    for e := 0 to |entries|
      invariant |r| == |input| + e && r[..|input|] == input
      invariant forall d :: 0 <= d < e ==> Spliced(r[|input| + d], comps, entries[d])
    {
      var entry := entries[e];
      var from := comps[entry.a - 1];
      var to := comps[entry.b - 1];
      var u := from[pick(c) % |from|];
      var v := to[pick(c + 1) % |to|];
      c := c + 2;
      var addendum := Triple(Min(u, v), Max(u, v), entry.w);
      assert Spliced(addendum, comps, entry);
      r := r + [addendum];
    }
  }

  // ---------------------------------------------------------------------
  // erdosGraphRecursive

  /** Every endpoint lies in 1..nodes. */
  predicate Endpoints(s: seq<Triple>, nodes: nat)
  {
    forall k :: 0 <= k < |s| ==> 1 <= s[k].a <= nodes && 1 <= s[k].b <= nodes
  }

  /** What each round of erdosGraphRecursive keeps: the list stays within
      1..nodes, and its components are non-empty, disjoint, cover 1..nodes,
      hold nothing else, join both ends of every edge, and are each linked
      through the edges. */
  ghost predicate RoundState(input: seq<Triple>, comps: seq<Component>, nodes: nat)
  {
    && Endpoints(input, nodes)
    && Disjoint(comps)
    && AllJoined(comps, input)
    && Connected(comps, input)
    && (forall x :: 1 <= x <= nodes ==> CompIndex(comps, x) < |comps|)
    && (forall k :: 0 <= k < |comps| ==> comps[k] != [] && forall x :: x in comps[k] ==> 1 <= x <= nodes)
  }

  /** A list without node 0 never touches node 0. */
  lemma NoZeroTouched(input: seq<Triple>, nodes: nat)
    requires Endpoints(input, nodes)
    ensures !Touched(input, 0)
  {
  }

  /** Spliced edges join members of components, so they stay within 1..nodes. */
  lemma SpliceEndpoints(input: seq<Triple>, comps: seq<Component>, entries: seq<Triple>, r: seq<Triple>, nodes: nat)
    requires RoundState(input, comps, nodes)
    requires forall e :: 0 <= e < |entries| ==> 1 <= entries[e].a <= |comps| && 1 <= entries[e].b <= |comps|
    requires |r| == |input| + |entries| && r[..|input|] == input
    requires forall e :: 0 <= e < |entries| ==> Spliced(r[|input| + e], comps, entries[e])
    ensures Endpoints(r, nodes)
  {
    forall k | 0 <= k < |r| ensures 1 <= r[k].a <= nodes && 1 <= r[k].b <= nodes {
      if k < |input| {
        assert r[k] == r[..|input|][k];
      } else {
        var e := k - |input|;
        assert Spliced(r[|input| + e], comps, entries[e]);
        var u, v :| u in comps[entries[e].a - 1] && v in comps[entries[e].b - 1] &&
          r[k] == Triple(Min(u, v), Max(u, v), entries[e].w);
      }
    }
  }

  /** Sorting keeps the endpoints in range. */
  lemma SortEndpoints(s: seq<Triple>, nodes: nat)
    requires Endpoints(s, nodes)
    ensures Endpoints(SortByFirst(s), nodes)
  {
    var r := SortByFirst(s);
    SortKeepsElements(s);
    forall k | 0 <= k < |r| ensures 1 <= r[k].a <= nodes && 1 <= r[k].b <= nodes {
      assert r[k] in s;
    }
  }

  /** The components found for a list within 1..nodes satisfy the round state. */
  method Components(input: seq<Triple>, nodes: nat) returns (comps: seq<Component>)
    requires Endpoints(input, nodes)
    ensures RoundState(input, comps, nodes)
  {
    comps := FindConnectedComponents(input, nodes);
    NoZeroTouched(input, nodes);
  }

  /** `erdosGraphRecursive(nodes, p, seed)`. `rand(0)` is the draw stream of
      the first `erdosInputGen` call and `rand(k)` that of round k, whose
      seed comes from the generator; `pick(k)` is round k's sample stream.
      The source loops until one component remains; here the loop runs at
      most `fuel` rounds, and the graph is built only when it ended with
      at most one component. */
  method ErdosGraphRecursive(nodes: nat, below: nat -> bool, rand: nat -> nat -> nat, pick: nat -> nat -> nat, fuel: nat)
      returns (input: seq<Triple>, comps: seq<Component>, g: Option<Graph>)
    ensures RoundState(input, comps, nodes)
    ensures g.Some? <==> |comps| <= 1
    ensures g.Some? ==> g.value.Valid() && g.value.nodeCount == nodes && g.value.Built(input)
  {
    input := ErdosInputGen(nodes, below, rand(0));
    comps := Components(input, nodes);
    var round := 1;
    while |comps| > 1 && round <= fuel
      invariant RoundState(input, comps, nodes)
      decreases fuel + 1 - round
    {
      var entries := ErdosInputGen(|comps|, below, rand(round));
      var spliced := SpliceEdges(input, comps, entries, pick(round));
      SpliceEndpoints(input, comps, entries, spliced, nodes);
      SortEndpoints(spliced, nodes);
      input := SortByFirst(spliced);
      comps := Components(input, nodes);
      round := round + 1;
    }
    if |comps| <= 1 {
      var list := new EdgeList(input);
      var built := new Graph(list, nodes);
      g := Some(built);
    } else {
      g := None;
    }
  }

  /** When the loop ends with at most one component, every two nodes of
      1..nodes share it and are linked by a walk along the final edge list:
      the graph is connected. */
  lemma OneComponentConnected(input: seq<Triple>, comps: seq<Component>, nodes: nat, x: nat, y: nat)
    requires RoundState(input, comps, nodes) && |comps| <= 1
    requires 1 <= x <= nodes && 1 <= y <= nodes
    ensures |comps| == 1 && SameComp(comps, x, y)
    ensures Linked(input, x, y)
  {
    assert CompIndex(comps, x) < |comps| && CompIndex(comps, y) < |comps|;
    assert x in comps[0] && y in comps[0];
  }
}

/** The chromosome of the longest path problem
    (app/longest_path_problem/path_chromosome.hpp): one preference per node
    of a shared graph. Slot 0 holds the start node; slot i >= 1 holds the
    neighbour the walk moves to after visiting i. The graph's random choices
    (`gen()`, `rand()` and `getRandomEdge`) are parameters or arbitrary
    choices of the model. */
module PathChromosome {
  import opened Wrappers
  import opened Graph
  import TailSwap
  import ToString

  /** Every neighbour of every node is a node: no edge leaves the graph. */
  ghost predicate Closed(g: Graph)
    reads g
    requires g.Valid()
  {
    forall i, j :: 0 <= i <= g.nodeCount && j in g.edges[i] ==> j <= g.nodeCount
  }

  /** A graph built from a list whose endpoints all lie in 0..nodeCount is closed. */
  lemma BuiltClosed(g: Graph, input: seq<Triple>)
    requires g.Valid() && g.Built(input)
    requires forall t :: t in input ==> t.a <= g.nodeCount && t.b <= g.nodeCount
    ensures Closed(g)
  {
    forall i, j | 0 <= i <= g.nodeCount && j in g.edges[i] ensures j <= g.nodeCount {
      FixedInputKeys(input, i, j);
    }
  }

  /** A graph built from a list that never names node 0 has no neighbour
      for node 0: the constructor's map for index 0 stays empty. */
  lemma NodeZeroEmpty(g: Graph, input: seq<Triple>)
    requires g.Valid() && g.Built(input)
    requires forall t :: t in input ==> t.a >= 1 && t.b >= 1
    ensures g.edges[0] == map[]
  {
    forall j ensures j !in g.edges[0] {
      FixedInputKeys(input, 0, j);
    }
    assert g.edges[0].Keys == {};
  }

  /** A set with two or more members has one other than x. */
  lemma OtherMember(s: set<nat>, x: nat)
    requires |s| > 1
    ensures exists y :: y in s && y != x
  {
    if s <= {x} {
      SubsetCard(s, {x});
    }
    assert !(s <= {x});
  }

  /** `x0 | x1, ..., xk`: the shape both halves of the chromosome text share. */
  function Part(xs: seq<nat>): string
    requires |xs| >= 1
  {
    ToString.NatToString(xs[0]) + " | " + ToString.JoinNats(xs[1..])
  }

  /** `getChromosomeText`: `(p0 | p1, ..., pn) - [w | n1, n2, ...]` for the
      preferences p and the output `[w, n1, n2, ...]` of `computePath`. */
  function Text(prefs: seq<nat>, path: seq<nat>): string
    requires |prefs| >= 1 && |path| >= 1
  {
    "(" + Part(prefs) + ") - [" + Part(path) + "]"
  }

  /** `u1 + v1 == u2 + v2` where both v's start with c and neither u holds c:
      the u's agree, and so do the v's. */
  lemma SplitAt(u1: string, v1: string, u2: string, v2: string, c: char)
    requires u1 + v1 == u2 + v2
    requires |v1| > 0 && v1[0] == c && |v2| > 0 && v2[0] == c
    requires forall k :: 0 <= k < |u1| ==> u1[k] != c
    requires forall k :: 0 <= k < |u2| ==> u2[k] != c
    ensures u1 == u2 && v1 == v2
  {
    var s := u1 + v1;
    assert s[|u1|] == c && s[|u2|] == c;
    assert forall k :: 0 <= k < |u1| ==> s[k] != c;
    assert forall k :: 0 <= k < |u2| ==> s[k] != c;
    assert u1 == s[..|u1|] && v1 == s[|u1|..];
  }

  /** A part holds no closing parenthesis. */
  lemma PartChars(xs: seq<nat>)
    requires |xs| >= 1
    ensures forall k :: 0 <= k < |Part(xs)| ==> Part(xs)[k] != ')'
  {
    var n, j := ToString.NatToString(xs[0]), ToString.JoinNats(xs[1..]);
    ToString.JoinNatsChars(xs[1..]);
    forall k | 0 <= k < |Part(xs)| ensures Part(xs)[k] != ')' {
      if k >= |n| + 3 {
        assert Part(xs)[k] == j[k - |n| - 3];
      }
    }
  }

  /** A part gives back its numbers. */
  lemma PartInjective(xs: seq<nat>, ys: seq<nat>)
    requires |xs| >= 1 && |ys| >= 1 && Part(xs) == Part(ys)
    ensures xs == ys
  {
    var n1, n2 := ToString.NatToString(xs[0]), ToString.NatToString(ys[0]);
    var j1, j2 := ToString.JoinNats(xs[1..]), ToString.JoinNats(ys[1..]);
    assert n1 + (" | " + j1) == Part(xs) == Part(ys) == n2 + (" | " + j2);
    SplitAt(n1, " | " + j1, n2, " | " + j2, ' ');
    ToString.NatToStringInjective(xs[0], ys[0]);
    assert j1 == (" | " + j1)[3..] == (" | " + j2)[3..] == j2;
    ToString.JoinNatsInjective(xs[1..], ys[1..]);
    assert xs == [xs[0]] + xs[1..] && ys == [ys[0]] + ys[1..];
  }

  /** Equal strings around a common prefix and suffix have equal middles. */
  lemma Unframe(pre: string, a: string, b: string, post: string)
    requires pre + a + post == pre + b + post
    ensures a == b
  {
    var s, t := pre + a + post, pre + b + post;
    assert a == s[|pre|..|s| - |post|];
    assert b == t[|pre|..|t| - |post|];
  }

  /** The shape of the text, `(a) - [b]`, gives back a and b when a holds
      no closing parenthesis. */
  lemma FramedParts(a: string, b: string, c: string, d: string)
    requires forall k :: 0 <= k < |a| ==> a[k] != ')'
    requires forall k :: 0 <= k < |c| ==> c[k] != ')'
    requires "(" + a + ") - [" + b + "]" == "(" + c + ") - [" + d + "]"
    ensures a == c && b == d
  {
    var r1, r2 := ") - [" + b + "]", ") - [" + d + "]";
    assert a + r1 == c + r2 by {
      assert "(" + a + ") - [" + b + "]" == "(" + (a + r1) + "";
      assert "(" + c + ") - [" + d + "]" == "(" + (c + r2) + "";
      Unframe("(", a + r1, c + r2, "");
    }
    SplitAt(a, r1, c, r2, ')');
    Unframe(") - [", b, d, "]");
  }

  /** The text states the chromosome and its path without loss: two texts
      agree only for the same preferences and the same path. */
  lemma TextInjective(p: seq<nat>, pp: seq<nat>, q: seq<nat>, qp: seq<nat>)
    requires |p| >= 1 && |pp| >= 1 && |q| >= 1 && |qp| >= 1
    requires Text(p, pp) == Text(q, qp)
    ensures p == q && pp == qp
  {
    PartChars(p);
    PartChars(q);
    FramedParts(Part(p), Part(pp), Part(q), Part(qp));
    PartInjective(p, q);
    PartInjective(pp, qp);
  }

  /** `std::to_string(path[0]) + " | "` and so on: the text of `xs[1..]`
      joined by ", ", appended to `str`, as both loops of
      `getChromosomeText` build it. */
  method AppendJoined(str: string, xs: seq<nat>) returns (s: string)
    requires |xs| >= 1
    ensures s == str + ToString.JoinNats(xs[1..])
  {
    s := str;
    var i := 1;
    while i < |xs|
      invariant 1 <= i <= |xs|
      invariant s == str + ToString.JoinNats(xs[1..i])
    {
      if i != 1 {
        s := s + ", ";
      }
      s := s + ToString.NatToString(xs[i]);
      assert xs[1..i + 1][..i - 1] == xs[1..i];
      i := i + 1;
    }
    assert xs[1..i] == xs[1..];
  }
  /** The first element, " | ", then the rest joined, appended to str. */
  method AppendPart(str: string, xs: seq<nat>) returns (s: string)
    requires |xs| >= 1
    ensures s == str + Part(xs)
  {
    var head := ToString.NatToString(xs[0]) + " | ";
    s := AppendJoined(str + head, xs);
    assert s == str + (head + ToString.JoinNats(xs[1..]));
  }


  class PathChromosome {
    var elite: bool
    var prefs: seq<nat>
    /** `graph_ref_`: the graph every chromosome of a run shares. */
    const graph: Graph

    /** Slot 0 is a node, slot i >= 1 a neighbour of node i. */
    ghost predicate Valid()
      reads this, graph
    {
      && graph.Valid()
      && |prefs| == graph.nodeCount + 1
      && prefs[0] <= graph.nodeCount
      && (forall i :: 1 <= i < |prefs| ==> prefs[i] in graph.edges[i])
    }

    /** `PathChromosome(graph, gen)`: the start node is `first % nodeCount + 1`
        for the draw `first`, and every node i gets a neighbour drawn by
        `getRandomEdge(i)`, which needs i to have one. */
    constructor (g: Graph, first: nat)
      requires g.Valid() && g.nodeCount >= 1
      requires forall i :: 1 <= i <= g.nodeCount ==> |g.edges[i]| > 0
      ensures graph == g && Valid() && !elite
      ensures 1 <= prefs[0] == first % g.nodeCount + 1
    {
      var p: seq<nat> := seq(g.nodeCount + 1, _ => 0);
      p := p[0 := first % g.nodeCount + 1];
      var i := 1;
      while i <= g.nodeCount
        invariant 1 <= i <= g.nodeCount + 1 && |p| == g.nodeCount + 1
        invariant p[0] == first % g.nodeCount + 1
        invariant forall k :: 1 <= k < i ==> p[k] in g.edges[k]
      {
        var j := g.GetRandomEdge(i);
        p := p[i := j];
        i := i + 1;
      }
      graph := g;
      prefs := p;
      elite := false;
    }

    /** `getPathLength` (and `getValue`): the weight `computePath` reports
        for the walk the preferences describe; it throws where `getEdge`
        does. */
    method GetPathLength() returns (r: Result<nat>, ghost walk: seq<nat>)
      requires Valid()
      ensures graph.IsWalk(prefs, walk)
      ensures r.Ok? ==> graph.Halts(prefs, walk) && r.value == graph.WalkWeight(walk)
      ensures r.Err? ==> r.error == InvalidArgument && graph.Throws(prefs, walk)
    {
      var path;
      path, walk := graph.ComputePath(prefs);
      if path.Err? {
        return Err(path.error), walk;
      }
      return Ok(path.value[0]), walk;
    }

    /** On a closed graph the walk never leaves the node range, so
        `getPathLength` cannot throw. */
    lemma ClosedNeverThrows(walk: seq<nat>)
      requires Valid() && Closed(graph) && graph.IsWalk(prefs, walk)
      ensures !graph.Throws(prefs, walk)
    {
      graph.WalkInRange(prefs, walk);
      var c := walk[|walk| - 1];
      if |walk| == 1 {
        assert c == prefs[0];
      }
      assert c <= graph.nodeCount;
      if c >= 1 {
        assert prefs[c] in graph.edges[c];
      }
      assert prefs[c] <= graph.nodeCount;
    }

    /** `getChromosomeText`: the preferences, then the output of
        `computePath`; it throws where `computePath` does. */
    method GetChromosomeText() returns (r: Result<string>, path: seq<nat>, ghost walk: seq<nat>)
      requires Valid()
      ensures graph.IsWalk(prefs, walk)
      ensures r.Ok? ==> graph.Halts(prefs, walk)
      ensures r.Ok? ==> |path| == |walk| + 1 && path[0] == graph.WalkWeight(walk) && path[1..] == walk
      ensures r.Ok? ==> r.value == Text(prefs, path)
      ensures r.Err? ==> r.error == InvalidArgument && graph.Throws(prefs, walk)
    {
      var str := AppendPart("(", prefs);
      str := str + ") - [";
      var out;
      out, walk := graph.ComputePath(prefs);
      if out.Err? {
        return Err(out.error), [], walk;
      }
      path := out.value;
      str := AppendPart(str, path);
      r := Ok(str + "]");
    }

    /** The new preferences after `mutate`: slot i is redrawn when its roll
        is at most `probability` and node i has more than one neighbour, and
        then holds a different neighbour; every other slot is kept. */
    ghost predicate Mutated(before: seq<nat>, after: seq<nat>, probability: real, roll: nat -> real)
      reads graph
      requires graph.Valid() && |before| == graph.nodeCount + 1
    {
      && |after| == |before|
      && forall i :: 0 <= i < |before| ==>
           if roll(i) <= probability && |graph.edges[i]| > 1
           then after[i] in graph.edges[i] && after[i] != before[i]
           else after[i] == before[i]
    }

    /** Where node 0 has at most one neighbour, as in every graph built from
        1-indexed input, mutation never moves the start node. */
    lemma MutateKeepsStart(before: seq<nat>, after: seq<nat>, probability: real, roll: nat -> real)
      requires graph.Valid() && |before| == graph.nodeCount + 1 && |graph.edges[0]| <= 1
      requires Mutated(before, after, probability, roll)
      ensures after[0] == before[0]
    {
      assert 0 < |before|;
    }

    /** `mutate(probability, gen)`: a probability outside [0, 1] throws
        before any slot changes. Otherwise slot i is rolled with `roll(i)`
        (the model of `rand() / RAND_MAX`), and a hit redraws it until it
        differs, which the model takes as the choice of a different
        neighbour. Slot 0 is redrawn from the neighbours of node 0, which
        therefore have to be nodes. */
    method Mutate(probability: real, roll: nat -> real) returns (o: Outcome)
      requires Valid()
      requires forall j :: j in graph.edges[0] ==> j <= graph.nodeCount
      modifies this
      ensures Valid() && elite == old(elite)
      ensures probability < 0.0 || probability > 1.0 ==> o == Fail(InvalidArgument) && prefs == old(prefs)
      ensures 0.0 <= probability <= 1.0 ==> o == Pass && Mutated(old(prefs), prefs, probability, roll)
    {
      if probability < 0.0 || probability > 1.0 {
        return Fail(InvalidArgument);
      }
      var i := 0;
      while i < |prefs|
        invariant 0 <= i <= |prefs| == |old(prefs)|
        invariant Valid() && elite == old(elite)
        invariant forall k :: i <= k < |prefs| ==> prefs[k] == old(prefs)[k]
        invariant forall k :: 0 <= k < i ==>
          if roll(k) <= probability && |graph.edges[k]| > 1
          then prefs[k] in graph.edges[k] && prefs[k] != old(prefs)[k]
          else prefs[k] == old(prefs)[k]
      {
        if roll(i) <= probability {
          var oldPref := prefs[i];
          if |graph.GetNodeEdgeSet(i)| > 1 {
            OtherMember(graph.edges[i].Keys, oldPref);
            var j :| j in graph.edges[i] && j != oldPref;
            prefs := prefs[i := j];
          }
        }
        i := i + 1;
      }
      o := Pass;
    }

    /** `crossover(pos, other)`: the preferences from `pos` on are exchanged
        with those of `other`, which shares the graph. A negative `pos`
        exchanges everything; `pos` may not lie beyond the end. */
    method Crossover(pos: int, other: PathChromosome)
      requires Valid() && other.Valid() && other.graph == graph
      requires pos <= |prefs|
      modifies this, other
      ensures Valid() && other.Valid()
      ensures (prefs, other.prefs) == TailSwap.SwapTails(old(prefs), old(other.prefs), pos)
      ensures elite == old(elite) && other.elite == old(other.elite)
    {
      ghost var a, b := prefs, other.prefs;
      var p := TailSwap.Cut(pos);
      var k := p;
      while k < |prefs|
        invariant p <= k <= |prefs| == |a| == |b| == |other.prefs|
        invariant forall t :: 0 <= t < |a| ==> prefs[t] == (if p <= t < k then b[t] else a[t])
        invariant forall t :: 0 <= t < |a| ==> other.prefs[t] == (if p <= t < k then a[t] else b[t])
        invariant elite == old(elite) && other.elite == old(other.elite)
      {
        var temp := prefs[k];
        prefs := prefs[k := other.prefs[k]];
        other.prefs := other.prefs[k := temp];
        k := k + 1;
      }
      var r := TailSwap.SwapTails(a, b, pos);
      assert prefs == r.0;
      assert other.prefs == r.1;
    }

    /** `crossover(other)`: the position is `random_int(prefs.size())`, the
        draw `draw` reduced into 0..size-1, so at least the last slot is
        exchanged. */
    method CrossoverRandom(other: PathChromosome, draw: nat)
      requires Valid() && other.Valid() && other.graph == graph
      modifies this, other
      ensures Valid() && other.Valid()
      ensures (prefs, other.prefs) == TailSwap.SwapTails(old(prefs), old(other.prefs), draw % |old(prefs)|)
      ensures prefs[|prefs| - 1] == old(other.prefs)[|prefs| - 1]
      ensures other.prefs[|prefs| - 1] == old(prefs)[|prefs| - 1]
    {
      Crossover(draw % |prefs|, other);
    }

    /** `setElite`: only the flag changes. */
    method SetElite(e: bool)
      modifies this
      ensures elite == e && prefs == old(prefs)
    {
      elite := e;
    }
  }

  /** Crossing over twice at the same position restores both chromosomes. */
  method CrossoverTwice(x: PathChromosome, y: PathChromosome, pos: int)
    requires x.Valid() && y.Valid() && x.graph == y.graph && pos <= |x.prefs|
    modifies x, y
    ensures x.prefs == old(x.prefs) && y.prefs == old(y.prefs)
  {
    TailSwap.SwapTailsInvolution(x.prefs, y.prefs, pos);
    x.Crossover(pos, y);
    x.Crossover(pos, y);
  }
}

/**
 What a schedule computed from a flow graph promises: an ordering of nodes in
 which every node comes after its upstream contributors, and level boundaries
 that cut the ordering into half-open ranges [levels[i], levels[i + 1]) whose
 nodes can be processed in parallel.
 */
module ScheduleSpec {
  import opened FlowGraph

  /** Position `p` of the ordering lies in level `i`. */
  predicate InLevel(levels: seq<int>, p: int, i: int) {
    0 <= i < |levels| - 1 && levels[i] <= p < levels[i + 1]
  }

  /** Upstream contributors come strictly earlier in the ordering. A sink,
      which contributes to itself, therefore cannot be in it. */
  ghost predicate Topological(down: seq<int>, ord: seq<int>) {
    forall a, b :: 0 <= a < |ord| && 0 <= b < |ord| && Feeds(down, ord[a], ord[b]) ==> a < b
  }

  /** Every upstream contributor of `v` is in the ordering. */
  ghost predicate Ready(down: seq<int>, ord: seq<int>, v: int) {
    forall u :: Feeds(down, u, v) ==> u in ord
  }

  /** A node is in the ordering exactly when all its upstream contributors are.
      (The trigger keeps the solver from chasing contributors upstream without end.) */
  ghost predicate ReadyExactly(down: seq<int>, ord: seq<int>) {
    forall v {:trigger Ready(down, ord, v)} :: 0 <= v < |down| ==> (v in ord <==> Ready(down, ord, v))
  }

  /** The boundaries start at 0 and end with |ord| written twice; they rise strictly up to
      the repeated final entry, and an empty ordering has the boundaries [0, 0, 0]. */
  ghost predicate LevelShape(ord: seq<int>, levels: seq<int>) {
    && |levels| >= 3
    && levels[0] == 0
    && levels[|levels| - 1] == |ord|
    && levels[|levels| - 2] == |ord|
    && (ord == [] ==> levels == [0, 0, 0])
    && (ord != [] ==> forall i, j :: 0 <= i < j < |levels| - 1 ==> levels[i] < levels[j])
  }

  /** An upstream contributor lies in a strictly earlier level. */
  ghost predicate LevelsRespectFlow(down: seq<int>, ord: seq<int>, levels: seq<int>) {
    forall a, b, i, j ::
      0 <= a < |ord| && 0 <= b < |ord| && Feeds(down, ord[a], ord[b]) && InLevel(levels, a, i) && InLevel(levels, b, j)
      ==> i < j
  }

  /** Breadth-first levels: level 0 holds exactly the nodes without contributors, and a node in
      level j > 0 has a contributor in level j - 1. Together with LevelsRespectFlow this makes
      the level of a node one more than the largest level of its contributors. */
  ghost predicate BfsLevels(down: seq<int>, ord: seq<int>, levels: seq<int>) {
    forall b, j :: 0 <= b < |ord| && InLevel(levels, b, j) ==>
      && (j == 0 <==> InDegree(down, ord[b]) == 0)
      && (j > 0 ==> exists a :: 0 <= a < |ord| && Feeds(down, ord[a], ord[b]) && InLevel(levels, a, j - 1))
  }

  /** Everything the breadth-first expansion promises about its result. */
  ghost predicate Schedule(down: seq<int>, ord: seq<int>, levels: seq<int>)
    requires ValidGraph(down)
  {
    && AllNodes(down, ord) && Distinct(ord) && |ord| <= |down|
    && Topological(down, ord)
    && ReadyExactly(down, ord)
    && (forall v :: 0 <= v < |down| ==> (v in ord <==> !OnCycle(down, v)))
    && LevelShape(ord, levels)
    && ord[..levels[1]] == Sources(down)
    && LevelsRespectFlow(down, ord, levels)
    && BfsLevels(down, ord, levels)
  }

  // ---------------------------------------------------------------------------
  // The nodes of a ready-closed ordering are exactly the nodes off cycles

  /** Every upstream contributor of a node in the ordering is in the ordering. */
  ghost predicate UpstreamClosed(down: seq<int>, ord: seq<int>) {
    forall b, u :: 0 <= b < |ord| && Feeds(down, u, ord[b]) ==> u in ord
  }

  /** Following m >= 1 links from x into the ordering, x itself is in the ordering, earlier. */
  lemma {:induction false} ReachedFromEarlier(down: seq<int>, ord: seq<int>, x: int, m: nat, p: int)
    requires ValidGraph(down) && 0 <= x < |down|
    requires Topological(down, ord) && UpstreamClosed(down, ord)
    requires 1 <= m && 0 <= p < |ord| && ord[p] == Iterate(down, x, m)
    ensures exists r :: 0 <= r < p && ord[r] == x
    decreases m
  {
    var y := Iterate(down, x, m - 1);
    IterateAdd(down, x, m - 1, 1);
    assert Feeds(down, y, ord[p]);
    assert y in ord;
    var r :| 0 <= r < |ord| && ord[r] == y;
    if m > 1 {
      ReachedFromEarlier(down, ord, x, m - 1, r);
    }
  }

  lemma ReadyExactlyClosed(down: seq<int>, ord: seq<int>)
    requires AllNodes(down, ord) && ReadyExactly(down, ord)
    ensures UpstreamClosed(down, ord)
  {
    forall b, u | 0 <= b < |ord| && Feeds(down, u, ord[b])
      ensures u in ord
    {
      assert Ready(down, ord, ord[b]);
    }
  }

  /** A chain of m + 1 nodes outside the ordering, each contributing to the one before it. */
  lemma {:induction false} UpstreamChain(down: seq<int>, ord: seq<int>, v: int, m: nat) returns (chain: seq<int>)
    requires ValidGraph(down) && 0 <= v < |down| && v !in ord
    requires ReadyExactly(down, ord)
    ensures |chain| == m + 1 && chain[0] == v
    ensures forall j :: 0 <= j < |chain| ==> 0 <= chain[j] < |down| && chain[j] !in ord && Iterate(down, chain[j], j) == v
    ensures forall j :: 1 <= j < |chain| ==> down[chain[j]] == chain[j - 1]
  {
    if m == 0 {
      chain := [v];
    } else {
      var prev := UpstreamChain(down, ord, v, m - 1);
      var w := prev[m - 1];
      assert !Ready(down, ord, w);
      var u :| Feeds(down, u, w) && u !in ord;
      chain := prev + [u];
      assert Iterate(down, u, m) == Iterate(down, w, m - 1);
    }
  }

  /** In a ready-closed topological ordering of distinct nodes, the nodes present are exactly
      those on no cycle of downstream links (sinks included among the cycles). */
  lemma ReadyExactlyIsAcyclicPart(down: seq<int>, ord: seq<int>)
    requires ValidGraph(down) && AllNodes(down, ord) && Distinct(ord)
    requires Topological(down, ord) && ReadyExactly(down, ord)
    ensures forall v :: 0 <= v < |down| ==> (v in ord <==> !OnCycle(down, v))
  {
    ReadyExactlyClosed(down, ord);
    forall v | 0 <= v < |down|
      ensures v in ord <==> !OnCycle(down, v)
    {
      if v in ord {
        if OnCycle(down, v) {
          var k: nat :| 1 <= k && Iterate(down, v, k) == v;
          var p :| 0 <= p < |ord| && ord[p] == v;
          ReachedFromEarlier(down, ord, v, k, p);
        }
      } else {
        var chain := UpstreamChain(down, ord, v, |down|);
        if Distinct(chain) {
          DistinctBound(|down|, chain);
        }
        var i, j :| 0 <= i < j < |chain| && chain[i] == chain[j];
        IterateAdd(down, chain[i], i, j - i);
        assert Iterate(down, v, j - i) == v;
      }
    }
  }

  /** An outlet, which drains into itself, is never in a schedule's ordering. */
  lemma OutletExcluded(down: seq<int>, ord: seq<int>, levels: seq<int>, s: int)
    requires ValidGraph(down) && Schedule(down, ord, levels)
    requires 0 <= s < |down| && down[s] == s
    ensures s !in ord
  {
    assert Iterate(down, s, 1) == s;
  }

  // ---------------------------------------------------------------------------
  // Levels

  /** Boundaries of the expected shape never decrease. */
  lemma ShapeMonotone(ord: seq<int>, levels: seq<int>)
    requires LevelShape(ord, levels)
    ensures forall i, j :: 0 <= i <= j < |levels| ==> levels[i] <= levels[j]
  {
  }

  /** With non-decreasing boundaries a position lies in at most one level. */
  lemma LevelUnique(levels: seq<int>, p: int, i: int, j: int)
    requires forall a, b :: 0 <= a <= b < |levels| ==> levels[a] <= levels[b]
    requires InLevel(levels, p, i) && InLevel(levels, p, j)
    ensures i == j
  {
  }

  /** An empty initial frontier: no node is ever scheduled and the boundaries are [0, 0, 0]. */
  lemma EmptyFrontier(down: seq<int>, ord: seq<int>, levels: seq<int>)
    requires ValidGraph(down) && Schedule(down, ord, levels)
    requires Sources(down) == []
    ensures ord == [] && levels == [0, 0, 0]
  {
  }

  /** Every position of the ordering lies in some level. */
  lemma {:induction false} ShapeCovers(ord: seq<int>, levels: seq<int>, p: int, k: nat)
    requires LevelShape(ord, levels)
    requires 0 <= p < |ord| && k < |levels| && levels[k] <= p
    ensures exists i :: InLevel(levels, p, i)
    decreases |levels| - k
  {
    if p < levels[k + 1] {
      assert InLevel(levels, p, k);
    } else {
      ShapeCovers(ord, levels, p, k + 1);
    }
  }
}

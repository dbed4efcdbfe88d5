/**
 Small flow graphs whose schedule is fixed by Schedule alone: whatever
 GetDependencies returns on them, these are its ordering and boundaries.
 */
module Scenarios {
  import opened FlowGraph
  import opened ScheduleSpec

  /** A chain 0 -> 1 -> 2 ending in the outlet 2: one node per level, and the
      outlet, which drains into itself, is never ordered. */
  lemma Chain(ord: seq<int>, levels: seq<int>)
    requires Schedule([1, 2, 2], ord, levels)
    ensures ord == [0, 1] && levels == [0, 1, 2, 2]
  {
    ChainSources();
    ChainCycles();
    ChainOrdering(ord);
    ChainLevels(levels);
  }

  lemma ChainSources()
    ensures Sources([1, 2, 2]) == [0]
  {
    var t := InDegrees([1, 2, 2]);
    forall v | 0 <= v < 3
      ensures CountFeeders([1, 2, 2], v, 3) == (if v == 0 then 0 else if v == 1 then 1 else 2)
    {
      assert CountFeeders([1, 2, 2], v, 1) == (if v == 1 then 1 else 0);
    }
    assert t == [0, 1, 2];
    assert t[..2][..1] == [0] && t[..2] == [0, 1];
    assert ZeroIndices([0]) == [0] by { assert [0][..0] == []; }
  }

  lemma ChainCycles()
    ensures !OnCycle([1, 2, 2], 0) && !OnCycle([1, 2, 2], 1) && OnCycle([1, 2, 2], 2)
  {
    assert Iterate([1, 2, 2], 2, 1) == 2;
    forall k: nat | 1 <= k
      ensures Iterate([1, 2, 2], 0, k) != 0 && Iterate([1, 2, 2], 1, k) != 1
    {
      ChainIterate(k);
    }
  }

  lemma {:induction false} ChainIterate(k: nat)
    requires 1 <= k
    ensures Iterate([1, 2, 2], 0, k) != 0 && Iterate([1, 2, 2], 1, k) == 2
  {
    if k > 1 {
      ChainIterate(k - 1);
      IterateAdd([1, 2, 2], 0, k - 1, 1);
      IterateAdd([1, 2, 2], 1, k - 1, 1);
    }
  }

  /** The distinct nodes 0 and 1, and no other, led by the source 0. */
  lemma ChainOrdering(ord: seq<int>)
    requires Distinct(ord) && 0 in ord && 1 in ord
    requires forall k :: 0 <= k < |ord| ==> 0 <= ord[k] < 2
    requires ord != [] && ord[0] == 0
    ensures ord == [0, 1]
  {
    DistinctBound(2, ord);
  }

  /** Boundaries of the expected shape, with 1 as the second, over two nodes. */
  lemma ChainLevels(levels: seq<int>)
    requires |levels| >= 3 && levels[0] == 0 && levels[1] == 1
    requires levels[|levels| - 1] == 2 && levels[|levels| - 2] == 2
    requires forall i, j :: 0 <= i < j < |levels| - 1 ==> levels[i] < levels[j]
    ensures levels == [0, 1, 2, 2]
  {
    RisingBound(levels, |levels| - 2);
    assert |levels| == 4;
    assert levels == [levels[0], levels[1], levels[2], levels[3]];
  }

  /** Strictly rising integer boundaries grow by at least one per step. */
  lemma {:induction false} RisingBound(levels: seq<int>, i: nat)
    requires i < |levels| - 1
    requires forall a, b :: 0 <= a < b < |levels| - 1 ==> levels[a] < levels[b]
    ensures levels[i] >= levels[0] + i
  {
    if i > 0 {
      RisingBound(levels, i - 1);
    }
  }

  /** Two sources draining into the outlet 2: both form level 0, and the
      outlet is never ordered. */
  lemma TwoSources(ord: seq<int>, levels: seq<int>)
    requires Schedule([2, 2, 2], ord, levels)
    ensures ord == [0, 1] && levels == [0, 2, 2]
  {
    TwoSourcesFrontier();
    assert Iterate([2, 2, 2], 2, 1) == 2;
    assert OnCycle([2, 2, 2], 2);
    assert |ord| == 2 by {
      DistinctBound(2, ord);
    }
    assert ord == ord[..2];
    RisingBound(levels, |levels| - 2);
    assert levels == [levels[0], levels[1], levels[2]];
  }

  lemma TwoSourcesFrontier()
    ensures Sources([2, 2, 2]) == [0, 1]
  {
    var t := InDegrees([2, 2, 2]);
    assert CountFeeders([2, 2, 2], 2, 1) == 1;
    assert t == [0, 0, 3];
    assert t[..2][..1] == [0] && t[..2] == [0, 0];
    assert ZeroIndices([0]) == [0] by { assert [0][..0] == []; }
  }

  /** A ring 0 -> 1 -> 2 -> 0: no node lacks contributors, so the frontier
      starts empty and nothing is ordered. */
  lemma Ring(ord: seq<int>, levels: seq<int>)
    requires Schedule([1, 2, 0], ord, levels)
    ensures ord == [] && levels == [0, 0, 0]
  {
    var t := InDegrees([1, 2, 0]);
    forall v | 0 <= v < 3
      ensures CountFeeders([1, 2, 0], v, 3) == 1
    {
      assert CountFeeders([1, 2, 0], v, 1) == (if v == 1 then 1 else 0);
    }
    assert t == [1, 1, 1];
    assert t[..2][..1] == [1] && t[..2] == [1, 1];
    assert ZeroIndices([1]) == [] by { assert [1][..0] == []; }
    EmptyFrontier([1, 2, 0], ord, levels);
  }

  /** A lone outlet: its own link keeps its counter at one, so nothing is ordered. */
  lemma LoneOutlet(ord: seq<int>, levels: seq<int>)
    requires Schedule([0], ord, levels)
    ensures ord == [] && levels == [0, 0, 0]
  {
    assert InDegrees([0]) == [1];
    assert ZeroIndices([1]) == [] by { assert [1][..0] == []; }
    EmptyFrontier([0], ord, levels);
  }

  /** Two nodes draining into each other: no node lacks contributors, so the
      frontier starts empty and nothing is ordered. */
  lemma Loop(ord: seq<int>, levels: seq<int>)
    requires Schedule([1, 0], ord, levels)
    ensures ord == [] && levels == [0, 0, 0]
  {
    var t := InDegrees([1, 0]);
    assert CountFeeders([1, 0], 0, 1) == 0 && CountFeeders([1, 0], 1, 1) == 1;
    assert t == [1, 1];
    assert t[..1] == [1] && ZeroIndices([1]) == [] by { assert [1][..0] == []; }
    EmptyFrontier([1, 0], ord, levels);
  }
}

/**
 GetDependencies of breadth-first-expansion.cpp: a breadth-first (Kahn-style)
 traversal of a functional flow graph that produces a processing order in
 which every node follows its upstream contributors, cut into levels whose
 nodes may be processed in parallel.

 The graph is given by its downstream links, `down[u]` being the
 `downStreamNode` field of node `u`. The counters are the in-place vector
 `deps` (an array here); the ordering, the boundaries and the queue are
 sequences that the loops extend.
 */
module BreadthFirstExpansion {
  import opened FlowGraph
  import opened ScheduleSpec
  import opened DrainInvariant

  /** Lines 2 and 17-18: one counter per node, incremented once for each node
      that drains into it. */
  method CountDependencies(down: seq<int>) returns (deps: array<int>)
    requires ValidGraph(down)
    ensures fresh(deps) && deps.Length == |down|
    ensures forall v :: 0 <= v < |down| ==> deps[v] == InDegree(down, v)
  {
    deps := new int[|down|](_ => 0);
    var i := 0;
    while i < |down|
      invariant 0 <= i <= |down|
      invariant forall v :: 0 <= v < |down| ==> deps[v] == CountFeeders(down, v, i)
    {
      deps[down[i]] := deps[down[i]] + 1;
      i := i + 1;
    }
  }

  /** Lines 21-24: the nodes whose counter is zero, in index order, followed by
      the level marker -1. */
  method SeedFrontier(deps: array<int>) returns (q: seq<int>)
    ensures q == ZeroIndices(deps[..]) + [-1]
  {
    q := [];
    var i := 0;
    while i < deps.Length
      invariant 0 <= i <= deps.Length
      invariant q == ZeroIndices(deps[..i])
    {
      assert deps[..i + 1][..i] == deps[..i];
      if deps[i] == 0 {
        q := q + [i];
      }
      i := i + 1;
    }
    assert deps[..deps.Length] == deps[..];
    q := q + [-1];
  }

  /** Line 40: the prefix decrement `--deps[dn]`, and whether it reached zero. */
  method Release(deps: array<int>, dn: int) returns (zero: bool)
    requires 0 <= dn < deps.Length
    modifies deps
    ensures deps[..] == old(deps[..][dn := deps[..][dn] - 1])
    ensures zero <==> deps[..][dn] == 0
  {
    deps[dn] := deps[dn] - 1;
    zero := deps[dn] == 0;
  }

  /** The whole expansion. The queue's front is removed as soon as it is read
      (line 27); the source reads `q.front()` without ever calling `q.pop()`.
      Every `emplace` on a vector is read as an append at its end. */
  method GetDependencies(down: seq<int>) returns (ordering: seq<int>, levels: seq<int>)
    requires ValidGraph(down)
    ensures Schedule(down, ordering, levels)
  {
    ordering := [];
    levels := [0];
    var deps := CountDependencies(down);
    assert deps[..] == InDegrees(down);
    var q := SeedFrontier(deps);

    // The split of the queue into the rest of this level and the next one,
    // the level of each ordered node and the number of the current level.
    ghost var qa := q[..|q| - 1];
    ghost var qb: seq<int> := [];
    ghost var depth: seq<nat> := [];
    ghost var cur: nat := 0;
    Initial(down, deps[..], q);
    assert qa == ZeroIndices(deps[..]);

    while true
      invariant deps.Length == |down|
      invariant Inv(down, deps[..], q, qa, qb, ordering, levels, depth, cur)
      decreases 2 * (|down| - |ordering|) + (if qa == [] then 1 else 0)
    {
      QueueFront(down, q, qa, qb);
      ghost var q0 := q;
      var c := q[0];
      q := q[1..];

      if c == -1 {
        ghost var top := levels;
        levels := levels + [|ordering|];
        if q == [] {
          Drained(down, deps[..], q0, qa, qb, ordering, top, depth, cur);
          break;
        }
        MarkerStep(down, deps[..], q0, qa, qb, ordering, top, depth, cur);
        q := q + [-1];
        qa, qb, cur := qb, [], cur + 1;
        continue;
      }

      NodeStep(down, deps[..], q0, qa, qb, ordering, levels, depth, cur);
      var dn := down[c];
      ordering := ordering + [c];
      var released := Release(deps, dn);
      if released {
        q := q + [dn];
        qb := qb + [dn];
      }
      qa := qa[1..];
      depth := depth + [cur];
    }

    levels := levels + [|ordering|];
  }
}

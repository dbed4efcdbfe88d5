/**
 The drain loop of GetDependencies exactly as breadth-first-expansion.cpp
 writes it: the front of the queue is read (line 27) and never removed. Each
 iteration is one step of a machine; the lemmas show that the front never
 changes, so the loop's only exit (lines 31-32) is never taken.
 */
module AsWritten {
  import opened FlowGraph

  /** The loop's variables, and whether the loop has exited. */
  datatype Machine = Machine(deps: seq<int>, q: seq<int>, ordering: seq<int>, levels: seq<int>, stopped: bool)

  /** The state of a running loop over `down`: the front of the queue is the
      marker or a node index, and there is one counter per node. */
  predicate Running(down: seq<int>, m: Machine) {
    && ValidGraph(down)
    && |m.deps| == |down|
    && m.q != []
    && (m.q[0] == -1 || 0 <= m.q[0] < |down|)
    && !m.stopped
  }

  /** The state on entering the loop (lines 2-24). */
  function Start(down: seq<int>): (m: Machine)
    requires ValidGraph(down)
    ensures Running(down, m)
  {
    var deps := InDegrees(down);
    ZeroIndicesExactly(deps);
    Machine(deps, ZeroIndices(deps) + [-1], [], [0], false)
  }

  /** One iteration of lines 27-41, with no `q.pop()`. It keeps the loop
      running with the same front, and appends to exactly one of the ordering
      and the boundaries. */
  function Step(down: seq<int>, m: Machine): (m': Machine)
    requires Running(down, m)
    ensures Running(down, m') && m'.q[0] == m.q[0]
    ensures |m'.ordering| + |m'.levels| == |m.ordering| + |m.levels| + 1
  {
    var c := m.q[0];
    if c == -1 then
      var levels := m.levels + [|m.ordering|];
      if m.q == [] then m.(levels := levels, stopped := true)
      else m.(levels := levels, q := m.q + [-1])
    else
      var dn := down[c];
      var deps := m.deps[dn := m.deps[dn] - 1];
      m.(ordering := m.ordering + [c], deps := deps, q := if deps[dn] == 0 then m.q + [dn] else m.q)
  }

  /** The state after `n` iterations. */
  function Run(down: seq<int>, m: Machine, n: nat): Machine
    requires Running(down, m)
    decreases n
  {
    if n == 0 then m else Run(down, Step(down, m), n - 1)
  }

  /** However many iterations have run, the loop has not exited, the front is
      the one it started with, and the ordering and boundaries have grown by n
      entries in total: the loop never terminates. */
  lemma {:induction false} NeverStops(down: seq<int>, m: Machine, n: nat)
    requires Running(down, m)
    ensures Running(down, Run(down, m, n))
    ensures Run(down, m, n).q[0] == m.q[0]
    ensures |Run(down, m, n).ordering| + |Run(down, m, n).levels| == |m.ordering| + |m.levels| + n
    decreases n
  {
    if n > 0 {
      NeverStops(down, Step(down, m), n - 1);
    }
  }

  /** A single node draining into itself: the front is the level marker, so the
      loop appends a boundary 0 on every iteration and orders nothing. */
  lemma {:induction false} SingleOutletLoops(n: nat)
    ensures Start([0]).q[0] == -1
    ensures Run([0], Start([0]), n).ordering == []
    ensures |Run([0], Start([0]), n).levels| == n + 1
    ensures !Run([0], Start([0]), n).stopped
  {
    OutletRun(Start([0]), n);
  }

  lemma {:induction false} OutletRun(m: Machine, n: nat)
    requires Running([0], m) && m.q[0] == -1
    ensures Run([0], m, n).ordering == m.ordering
    ensures |Run([0], m, n).levels| == |m.levels| + n
    ensures !Run([0], m, n).stopped
    decreases n
  {
    if n > 0 {
      OutletRun(Step([0], m), n - 1);
    }
  }
}

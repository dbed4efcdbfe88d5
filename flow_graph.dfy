/**
 A functional flow graph: nodes are the indices 0 .. |down| - 1 and node `u`
 drains into the single node `down[u]`. A node whose downstream index is its
 own index is a sink (an outlet).
 */
module FlowGraph {

  /** Every downstream index names a node (the source does no bounds checking). */
  predicate ValidGraph(down: seq<int>) {
    forall u :: 0 <= u < |down| ==> 0 <= down[u] < |down|
  }

  /** Node `u` is an upstream contributor of `v`: its downstream node is `v`. */
  predicate Feeds(down: seq<int>, u: int, v: int) {
    0 <= u < |down| && down[u] == v
  }

  /** Every entry of `s` is a node index. */
  predicate AllNodes(down: seq<int>, s: seq<int>) {
    forall k :: 0 <= k < |s| ==> 0 <= s[k] < |down|
  }

  /** No value occurs twice in `s`. */
  predicate Distinct(s: seq<int>) {
    forall i, j :: 0 <= i < j < |s| ==> s[i] != s[j]
  }

  // ---------------------------------------------------------------------------
  // In-degrees

  /** Number of nodes `u < n` whose downstream node is `v`. */
  function CountFeeders(down: seq<int>, v: int, n: nat): nat
    requires n <= |down|
  {
    if n == 0 then 0
    else CountFeeders(down, v, n - 1) + (if down[n - 1] == v then 1 else 0)
  }

  /** Number of upstream contributors of `v`; a sink counts itself. */
  function InDegree(down: seq<int>, v: int): nat {
    CountFeeders(down, v, |down|)
  }

  /** The table of in-degrees, one entry per node. */
  function InDegrees(down: seq<int>): (t: seq<int>)
    ensures |t| == |down|
    ensures forall v :: 0 <= v < |down| ==> t[v] == InDegree(down, v)
  {
    seq(|down|, v => InDegree(down, v))
  }

  /** The count is the size of the set of contributing nodes. */
  lemma {:induction false} CountFeedersIsCardinality(down: seq<int>, v: int, n: nat)
    requires n <= |down|
    ensures CountFeeders(down, v, n) == |set u | 0 <= u < n && down[u] == v|
  {
    if n > 0 {
      CountFeedersIsCardinality(down, v, n - 1);
      var before := set u | 0 <= u < n - 1 && down[u] == v;
      var after := set u | 0 <= u < n && down[u] == v;
      if down[n - 1] == v {
        assert after == before + {n - 1};
        assert n - 1 !in before;
      } else {
        assert after == before;
      }
    }
  }

  /** InDegree(down, v) is the number of nodes whose downstream node is v. */
  lemma InDegreeIsCardinality(down: seq<int>, v: int)
    ensures InDegree(down, v) == |set u | 0 <= u < |down| && down[u] == v|
  {
    CountFeedersIsCardinality(down, v, |down|);
  }

  /** A count is zero exactly when no counted node contributes to `v`. */
  lemma {:induction false} NoFeeders(down: seq<int>, v: int, n: nat)
    requires n <= |down|
    ensures CountFeeders(down, v, n) == 0 <==> forall u :: 0 <= u < n ==> down[u] != v
  {
    if n > 0 {
      NoFeeders(down, v, n - 1);
    }
  }

  /** A node has in-degree zero exactly when it has no upstream contributor;
      in particular a sink has in-degree at least one. */
  lemma InDegreeZero(down: seq<int>, v: int)
    ensures InDegree(down, v) == 0 <==> !exists u :: Feeds(down, u, v)
  {
    NoFeeders(down, v, |down|);
    if InDegree(down, v) != 0 {
      var u :| 0 <= u < |down| && down[u] == v;
      assert Feeds(down, u, v);
    }
  }

  // ---------------------------------------------------------------------------
  // Remaining dependencies while nodes are being processed

  /** Number of nodes `u < n` contributing to `v` that are not yet in `done`. */
  function CountPending(down: seq<int>, done: seq<int>, v: int, n: nat): nat
    requires n <= |down|
  {
    if n == 0 then 0
    else CountPending(down, done, v, n - 1) + (if down[n - 1] == v && n - 1 !in done then 1 else 0)
  }

  /** Before anything is done, every contributor is pending. */
  lemma {:induction false} PendingNone(down: seq<int>, v: int, n: nat)
    requires n <= |down|
    ensures CountPending(down, [], v, n) == CountFeeders(down, v, n)
  {
    if n > 0 {
      PendingNone(down, v, n - 1);
    }
  }

  /** Nothing is pending exactly when every contributor is done. */
  lemma {:induction false} PendingZero(down: seq<int>, done: seq<int>, v: int, n: nat)
    requires n <= |down|
    ensures CountPending(down, done, v, n) == 0 <==> forall u :: 0 <= u < n && down[u] == v ==> u in done
  {
    if n > 0 {
      PendingZero(down, done, v, n - 1);
    }
  }

  /** Finishing a node `c` removes one pending dependency from its downstream node, and none from any other. */
  lemma {:induction false} PendingAfter(down: seq<int>, done: seq<int>, c: int, v: int, n: nat)
    requires n <= |down| && c !in done
    ensures CountPending(down, done + [c], v, n)
            == CountPending(down, done, v, n) - (if 0 <= c < n && down[c] == v then 1 else 0)
  {
    if n > 0 {
      PendingAfter(down, done, c, v, n - 1);
      assert (n - 1 in done + [c]) <==> (n - 1 in done || n - 1 == c);
    }
  }

  // ---------------------------------------------------------------------------
  // Following downstream links

  /** The node reached from `v` by following `k` downstream links. */
  function Iterate(down: seq<int>, v: int, k: nat): (w: int)
    requires ValidGraph(down) && 0 <= v < |down|
    ensures 0 <= w < |down|
    decreases k
  {
    if k == 0 then v else Iterate(down, down[v], k - 1)
  }

  /** Following `a + b` links is following `a` links and then `b` more. */
  lemma {:induction false} IterateAdd(down: seq<int>, v: int, a: nat, b: nat)
    requires ValidGraph(down) && 0 <= v < |down|
    ensures Iterate(down, v, a + b) == Iterate(down, Iterate(down, v, a), b)
    decreases a
  {
    if a > 0 {
      IterateAdd(down, down[v], a - 1, b);
    }
  }

  /** `v` lies on a cycle of downstream links; a sink is a cycle of length one. */
  ghost predicate OnCycle(down: seq<int>, v: int)
    requires ValidGraph(down) && 0 <= v < |down|
  {
    exists k: nat :: 1 <= k && Iterate(down, v, k) == v
  }

  // ---------------------------------------------------------------------------
  // Counting distinct node indices

  lemma {:induction false} DistinctCardinality(s: seq<int>)
    requires Distinct(s)
    ensures |set x | x in s| == |s|
  {
    if s != [] {
      var t := s[..|s| - 1];
      assert Distinct(t);
      DistinctCardinality(t);
      assert (set x | x in s) == (set x | x in t) + {s[|s| - 1]};
      assert s[|s| - 1] !in (set x | x in t);
    }
  }

  /** The node indices below `n`, as a set. */
  function Below(n: nat): (r: set<int>)
    ensures forall x :: x in r <==> 0 <= x < n
    ensures |r| == n
  {
    if n == 0 then {} else Below(n - 1) + {n - 1}
  }

  lemma SubsetCardinality(a: set<int>, b: set<int>)
    requires a <= b
    ensures |a| <= |b|
  {
    assert b == a + (b - a);
  }

  /** A sequence of distinct values from [0, n) is no longer than n. */
  lemma DistinctBound(n: nat, s: seq<int>)
    requires Distinct(s)
    requires forall k :: 0 <= k < |s| ==> 0 <= s[k] < n
    ensures |s| <= n
  {
    DistinctCardinality(s);
    var values := set x | x in s;
    SubsetCardinality(values, Below(n));
  }

  // ---------------------------------------------------------------------------
  // The initial frontier

  /** The indices `i` with `s[i] == 0`, in ascending order (see ZeroIndicesExactly). */
  function ZeroIndices(s: seq<int>): (z: seq<int>)
    ensures |z| <= |s|
  {
    if s == [] then []
    else ZeroIndices(s[..|s| - 1]) + (if s[|s| - 1] == 0 then [|s| - 1] else [])
  }

  /** ZeroIndices lists exactly the indices holding zero, each once, in ascending order. */
  lemma {:induction false} ZeroIndicesExactly(s: seq<int>)
    ensures forall k :: 0 <= k < |ZeroIndices(s)| ==> 0 <= ZeroIndices(s)[k] < |s| && s[ZeroIndices(s)[k]] == 0
    ensures forall i :: 0 <= i < |s| && s[i] == 0 ==> i in ZeroIndices(s)
    ensures forall k, l :: 0 <= k < l < |ZeroIndices(s)| ==> ZeroIndices(s)[k] < ZeroIndices(s)[l]
  {
    if s != [] {
      var t := s[..|s| - 1];
      ZeroIndicesExactly(t);
      assert forall i :: 0 <= i < |t| ==> t[i] == s[i];
    }
  }

  /** The nodes without upstream contributors, in ascending index order. */
  function Sources(down: seq<int>): seq<int> {
    ZeroIndices(InDegrees(down))
  }
}

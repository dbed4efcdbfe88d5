/**
 The invariant of the drain loop of GetDependencies (lines 26-42 of
 breadth-first-expansion.cpp) and the proof that each kind of step keeps it.

 The queue always has the shape `qa + [-1] + qb`: `qa` is what remains of the
 level being drained, `-1` is the single level marker and `qb` is the part of
 the next level found so far. `ord` is the ordering built so far, `depth[p]`
 the level of `ord[p]`, `cur` the number of the level being drained and
 `deps` the table of counters that the loop decrements in place.
 */
module DrainInvariant {
  import opened FlowGraph
  import opened ScheduleSpec

  /** A counter is zero exactly when every contributor has been processed. */
  lemma PendingReady(down: seq<int>, ord: seq<int>, v: int)
    ensures CountPending(down, ord, v, |down|) == 0 <==> Ready(down, ord, v)
  {
    PendingZero(down, ord, v, |down|);
  }

  /** A node released at level `d` has no contributors if d == 0, and otherwise a
      contributor that was processed at level d - 1 (the one whose decrement released it). */
  ghost predicate Justified(down: seq<int>, ord: seq<int>, depth: seq<nat>, x: int, d: nat) {
    if d == 0 then InDegree(down, x) == 0
    else exists b :: 0 <= b < |ord| && b < |depth| && Feeds(down, ord[b], x) && depth[b] == d - 1
  }

  lemma JustifiedExtend(down: seq<int>, ord: seq<int>, depth: seq<nat>, c: int, e: nat, x: int, d: nat)
    requires Justified(down, ord, depth, x, d)
    ensures Justified(down, ord + [c], depth + [e], x, d)
  {
    if d > 0 {
      var b :| 0 <= b < |ord| && b < |depth| && Feeds(down, ord[b], x) && depth[b] == d - 1;
      assert (ord + [c])[b] == ord[b] && (depth + [e])[b] == depth[b];
    }
  }

  /** Queue, counters and the set of released nodes (those processed or queued). */
  ghost predicate QueueInv(down: seq<int>, deps: seq<int>, q: seq<int>, qa: seq<int>, qb: seq<int>, ord: seq<int>) {
    && ValidGraph(down) && |deps| == |down|
    && q == qa + [-1] + qb
    && AllNodes(down, qa) && AllNodes(down, qb) && AllNodes(down, ord)
    // each node is released at most once
    && Distinct(ord + qa + qb)
    && |ord| + |qa| + |qb| <= |down|
    // a counter holds the number of contributors not yet processed
    && (forall v :: 0 <= v < |down| ==> deps[v] == CountPending(down, ord, v, |down|))
    // a node is released exactly when its counter is zero
    && (forall v :: 0 <= v < |down| ==> (deps[v] == 0 <==> v in ord + qa + qb))
  }

  /** A contributor comes earlier in the ordering and at a smaller depth. */
  ghost predicate OrderInv(down: seq<int>, ord: seq<int>, depth: seq<nat>) {
    && |depth| == |ord|
    && forall a, b :: 0 <= a < |ord| && 0 <= b < |ord| && Feeds(down, ord[a], ord[b]) ==> a < b && depth[a] < depth[b]
  }

  /** The boundaries recorded so far, closed off by the current length of the ordering. */
  ghost predicate LevelInv(ord: seq<int>, qa: seq<int>, qb: seq<int>, levels: seq<int>, depth: seq<nat>, cur: nat) {
    && |depth| == |ord|
    && |levels| == cur + 1 && levels[0] == 0
    && (forall i, j :: 0 <= i < j <= cur ==> levels[i] < levels[j])
    && levels[cur] <= |ord|
    // a level after the first is never empty
    && (cur > 0 ==> levels[cur] < |ord| + |qa|)
    // nodes reach the next level only from nodes processed in this one
    && (qb != [] ==> levels[cur] < |ord|)
    && (forall p :: 0 <= p < |ord| ==> depth[p] <= cur && InLevel(levels + [|ord|], p, depth[p]))
  }

  /** Why each released node is at its level. */
  ghost predicate FrontInv(down: seq<int>, qa: seq<int>, qb: seq<int>, ord: seq<int>, depth: seq<nat>, cur: nat) {
    && |depth| == |ord|
    && (forall p :: 0 <= p < |ord| ==> Justified(down, ord, depth, ord[p], depth[p]))
    && (forall k :: 0 <= k < |qa| ==> Justified(down, ord, depth, qa[k], cur))
    && (forall k :: 0 <= k < |qb| ==> Justified(down, ord, depth, qb[k], cur + 1))
    && (forall k, b :: 0 <= k < |qa| && 0 <= b < |ord| && Feeds(down, ord[b], qa[k]) ==> depth[b] < cur)
  }

  /** Level 0 is the initial frontier. */
  ghost predicate SourcesInv(down: seq<int>, qa: seq<int>, ord: seq<int>, levels: seq<int>, cur: nat) {
    && |levels| == cur + 1
    && (cur == 0 ==> ord + qa == Sources(down))
    && (cur > 0 ==> levels[1] == |Sources(down)| <= |ord| && ord[..|Sources(down)|] == Sources(down))
  }

  ghost predicate Inv(down: seq<int>, deps: seq<int>, q: seq<int>, qa: seq<int>, qb: seq<int>,
                      ord: seq<int>, levels: seq<int>, depth: seq<nat>, cur: nat) {
    && QueueInv(down, deps, q, qa, qb, ord)
    && OrderInv(down, ord, depth)
    && LevelInv(ord, qa, qb, levels, depth, cur)
    && FrontInv(down, qa, qb, ord, depth, cur)
    && SourcesInv(down, qa, ord, levels, cur)
  }

  // ---------------------------------------------------------------------------
  // Small facts about sequences

  lemma DistinctAppend(s: seq<int>, x: int)
    requires Distinct(s) && x !in s
    ensures Distinct(s + [x])
  {
  }

  lemma DistinctSplit(s: seq<int>, k: int)
    requires Distinct(s) && 0 <= k < |s|
    ensures s[k] !in s[..k] && s[k] !in s[k + 1..]
  {
  }

  lemma InLevelExtend(levels: seq<int>, x: int, p: int, i: int)
    requires InLevel(levels, p, i)
    ensures InLevel(levels + [x], p, i)
  {
    assert (levels + [x])[i] == levels[i] && (levels + [x])[i + 1] == levels[i + 1];
  }

  // ---------------------------------------------------------------------------
  // Processing a node (lines 37-41, after the front of the queue is removed)

  /** What the front of a queue of the shape `qa + [-1] + qb` is, and what is left behind it. */
  lemma QueueFront(down: seq<int>, q: seq<int>, qa: seq<int>, qb: seq<int>)
    requires q == qa + [-1] + qb && AllNodes(down, qa)
    ensures q != [] && (q[0] == -1 <==> qa == [])
    ensures q[0] != -1 ==> 0 <= q[0] < |down|
    ensures qa != [] ==> q[0] == qa[0] && q[1..] == qa[1..] + [-1] + qb
    ensures qa == [] ==> q[1..] == qb
  {
    if qa != [] {
      assert q[1..] == qa[1..] + [-1] + qb;
    } else {
      assert q == [-1] + qb;
    }
  }

  /** A queue of the shape `qa + [-1] + qb` holds exactly one marker. */
  lemma OneMarker(down: seq<int>, q: seq<int>, qa: seq<int>, qb: seq<int>)
    requires q == qa + [-1] + qb && AllNodes(down, qa) && AllNodes(down, qb)
    ensures forall k :: 0 <= k < |q| ==> (q[k] == -1 <==> k == |qa|)
  {
    forall k | 0 <= k < |q|
      ensures q[k] == -1 <==> k == |qa|
    {
      if k > |qa| {
        assert q[k] == qb[k - |qa| - 1];
      }
    }
  }

  /** What holds of the node `c` at the front of the queue and of its downstream node. */
  lemma NodeFacts(down: seq<int>, deps: seq<int>, q: seq<int>, qa: seq<int>, qb: seq<int>, ord: seq<int>)
    requires QueueInv(down, deps, q, qa, qb, ord) && qa != []
    ensures qa[0] !in ord && qa[0] !in qa[1..] && qa[0] !in qb
    ensures Ready(down, ord, qa[0])
    ensures forall p :: 0 <= p < |ord| ==> Ready(down, ord, ord[p])
    ensures deps[down[qa[0]]] >= 1 && down[qa[0]] !in ord + qa + qb
    ensures ord + qa + qb == (ord + [qa[0]]) + qa[1..] + qb
  {
    var c := qa[0];
    var s := ord + qa + qb;
    assert s[|ord|] == c && s[..|ord|] == ord && s[|ord| + 1..] == qa[1..] + qb;
    DistinctSplit(s, |ord|);
    assert c in s;
    PendingReady(down, ord, c);
    forall p | 0 <= p < |ord|
      ensures Ready(down, ord, ord[p])
    {
      assert ord[p] in s;
      PendingReady(down, ord, ord[p]);
    }
    var dn := down[c];
    assert Feeds(down, c, dn);
    PendingReady(down, ord, dn);
    assert qa == [c] + qa[1..];
  }

  lemma NodeStepQueue(down: seq<int>, deps: seq<int>, q: seq<int>, qa: seq<int>, qb: seq<int>, ord: seq<int>,
                      deps': seq<int>, q': seq<int>, qb': seq<int>)
    requires QueueInv(down, deps, q, qa, qb, ord) && qa != []
    requires deps' == deps[down[qa[0]] := deps[down[qa[0]]] - 1]
    requires qb' == (if deps'[down[qa[0]]] == 0 then qb + [down[qa[0]]] else qb)
    requires q' == q[1..] + (if deps'[down[qa[0]]] == 0 then [down[qa[0]]] else [])
    ensures QueueInv(down, deps', q', qa[1..], qb', ord + [qa[0]])
  {
    NodeFacts(down, deps, q, qa, qb, ord);
    var c := qa[0];
    var dn := down[c];
    var s := ord + qa + qb;
    var s' := (ord + [c]) + qa[1..] + qb';
    assert q[1..] == qa[1..] + [-1] + qb;
    if deps'[dn] == 0 {
      assert s' == s + [dn];
      DistinctAppend(s, dn);
    } else {
      assert s' == s;
    }
    assert AllNodes(down, s');
    DistinctBound(|down|, s');
    forall v | 0 <= v < |down|
      ensures deps'[v] == CountPending(down, ord + [c], v, |down|)
    {
      PendingAfter(down, ord, c, v, |down|);
    }
    forall v | 0 <= v < |down|
      ensures deps'[v] == 0 <==> v in s'
    {
      assert v in s' <==> v in s || (deps'[dn] == 0 && v == dn);
    }
  }

  lemma NodeStepOrder(down: seq<int>, deps: seq<int>, q: seq<int>, qa: seq<int>, qb: seq<int>,
                      ord: seq<int>, levels: seq<int>, depth: seq<nat>, cur: nat)
    requires Inv(down, deps, q, qa, qb, ord, levels, depth, cur) && qa != []
    ensures OrderInv(down, ord + [qa[0]], depth + [cur])
  {
    NodeFacts(down, deps, q, qa, qb, ord);
    var c := qa[0];
    var ord', depth' := ord + [c], depth + [cur];
    forall a, b | 0 <= a < |ord'| && 0 <= b < |ord'| && Feeds(down, ord'[a], ord'[b])
      ensures a < b && depth'[a] < depth'[b]
    {
      if a == |ord| {
        // c feeds a node whose contributors are all processed, so c itself was processed
        assert false;
      } else if b == |ord| {
        assert Feeds(down, ord[a], qa[0]);
      } else {
        assert Feeds(down, ord[a], ord[b]);
      }
    }
  }

  lemma NodeStepLevels(down: seq<int>, deps: seq<int>, q: seq<int>, qa: seq<int>, qb: seq<int>,
                       ord: seq<int>, levels: seq<int>, depth: seq<nat>, cur: nat, qb': seq<int>)
    requires Inv(down, deps, q, qa, qb, ord, levels, depth, cur) && qa != []
    ensures LevelInv(ord + [qa[0]], qa[1..], qb', levels, depth + [cur], cur)
  {
    var c := qa[0];
    var ord', depth' := ord + [c], depth + [cur];
    forall p | 0 <= p < |ord'|
      ensures depth'[p] <= cur && InLevel(levels + [|ord'|], p, depth'[p])
    {
      if p < |ord| {
        assert InLevel(levels + [|ord|], p, depth[p]);
      }
    }
  }

  lemma NodeStepFront(down: seq<int>, deps: seq<int>, q: seq<int>, qa: seq<int>, qb: seq<int>,
                      ord: seq<int>, levels: seq<int>, depth: seq<nat>, cur: nat,
                      deps': seq<int>, qb': seq<int>)
    requires Inv(down, deps, q, qa, qb, ord, levels, depth, cur) && qa != []
    requires deps' == deps[down[qa[0]] := deps[down[qa[0]]] - 1]
    requires qb' == (if deps'[down[qa[0]]] == 0 then qb + [down[qa[0]]] else qb)
    ensures FrontInv(down, qa[1..], qb', ord + [qa[0]], depth + [cur], cur)
  {
    NodeFacts(down, deps, q, qa, qb, ord);
    var c := qa[0];
    var dn := down[c];
    var ord', depth', qa' := ord + [c], depth + [cur], qa[1..];
    forall p | 0 <= p < |ord'|
      ensures Justified(down, ord', depth', ord'[p], depth'[p])
    {
      if p < |ord| {
        JustifiedExtend(down, ord, depth, c, cur, ord[p], depth[p]);
      } else {
        JustifiedExtend(down, ord, depth, c, cur, qa[0], cur);
      }
    }
    forall k | 0 <= k < |qa'|
      ensures Justified(down, ord', depth', qa'[k], cur)
    {
      JustifiedExtend(down, ord, depth, c, cur, qa[k + 1], cur);
    }
    forall k | 0 <= k < |qb'|
      ensures Justified(down, ord', depth', qb'[k], cur + 1)
    {
      if k < |qb| {
        JustifiedExtend(down, ord, depth, c, cur, qb[k], cur + 1);
      } else {
        assert qb'[k] == dn && ord'[|ord|] == c && depth'[|ord|] == cur;
        assert Feeds(down, ord'[|ord|], dn);
      }
    }
    forall k, b | 0 <= k < |qa'| && 0 <= b < |ord'| && Feeds(down, ord'[b], qa'[k])
      ensures depth'[b] < cur
    {
      if b == |ord| {
        // the downstream node of c is not queued
        assert false;
      } else {
        assert Feeds(down, ord[b], qa[k + 1]);
      }
    }
  }

  lemma NodeStepSources(down: seq<int>, deps: seq<int>, q: seq<int>, qa: seq<int>, qb: seq<int>,
                        ord: seq<int>, levels: seq<int>, depth: seq<nat>, cur: nat)
    requires SourcesInv(down, qa, ord, levels, cur) && qa != []
    ensures SourcesInv(down, qa[1..], ord + [qa[0]], levels, cur)
  {
    var c := qa[0];
    if cur == 0 {
      assert (ord + [c]) + qa[1..] == ord + qa;
    } else {
      var n := |Sources(down)|;
      assert (ord + [c])[..n] == ord[..n];
    }
  }

  /** Taking the node `q[0]` off the front of the queue, appending it to the ordering and
      decrementing the counter of its downstream node keep the invariant; the downstream node
      joins the back of the queue exactly when its counter reaches zero. */
  lemma NodeStep(down: seq<int>, deps: seq<int>, q: seq<int>, qa: seq<int>, qb: seq<int>,
                 ord: seq<int>, levels: seq<int>, depth: seq<nat>, cur: nat)
    requires Inv(down, deps, q, qa, qb, ord, levels, depth, cur) && q[0] != -1
    ensures 0 <= q[0] < |down| && 0 <= down[q[0]] < |deps|
    ensures deps[down[q[0]] := deps[down[q[0]]] - 1][down[q[0]]] == 0 ==>
              Inv(down, deps[down[q[0]] := deps[down[q[0]]] - 1], q[1..] + [down[q[0]]], qa[1..], qb + [down[q[0]]],
                  ord + [q[0]], levels, depth + [cur], cur)
    ensures deps[down[q[0]] := deps[down[q[0]]] - 1][down[q[0]]] != 0 ==>
              Inv(down, deps[down[q[0]] := deps[down[q[0]]] - 1], q[1..], qa[1..], qb,
                  ord + [q[0]], levels, depth + [cur], cur)
  {
    QueueFront(down, q, qa, qb);
    var dn := down[q[0]];
    var deps' := deps[dn := deps[dn] - 1];
    var qb' := if deps'[dn] == 0 then qb + [dn] else qb;
    var q' := q[1..] + (if deps'[dn] == 0 then [dn] else []);
    assert q[1..] + [] == q[1..];
    NodeStepQueue(down, deps, q, qa, qb, ord, deps', q', qb');
    NodeStepOrder(down, deps, q, qa, qb, ord, levels, depth, cur);
    NodeStepLevels(down, deps, q, qa, qb, ord, levels, depth, cur, qb');
    NodeStepFront(down, deps, q, qa, qb, ord, levels, depth, cur, deps', qb');
    NodeStepSources(down, deps, q, qa, qb, ord, levels, depth, cur);
  }

  // ---------------------------------------------------------------------------
  // Reaching the marker with more nodes queued (lines 29-34)

  /** Meeting the marker `q[0] == -1` with more nodes behind it closes the current level:
      the nodes behind the marker become the current level and a new marker goes to the back. */
  lemma MarkerStep(down: seq<int>, deps: seq<int>, q: seq<int>, qa: seq<int>, qb: seq<int>,
                   ord: seq<int>, levels: seq<int>, depth: seq<nat>, cur: nat)
    requires Inv(down, deps, q, qa, qb, ord, levels, depth, cur) && q[0] == -1 && q[1..] != []
    ensures qa == [] && qb == q[1..]
    ensures Inv(down, deps, q[1..] + [-1], qb, [], ord, levels + [|ord|], depth, cur + 1)
  {
    QueueFront(down, q, qa, qb);
    MarkerClose(down, deps, q, qb, ord, levels, depth, cur);
  }

  lemma MarkerClose(down: seq<int>, deps: seq<int>, q: seq<int>, qb: seq<int>,
                    ord: seq<int>, levels: seq<int>, depth: seq<nat>, cur: nat)
    requires Inv(down, deps, q, [], qb, ord, levels, depth, cur) && qb != []
    ensures Inv(down, deps, q[1..] + [-1], qb, [], ord, levels + [|ord|], depth, cur + 1)
  {
    MarkerQueue(down, deps, q, qb, ord);
    MarkerLevels(ord, qb, levels, depth, cur);
    MarkerSources(down, qb, ord, levels, cur);
  }

  lemma MarkerQueue(down: seq<int>, deps: seq<int>, q: seq<int>, qb: seq<int>, ord: seq<int>)
    requires QueueInv(down, deps, q, [], qb, ord)
    ensures QueueInv(down, deps, q[1..] + [-1], qb, [], ord)
  {
    assert ord + [] + qb == ord + qb + [];
    assert q[1..] + [-1] == qb + [-1] + [];
  }

  lemma MarkerLevels(ord: seq<int>, qb: seq<int>, levels: seq<int>, depth: seq<nat>, cur: nat)
    requires LevelInv(ord, [], qb, levels, depth, cur) && qb != []
    ensures LevelInv(ord, qb, [], levels + [|ord|], depth, cur + 1)
  {
    var levels' := levels + [|ord|];
    forall p | 0 <= p < |ord|
      ensures depth[p] <= cur + 1 && InLevel(levels' + [|ord|], p, depth[p])
    {
      InLevelExtend(levels + [|ord|], |ord|, p, depth[p]);
    }
  }

  lemma MarkerSources(down: seq<int>, qb: seq<int>, ord: seq<int>, levels: seq<int>, cur: nat)
    requires SourcesInv(down, [], ord, levels, cur) && |levels| == cur + 1 && levels[cur] <= |ord|
    requires forall i, j :: 0 <= i < j <= cur ==> levels[i] < levels[j]
    ensures SourcesInv(down, qb, ord, levels + [|ord|], cur + 1)
  {
    if cur == 0 {
      assert ord + [] == ord;
    }
  }

  // ---------------------------------------------------------------------------
  // The state before the loop (lines 13, 21-24)

  lemma Initial(down: seq<int>, deps: seq<int>, q: seq<int>)
    requires ValidGraph(down) && deps == InDegrees(down)
    requires q == ZeroIndices(deps) + [-1]
    ensures Inv(down, deps, q, ZeroIndices(deps), [], [], [0], [], 0)
  {
    var qa := ZeroIndices(deps);
    ZeroIndicesExactly(deps);
    assert [] + qa + [] == qa;
    DistinctBound(|down|, qa);
    forall v | 0 <= v < |down|
      ensures deps[v] == CountPending(down, [], v, |down|)
    {
      PendingNone(down, v, |down|);
    }
  }

  // ---------------------------------------------------------------------------
  // The state at the final marker (lines 31-32, 46)

  lemma DrainedOrdering(down: seq<int>, deps: seq<int>, q: seq<int>,
                        ord: seq<int>, levels: seq<int>, depth: seq<nat>, cur: nat)
    requires Inv(down, deps, q, [], [], ord, levels, depth, cur)
    ensures AllNodes(down, ord) && Distinct(ord) && |ord| <= |down|
    ensures Topological(down, ord) && ReadyExactly(down, ord)
    ensures forall v :: 0 <= v < |down| ==> (v in ord <==> !OnCycle(down, v))
  {
    assert ord + [] + [] == ord;
    forall v | 0 <= v < |down|
      ensures v in ord <==> Ready(down, ord, v)
    {
      PendingReady(down, ord, v);
    }
    ReadyExactlyIsAcyclicPart(down, ord);
  }

  lemma DrainedShape(down: seq<int>, deps: seq<int>, q: seq<int>,
                     ord: seq<int>, levels: seq<int>, depth: seq<nat>, cur: nat)
    requires Inv(down, deps, q, [], [], ord, levels, depth, cur)
    ensures LevelShape(ord, levels + [|ord|] + [|ord|])
    ensures ord[..(levels + [|ord|] + [|ord|])[1]] == Sources(down)
    ensures forall p :: 0 <= p < |ord| ==> InLevel(levels + [|ord|] + [|ord|], p, depth[p])
  {
    var final := levels + [|ord|] + [|ord|];
    if cur == 0 {
      assert ord + [] == ord;
      assert final == [0, |ord|, |ord|];
    }
    forall p | 0 <= p < |ord|
      ensures InLevel(final, p, depth[p])
    {
      InLevelExtend(levels + [|ord|], |ord|, p, depth[p]);
    }
  }

  lemma DrainedFlow(down: seq<int>, ord: seq<int>, final: seq<int>, depth: seq<nat>)
    requires OrderInv(down, ord, depth) && LevelShape(ord, final)
    requires forall p :: 0 <= p < |ord| ==> InLevel(final, p, depth[p])
    ensures LevelsRespectFlow(down, ord, final)
  {
    ShapeMonotone(ord, final);
    forall a, b, i, j |
      0 <= a < |ord| && 0 <= b < |ord| && Feeds(down, ord[a], ord[b]) && InLevel(final, a, i) && InLevel(final, b, j)
      ensures i < j
    {
      LevelUnique(final, a, i, depth[a]);
      LevelUnique(final, b, j, depth[b]);
    }
  }

  lemma DrainedBfs(down: seq<int>, ord: seq<int>, final: seq<int>, depth: seq<nat>)
    requires |depth| == |ord| && LevelShape(ord, final)
    requires forall p :: 0 <= p < |ord| ==> Justified(down, ord, depth, ord[p], depth[p])
    requires forall p :: 0 <= p < |ord| ==> InLevel(final, p, depth[p])
    ensures BfsLevels(down, ord, final)
  {
    ShapeMonotone(ord, final);
    forall b, j | 0 <= b < |ord| && InLevel(final, b, j)
      ensures (j == 0 <==> InDegree(down, ord[b]) == 0)
      ensures (j > 0 ==> exists a :: 0 <= a < |ord| && Feeds(down, ord[a], ord[b]) && InLevel(final, a, j - 1))
    {
      LevelUnique(final, b, j, depth[b]);
      assert Justified(down, ord, depth, ord[b], depth[b]);
      InDegreeZero(down, ord[b]);
      if j > 0 {
        var a :| 0 <= a < |ord| && a < |depth| && Feeds(down, ord[a], ord[b]) && depth[a] == j - 1;
        assert InLevel(final, a, j - 1);
      }
    }
  }

  /** When the marker `q[0] == -1` is met with nothing behind it, the ordering and the
      boundaries (with the two final entries of lines 30 and 46) form a schedule. */
  lemma Drained(down: seq<int>, deps: seq<int>, q: seq<int>, qa: seq<int>, qb: seq<int>,
                ord: seq<int>, levels: seq<int>, depth: seq<nat>, cur: nat)
    requires Inv(down, deps, q, qa, qb, ord, levels, depth, cur) && q[0] == -1 && q[1..] == []
    ensures ValidGraph(down) && Schedule(down, ord, levels + [|ord|] + [|ord|])
  {
    QueueFront(down, q, qa, qb);
    DrainedOrdering(down, deps, q, ord, levels, depth, cur);
    DrainedShape(down, deps, q, ord, levels, depth, cur);
    var final := levels + [|ord|] + [|ord|];
    DrainedFlow(down, ord, final, depth);
    DrainedBfs(down, ord, final, depth);
  }
}

# Breadth-first expansion of a flow graph

`GetDependencies` (breadth-first-expansion.cpp) takes a flow graph in which
every node drains into exactly one downstream node, an outlet (sink) draining
into itself. It returns a processing order of the nodes together with level
boundaries. Every node in the order comes after all of its upstream
contributors, and the nodes of one level can be processed in parallel.

The function works in three stages:
- it counts how many nodes drain into each node;
- it seeds a FIFO queue with the nodes that no node drains into, followed by the level marker `-1`;
- it drains the queue. Each node taken from the queue is appended to the ordering and its downstream node's counter is decremented. A node whose counter reaches zero joins the queue. Each marker records a boundary and is put back at the end of the queue unless it was the last entry.

The model follows the same three stages:
- `flow_graph.dfy`: the graph is a sequence `down` of downstream indices, with in-degrees, pending counts, paths along downstream links and the initial frontier.
- `schedule_spec.dfy`: `Schedule` states what the result promises. It also proves that the ordered nodes are exactly the nodes on no cycle of downstream links (outlets count as cycles of length one).
- `drain_invariant.dfy`: the invariant of the drain loop, and one lemma per kind of loop step.
- `breadth_first_expansion.dfy`: the imperative procedure. The counters are an array changed in place, and the queue, ordering and boundaries are sequences that the loops extend. `GetDependencies` ensures `Schedule`, and it terminates.
- `as_written.dfy`: the drain loop exactly as written, without a `q.pop()`. It is proved never to exit; see "Findings".
- `scenarios.dfy`: small graphs on which `Schedule` determines the result completely.

Two readings of the source are built into the model:
- `emplace` on a `std::vector` (lines 13, 30, 39, 46) is read as an append at the end.
- The front of the queue is removed when it is read at line 27. The source never calls `q.pop()`, but the empty-queue test on line 31 assumes the front was removed.

Three consequences of the source that the model states as they are:
- A graph whose nodes all lie on cycles, a lone outlet included, gives an empty initial frontier (lines 21-24). The result is then `ordering == []` and `levels == [0, 0, 0]` (lines 30, 32 and 46), not `[0, 0]`.
- `levels` always ends with `|ordering|` written twice. Line 30 writes it before the break and line 46 writes it again. So `levels` has one more entry than there are levels plus one.
- Precedence holds for every link, sinks included (line 40). Because outlets are never ordered, a link into an outlet never relates two ordered nodes.

## Model

| member | source | states |
|---|---|---|
| BreadthFirstExpansion.CountDependencies | breadth-first-expansion.cpp:17-18 | a fresh counter array with one entry per node; entry `v` is the in-degree of `v`, i.e. the number of nodes draining into `v`, including `v` itself when it is an outlet |
| BreadthFirstExpansion.SeedFrontier | breadth-first-expansion.cpp:21-24 | the initial queue is the indices whose counter is zero, in ascending order, followed by one marker `-1` |
| BreadthFirstExpansion.Release | breadth-first-expansion.cpp:40 | the counter of `dn` is decremented in place, no other counter changes, and the returned flag is true exactly when the new value is zero |
| BreadthFirstExpansion.GetDependencies | breadth-first-expansion.cpp:1-55 | for every graph whose downstream indices are in range, the procedure terminates. Its result is a `Schedule`: distinct node indices, at most one per node, each after its contributors. A node is present exactly when it is ready and exactly when it lies on no cycle. The boundaries start at 0, rise strictly, and end with `|ordering|` twice. The first level is the initial frontier. Contributors lie in strictly earlier levels, and every node after level 0 has a contributor in the level just before |
| FlowGraph.InDegreeIsCardinality | breadth-first-expansion.cpp:17-18 | the counted in-degree of `v` equals the size of the set of nodes whose downstream index is `v` |
| FlowGraph.InDegreeZero | breadth-first-expansion.cpp:22 | a counter starts at zero exactly when no node drains into that node; so an outlet never starts at zero |
| FlowGraph.ZeroIndicesExactly | breadth-first-expansion.cpp:21-23 | the frontier scan yields each zero-counter index once, only zero-counter indices, and in ascending order |
| FlowGraph.PendingAfter | breadth-first-expansion.cpp:40 | processing node `c` removes one pending dependency from `c`'s downstream node, and none from any other node |
| FlowGraph.PendingZero | breadth-first-expansion.cpp:40 | no dependency of `v` is pending exactly when every node draining into `v` has been processed |
| ScheduleSpec.ReadyExactlyIsAcyclicPart | breadth-first-expansion.cpp:39-41 | in a topological ordering of distinct nodes that holds a node exactly when it holds all of that node's contributors, the nodes present are exactly those on no cycle of downstream links |
| ScheduleSpec.OutletExcluded | breadth-first-expansion.cpp:17-18 | an outlet is never in the ordering of a schedule |
| ScheduleSpec.EmptyFrontier | breadth-first-expansion.cpp:21-32 | when no node lacks contributors, the ordering is empty and the boundaries are `[0, 0, 0]` |
| ScheduleSpec.ShapeMonotone | breadth-first-expansion.cpp:30 | the boundaries of a schedule never decrease |
| ScheduleSpec.LevelUnique | breadth-first-expansion.cpp:30 | with non-decreasing boundaries, a position lies in at most one level |
| ScheduleSpec.ShapeCovers | breadth-first-expansion.cpp:30 | every position of the ordering lies in some level |
| ScheduleSpec.UpstreamChain | breadth-first-expansion.cpp:40-41 | behind a node missing from a ready-closed ordering there is a chain of any length of missing nodes, each draining into the one before it, the j-th reaching the node in exactly j links |
| ScheduleSpec.ReachedFromEarlier | breadth-first-expansion.cpp:39 | in a topological, upstream-closed ordering, a node lying upstream of a position in the ordering appears at an earlier position |
| DrainInvariant.PendingReady | breadth-first-expansion.cpp:40 | a node's pending count is zero exactly when all of its contributors are in the ordering |
| DrainInvariant.OneMarker | breadth-first-expansion.cpp:24 | a queue of the loop's shape holds exactly one marker, between the rest of the current level and the next level |
| DrainInvariant.QueueFront | breadth-first-expansion.cpp:27-29 | the front of the queue is the marker exactly when the current level is exhausted, and otherwise a node index; also what stays behind it |
| DrainInvariant.Initial | breadth-first-expansion.cpp:13-24 | the state entering the loop satisfies the loop invariant, with the whole frontier as the current level |
| DrainInvariant.NodeFacts | breadth-first-expansion.cpp:37-40 | the node at the front has not been processed or queued twice, all its contributors are processed, and its downstream node is not yet released and has a positive counter |
| DrainInvariant.NodeStepQueue | breadth-first-expansion.cpp:39-41 | after a node step, every node is still released at most once, each counter equals the contributors not yet processed, and a counter is zero exactly when its node is released |
| DrainInvariant.NodeStepOrder | breadth-first-expansion.cpp:39 | after a node step, contributors still come earlier and at a smaller level |
| DrainInvariant.NodeStepFront | breadth-first-expansion.cpp:40-41 | after a node step, a node released at level `d > 0` still has a contributor processed at level `d - 1`, and a node released at level 0 has no contributors |
| DrainInvariant.NodeStep | breadth-first-expansion.cpp:37-41 | processing the front node keeps the loop invariant; the downstream node joins the back of the queue exactly when its counter reaches zero |
| DrainInvariant.MarkerLevels | breadth-first-expansion.cpp:30 | recording a boundary at a marker keeps the boundaries strictly rising, and keeps every processed node inside its own level |
| DrainInvariant.MarkerStep | breadth-first-expansion.cpp:29-34 | a marker with nodes behind it closes the current level: those nodes become the current level and a new marker goes to the back, keeping the invariant |
| DrainInvariant.DrainedOrdering | breadth-first-expansion.cpp:31-32 | when the loop exits, the ordering is topological, holds each node whose contributors are all processed, and so holds exactly the nodes on no cycle |
| DrainInvariant.DrainedShape | breadth-first-expansion.cpp:46 | when the loop exits, the boundaries with the two final entries have the schedule's shape, and level 0 is the initial frontier |
| DrainInvariant.DrainedFlow | breadth-first-expansion.cpp:40-41 | a contributor lies in a strictly earlier level than the node it drains into |
| DrainInvariant.DrainedBfs | breadth-first-expansion.cpp:22-23 | level 0 holds exactly the nodes without contributors, and every later node has a contributor in the level just before |
| DrainInvariant.Drained | breadth-first-expansion.cpp:29-46 | when the marker is met with nothing behind it, the ordering and the boundaries, completed by lines 30 and 46, form a schedule |
| AsWritten.Start | breadth-first-expansion.cpp:2-24 | the state entering the loop has one counter per node and a queue whose front is the marker or a node index |
| AsWritten.Step | breadth-first-expansion.cpp:27-41 | one iteration without a pop leaves the loop running with the same front, and appends to exactly one of the ordering and the boundaries |
| AsWritten.NeverStops | breadth-first-expansion.cpp:26-42 | after any number `n` of iterations the loop has not exited and its front is unchanged, while the ordering and boundaries have grown by `n` entries in total |
| AsWritten.SingleOutletLoops | breadth-first-expansion.cpp:29-34 | on the single outlet `[0]`, every iteration appends a boundary and the loop never exits |
| Scenarios.Chain | breadth-first-expansion.cpp:26-46 | for the chain `0 -> 1 -> 2` into outlet 2, the result is ordering `[0, 1]` and boundaries `[0, 1, 2, 2]` |
| Scenarios.TwoSources | breadth-first-expansion.cpp:26-46 | for two sources draining into outlet 2, the result is ordering `[0, 1]` and boundaries `[0, 2, 2]` |
| Scenarios.Ring | breadth-first-expansion.cpp:21-32 | for the ring `0 -> 1 -> 2 -> 0`, the result is ordering `[]` and boundaries `[0, 0, 0]` |
| Scenarios.LoneOutlet | breadth-first-expansion.cpp:21-32 | for a single outlet, the result is ordering `[]` and boundaries `[0, 0, 0]` |
| Scenarios.Loop | breadth-first-expansion.cpp:21-32 | for two nodes draining into each other, the result is ordering `[]` and boundaries `[0, 0, 0]` |

## Left out

- Bounds checking is not modelled: the source does none, and an out-of-range downstream index is undefined behaviour. Every downstream index in `[0, N)` is a precondition (`ValidGraph`).
- `shrink_to_fit` (lines 51-52) and `reserve` (line 6) are left out. They change only the capacity of the vectors, which no sequence shows.
- The other fields of `GridNode` and its definition are left out. Only `downStreamNode` is read, so a node is its downstream index.
- Integers are unbounded. The source's `int` counters, and casts of `unsigned int` indices to `int`, are assumed to fit in 32 bits: node indices fit, and no counter exceeds the node count.
- Parallel processing of the levels by a consumer is left out, because the function only builds the schedule.
- Read-only input is not stated as a contract: the graph is a sequence value, so the model cannot change it.
- GetDependencies: determinism is not stated. Within a level, `Schedule` leaves the order unconstrained. It does fix level 0 to ascending index order, because that is the initial frontier. The procedure itself is deterministic Dafny code.

## Findings

| source | as written | input that shows it | evidently intended | confidence | as-written member | corrected member |
|---|---|---|---|---|---|---|
| breadth-first-expansion.cpp:27 | `q.front()` is read and never removed, so the front never changes and `q.empty()` on line 31 is never true; the loop never exits | `[0]`: the front is the marker forever and a boundary 0 is appended on every iteration | remove the front after reading it (`q.pop()`), so that the loop drains the queue and exits at the last marker | not executed | AsWritten.NeverStops | BreadthFirstExpansion.GetDependencies |

# D* Lite grid path planner — a Dafny model

This project models the incremental search core of a small D*-Lite-style grid path planner
written in C++. The model has four parts:

- **Cell** (`cell.dfy`, module `Cells`) is one square of the grid. It holds the cost-to-goal
  estimate `g`, the one-step lookahead `rhs` and a status mark: `" "` free, `"x"` obstacle,
  `"?"` hidden obstacle, `"g"` goal, `"s"` start.
- **Map** (`map.dfy`, module `Maps`) is the height x width cost grid with its goal. It has the
  bounds-checked getters and setters, the key `min(g, rhs)`, the edge-cost rule (1.0 orthogonal,
  2.5 diagonal, 100.0 as the "infinite" sentinel), the traversability test and the enumeration of
  the eight surrounding squares.
- **OpenList** (`open_list.dfy`, module `OpenLists`) is the frontier: a vector of
  `(key, row, column)` entries whose front is the lexicographically least entry. It supports
  insert, top, pop, a linear `Find`, `UpdateKey` and `Remove`.
- **PathPlanner** (`path_planner.dfy`, module `PathPlanners`) runs the search on a 5 x 5 map. It
  seeds the goal and propagates costs with `updateVertex`, `getMinRhs` and `computeShortestPath`.
  It chooses the robot's next square by greedy descent on `g`, and it reveals hidden obstacles
  next to the robot and re-propagates around them.

`positions.dfy` (module `Positions`) holds the `(row, column)` pair, Manhattan distance,
adjacency and row-major order.

How the source's C++ becomes Dafny:

- **Cell is a datatype.** `Cell` is a C++ value type, and `Map` keeps its cells by value in a
  `std::vector<std::vector<Cell>>`. A setter called through `grid.at(r).at(c)` overwrites that
  slot of the grid. So the setters return the cell with one field replaced, and `Maps.Map` writes
  the result back into its `grid` field.
- **Map's const queries are functions on the grid value** (`Maps.Grid`). Its writers are methods
  of the class `Maps.Map`, which reassign `grid`.
- **The open list is a sequence.** `OpenLists.OpenList` keeps its vector as a `seq<Entry>` field
  and does not model the binary-heap layout. `Top` is the first lexicographically least entry,
  and "first match" in `UpdateKey` means first in that sequence.
- **Costs are exact `real` values.** The constants 1.0, 2.5 and 100.0 are exact decimals, so IEEE
  rounding plays no part.
- **The planner uses the names its Map and OpenList declare.** `PathPlanner.cpp` calls its map and
  open list by other names (`getG`, `setRhs`, `calculateKey`, `top`, `pop`, ...). The model maps
  each call to the corresponding `Map` or `OpenList` member. The planner's integer statuses -1 and
  100 are the hidden mark `"?"` and the obstacle mark `"x"`.

The planner keeps an invariant, `PathPlanners.Invariant`, which is its `Valid()` predicate. The
constructor establishes it. What the other planner methods require of it:

- the two lookups `GetMinRhs` and `GetNextPosition` require only the map's `Valid()` and change
  nothing;
- `LowerToRhs` and `RaiseToInfinity` require the invariant of the state before the pop, with the
  current open list being that state's list minus its least entry;
- `UpdateVertex` and `UpdateVertices` require the weaker form `InvariantExcept`;
- every other method requires `Valid()`.

Every state-changing method except `UpdateVertex` ensures `Valid()`. `UpdateVertex` ensures
`InvariantExcept` with the exceptions at its square cleared. The invariant says:

- every traversable square except the goal has `rhs` equal to its lookahead `MinRhs`;
- every square with `g != rhs` is in the open list;
- no square is in the open list twice;
- all estimates and keys are non-negative, and the goal has `rhs = 0`.

Beyond the invariant, the open-list contracts use `PathPlanners.QueuedExactly(grid, entries, u)`.
It says that `u` is in the open list exactly when `g(u) != rhs(u)`, and that every entry at `u`
has the key `min(g(u), rhs(u))`. The step contracts say which squares were updated and are now
`QueuedExactly`, and that every other square keeps its entries. Obstacles next to an updated
square are not updated, so they keep their entries too.

## Model

| member | source | states |
|---|---|---|
| Cells.Cell.Create | app/Cell.cpp:23-27 | a new cell has `g` and `rhs` both equal to the initial value and the free status `" "` |
| Cells.Cell.UpdateG | app/Cell.cpp:52 | sets `g`; `rhs` and the status are unchanged |
| Cells.Cell.UpdateRhs | app/Cell.cpp:59 | sets `rhs`; `g` and the status are unchanged |
| Cells.Cell.UpdateStatus | app/Cell.cpp:66 | sets the status; `g` and `rhs` are unchanged |
| Cells.CellTestSequence | test/CellTest.cpp:18-33 | a cell created with 10000 reads back 10000/10000/" " and, after the three setters, 10/10/"*" |
| Maps.Map.constructor | app/Map.cpp:23-29 | every square of the height x width grid starts as `g = rhs = 100` with status `" "`; the goal is the value-initialised pair (0, 0) |
| Maps.Map.AddObstacle | app/Map.cpp:36-42 | each listed obstacle becomes `"x"`, then each listed hidden square becomes `"?"` (a square in both lists ends `"?"`); no other status and no estimate changes |
| Maps.Map.SetGoal | app/Map.cpp:49-52 | `GetGoal()` is then the new goal, whose square alone changes, to status `"g"` |
| Maps.Map.GetGoal | app/Map.cpp:59 | returns the stored goal. `SetGoal` ensures `GetGoal() == p`, and `AddObstacle`, the `UpdateCell*` setters and `SetInfinityCellG` each ensure `goal == old(goal)`; together these make it the position last given to `SetGoal`, or (0, 0) before any |
| Maps.Grid.ReadAfterSet | app/Map.cpp:66-95 | the getters `G`, `Rhs` and `Status` read back a write: after a cell is written at `p`, reading at `p` gives the written `g`, `rhs` and status, and reading at any other square gives what it gave before |
| Maps.Grid.Key | app/Map.cpp:84-86 | the key is at most `g` and at most `rhs`, and equals one of them: it is `min(g, rhs)` |
| Maps.Grid.Set | app/Map.cpp:102-125 | writing one square keeps the grid's size and leaves every other square unchanged |
| Maps.Map.UpdateCellG | app/Map.cpp:102-105 | only the `g` of the named square changes; the goal is kept |
| Maps.Map.UpdateCellRhs | app/Map.cpp:112-115 | only the `rhs` of the named square changes; the goal is kept |
| Maps.Map.UpdateCellStatus | app/Map.cpp:122-125 | only the status of the named square changes; the goal is kept |
| Maps.Map.SetInfinityCellG | app/Map.cpp:132-134 | only the `g` of the named square changes, to the sentinel 100 |
| Maps.Grid.ComputeCost | app/Map.cpp:141-152 | the cost is one of 1.0, 2.5 and 100; it is 1.0 exactly when the destination is available at Manhattan distance 1, and 2.5 exactly when it is available at Manhattan distance 2; the source square is never examined |
| Maps.Grid.Availability | app/Map.cpp:180-185 | true exactly when the square is inside the grid and is not marked `"x"`; hidden squares count as available |
| Maps.Grid.Neighbors | app/Map.cpp:159-173 | a square is listed exactly when it is one of the eight around `p` and is available; the list is strictly row-major sorted (so `p` itself and repetitions are excluded) and has at most 8 entries |
| Maps.Map.FindNeighbors | app/Map.cpp:159-173 | the two nested loops over the offsets -1, 0, 1 produce exactly `Grid.Neighbors(p)` |
| Maps.Grid.NeighborsCount | app/Map.cpp:162-171 | the scan keeps at most one candidate per offset and never the zero offset |
| Maps.MapGetTest | test/MapTest.cpp:18-41 | on the 5 x 5 test map, the goal reads back (4, 2), and (1, 1) has `g = rhs = key = 100` and status `" "` |
| Maps.MapSetTest | test/MapTest.cpp:44-73 | on the 8 x 9 test map the setters read back 5566, 100, 7878 and the new status |
| Maps.NeighborsNextToObstacle | test/MapTest.cpp:83-90 | on the last row of a 100 x 70 grid with an obstacle at (99, 3), the neighbours of (99, 2) are exactly (98,1), (98,2), (98,3), (99,1) |
| Maps.MapOtherTest | test/MapTest.cpp:76-94 | the test's four neighbours, the unavailable obstacle and its cost of 100 |
| OpenLists.LeastIndex | app/OpenList.cpp:67-72 | the index of an entry that is lexicographically no greater than any entry, and strictly less than every entry before it |
| OpenLists.FirstAt | app/OpenList.cpp:38-44 | the index of the first entry whose position is `p`, for a list that contains `p` |
| OpenLists.RemoveAt | app/OpenList.cpp:57-59 | taking out one entry shortens the list by one and keeps all other entries in order |
| OpenLists.RemoveAtMembers | app/OpenList.cpp:79-88 | taking out one entry adds no entry, and keeps every entry at a position other than the removed one's |
| OpenLists.RemovedPresent | app/OpenList.cpp:54-60 | when `p` is present and every key is above -1, `Remove(p)` deletes exactly the first entry at `p` |
| OpenLists.RemovedAbsent | app/OpenList.cpp:54-60 | when `p` is absent from a non-empty list, `Remove(p)` deletes the least entry instead |
| OpenLists.CountAtContains | app/OpenList.cpp:95-102 | the number of entries at `p` is positive exactly when some entry is at `p` |
| OpenLists.OpenList.Insert | app/OpenList.cpp:23-29 | adds exactly the entry `(k, p)` and keeps all existing entries, without checking for duplicates |
| OpenLists.OpenList.Top | app/OpenList.cpp:67-72 | on a non-empty list, returns an entry of the list that is lexicographically no greater than every entry |
| OpenLists.OpenList.Pop | app/OpenList.cpp:79-88 | returns the entry `Top()` returned and removes exactly that one entry, leaving the others unchanged |
| OpenLists.OpenList.Find | app/OpenList.cpp:95-102 | true exactly when some entry has position `p` |
| OpenLists.OpenList.UpdateKey | app/OpenList.cpp:36-47 | rewrites the key of the first entry at `p` and nothing else; with `p` absent the list is unchanged |
| OpenLists.OpenList.Remove | app/OpenList.cpp:54-60 | re-keys the first entry at `p` to -1, then pops the least entry |
| OpenLists.OpenListTestTops | test/OpenListTest.cpp:46-54 | the least entry is (6, 0), then (3, 2) after the pop, then (4, 5) after re-keying (3, 2) to 3.3 |
| OpenLists.OpenListTestSequence | test/OpenListTest.cpp:41-57 | the test's sequence of tops, pop and finds: (6,0), (6,0), (3,2), (4,5), not found, found |
| PathPlanners.PathPlanner.constructor | app/PathPlanner.cpp:43-58 | obstacles, hidden squares, goal and start are marked; `rhs(goal) = 0`, every other estimate is 100, the open list is exactly `[(0, goal)]`, and the invariant holds |
| PathPlanners.SeededGrid | app/PathPlanner.cpp:48-54 | after marking goal and start and setting `rhs(goal) = 0`, each square's estimates and status are as the constructor promises |
| PathPlanners.InitialInvariant | app/PathPlanner.cpp:52-57 | with every `g` at 100 and only the goal queued with key 0, the planner invariant holds |
| PathPlanners.Cheapest | app/PathPlanner.cpp:141-145 | the scan's result is at most its start value and at most every candidate's step cost; the candidate changes only when the minimum does |
| PathPlanners.CheapestWitness | app/PathPlanner.cpp:141-145 | when the scan goes below its start value, the result is the step cost of a candidate that is strictly cheaper than every candidate before it |
| PathPlanners.MinRhs | app/PathPlanner.cpp:138-147 | the lookahead is at most 100 and at most `cost(v,u) + g(u)` for every neighbour `u`; below 100 it equals one of those sums; with non-negative estimates it is at least 1.0 |
| PathPlanners.PathPlanner.GetMinRhs | app/PathPlanner.cpp:138-147 | the loop over the neighbours returns `MinRhs` |
| PathPlanners.NextPosition | app/PathPlanner.cpp:155-168 | stays at `c` when no neighbour's cost + g is below 100; otherwise moves to an available neighbour whose cost + g is the minimum `MinRhs(c)`, strictly cheaper than every neighbour before it in row-major order |
| PathPlanners.CheapestIsFirstMinimiser | app/PathPlanner.cpp:159-166 | on a row-major sorted scan, the chosen candidate is the first minimiser, or `c` itself when nothing is below 100 |
| PathPlanners.PathPlanner.GetNextPosition | app/PathPlanner.cpp:155-168 | the loop over the neighbours returns `NextPosition` |
| PathPlanners.LookaheadIsLocal | app/PathPlanner.cpp:138-147 | a square's neighbours and lookahead depend only on the statuses of the eight squares around it and the `g` of the non-obstacles among them |
| PathPlanners.PathPlanner.UpdateVertex | app/PathPlanner.cpp:117-130 | `rhs(v) := MinRhs(v)` unless `v` is the goal; no `g`, status or other square changes; the entry of `v` is removed if present and `(min(g, rhs), v)` is appended exactly when `g(v) != rhs(v)`; `v` is then queued exactly when inconsistent, and the invariant's exceptions at `v` are cleared |
| PathPlanners.UpdateVertexKeeps | app/PathPlanner.cpp:117-130 | `v` is `QueuedExactly`; each square other than `v` has as many entries as before and the same entries; lookaheads stay correct, and the invariant's exceptions at `v` are cleared |
| PathPlanners.RequeueCounts | app/PathPlanner.cpp:122-129 | removing `v`'s entry and appending at most one entry for `v` changes the entry count at `v` only |
| PathPlanners.RequeueMembers | app/PathPlanner.cpp:122-129 | after that requeueing, the only entries at `v` are the appended ones, and the entries at every other square are exactly the old ones |
| PathPlanners.QueuedExactlyFrame | app/PathPlanner.cpp:117-130 | a square stays `QueuedExactly` through any change that keeps its `g`, its `rhs` and its entries |
| PathPlanners.PathPlanner.UpdateVertices | app/PathPlanner.cpp:92-94 | updating every square whose lookahead was stale restores the invariant; every updated square is then `QueuedExactly`; every other square keeps its entries and its `rhs`; `g` and statuses are unchanged |
| PathPlanners.UpdatedOneMore | app/PathPlanner.cpp:92-94 | the loop's facts for the squares updated so far extend by one more updated square |
| PathPlanners.PathPlanner.ProcessTop | app/PathPlanner.cpp:75-102 | pops the least entry; if its key is below the node's current key, it is re-inserted with that key and the grid is unchanged. Otherwise `g(node)` becomes `rhs(node)` when `g > rhs`, and 100 otherwise, and `rhs(node)` is then its old value or (underconsistent, not the goal) its lookahead before the step. The node and the traversable squares around it are `QueuedExactly`; every other square keeps its entries, so the popped entry is gone unless the node is requeued; every square other than those keeps its `rhs`, obstacles included. The invariant is kept |
| PathPlanners.PathPlanner.LowerToRhs | app/PathPlanner.cpp:87-94 | `g(node) := rhs(node)` and the squares around it are updated; only `rhs` values change besides; `SettledAround` holds, with the node left unqueued |
| PathPlanners.PathPlanner.RaiseToInfinity | app/PathPlanner.cpp:95-101 | `g(node) := 100`, then the node and the squares around it are updated; `rhs(node)` becomes its lookahead (the goal keeps its `rhs`); `SettledAround` holds |
| PathPlanners.SettleFrame | app/PathPlanner.cpp:87-101 | after the node's update and the updates around it, the node and its traversable neighbours are `QueuedExactly`; every other square keeps its entries and its `rhs` |
| PathPlanners.RaiseFrame | app/PathPlanner.cpp:97-98 | raising `g(node)` and updating the node changes that square only; its new `rhs` is its lookahead before the raise |
| PathPlanners.ReinsertKeeps | app/PathPlanner.cpp:84-86 | re-inserting a stale top with the node's current key keeps the invariant |
| PathPlanners.SetGKeeps | app/PathPlanner.cpp:87-101 | after the pop and the write to `g(node)`, the node is no longer queued; lookaheads are stale only at the node's neighbours; only the node may be inconsistent and unqueued |
| PathPlanners.SetGLookahead | app/PathPlanner.cpp:89-99 | changing one square's `g` leaves every lookahead correct except at the squares around it |
| PathPlanners.PathPlanner.ComputeShortestPath | app/PathPlanner.cpp:67-104 | the invariant is kept and no status changes; `converged` is true exactly when the loop condition is false at return, and when it returns `converged`, `g(robot) = rhs(robot)`, no queued key lies below `key(robot)`, and `g(robot)` is the robot's lookahead unless it is the goal or an obstacle; if the condition is false on entry, nothing changes |
| PathPlanners.ConvergedExit | app/PathPlanner.cpp:72-74 | when the loop condition fails, `g(robot) = rhs(robot)`, every queued key is at least `key(robot)`, and `g(robot)` is the robot's lookahead unless it is the goal or an obstacle |
| PathPlanners.PathPlanner.DetectHidden | app/PathPlanner.cpp:177-198 | returns true exactly when some neighbour of `c` was hidden; each such neighbour becomes `"x"` with `g = rhs = 100`; every other status and every other `g` is unchanged. Every obstacle keeps its `rhs`, and so does every square that is neither revealed nor next to a revealed square. Every unrevealed square keeps its entries unless it is traversable and next to a revealed square, so obstacles keep theirs. Every traversable, unrevealed square next to a revealed one is `QueuedExactly`. The invariant is restored |
| PathPlanners.PathPlanner.ScanCandidate | app/PathPlanner.cpp:180-194 | a candidate that is still hidden is revealed, and any other candidate is left alone; the scan's grid and open-list facts (`Progress`, `QueueProgress`) extend by the candidate |
| PathPlanners.PathPlanner.Reveal | app/PathPlanner.cpp:182-192 | the hidden square alone turns into an obstacle with `rhs = g = 100`. No other status or `g` changes. No obstacle's `rhs` changes, and no `rhs` changes away from the square and its traversable neighbours. Those neighbours are `QueuedExactly`, and every other square keeps its entries. The revealed square stays queued as `updateVertex` left it before the reset: exactly when its old `g` differs from its lookahead, with key the lesser of the two |
| PathPlanners.PathPlanner.MarkObstacle | app/PathPlanner.cpp:182-190 | after marking the square `"x"` and updating it and its neighbours, the invariant holds again. Its `rhs` is its lookahead before the marking, and it and its traversable neighbours are `QueuedExactly`. Every other square keeps its entries and its `rhs`, obstacles included |
| PathPlanners.MarkSettles | app/PathPlanner.cpp:182-190 | from the grids between the marking steps: the marked square's `rhs` is its old lookahead, and `SettledAround` holds for it |
| PathPlanners.MarkUpdateFrame | app/PathPlanner.cpp:182-185 | marking the square and updating it changes that square only; its new `rhs` is its lookahead before the marking |
| PathPlanners.ResetQueue | app/PathPlanner.cpp:191-192 | forcing the obstacle's `rhs` and `g` to 100 leaves the open list as the marking steps left it, so the reveal's open-list facts hold |
| PathPlanners.NearRevealedSnoc | app/PathPlanner.cpp:180-194 | scanning one more candidate adds it, and the squares next to it, to the revealed and near-revealed squares exactly when it was hidden |
| PathPlanners.RevealStep | app/PathPlanner.cpp:182-192 | one revealed candidate extends the scan's grid facts, the `rhs` frames included |
| PathPlanners.QueueRevealStep | app/PathPlanner.cpp:182-192 | one revealed candidate extends the scan's open-list facts |
| PathPlanners.SkipStep | app/PathPlanner.cpp:181 | a candidate that is not hidden extends the scan's facts without changing anything |
| PathPlanners.RevealKeeps | app/PathPlanner.cpp:182 | marking a hidden square `"x"` makes the lookahead stale only at the squares around it |
| PathPlanners.ResetObstacleKeeps | app/PathPlanner.cpp:191-192 | forcing an obstacle's `rhs` and `g` to 100 keeps the invariant |
| PathPlanners.HiddenAmongMembers | app/PathPlanner.cpp:178-183 | the flag raised during the scan is true exactly when some scanned square was hidden |
| PathPlanners.ProgressDone | app/PathPlanner.cpp:177-198 | at the end of the scan, the squares revealed are exactly the neighbours that were hidden |

## Left out

- Bounds errors: `.at` throws `std::out_of_range` on a position outside the grid, and nothing
  catches it. The model makes "inside the grid" a precondition of every getter and setter.
- Printing is not modelled: `Map::PrintValue`, `Map::PrintResult`, the `printG`/`printRhs` calls
  in `computeShortestPath`, `PathPlanner::print` and `setMapTrace` only format text.
- `Robot`, `TalkingRobot`, `AnalogSensor` and `main` are not part of this model. They hold the
  robot's position, exercise a mocking framework, and are template boilerplate.
- The binary-heap layout of the open list (`std::push_heap`, `pop_heap`, `make_heap`) is not
  modelled. The vector is a sequence, and the least entry is found by a scan. Which copy of two
  identical entries `Pop` removes, and the order of the other entries, are not the source's.
- `Map::setStart` is not among the `Map` sources. The constructor models it as stamping the start
  mark `"s"` on the robot's square, after the goal mark.
- PathPlanners.PathPlanner.ComputeShortestPath: runs at most `fuel` iterations, so termination is
  not modelled. The result `converged` says whether the loop stopped because its condition
  failed. Global optimality, that `g` equals the true shortest distance, is not stated.
- PathPlanners.PathPlanner.ComputeShortestPath: the source evaluates `openlist.top()` first in the
  loop condition, without checking for an empty list. By the invariant, an inconsistent robot
  square is queued, so the list can only be empty when the robot's square is already consistent.
  That case does happen: with the goal walled in, the robot has `g = rhs = 100`; the goal's entry
  is popped, it has no neighbours to update, and the next test of the condition reads the front
  of an empty vector. The model reads the top key only when the list is non-empty and otherwise
  tests consistency alone, so there it stops with `converged`.
- Maps.Map.constructor: requires a non-negative height and width. A negative size makes the
  source's `std::vector` constructor throw `std::length_error` (app/Map.cpp:23-26); the model
  excludes that case rather than modelling the exception.
- PathPlanners.PathPlanner.DetectHidden: the entries of the revealed squares are not described.
  `Reveal` states the entry each one is left with, but relative to the grid at the time of its
  own reveal, and the scan does not carry that forward.
- IEEE `double` arithmetic is not modelled; costs and keys are exact reals.

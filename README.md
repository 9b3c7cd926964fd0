# Grid search engine, modelled in Dafny

This project models the search engine of a grid puzzle solver.

**The board.** The board is an m-by-n grid. Every square holds a token: an operator character (`+ - * ^ a b s g w`) followed by an integer operand. Squares marked `w` are walls.

**The search node.** A search starts on the `s` square and looks for the `g` square. Along the way it carries two running values:
- the *path value*, which `+ - * ^` change;
- the *goal value*, which `a` and `b` change.

It stops at the goal square once the path value exceeds the goal value. In backward mode the test flips: the path value must be at most the goal value.

**The engine (`Find`):**
- locates the start and goal squares;
- applies a square's operator forward or in reverse, optionally charging a per-operator step cost;
- generates the successors of a node: its four neighbours, skipping walls, each with a deep-copied visited table and the parent's path extended by itself;
- runs three drivers:
  - `bfs`, a first-in-first-out queue;
  - `dls`/`iddfs`, depth-limited recursion with ascending depth bounds;
  - `a_star`, which is in fact a greedy walk that keeps only the single best neighbour.

Modules:
- `Grid` (grid.dfy): the board, tokens, positions, `__get_opt` and `__get_number`.
- `Cells` (cells.dfy): the `Cell` class with its table aliasing, `__eq__`, `__hash__` (as a tuple key) and `__str__`. It also defines `Node`, the value a cell stands for: square, running values and the squares of its path.
- `FindRules` (find_rules.dfy): the pure parts of `Find`:
  - the costs;
  - the forward and reversed operators;
  - the goal test;
  - the integer heuristic and the f-value;
  - successor generation on values (`Expand`).
- `FindSpec` (find_spec.dfy): reference definitions, on values, of what each driver computes. A run is the outcome plus the sequence of nodes appended to `explored`. These are `DepthLimited`/`Deepening` for `dls`/`iddfs`, `GreedyWalk` for `a_star` and `Breadth` for `bfs`. The file also holds the properties proved about them.
- `Search` (find.dfy): the imperative `Find` class.
  - `explored` is a field the drivers reassign.
  - Tables are `array2<bool>`, deep-copied for every successor.
  - The drivers are loops and recursion over cells.
  - A ghost `trace` records the node each cell of `explored` stood for when it was appended (`Recorded`). Each driver's `ensures` keeps the old cells of `explored`, ties `trace` to the matching run of `FindSpec`, and ties the returned path to that run's report.
- `Seqs` (seqs.dfy): sequence facts used by the proofs.

Behaviour reproduced as the code has it:
- **The novelty check never matches.** `__successor` asks whether `explored` contains the successor's hash key. Keys are never cells, so the check never removes a successor (`HashStringNeverInCellList`, `Consider`).
- **`bfs` tests the parent.** When a successor stands on the end square, `bfs` runs the goal test on the cell it took from the queue, not on that successor. The successor on the end square is never enqueued (`Breadth`, `BreadthReportsParent`).
- **`dls` ignores its target.** It ignores `target_row`/`target_col` and compares with the goal square.
- **The `iddfs` start path is empty.** `iddfs` starts from a cell whose path is empty, so a path it reports lacks the start square. `bfs` and `a_star` put the start cell on its own path.
- **`applyCost` lowers the path value.** It lowers the path value by the step cost; `path_cost` is never touched.
- **`bfs` swaps its ends in backward mode.** It searches from the goal square for the start square. `iddfs` and `a_star` always search forward in position, even when `isBackward` is set.

A driver's printed output is modelled as its return value: the squares of the path of the cell whose goal test succeeded, or `None`.

## Model

| member | source | states |
|---|---|---|
| Grid.OptAt | src-python/Find.py:42-43 | the lower-cased operator of an in-bounds square is one of the known operator characters |
| Grid.NumberAt | src-python/Find.py:45-46 | the number of a square is what follows its operator in its token |
| Cells.Cell.constructor | src-python/Cell.py:2-11 | row, col, both values and path are stored as given; `path_cost` defaults to 0; the table passed in (not a copy) gets the cell's own square set, and every other entry is unchanged |
| Cells.Cell.Equals | src-python/Cell.py:13-18 | `__eq__` holds only of another cell, and a cell always equals itself |
| Cells.Cell.Hash | src-python/Cell.py:20-22 | the key holds every flag of the table at its row and column, the cell's square and both running values |
| Cells.Cell.Str | src-python/Cell.py:24-25 | the printed pair is the cell's square, 1-indexed |
| Cells.Rows | src-python/Cell.py:20-22 | the table part of the hash key has the table's shape and holds the table's entries row by row |
| Cells.Positions | src-python/Find.py:230-231 | the squares of a path, one per cell |
| Cells.PositionsAt | src-python/Find.py:230-231 | the i-th square of a path is the square of its i-th cell |
| Cells.PositionsAppend | src-python/Find.py:56 | appending a cell to a path appends its square to the path's squares |
| Cells.EqualsIsEquivalence | src-python/Cell.py:13-18 | `__eq__` on cells is reflexive, symmetric and transitive |
| Cells.HashDeterminesEquality | src-python/Cell.py:13-22 | equal hash keys imply `__eq__` |
| Cells.EqualityIgnoresValues | src-python/Cell.py:13-22 | the converse fails: cells on one square with different path values are equal but hash apart |
| Cells.HashStringNeverInCellList | src-python/Find.py:62 | a hash key is never contained in a list of cells, so the novelty check never holds |
| Cells.StrAgreesWithEquals | src-python/Cell.py:13-25 | two cells print the same 1-indexed square exactly when they are equal |
| FindRules.CostsCoverPassableSquares | src-python/Find.py:10-19 | every operator a non-wall square can hold has a step cost |
| FindRules.CostsPositive | src-python/Find.py:10-19 | `Costs` has a step cost for exactly the operators other than the wall, and each is positive |
| FindRules.CalOpt | src-python/Find.py:102-121 | forward step: only `a`/`b` change the goal value; on `a`, `b`, `s`, `g` the path value changes by exactly the step cost (0 with costs off) |
| FindRules.CalReversedOpt | src-python/Find.py:84-100 | reverse step (no `*`/`^`): only `a`/`b` change the goal value and only `+`/`-` the path value |
| FindRules.Apply | src-python/Find.py:57-60 | a child's values: only `a`/`b` squares change the goal value, and on `a`/`b` the path value changes only through a forward step cost |
| FindRules.BackwardChargesNoCost | src-python/Find.py:57-60 | backward mode never charges a step cost: its step is the same with costs on or off |
| FindRules.Child | src-python/Find.py:55-60 | the child stands on its square, its path is the parent's followed by that square, and its goal value changes only on `a`/`b` |
| FindRules.ReversedUndoesForward | src-python/Find.py:84-116 | with costs off, the reverse step after the forward step at the same square returns the original pair |
| FindRules.ForwardUndoesReversed | src-python/Find.py:84-116 | with costs off, the forward step after the reverse step returns the original pair |
| FindRules.CostOnlyLowersPathValue | src-python/Find.py:118-119 | charging costs lowers the forward path value by exactly `Costs[op]` and leaves the goal value as it is |
| FindRules.CostSurvivesReversal | src-python/Find.py:84-121 | with costs on, reversing a forward step leaves the path value short by `Costs[op]` |
| FindRules.GoalReached | src-python/Find.py:123-128 | the goal test holds exactly when the path value exceeds the goal value going forward, and exactly when it does not going backward |
| FindRules.GoalTestsComplementary | src-python/Find.py:123-128 | the backward goal test is the negation of the forward one, and the forward test is `path_value > goal_value` |
| FindRules.ISqrt | src-python/Find.py:48-49 | the result is the floor square root: r² <= x < (r+1)² |
| FindRules.Heuristic | src-python/Find.py:48-49 | the heuristic h is the floor of the straight-line distance d to the goal: h² <= d² < (h+1)² |
| FindRules.FValue | src-python/Find.py:130-131 | the f-value is at most the path value, and equals it on the goal square |
| FindRules.HeuristicBounds | src-python/Find.py:48-49 | the heuristic lies between the larger coordinate difference and their sum, and is 0 exactly on the goal square |
| FindRules.HeuristicIsRoot | src-python/Find.py:48-49 | the heuristic is the floor square root of the sum of the squared coordinate differences |
| FindRules.RootBounds | src-python/Find.py:48-49 | the floor square root of a² + b² lies between each of a and b and their sum, and is 0 exactly when both are 0 |
| FindRules.FValueBounds | src-python/Find.py:130-131 | the f-value never exceeds the path value and equals it exactly on the goal square |
| FindRules.NeighbourPositions | src-python/Find.py:65-81 | at most 4 squares, each in bounds, adjacent and not a wall |
| FindRules.NeighboursComplete | src-python/Find.py:65-81 | every in-bounds adjacent non-wall square is among them |
| FindRules.NeighboursOrdered | src-python/Find.py:65-81 | they come in the order up, left, down, right |
| FindRules.Toward | src-python/Find.py:65-81 | one guard of `__successor` admits at most one square, in bounds, adjacent and not a wall |
| FindRules.TowardUpTo | src-python/Find.py:65-81 | the first d guards admit at most d in-bounds non-wall squares |
| FindRules.AllFourGuards | src-python/Find.py:65-81 | the four guards together admit exactly the neighbour squares |
| FindRules.ChildToward | src-python/Find.py:55-81 | one `if` of `__successor` yields at most one child, on an adjacent square, whose path is the parent's followed by that square |
| FindRules.ExpandUpTo | src-python/Find.py:51-82 | the first d `if`s yield at most d such children |
| FindRules.Expand | src-python/Find.py:51-82 | at most 4 successors, each on an adjacent in-bounds square, each path being the parent's extended by its own square |
| FindRules.ChildrenAlongGuards | src-python/Find.py:51-82 | the first d `if`s yield one child per admitted square, on that square, in order |
| FindRules.ExpandFollowsNeighbours | src-python/Find.py:51-82 | the successors are exactly the children on the neighbour squares, one each, in the order up, left, down, right |
| FindSpec.StartNode | src-python/Find.py:139-142 | the root node stands on the start square with the given path; its path value is the start square's number and its goal value the end square's number |
| FindSpec.DepthLimited | src-python/Find.py:163-179 | a `dls` run visits its start node first, never runs out of fuel, and a reported node stands on the goal square, passes the goal test and is the last node visited |
| FindSpec.DepthLimitedFrom | src-python/Find.py:176-179 | the successor loop of `dls` reports only a node that passes the goal test, as the last node visited |
| FindSpec.DepthLimitedAtGoal | src-python/Find.py:167-169 | `dls` on a node that passes the goal test reports it and visits nothing else |
| FindSpec.DepthLimitedAtLeaf | src-python/Find.py:171-172 | otherwise, with no depth left, it visits the node alone and reports nothing |
| FindSpec.DepthLimitedInside | src-python/Find.py:164-179 | otherwise it appends the node and then what the successor loop appends, with the loop's outcome |
| FindSpec.DepthLimitedFromHit | src-python/Find.py:176-178 | a successor whose search succeeds ends the loop with that search's run |
| FindSpec.DepthLimitedFromMiss | src-python/Find.py:176-178 | a failed successor search is followed by the search of the next successor |
| FindSpec.DepthLimitedFromEnd | src-python/Find.py:179 | past the last successor the loop appends nothing and reports nothing |
| FindSpec.NoExpansionWithoutDepth | src-python/Find.py:167-172 | once `max_depth <= 0`, `dls` visits only its node and succeeds exactly when that node stands on the goal and passes the goal test |
| FindSpec.DepthLimitedBound | src-python/Find.py:163-179 | every node `dls` visits lies at most `max_depth` squares further along its path than the start node |
| FindSpec.DepthLimitedFromBound | src-python/Find.py:174-179 | every node the successor loop visits lies between 1 and depth+1 squares further along than the parent |
| FindSpec.Deepening | src-python/Find.py:181-191 | iterative deepening never runs out of fuel; a reported node passes the goal test and is the last node visited |
| FindSpec.DeepeningHit | src-python/Find.py:187-189 | a succeeding `dls` round ends iterative deepening with that round's run |
| FindSpec.DeepeningMiss | src-python/Find.py:187-189 | a failing round is followed by the round with the next depth bound |
| FindSpec.DeepeningFound | src-python/Find.py:187-189 | after a succeeding round, `explored` holds exactly what iterative deepening appends, and the reported path is that round's |
| FindSpec.DeepeningNext | src-python/Find.py:187-189 | after a failing round, the rest of the search starts from the next bound, after what that round appended |
| FindSpec.SolvedWithinDepth | src-python/Find.py:163-179 | a node `dls` reports with bound d is at most d squares further along than the root |
| FindSpec.DeepeningFirstSuccess | src-python/Find.py:181-191 | when iterative deepening succeeds, it reports what the smallest succeeding bound d < max_depth finds, every smaller bound finds nothing, and the path is at most d squares longer than the root's |
| FindSpec.DeepeningStep | src-python/Find.py:187-189 | the outcome is the round's own when it succeeds, else that of the rounds after it |
| FindSpec.DeepeningComplete | src-python/Find.py:187-191 | if any bound from i below max_depth makes `dls` succeed, iterative deepening succeeds |
| FindSpec.DeepeningStable | src-python/Find.py:181-191 | raising `max_depth` does not change a search that already succeeds |
| FindSpec.FirstGoal | src-python/Find.py:213-217 | a neighbour the scan stops at stands on the goal square and passes the goal test |
| FindSpec.FirstGoalSound | src-python/Find.py:213-217 | the first goal is a neighbour that stands on the goal square and passes the goal test; there is none only when no neighbour does |
| FindSpec.FirstGoalSkip | src-python/Find.py:213-217 | skipping neighbours that are not goals does not change the first goal |
| FindSpec.BestOf | src-python/Find.py:209-220 | with no pick the kept value is the initial 0; with a pick it is the pick's f-value |
| FindSpec.BestOfSound | src-python/Find.py:209-220 | the scan's pick is one of the neighbours and the kept value is its f-value; with no pick the kept value stays 0 |
| FindSpec.BestIsLastMaximal | src-python/Find.py:209-220 | the scan picks nothing exactly when every f-value is negative, and otherwise picks the last neighbour of maximal f-value (which is non-negative) |
| FindSpec.ScanHit | src-python/Find.py:216-217 | the scan stops at the first neighbour that is a goal |
| FindSpec.ScanStep | src-python/Find.py:213-220 | a neighbour that is not a goal replaces the best so far exactly when its f-value is at least the best f-value |
| FindSpec.ScanEnd | src-python/Find.py:213-220 | a finished scan met no goal and its best is that of all neighbours |
| FindSpec.GreedyWalk | src-python/Find.py:194-225 | the walk visits at most `fuel` nodes, exactly `fuel` when it runs out, and a reported node stands on the goal and passes the goal test |
| FindSpec.GreedyFound | src-python/Find.py:216-217 | when a neighbour of the current cell is a goal, the walk has appended exactly its trace and reports that neighbour's path |
| FindSpec.GreedyMove | src-python/Find.py:218-223 | otherwise the walk goes on from the best neighbour, which is on the board, with one unit of fuel less |
| FindSpec.GreedyStuck | src-python/Find.py:222-225 | with no best neighbour the open list empties and the walk ends with no solution |
| FindSpec.GreedyExhausted | src-python/Find.py:203-225 | with no fuel left the walk has appended exactly what it appended so far and reports nothing |
| FindSpec.Enqueued | src-python/Find.py:152-158 | `bfs` enqueues only successors, never one on the end square, never one whose square is on the parent's path, and at most one per successor |
| FindSpec.EnqueuedStep | src-python/Find.py:152-158 | each successor in turn is enqueued or not by that rule |
| FindSpec.ReachesStep | src-python/Find.py:152-155 | a successor prefix reaches the end square if a shorter one did or the new successor stands on it |
| FindSpec.NextQueue | src-python/Find.py:146-158 | the queue after one round stays on the board |
| FindSpec.NextQueueKeepsRest | src-python/Find.py:147-158 | the next queue starts with the old queue minus its head, so the queue is first in, first out |
| FindSpec.Hits | src-python/Find.py:152-154 | the `bfs` test holds only of a node next to the end square |
| FindSpec.Breadth | src-python/Find.py:133-161 | a reported node is the last node `bfs` visited |
| FindSpec.BreadthStep | src-python/Find.py:146-158 | a round that does not report visits the head and goes on with the next queue |
| FindSpec.BreadthFound | src-python/Find.py:153-155 | a head that hits ends the search, reporting its path after appending exactly the search's trace |
| FindSpec.BreadthAdvance | src-python/Find.py:146-158 | a head that does not hit is appended, and the search goes on with the next queue and one unit of fuel less |
| FindSpec.BreadthStops | src-python/Find.py:146-161 | with the queue empty or the fuel used up, the search has appended exactly what it appended so far and reports nothing |
| FindSpec.BreadthReportsParent | src-python/Find.py:153-154 | a node `bfs` reports passes the goal test itself and has a successor on the end square (the neighbour there is not tested) |
| FindSpec.EnqueuedNoRepeat | src-python/Find.py:157-158 | an enqueued successor of a node whose path repeats no square also repeats none, and is not on the end square |
| FindSpec.NextQueueNoRepeat | src-python/Find.py:146-158 | one round keeps every queued path free of repeated squares |
| FindSpec.BreadthVisitsNoRepeat | src-python/Find.py:146-158 | no node `bfs` visits has a path that repeats a square |
| FindSpec.BreadthFifo | src-python/Find.py:146-158 | the first k nodes `bfs` visits are the first k nodes of its queue, unless it reports earlier |
| Search.FindFirst | src-python/Find.py:30-43 | the result is a square with the operator, and no square before it in row-major order has the operator; None only when no square has it |
| Search.DeepCopy | src-python/Find.py:67 | a fresh table with the same shape and contents |
| Search.EmptyTable | src-python/Find.py:140 | a fresh m-by-n table with nothing marked |
| Search.MarksChild | src-python/Find.py:56-80 | a successor of a cell whose table marks exactly its path squares marks exactly its own path squares |
| Search.Neighbour | src-python/Find.py:157 | the parent's table entry for a successor's square says whether that square is on the parent's path |
| Search.QueuedTail | src-python/Find.py:147 | popping the head keeps the cell queue in step with its node queue |
| Search.QueuedAppend | src-python/Find.py:158 | appending keeps the cell queue in step with its node queue |
| Search.Find.constructor | src-python/Find.py:21-43 | stores the settings; `source` and `goal` are the first `s` and `g` squares in row-major order, or None; `explored` starts empty |
| Search.Find.MakeChild | src-python/Find.py:55-80 | a fresh cell on a fresh copy of the parent's table with its own square marked; its path is the parent's followed by itself; its values are the parent's after the square's operator |
| Search.Find.CheckGoal | src-python/Find.py:123-128 | a cell passes `__check_goal` exactly when its path value exceeds its goal value going forward, or does not going backward; equivalently, exactly when the node it stands for is a goal on its own square |
| Search.Find.Consider | src-python/Find.py:55-81 | one `if` of `__successor`, with `common_part`, yields exactly the child on the square its guard admits |
| Search.Find.Extended | src-python/Find.py:51-82 | the cell of one more `if`, if any, extends the successors built by the earlier `if`s |
| Search.Find.Add | src-python/Find.py:55-81 | one `if` appends at most its own child to the successors built so far; that child and its table are fresh, so no two successors share a cell or a table |
| Search.Find.Gather | src-python/Find.py:51-82 | the four `if`s build the successors, no two sharing a cell or a table, each fresh with a fresh table |
| Search.Find.Downward | src-python/Find.py:73-81 | the down and right `if`s extend what up and left built, each appending at most one fresh cell on a fresh table |
| Search.Find.Successor | src-python/Find.py:51-82 | the cells returned stand for the successors of the cell, one each and in order; each is a deep-copied child of the cell; all cells and their tables are fresh and pairwise distinct, and the cell itself is not changed |
| Search.Find.Record | src-python/Find.py:165 | appending a cell to `explored` records the node it stands for, keeping every cell of `explored` matched with its node |
| Search.Find.Dls | src-python/Find.py:163-179 | `explored` keeps its cells and grows by cells standing for exactly the nodes of the `dls` run, and the result says whether that run succeeds |
| Search.Find.Descend | src-python/Find.py:174-179 | the successors of the cell are searched one level deeper, in order, as the successor loop of the run says; `explored` keeps its cells and each new one stands for its node of that trace |
| Search.Find.DlsEach | src-python/Find.py:176-179 | the loop appends exactly the successor loop's trace and stops at the first success; `explored` keeps its cells and each new one stands for its node of that trace |
| Search.Find.Iddfs | src-python/Find.py:181-192 | `explored` keeps its cells and grows by cells standing for exactly what iterative deepening from the start node (with an empty path) appends, and the returned path is the one it reports |
| Search.Find.Deepen | src-python/Find.py:187-192 | the loop over depth bounds appends exactly iterative deepening's trace and returns its reported path; `explored` keeps its cells and each new one stands for its node of that trace |
| Search.Find.Attempt | src-python/Find.py:188-189 | one round appends exactly that `dls` run's trace and returns the path it reports; `explored` keeps its cells and each new one stands for its node of that trace |
| Search.Find.AStar | src-python/Find.py:194-225 | `explored` keeps its cells and grows by cells standing for exactly the nodes of the greedy walk from the start node (whose path is itself), and the returned path is the one it reports |
| Search.Find.WalkFrom | src-python/Find.py:203-225 | the open-list loop (never more than one cell) appends exactly the greedy walk's trace and returns its reported path; `explored` keeps its cells and each new one stands for its node of that trace |
| Search.Find.Round | src-python/Find.py:204-220 | one round of the open-list loop appends the popped cell to `explored`, then returns the first goal neighbour if any, else the scan's best neighbour |
| Search.Find.ScanNeighbours | src-python/Find.py:209-220 | the neighbour loop returns the first goal neighbour if any, else the scan's best neighbour |
| Search.Find.Weigh | src-python/Find.py:213-220 | one neighbour: a goal ends the scan; otherwise it becomes the best exactly when its f-value is at least the best one |
| Search.Find.BfsStart | src-python/Find.py:134-137 | `bfs` starts on the `s` or the `g` square |
| Search.Find.BfsEnd | src-python/Find.py:134-137 | `bfs` ends on the other of the two: start and end are together exactly the `s` and `g` squares |
| Search.Find.Bfs | src-python/Find.py:133-161 | `explored` keeps its cells and grows by cells standing for exactly what `bfs` appends from the start node (ends swapped in backward mode), and the returned path is the one it reports |
| Search.Find.BreadthFrom | src-python/Find.py:146-161 | the queue loop appends exactly the `bfs` trace and returns its reported path; `explored` keeps its cells and each new one stands for its node of that trace |
| Search.Find.Visit | src-python/Find.py:147-158 | one round appends the head to `explored` and hits exactly when `bfs` reports the head; otherwise the queue grows by what `bfs` enqueues |
| Search.Find.BfsEach | src-python/Find.py:152-159 | the successor loop hits exactly when a successor is on the end square and the cell passes the goal test; otherwise it appends exactly the enqueued successors |
| Search.Find.Look | src-python/Find.py:153-158 | one successor: a hit exactly when it is on the end square and the cell passes the goal test; otherwise it is appended when the cell's table has not marked its square |

## Left out

- `FindRules.CalReversedOpt`, `Search.Find.constructor`: backward `*` and `^` (src-python/Find.py:91-94) divide and take roots in floating point. Backward search therefore requires a board without `*` and `^` squares (`Config.Wf`, required by the constructor when `isBackward` is set), and `CalReversedOpt` is defined only for the other operators.
- `math.sqrt` is modelled as the integer floor square root `ISqrt`. For grid-sized distances `int(math.sqrt(...))` gives the same value.
- `__print_solution` and every `print` are output only. A driver instead returns the squares of the path of the cell whose goal test succeeded, or `None`. The printed count, the 1-indexed format and the extra goal (or source) line are not modelled.
- `explored_hashes` is only ever appended to and never read, so it is not part of this model.
- `Search.Find.AStar`: the greedy walk can cycle forever, so the model takes a `fuel` bound on the number of rounds and has an `OutOfFuel` outcome. It says nothing about runs longer than `fuel`.
- `Search.Find.Bfs`: `bfs` always terminates. A successor is enqueued only when the popped cell's table has not marked its square (src-python/Find.py:157), so no queued path repeats a square (`BreadthVisitsNoRepeat`) and only finitely many paths can ever be queued. The model does not prove such a bound: it takes `fuel`, the number of cells taken from the queue, and every real run equals the model's run for a large enough `fuel`. The `yield` after each enqueue only suspends the generator. `bfs_search` (src-python/main.py:6-13) drives it to completion, which is the run the model captures; `bds_search` (src-python/main.py:16-37) steps a forward and a backward generator in turn and abandons both at the first meet, a partial run the model does not capture.
- `Search.Find.Iddfs`, `Search.Find.AStar`, `Search.Find.Bfs` require that the board has both an `s` and a `g` square (`Ready`). Without them the code fails with a `TypeError` when it indexes `None`.
- `Search.Find.Consider`: the novelty check is modelled as a lookup of the hash key in `explored` that never succeeds. The joined hash string is modelled as a tuple key.
- `Cells.Cell.Hash`: `Cell.__hash__` joins the values into a string; the model keeps them as a `HashKey` tuple, so the string format is not modelled.
- The rest of src-python/main.py is not part of this model. It covers input parsing, stepping the generators, the bidirectional meet test (whose backward values become floats) and `ida_star`, which `Find.py` does not define.
- src-java/core/main.java is not part of this model; it calls classes that are not shown.
- The `Board` class is not part of this model. A board is given as rows of (operator, operand) pairs, with non-negative operands so that forward `**` stays an integer.

# JPS+ on an 8-connected grid, modelled in Dafny

This project models the two integer phases of Jump Point Search Plus (JPS+) on a
grid with walls. Moves go in eight directions, and corner cutting is not allowed.

**Offline preprocessing** (`Preprocessing.JPSPlus`, on top of `JumpTable`):
- `read` turns the map rows into the wall grid.
- `calculatePrimaryJumpPoints` flags the forced-neighbour cells of each cardinal direction.
- `calculateStraightJumpPoints` and `calculateDiagonalJumpPoints` fill the signed
  distance table in place. They sweep the grid in orders that visit each cell's
  neighbour first.
- `printDistances` prints one line per free cell.

The model states what each table entry means through the pure function
`JumpTable.JumpDist`. A positive `n` means a jump target is the `n`-th cell
along the direction. A value `n <= 0` means `-n` cells are passable and the
next step is blocked by a wall, a corner or the edge. The model proves:
- every sweep stores exactly `JumpDist`;
- the meaning of `JumpDist`, in both directions;
- the bound that `|JumpDist|` never exceeds the room left on the grid.

**Online search** (`Search.JPSPlus`, on top of `SearchRules`):
- `read` loads the table.
- `run` is a best-first loop: pop the cheapest entry, skip cells already
  expanded, print the cell, stop at the goal, otherwise generate successors
  and push those that improve the best known cost.

The successor rules are the pure function `SearchRules.Successor`:
- cardinal goal shortcut;
- diagonal goal shortcut;
- jump to the precomputed point.

The model proves:
- the three successor rules;
- that every successor stays on the grid whenever the table obeys the
  preprocessing bound, so the source's in-bounds assertion cannot fail;
- that the octile heuristic is zero only at the goal, admissible and
  consistent;
- that the run's printed lines form a well-formed trace: the start first,
  every other cell a JPS+ successor of an earlier one, no cell twice, the
  goal last when found;
- that a cell is pushed exactly when the cost through its parent improves its
  best known cost, which then becomes that cost;
- that expanding a cell changes only costs it pushes an entry for, and
  never raises a cost;
- that the search is best-first: the printed cost plus heuristic never
  decreases along the output;
- that when `run` reports "NO PATH", every JPS+ successor of a printed cell,
  along a direction its arrival allows, was printed too;
- that `run` terminates.

Costs are exact pairs (straight steps, diagonal steps). Their value uses the
`double` value of `sqrt(2.0)`, written out as an exact rational.

The two phases share `Directions` and `Grids`:
- the direction enumeration;
- the `drow`/`dcol`/`ALLDIRS`/`validDirections` tables;
- bounds, and walking `k` steps along a direction.

`src/runtime/CGSolver.cpp` is a single-file copy of the runtime code in
`src/runtime/JPSPlus.cpp` and `src/runtime/JPSPlus.hpp`. It is modelled once,
through the latter two files.

## Model

| member | source | states |
|---|---|---|
| Directions.Index | src/preprocessing/JPSPlus.hpp:17-20 | each direction's enumerator value is below 8, and below 4 exactly for the four cardinals, so only cardinals index the 4-slot jump-point array |
| Directions.FromIndex | src/preprocessing/JPSPlus.hpp:17-20 | inverts the enumerator value on 0..7 |
| Directions.IndexRoundTrip | src/preprocessing/JPSPlus.hpp:17-20 | FromIndex(Index(d)) == d for every direction |
| Directions.DRow | src/preprocessing/JPSPlus.hpp:47-50 | every row delta is in {-1, 0, 1} |
| Directions.DCol | src/preprocessing/JPSPlus.hpp:51-54 | every column delta is in {-1, 0, 1} |
| Directions.IsCardinal | src/runtime/JPSPlus.hpp:75-85 | true exactly when one of the two deltas is zero; a diagonal has both deltas non-zero |
| Directions.DeltasDistinct | src/preprocessing/JPSPlus.hpp:47-54 | the eight (drow, dcol) pairs are non-zero and pairwise distinct |
| Directions.Opposite | src/preprocessing/JPSPlus.hpp:47-54 | the reverse direction has the negated deltas |
| Directions.AllDirs | src/preprocessing/JPSPlus.hpp:42-45 | ALLDIRS has 8 entries; every direction occurs, and no enumerator value occurs twice |
| Directions.Position | src/runtime/JPSPlus.hpp:50-53 | the unique column of a direction in ALLDIRS order |
| Directions.CardinalSuccessors | src/runtime/JPSPlus.cpp:10-13 | a cardinal's row has 5 distinct entries: exactly the directions that do not point backwards |
| Directions.Vertical | src/runtime/JPSPlus.cpp:14-17 | a diagonal's first row entry: the cardinal with the diagonal's row delta and no column delta |
| Directions.Horizontal | src/runtime/JPSPlus.cpp:14-17 | a diagonal's second row entry: the cardinal with the diagonal's column delta and no row delta |
| Directions.DiagonalSuccessors | src/runtime/JPSPlus.cpp:14-17 | a diagonal's row is [vertical component, horizontal component, itself]: exactly the directions pointing strictly forwards |
| Directions.ValidDirections | src/runtime/JPSPlus.cpp:9-19 | every row has distinct entries; the NONE row lists all 8; each other row contains its own direction and never its reverse; cardinal rows have 5 entries and diagonal rows 3 |
| Grids.InBounds | src/runtime/JPSPlus.hpp:71-73 | a cell in bounds of a width x height grid that fits the fixed-size arrays indexes those arrays |
| Grids.Room | src/preprocessing/JPSPlus.hpp:61-63 | the steps left on the grid along a direction number fewer than max(width, height) |
| Grids.RoomExact | src/preprocessing/JPSPlus.hpp:61-63 | k steps along d stay in bounds exactly when k <= Room |
| Grids.RoomStep | src/preprocessing/JPSPlus.hpp:61-63 | the neighbour along d is in bounds exactly when Room > 0, and then its Room is one less |
| JumpTable.Extend | src/preprocessing/CGSolver.cpp:150-151 | `d + (d <= 0 ? -1 : 1)` keeps a positive chain positive and makes 0 or a negative chain negative, with the magnitude grown by one |
| JumpTable.PositiveDistReaches | src/preprocessing/CGSolver.cpp:134-238 | a positive entry n: n legal steps, the first n-1 cells are not jump targets and the n-th is one |
| JumpTable.NonPositiveDistBlocked | src/preprocessing/CGSolver.cpp:134-238 | an entry n <= 0: -n legal steps onto non-targets, then the next step is blocked by a wall, a corner or the edge |
| JumpTable.ReachesTargetDist | src/preprocessing/CGSolver.cpp:134-238 | a walk that reaches a target at its n-th cell gives entry n |
| JumpTable.BlockedAfterDist | src/preprocessing/CGSolver.cpp:134-238 | a walk of m non-target cells and then a blocked step gives entry -m |
| JumpTable.JumpDistMeaning | src/preprocessing/CGSolver.cpp:134-238 | the entry equals n if and only if (n > 0 and the walk reaches a target at the n-th cell) or (n <= 0 and the walk passes -n cells and is then blocked) |
| JumpTable.JumpDistBound | src/preprocessing/CGSolver.cpp:143-151 | the entry's magnitude is at most the room along the direction, hence below max(width, height) |
| Preprocessing.ParseWalls | src/preprocessing/CGSolver.cpp:87-97 | the grid has the given dimensions, and a cell is a wall exactly when its character is '#' |
| Preprocessing.NeighbourSweptFirst | src/preprocessing/CGSolver.cpp:136-215 | in a sweep order that runs against the direction (N/W/NW/NE increasing, S/E/SW/SE decreasing), the neighbour along the direction is visited before the cell |
| Preprocessing.JPSPlus.constructor | src/preprocessing/CGSolver.cpp:83-85 | every jump-point flag starts false; the arrays are the MAPSIZE-sized state |
| Preprocessing.JPSPlus.InBounds | src/preprocessing/JPSPlus.hpp:61-63 | true exactly when (r, c) is a cell of the wall grid, which also indexes the arrays |
| Preprocessing.JPSPlus.IsWall | src/preprocessing/JPSPlus.hpp:65-68 | defined only in bounds; returns the cell's wall bit and changes nothing |
| Preprocessing.JPSPlus.Read | src/preprocessing/CGSolver.cpp:87-97 | succeeds exactly when every row has `width` characters (the assertion); the wall grid then is ParseWalls of the rows |
| Preprocessing.JPSPlus.CalculatePrimaryJumpPoints | src/preprocessing/CGSolver.cpp:108-132 | afterwards every flag (r, c, k) is set exactly when (r, c) is a primary jump point of cardinal k |
| Preprocessing.JPSPlus.SideTest | src/preprocessing/CGSolver.cpp:119-121 | one side of the test: the predecessor's neighbour on that side is an in-bounds wall, and the cell's neighbour on the same side is in bounds and free |
| Preprocessing.JPSPlus.PrimaryTest | src/preprocessing/CGSolver.cpp:114-129 | the loop-body test decides IsPrimaryJumpPoint: free cell, free in-bounds predecessor, and a wall beside the predecessor on a side where the cell has a free neighbour |
| Preprocessing.JPSPlus.MarkPrimary | src/preprocessing/CGSolver.cpp:114-130 | sets flag (r, c, k) to the primary test's result and leaves every other flag unchanged |
| Preprocessing.JPSPlus.StraightNext | src/preprocessing/CGSolver.cpp:143-152 | the cardinal recurrence's value is JumpDist: 0 before a wall or the edge, 1 before a primary jump point, otherwise the neighbour's entry extended |
| Preprocessing.JPSPlus.DiagonalNext | src/preprocessing/CGSolver.cpp:187-205 | the diagonal recurrence's value is JumpDist. It is 0 when the step or either corner is off-grid or a wall. It is 1 when the neighbour has a positive entry along one of the diagonal's two cardinal components (the first two row entries). Otherwise it is the neighbour's entry extended. Only cardinal entries of the earlier pass are read |
| Preprocessing.JPSPlus.ComputeDistance | src/preprocessing/CGSolver.cpp:142-153 | writes JumpDist into the one slot (r, c, d) and leaves every other slot unchanged |
| Preprocessing.JPSPlus.SweepCell | src/preprocessing/CGSolver.cpp:161-174 | one loop iteration keeps "every free cell swept so far holds its JumpDist" and changes only the slots of free cells for this direction |
| Preprocessing.JPSPlus.SweepRow | src/preprocessing/CGSolver.cpp:162-174 | the inner loop extends that invariant over a whole row |
| Preprocessing.JPSPlus.Sweep | src/preprocessing/CGSolver.cpp:157-175 | a pass in an order that runs against the direction leaves every free cell's slot holding its JumpDist. Nothing else changes. For a diagonal the cardinal entries stay computed |
| Preprocessing.JPSPlus.CalculateStraightJumpPoints | src/preprocessing/CGSolver.cpp:134-176 | afterwards all four cardinal slots of every free cell hold JumpDist, and the diagonal slots are untouched |
| Preprocessing.JPSPlus.CalculateDiagonalJumpPoints | src/preprocessing/CGSolver.cpp:178-238 | given the cardinal slots, afterwards all eight slots of every free cell hold JumpDist |
| Preprocessing.JPSPlus.CellLine | src/preprocessing/CGSolver.cpp:285-289 | the line of a free cell is "col row" and its eight slots in N, NE, E, SE, S, SW, W, NW order |
| Preprocessing.JPSPlus.PrintedAppend | src/preprocessing/CGSolver.cpp:283-290 | printing the line of the cell at (r, c) extends "the lines show exactly the free cells before (r, c), in row-major order" to (r, c+1) |
| Preprocessing.JPSPlus.PrintRow | src/preprocessing/CGSolver.cpp:284-290 | the inner printing loop extends that invariant over a whole row |
| Preprocessing.JPSPlus.PrintDistances | src/preprocessing/CGSolver.cpp:282-292 | the output is one line per free cell, in strictly row-major order, each showing its slots in ALLDIRS order |
| Preprocessing.JPSPlus.Preprocessing | src/preprocessing/CGSolver.cpp:99-106 | after the three passes the flags are the primary jump points, every free slot holds JumpDist, and every printed entry is the JumpDist of its cell and column's direction |
| SearchRules.Sign | src/runtime/JPSPlus.hpp:87-89 | returns -1, 0 or 1; it is 0 exactly for 0, and sign(x) * x == abs(x) |
| SearchRules.Add | src/runtime/JPSPlus.cpp:96-108 | adding a step to a path cost adds both the values and the step counts |
| SearchRules.JumpCost | src/runtime/JPSPlus.cpp:108 | a jump of `dist` steps costs `dist` along a cardinal and `SQRT2 * dist` along a diagonal |
| SearchRules.OctileZero | src/runtime/JPSPlus.hpp:91-95 | the heuristic is zero exactly at the goal |
| SearchRules.OctileAdmissible | src/runtime/JPSPlus.hpp:91-95 | the octile distance never exceeds the cost of any mix of straight and diagonal moves that can close the same gaps |
| SearchRules.OctileTriangle | src/runtime/JPSPlus.hpp:91-95 | the octile estimate obeys the triangle inequality |
| SearchRules.RayEstimate | src/runtime/JPSPlus.hpp:91-95 | a straight run of k moves along one direction costs exactly its octile estimate |
| SearchRules.HeuristicConsistent | src/runtime/JPSPlus.cpp:116-118 | across a jump, the estimate falls by at most the jump's cost, so a pushed node's sort key is never below its parent's |
| SearchRules.Successor | src/runtime/JPSPlus.cpp:83-109 | a successor lies on the ray along the direction, 1 to |entry| steps away |
| SearchRules.SuccessorRules | src/runtime/JPSPlus.cpp:92-109 | First, a cardinal whose ray meets the goal within |entry| steps yields exactly the goal. Second, a diagonal whose shortcut applies stops after min(abs gaps) steps, on the goal's row or column. Otherwise there is a successor exactly when entry > 0, and it lies `entry` steps away |
| SearchRules.SuccessorInBounds | src/runtime/JPSPlus.cpp:111-112 | if |entry| is within the room along the direction, every successor is on the grid, whatever the goal |
| Search.PreprocessedLinesBounded | src/preprocessing/CGSolver.cpp:282-292 | lines printed by the preprocessing phase (entries equal to JumpDist of free cells) obey the bound the search relies on |
| Search.DeclaredByLastLine | src/runtime/JPSPlus.cpp:38-43 | after reading, a listed cell's slot holds the entry from its last line, in ALLDIRS column order |
| Search.DeclaredUnlisted | src/runtime/JPSPlus.cpp:38-43 | a cell no line names keeps its previous slot value |
| Search.DeclaredBounded | src/runtime/JPSPlus.cpp:38-43 | reading bounded lines over bounded slots leaves every slot bounded |
| Search.Top | src/runtime/JPSPlus.cpp:60-61 | the entry popped has the least sort key (the reversed `operator<` makes the priority queue a min-queue); ties are left open |
| Search.JPSPlus.constructor | src/runtime/JPSPlus.hpp:64-66 | fresh MAPSIZE-sized state arrays, with all distance slots zero |
| Search.JPSPlus.Read | src/runtime/JPSPlus.cpp:30-45 | sets dimensions, start and goal; every slot ends as the last declared entry for its cell and direction; a zero table read from bounded lines is bounded |
| Search.JPSPlus.Heuristic | src/runtime/JPSPlus.hpp:91-95 | the estimate is never negative |
| Search.JPSPlus.HeuristicOctile | src/runtime/JPSPlus.hpp:91-95 | `max + min * (SQRT2 - 1)` of the absolute gaps equals the octile estimate of the row and column gaps (goal minus cell) to the goal |
| Search.KeyRises | src/runtime/JPSPlus.hpp:91-95 | when a key is the cost through the parent plus the jump plus the estimate after the jump, the parent cost plus the estimate before it is at most that key |
| Search.JPSPlus.HeuristicRises | src/runtime/JPSPlus.cpp:116-118 | across a jump along a ray, the parent's cost plus its heuristic is at most the cost through it plus the successor's heuristic |
| Search.JPSPlus.PushedAbove | src/runtime/JPSPlus.cpp:116-118 | an entry pushed from a cell printed with cost `curDist` has a key no lower than that cell's `curDist` + heuristic |
| Search.JPSPlus.TraceOnGrid | src/runtime/JPSPlus.cpp:54-74 | the first printed line is the start with parent (-1, -1) and cost 0, and every printed cell is on the grid |
| Search.JPSPlus.TraceDistinct | src/runtime/JPSPlus.cpp:63-65 | no cell is printed twice |
| Search.JPSPlus.TraceLinked | src/runtime/JPSPlus.cpp:79-118 | every later printed cell names a parent printed before it; along some direction the JPS+ rules take that parent to the cell, and the cell's printed cost is the parent's printed cost plus that jump's cost |
| Search.JPSPlus.TraceCosts | src/runtime/JPSPlus.cpp:116-118 | for every printed cell after the start there is an earlier line k for its parent and a direction whose JPS+ jump reaches the cell, with printed cost = line k's printed cost + the jump's cost |
| Search.JPSPlus.TraceExtend | src/runtime/JPSPlus.cpp:63-70 | printing a new on-grid cell generated from a printed parent keeps the trace well formed |
| Search.JPSPlus.Advance | src/runtime/JPSPlus.cpp:63-70 | printing the next cell keeps the trace well formed, adds exactly that cell to the printed cells, and keeps the queue linked to printed parents |
| Search.JPSPlus.ResetSearch | src/runtime/JPSPlus.cpp:50-52 | all visited marks are cleared; the map's rows (every column) get no known cost; other rows are untouched |
| Search.JPSPlus.Begin | src/runtime/JPSPlus.cpp:50-57 | the queue holds just the start, with parent (-1, -1), no arrival direction and its estimate as key; the start's cost is 0 and the loop invariant holds with nothing printed |
| Search.JPSPlus.MarkVisited | src/runtime/JPSPlus.cpp:65 | after marking, the visited marks are exactly the printed cells |
| Search.JPSPlus.Settle | src/runtime/JPSPlus.cpp:63-70 | the printed line is "col row pcol prow cost", with the cell's best known cost, and its key (cost + estimate) is the popped entry's sort key; the trace stays well formed and the marks match it |
| Search.JPSPlus.Lower | src/runtime/JPSPlus.cpp:116-117 | the successor's best known cost becomes the cost through the parent and no other cell's changes, so the map of best costs is the old one updated at that cell; the queue stays ready, every other open cell keeps its keyed entry, and every relaxation already done stays done |
| Search.JPSPlus.NewEntry | src/runtime/JPSPlus.cpp:118 | the entry with the successor's cell, the current node as parent, the direction as arrival and key = cost through the parent + estimate was pushed from the current node along an allowed direction, and the queue with it stays linked to printed parents |
| Search.JPSPlus.Push | src/runtime/JPSPlus.cpp:118 | once the cost is lowered, exactly one entry is appended, for the successor, pushed from the current node with a key below its old best cost plus estimate; the queue stays ready, linked and complete; over the old best costs, the update raises no cost and the new entry records the one change |
| Search.JPSPlus.Improve | src/runtime/JPSPlus.cpp:116-118 | when the cost through the parent improves the successor's best known cost: that cell alone changes, to the given cost; no best cost rises; one entry is pushed, from the parent, for that cell, keyed below its old best cost plus estimate, and it records the change |
| Search.JPSPlus.Offer | src/runtime/JPSPlus.cpp:114-120 | an entry is pushed exactly when the cost through the parent is below the successor's best known cost (always, when that is INFINITY); that cost then becomes the given cost and otherwise stays; no other cell's cost changes and none rises; the new entry, if any, was pushed from the parent with a key below the old best cost plus estimate, and records every changed cost |
| Search.JPSPlus.Relax | src/runtime/JPSPlus.cpp:80-120 | one direction: the successor, if any, is on the grid (the source's assertion); an entry is pushed exactly when there is a successor and the cost through the parent improves its best known cost, which then becomes that cost; no other cell changes and no cost rises; every changed cost is recorded by the new entry; afterwards the successor's cost is at most the cost through the parent |
| Search.JPSPlus.Expand | src/runtime/JPSPlus.cpp:79-121 | pushes at most 8 entries, each pushed from the current node along an allowed direction with a key below its cell's best cost before the expansion; no best cost rises, and every cell whose best cost changed has a new entry keyed by its new cost (distanceToGoal is written only together with a push); every allowed direction's successor ends with a cost at most the cost through the current node |
| Search.JPSPlus.RelaxStep | src/runtime/JPSPlus.cpp:79-120 | one turn of the direction loop keeps the loop's invariant: the entries pushed so far come from the current node and beat the costs from before the loop, no cost has risen, every changed cost is recorded by one of them, and one more direction is relaxed |
| Search.JPSPlus.RecordedChain | src/runtime/JPSPlus.cpp:116-118 | if each of two successive rounds of pushes records the cost changes it made, the pushes of both record every change from the first costs to the last |
| Search.JPSPlus.Dequeue | src/runtime/JPSPlus.cpp:60-67 | a least entry whose cell was not expanded is on the grid with a finite cost, and its key is that cost plus the estimate, no key left in the queue being lower; at the first pop it is the start at cost 0 and nothing is left; later it carries its parent's printed cost plus the jump; the rest of the queue stays ready, linked and complete |
| Search.JPSPlus.TopKeyed | src/runtime/JPSPlus.cpp:60-61 | a least entry whose cell is still open has exactly its cell's best known cost plus the estimate as key |
| Search.JPSPlus.RemoveEntry | src/runtime/JPSPlus.cpp:61 | popping an entry keeps the rest ready and linked to printed parents |
| Search.JPSPlus.RemoveFrontier | src/runtime/JPSPlus.cpp:61 | popping the entry of a cell keeps every other open cell keyed, once that cell counts as done |
| Search.JPSPlus.Skip | src/runtime/JPSPlus.cpp:63-64 | dropping an entry whose cell was expanded already keeps the loop invariant |
| Search.JPSPlus.Spread | src/runtime/JPSPlus.cpp:76-121 | expanding a printed cell other than the goal re-establishes the loop invariant, with that cell among the relaxed ones; the old queue is kept as a prefix, no cost rises, each changed cost is recorded by a new entry, and no new entry is keyed below the printed line's key |
| Search.JPSPlus.ExpandEntry | src/runtime/JPSPlus.cpp:65-121 | prints a cell not printed before, with the best known cost it had when popped; keeps the trace well formed and, unless it is the goal, re-establishes the loop invariant; the printed keys stay non-decreasing, with the new line's key as the new lower bound of the queue |
| Search.JPSPlus.Take | src/runtime/JPSPlus.cpp:60-70 | pops entry i and prints its line with its best known cost; the line's key is the entry's key and no key left in the queue is lower; the trace stays well formed, the marks match it and the queue stays ready, linked and complete |
| Search.JPSPlus.Step | src/runtime/JPSPlus.cpp:59-121 | one iteration: a stale pop prints nothing and shrinks the queue; otherwise a new cell is printed and the invariant holds unless it is the goal; either way the printed keys stay non-decreasing and bounded by every key still queued |
| Search.JPSPlus.KeysExtend | src/runtime/JPSPlus.cpp:59-70 | appending a line keyed no lower than a bound on every earlier key keeps the keys in order, and the new key bounds them all |
| Search.JPSPlus.BestFirstPrint | src/runtime/JPSPlus.cpp:59-70 | printing a line keyed by the popped entry's key, when no key left queued is lower, keeps the search best-first with that key as the bound |
| Search.JPSPlus.ClosedAt | src/runtime/JPSPlus.cpp:111-119 | with the queue empty, the successor of a printed cell along a direction its arrival allows is printed |
| Search.JPSPlus.ClosedAtEnd | src/runtime/JPSPlus.cpp:59-124 | when the queue runs empty, every successor of every printed cell, along every direction its arrival allows, was printed |
| Search.JPSPlus.Run | src/runtime/JPSPlus.cpp:47-125 | terminates. The printed lines form a well-formed trace. The goal was found exactly when it was printed, and then it is the last line. Otherwise "NO PATH" is reported and the printed cells are closed under the JPS+ successors. The visited marks equal the printed cells. The search is best-first: the printed cost + heuristic of the lines never decreases along the output |

## Left out

- Floating point. Costs are exact (straight, diagonal) step pairs, and
  `SQRT2` is the exact rational value of the `double` `sqrt(2.0)`. Rounding
  of `double` sums and products and the two-decimal output format are not
  modelled. `INFINITY` is the `Best.Infinite` case, which every path cost
  improves on, as every finite `double` is below `INFINITY`.
- Priority queue internals. `std::priority_queue` is a sequence with a
  minimum-key pop; which of several equal keys is popped is left open.
- Search.JPSPlus.Run: the printed cost of the goal is not proved optimal.
  What is proved is the best-first order (`KeysOrdered`: printed cost plus
  heuristic never decreases along the output), the consistency of the
  heuristic and the relaxation facts, not the optimality theorem built on
  them.
- Search.JPSPlus.ExpandEntry and Search.JPSPlus.Step do not restate the cost
  frame of one expansion (no cost rises; each changed cost is recorded by a
  new entry). That frame is stated by `Search.JPSPlus.Expand` and
  `Search.JPSPlus.Spread`, which do the expansion. The two callers state the
  loop invariant and the best-first order.
- Search.JPSPlus.Heuristic: its own contract states only that the estimate
  is not negative. Its value, the octile estimate of the gaps to the goal,
  is stated by `Search.JPSPlus.HeuristicOctile`, which takes the gaps as
  parameters.
- Input parsing. Both `read` functions take their input as parameters
  (rows as strings, or distance lines) rather than from standard input.
  `main` only calls `read` and then `preprocessing` or `run`.
- Search.JPSPlus.Read requires every line's cell to index the fixed arrays
  and to carry 8 entries, which the source takes on trust.
  Search.JPSPlus.Run requires the start on the grid; otherwise the source
  writes outside the map.
- Preprocessing.JPSPlus.Read reports a row of the wrong length as `ok ==
  false`, where the source's `assert` aborts.
- Uninitialised memory. Runtime cells that no line declares hold
  indeterminate values in the source; the model's constructor sets them to 0.
- The table bound. Only `Search.PreprocessedLinesBounded` links the two
  phases. That the runtime reads exactly what the preprocessing printed is
  an assumption on the pipeline between the two programs.
- The cardinal rows of the preprocessing `validDirections`
  (`src/preprocessing/CGSolver.cpp:72-81`). The EAST row at line 76 is a copy
  of the SOUTH row. It is never read: only the first two entries of the
  diagonal rows are used, and those are `Vertical` and `Horizontal`.
- `sign` uses the shift `x >> 31 | 1`. It is modelled by its meaning on
  integers, not by 32-bit shift semantics.
- Fixed-size `int` overflow. Entries are bounded by `MAPSIZE`, so no
  overflow is possible; integers are unbounded here.
- Diagnostics, which only print: the stderr `debug` calls (including those
  inside `Node::operator<`), `printMap`, `printAllPrimaryJumpPoints`,
  `printMapWithPrimaryJumpPoint` and `dirToStr`. `src/runtime/printer.cpp`
  is not part of this model.

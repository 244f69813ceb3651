# Collect Em All auto-player: board analysis

This project models the decision engine of an auto-player for the "Collect Em
All" puzzle game. Given a snapshot of the 6x6 board, each cell labelled with a
colour name, `"EMPTY"` or `"UNKNOWN"`, the engine

1. finds, by a breadth-first flood fill from every cell in row-major order, every
   8-connected group of same-coloured cells, and keeps the groups of at least
   three cells (`find_connected_group`, `find_all_groups`). The order of each
   group's cells is the order in which the search dequeues them, and this order
   decides where the drag starts;
2. picks the largest group, the first one found on ties (`select_best_move`);
3. plans the mouse drag that traces it. The drag starts at a cell of the group
   with the fewest neighbours in the group. From there it walks greedily to the
   first remaining neighbour in the fixed direction order, and it stops when no
   remaining cell is adjacent (`find_best_start_point`, `calculate_drag_path`);
4. answers "no move" when nothing can be removed, and otherwise returns the group
   and its path (`analyze_and_select_move`).

The path checker `verify_path` and the drag-path test shapes of
`test_drag_path` are modelled as well.

Modules, one per concern:

- `Config` (`config.dfy`): the board size, the minimum group size and the
  eight neighbour offsets in the order the engine tries them.
- `Board` (`board.dfy`): cells, labels, `is_valid_position`, adjacency, and
  facts about the direction table.
- `GroupFinder` (`group_finder.dfy`): the flood fill, a `method` over a
  two-dimensional `array2<bool>` visited grid that it updates in place, and
  the row-major scan.
  - The recursive ghost function `Bfs` gives the breadth-first search as a
    function of the board and the visited cells, queueing neighbours in
    direction order (`Fresh`); `FloodFill`, which calls it once, gives the
    result of `find_connected_group`. The recursive ghost function `ScanTo`
    gives the scan up to a position, and `ScanAll`, which calls it, the whole
    scan. The methods are proved equal to them, so the order of every group
    found is fixed by the board.
  - A ghost list of every component found, and a ghost map from each visited
    cell to its component, carry the proof that the scan partitions the board.
- `MoveSelector` (`move_selector.dfy`): the choice of the largest group,
  written as a function because the source is one expression.
- `PathPlanner` (`path_planner.dfy`): `verify_path`, the start point and
  the greedy walk.
  - Each loop of the source is a `method`, proved equal to a specification
    function:
    - `CountNeighbours` to `NeighbourCount`, `NeighboursOf` to `Neighbours`,
      `CountAll` to `Dedup` and `MinEntry` to `FirstMinIndex`.
      `FindBestStartPoint`, which calls `CountAll` and `MinEntry`, is proved
      equal to `StartPoint`. `CalculateDragPath` is proved equal to `DragPath`,
      and `VerifyPath` to the quantified predicate `ValidPath`.
    - The recursive functions among these are `CountUpTo`, `NeighboursUpTo`,
      `Dedup`, `FirstMinIndex` and `Walk`. `NeighbourCount`, `Neighbours`,
      `StartPoint` and `DragPath` are not recursive: they call the recursive ones.
  - The lemmas prove what the path promises.
  - The test shapes are computed exactly.
- `Analysis` (`analysis.dfy`): `analyze_and_select_move`, tying the three
  stages to the board.

The main results:

- The groups found are exactly the components of at least three cells. They
  are pairwise disjoint and listed in scan order. A component of at least three
  cells is never missed, and membership does not depend on the search order
  (`ComponentUnique`).
- The chosen group is as large as every connected group of the board.
- There is no move exactly when no connected group reaches three cells.
- The drag path:
  - starts at the start point of the group;
  - holds distinct cells of the group;
  - passes `verify_path`;
  - ends only where no unvisited cell of the group is adjacent.

A plus-shaped group shows that the greedy walk can strand a cell. Under
8-adjacency each arm has three neighbours in the group: the centre and two arms
diagonally (`PlusCounts`). The walk leaves out the right arm, although a valid
path through all five cells exists (`PlusShapeStrands`).

## Model

| member | source | states |
|---|---|---|
| Board.Opposite | config.py:93-102 | every offset of the direction table has its negation in the table |
| Board.StepBack | config.py:93-102 | stepping along a direction and then its opposite returns to the start cell |
| Board.AdjacentIffStep | game_logic.py:344-348 | a cell is 8-adjacent in the sense of `verify_path` exactly when one offset of the direction table leads to it |
| GroupFinder.QueueNeighbours | game_logic.py:77-95 | queues exactly `Fresh`: the on-board, unvisited neighbours labelled with the target colour, in direction order; exactly those cells become visited |
| GroupFinder.FreshUpTo | game_logic.py:77-95 | every cell queued along the directions tried so far is on the board, has the target colour and was unvisited |
| GroupFinder.FreshUpToAvoids | config.py:93-102 | a direction not yet tried has not contributed its cell, because different directions lead to different cells |
| GroupFinder.FreshFacts | game_logic.py:77-95 | the cells queued are distinct and adjacent to the expanded cell, and every same-coloured on-board neighbour is queued or was already visited |
| GroupFinder.SearchStep | game_logic.py:72-95 | one dequeue-and-expand round keeps the breadth-first search invariant (queued cells distinct, same-coloured, unvisited at the start, each adjacent to the cell that queued it, neighbours of dequeued cells queued or visited before) and marks a new cell or leaves the marks alone |
| GroupFinder.Expand | game_logic.py:72-95 | the loop body appends the front of the queue to the group and queues exactly its `Fresh` neighbours, so the breadth-first function `Bfs` has the same value before and after; it keeps the search invariant and the visited grid in step, and either marks a new cell or shortens the queue |
| GroupFinder.Bfs | game_logic.py:72-95 | the `while queue` loop as a function: the cells already dequeued stay at the front of the result, followed by the front of the queue |
| GroupFinder.FloodFill | game_logic.py:56-97 | what `find_connected_group` returns: empty exactly for a non-colour or already visited seed, otherwise starting at the seed (`FindConnectedGroup` is proved equal to it) |
| GroupFinder.Search | game_logic.py:67-95 | the `while queue` loop returns exactly the breadth-first function `Bfs` from the seed, and ends with the search invariant at an empty queue |
| GroupFinder.SearchDone | game_logic.py:72-97 | at an empty queue the group holds distinct unvisited cells, is connected, and contains every same-coloured neighbour of its cells that was not visited before |
| GroupFinder.FindConnectedGroup | game_logic.py:31-97 | returns exactly `FloodFill` of the seed with the cells visited on entry, so the cells come in the order the search dequeues them. It is empty exactly for a non-colour or already visited seed; otherwise it starts at the seed and holds distinct, connected, in-bounds cells of the seed's colour that were unvisited. Visited is set for exactly those cells. Every same-coloured neighbour of a found cell is found or was visited before |
| GroupFinder.FoundIsComponent | game_logic.py:126 | a non-empty flood fill started by the scan is a whole component: none of its same-coloured neighbours was visited by an earlier fill |
| GroupFinder.ScanCell | game_logic.py:126 | one flood fill from the scan: its result is `FloodFill` with the cells visited before, has the properties above relative to them, and visited grows by exactly its cells |
| GroupFinder.ScanNext | game_logic.py:124-130 | one scan step keeps the scan invariant one position further, and the kept list grows by the fill's result exactly when it has at least `MinGroupSize` cells |
| GroupFinder.ScanRow | game_logic.py:124-130 | the inner column loop keeps the scan invariant across one row, keeps the list of components equal to `ScanTo` at the start of the next row, and keeps the kept list equal to the size filter of the components |
| GroupFinder.ScanStep | game_logic.py:126-130 | one pass of the column loop moves the scan invariant and `ScanTo` one cell further and appends the fill's result to the kept list exactly when it has at least `MinGroupSize` cells |
| GroupFinder.OwnerKeys | game_logic.py:118-130 | during the scan the visited cells are exactly the cells of the lists found so far |
| GroupFinder.ScanRows | game_logic.py:123-130 | the outer row loop ends with the scan invariant at the end of the board, the list of components equal to `ScanAll` and the kept list its size filter |
| GroupFinder.ScanTo | game_logic.py:123-130 | the scan as a function up to a position: every list is non-empty and starts at a cell the scan has already passed |
| GroupFinder.ScanToOrder | game_logic.py:123-130 | the lists of the scan come in row-major order of their first cells |
| GroupFinder.ScanAll | game_logic.py:118-132 | the whole scan: non-empty lists in row-major order of their first cells (`FindAllGroups` is proved equal to it; `GroupsAreComponents` and `GroupsComplete` state what its kept lists are) |
| GroupFinder.ScanDone | game_logic.py:118-132 | after the whole scan the components found are disjoint and cover every colour cell |
| GroupFinder.FindAllGroups | game_logic.py:101-132 | the flood fills found every component of the board once each, in row-major order of their first cells; the list of them is exactly `ScanAll`; the result is those with at least `MinGroupSize` cells, in that order |
| GroupFinder.IndicesSelect | game_logic.py:128-130 | the kept lists are the entries at increasing indices of the list of components |
| GroupFinder.IndicesLarge | game_logic.py:128-130 | every kept index is that of a list of at least `MinGroupSize` cells |
| GroupFinder.IndicesComplete | game_logic.py:128-130 | every list of at least `MinGroupSize` cells has its index kept |
| GroupFinder.Eligible | game_logic.py:128-130 | the size filter of `find_all_groups`: no more lists than its input, each of at least `MinGroupSize` cells (`EligibleSelects` and `EligibleMembers` state exactly which) |
| GroupFinder.EligibleSelects | game_logic.py:128-130 | the size filter keeps exactly the large enough lists, in their order |
| GroupFinder.EligibleMembers | game_logic.py:128-130 | a list is kept if and only if it is one of the inputs with at least `MinGroupSize` cells |
| GroupFinder.EligibleKeeps | game_logic.py:128-132 | filtering keeps the lists components, disjoint and in scan order, each of at least `MinGroupSize` cells |
| GroupFinder.GroupsAreComponents | game_logic.py:101-132 | every group returned is a component of at least `MinGroupSize` cells; the groups are disjoint and in scan order; a board without colour cells gives none |
| GroupFinder.NoColourNoComponents | game_logic.py:59-60 | a board whose cells are all "EMPTY" or "UNKNOWN" has no component |
| GroupFinder.ReachesFirst | game_logic.py:72-95 | a closed same-coloured list holding some cell of a component holds the component's first cell |
| GroupFinder.ReachesAll | game_logic.py:72-95 | a closed same-coloured list holding a component's first cell holds all of it |
| GroupFinder.ComponentUnique | game_logic.py:31-97 | two components sharing a cell have the same cells, so the search order cannot change a group's membership |
| GroupFinder.GroupsComplete | game_logic.py:101-132 | every component of at least `MinGroupSize` cells is, as a set, one of the groups returned |
| MoveSelector.LongestIndex | game_logic.py:152 | the index of a longest list, and no earlier list is as long (Python's `max` with `key=len` keeps the first maximum) |
| MoveSelector.SelectBestMove | game_logic.py:136-154 | `None` exactly for no groups; otherwise one of the groups, as long as every other, and the first of that length |
| PathPlanner.VerifyPath | game_logic.py:334-351 | answers true exactly when every two consecutive cells are 8-adjacent |
| PathPlanner.ValidPathByDirections | game_logic.py:334-351 | a path passes the check exactly when each step moves along one entry of the direction table |
| Board.StepInjective | config.py:93-102 | different directions lead from a cell to different cells |
| PathPlanner.NeighboursUpTo | game_logic.py:215-218 | the neighbour list holds only cells of the set searched |
| PathPlanner.NeighboursUpToMembers | game_logic.py:215-218 | the neighbour list holds exactly the cells of the set reached along the directions tried so far |
| PathPlanner.CountUpTo | game_logic.py:174-177 | the count never exceeds the number of directions tried |
| PathPlanner.NeighboursUpToDistinct | game_logic.py:172-178 | the neighbour list repeats no cell and is as long as the neighbour count |
| PathPlanner.NeighboursMeaning | game_logic.py:213-218 | the neighbour list holds, each once, exactly the cells of the set 8-adjacent to the cell; it is empty exactly when no direction leads into the set; its first cell lies along the earliest direction that does |
| PathPlanner.NeighbourCount | game_logic.py:172-178 | the count `find_best_start_point` stores for a cell: at most one per direction (`NeighbourCountMeaning` gives its exact value) |
| PathPlanner.NeighbourCountMeaning | game_logic.py:172-178 | the neighbour count of a ball is the number of group cells 8-adjacent to it |
| PathPlanner.FirstMinIndex | game_logic.py:181 | an index of least neighbour count, every earlier index having a larger count (Python's `min` keeps the first minimum) |
| PathPlanner.Dedup | game_logic.py:171-178 | the dictionary's keys hold no cell twice and the same cells as the group |
| PathPlanner.DedupFirstMin | game_logic.py:171-181 | the first minimum over the dictionary's keys is the first minimum over the group itself |
| PathPlanner.CountNeighbours | game_logic.py:173-177 | the count computed for a ball is its neighbour count in the group |
| PathPlanner.CountAll | game_logic.py:171-178 | the dictionary holds each cell of the group once, in first-occurrence order, mapped to its neighbour count |
| PathPlanner.MinEntry | game_logic.py:181 | the entry picked is the first of least count |
| PathPlanner.StartPoint | game_logic.py:158-182 | the start point of `find_best_start_point`: a cell of the group with no more neighbours in the group than any other cell |
| PathPlanner.FindBestStartPoint | game_logic.py:158-182 | the start is a cell of the group with the fewest neighbours in the group, every cell before its first occurrence having more |
| PathPlanner.Walk | game_logic.py:212-236 | the greedy walk of `calculate_drag_path`'s loop: its first step, if any, goes to a remaining cell (`WalkInside`, `WalkAdjacent`, `WalkGreedy` and `WalkStuck` state the rest) |
| PathPlanner.DragPath | game_logic.py:186-239 | the path `calculate_drag_path` returns: empty exactly for an empty group, otherwise starting at a cell of the group (`DragPathProperties` states the rest) |
| PathPlanner.NeighboursOf | game_logic.py:214-218 | the neighbours collected are the remaining neighbours in direction order |
| PathPlanner.CalculateDragPath | game_logic.py:186-239 | the loop computes exactly the drag path: empty for an empty group, the group itself for one cell, else the start point followed by the greedy walk |
| PathPlanner.WalkInside | game_logic.py:212-236 | the walk visits only remaining cells, none twice, so it takes at most as many steps as there are cells |
| PathPlanner.WalkAdjacent | game_logic.py:212-236 | every step of the walk, the first from the start cell included, goes to an 8-adjacent cell |
| PathPlanner.WalkGreedy | game_logic.py:212-232 | the walk is empty exactly when no direction leads to a remaining cell, and otherwise takes the first that does |
| PathPlanner.WalkStuck | game_logic.py:220-229 | the walk ends only where no remaining cell is adjacent |
| PathPlanner.DragPathInside | game_logic.py:186-239 | the path holds distinct cells of the group and is no longer than it |
| PathPlanner.DragPathValid | game_logic.py:186-239 | the path passes `verify_path` |
| PathPlanner.DragPathEnds | game_logic.py:220-239 | for several cells the path stops only where no unvisited cell of the group is adjacent |
| PathPlanner.DragPathProperties | game_logic.py:186-239 | all of the above: empty and single-cell cases, start point, distinct cells of the group, length bound, validity, and the stopping condition |
| PathPlanner.FirstMinUnique | game_logic.py:181 | the first minimum is the only index that is minimal with all earlier counts larger |
| PathPlanner.WalkTakes | game_logic.py:214-236 | a walk step goes to the neighbour along the first direction that leads to a remaining cell |
| PathPlanner.WalkEnds | game_logic.py:220-229 | the walk stops where no direction leads to a remaining cell |
| PathPlanner.LineCounts | game_logic.py:310 | neighbour counts of the straight line of four: ends 1, middle 2 |
| PathPlanner.LineStart | game_logic.py:310-311 | the straight line starts at its left end |
| PathPlanner.LineWalk | game_logic.py:310-311 | the walk along the line goes right to the far end |
| PathPlanner.LinePath | game_logic.py:309-311 | the drag path of the line is the line itself |
| PathPlanner.LineShapeCovered | game_logic.py:309-315 | the line's drag path is the whole line and passes `verify_path` |
| PathPlanner.LCounts | game_logic.py:318 | neighbour counts of the L shape |
| PathPlanner.LStart | game_logic.py:318-319 | the L starts at the top of its bar |
| PathPlanner.LWalk | game_logic.py:318-319 | the walk goes down the bar, then right along the foot |
| PathPlanner.LPath | game_logic.py:317-319 | the drag path of the L is the group in its listed order |
| PathPlanner.LShapeCovered | game_logic.py:317-323 | the L's drag path is all five cells and passes `verify_path` |
| PathPlanner.ComplexCounts | game_logic.py:326 | neighbour counts of the square with a cell to its right |
| PathPlanner.ComplexStart | game_logic.py:326-327 | the third shape starts at its right-hand cell, the only cell with two neighbours |
| PathPlanner.ComplexWalk | game_logic.py:326-327 | the walk goes left, down, left, up |
| PathPlanner.ComplexPath | game_logic.py:325-327 | the drag path of the third shape, cell by cell |
| PathPlanner.ComplexShapeCovered | game_logic.py:325-331 | the third shape's drag path covers all five cells and passes `verify_path` |
| PathPlanner.PlusCounts | game_logic.py:172-178 | in a plus each arm has three neighbours under 8-adjacency, the centre four |
| PathPlanner.PlusStart | game_logic.py:158-182 | the plus listed top, centre, left, right, bottom starts at its top arm |
| PathPlanner.PlusWalk | game_logic.py:212-236 | the walk over the plus gets stuck at the left arm after three steps |
| PathPlanner.PlusPath | game_logic.py:186-239 | the plus's drag path is top, centre, bottom, left |
| PathPlanner.PlusShapeStrands | game_logic.py:220-239 | the greedy path on the plus is valid but leaves out the right arm, though a valid path through all five cells exists |
| Analysis.LargestOverAll | game_logic.py:152 | the longest group returned is at least as large as every component of the board, including those too small to be returned |
| Analysis.SelectionOverBoard | game_logic.py:257-267 | no group is returned exactly when no component reaches `MinGroupSize`; otherwise the selected group is a component of at least that size and no component is larger |
| Analysis.PlannedPath | game_logic.py:277 | the path of a group of several cells starts at its start point, holds distinct cells of the group and passes `verify_path` |
| Analysis.Decide | game_logic.py:243-279 | the decision as a function of the board: no move exactly when the scan keeps no list, otherwise a kept list no shorter than any other kept list, with its drag path (`SelectionOverBoard` relates it to the components of the board) |
| Analysis.AnalyzeAndSelectMove | game_logic.py:243-279 | the result is `Decide` of the board, a function of the board alone. "No move" exactly when no connected group reaches `MinGroupSize`. Otherwise the move is the selection over the groups found, a largest removable group of the whole board, together with its drag path, which starts at the group's start point, stays inside the group, repeats no cell and passes `verify_path` |

## Left out

- The game window, screen capture, colour recognition, mouse control and the main loop (`game_launcher.py`, `vision_module.py`, `controller.py`, `main.py`) are not part of this model. Of the constants in `config.py`, the model keeps the four that the engine's logic reads: `GRID_ROWS`, `GRID_COLS`, `MIN_GROUP_SIZE` and `DIRECTIONS`. `DEBUG_MODE` and `COLOR_EMOJI` are read only by the printing, and go with it.
- The debug and status printing (`print` calls and `print_group_info`) is left out: it does not affect the results.
- The unused `next_ball = min(remaining, ...)` at game_logic.py:224-227 is not modelled. Its value is discarded before the loop breaks.
- Labels are plain strings, so a colour is any label other than "EMPTY" and "UNKNOWN", as in the source.
- FindAllGroups: the board must cover at least 6 rows of at least 6 cells. On any smaller board `find_all_groups` raises an index error, because it calls `find_connected_group` on every cell of the 6x6 range, and that reads the seed. The error is not modelled.
- FindConnectedGroup: requires the same board shape. On a smaller board that still holds the seed, `find_connected_group` can return without error: `[]` for an "EMPTY" or "UNKNOWN" seed, or one already visited (on `[["EMPTY"]]`, for example). The requirement stands for its only call site, `find_all_groups`, which needs the full board anyway.
- FindConnectedGroup: the `deque` is modelled as a sequence, and the visited grid as a 6x6 `array2<bool>`, not as a list of lists.
- FindBestStartPoint: requires a non-empty group. On an empty one the source's `min` raises; its only caller passes groups of at least two cells.
- FindBestStartPoint: the dictionary is modelled as its keys in insertion order plus a map, which is how Python iterates `neighbor_counts.items()`.
- Several pieces of the source's inline code are separate methods, each with the same steps as that code:
  - the inner loops `QueueNeighbours` (directions of `find_connected_group`), `ScanRow` (columns of `find_all_groups`), `CountNeighbours` (directions of `find_best_start_point`) and `NeighboursOf` (directions of `calculate_drag_path`);
  - the outer loop of `find_best_start_point`, which fills the dictionary (`CountAll`);
  - the built-in `min` over the dictionary's items (`MinEntry`);
  - the breadth-first loop (`Search`) and its body (`Expand`);
  - the outer row loop of `find_all_groups` (`ScanRows`) and the body of its column loop (`ScanStep`);
  - the call to `find_connected_group` inside the scan, with its bookkeeping (`ScanCell`), which is a call wrapper, not a loop.
- `is_valid_position` is the predicate `Board.IsValidPosition`. It has no contract beyond its definition.
- FindAllGroups: the list of all components and the ownership map are ghost; they exist only for the proof.
- Python tuples are modelled as the `Cell` datatype. Negative indices never occur. The neighbour reads at game_logic.py:77-95 are guarded by `is_valid_position`. The seed reads at game_logic.py:56 and :63 are not guarded: they stay on the board because `find_all_groups` calls `find_connected_group` only for rows in `range(GRID_ROWS)` and columns in `range(GRID_COLS)`. `FindConnectedGroup`'s `requires IsValidPosition(startRow, startCol)` stands for that.

# Grid pathfinding: a verified model

This project models the core of a small grid pathfinding engine, written in Python. The model covers four parts.

**The environment.**
- `Direction` is the enumeration of the four moves.
- A `Cell` carries its coordinates, a parent link, the costs `g` and `h`, and a blocked flag.
- A `Grid` is a rectangular table of cells, filled from a size and a list of wall rectangles.
- An `Agent` holds the grid, a current cell, a list of goal cells and the `can_jump` flag.

**Its queries.**
- `get_cell`, `get_neighbors`, `reset` and `net_area` on the grid.
- `trace_path` and `get_nearest_goal` on the agent.

**The seven search algorithms.** Each has a `search` for the nearest goal and, where present, a `search_all` that visits every goal:
- breadth-first;
- depth-first;
- iterative-deepening depth-first;
- A*;
- greedy best-first;
- beam;
- bidirectional A*.

A search returns one of two results:
- a path of direction tokens, the goal or goals reached, and the number of cells visited;
- the bare count of visited cells, when no goal can be reached.

**How the source maps onto Dafny.**
- `Grid` and `Agent` are classes, because the searches update them in place. The grid's cells are a field of type `seq<seq<Cell>>`, indexed row first. The agent's `cell` and `goals` are fields that the search-all variants reassign.
- A cell is a value. Its identity is its coordinates, so `parent` is an `Option<Pos>`.
- The open and closed lists are local values: sequences, sets, and maps of visited cells.
- Each search loop is a `method` with a `while` loop. Each loop body is split into small methods, one per branch of the source's loop (pop, goal reached, neighbour loop, restart).
- The proof steps sit in heap-free lemmas, gathered in a `*Layers` module for each algorithm.

**What is proved.** A *legal route* is a path of tokens in which every token, walked from the cell reached so far, is a move the search may make: to a different, unblocked cell of the grid in line with the current one, exactly one cell away unless the search jumps. Only breadth-first search passes the agent's `can_jump` flag to `get_neighbors`; the other six searches make unit moves, and their routes are routes of unit moves whatever the flag says about the tokens' suffixes.
- `get_neighbors` returns exactly the in-bounds cells in line with a cell: one cell away, or any distance when jumping. They come in direction order, then in increasing distance.
- `trace_path` terminates on every cell of a search tree. Its backward trace is a legal route from the root to the cell. It is the forward trace reversed, with each direction turned round.
- For every search:
  - a reported goal is one of the agent's goals;
  - the returned path leads from the start to that goal and is a legal route;
  - the breadth-first, depth-first, A* and greedy searches count no more cells than are reachable from the start, and iterative deepening counts no more than its limit;
  - for those five, a bare count means no goal is reachable (for iterative deepening, only when the count stayed below the limit);
  - for the first four, that bare count is exactly the number of reachable cells.
- Beam search promises a legal route for a goal it reports, and nothing about a bare count, because trimming the beam can lose the way.
- Bidirectional search counts no more cells than are reachable from its two roots. Its legal route and its bare-count meaning hold under conditions named in its contract.
- Breadth-first search and iterative deepening (below its limit) return a nearest goal by a shortest route. A*, whose Manhattan heuristic is admissible on unit moves, returns a shortest route to the goal it reports.
- Each `search_all` that completes returns a route that visits every goal. The goals it lists equal the agent's original goal list, counting repetitions. A* and bidirectional `search_all` move the agent to each goal but the last, and their contracts say where it ends: at the start of the last leg on success, and otherwise at the start or a goal.

Which source files the model follows:
- The environment is modelled from `environment.py`.
- `classes/grid.py`, `classes/agent.py` and `classes/direction.py` repeat the same definitions line for line. The same model covers them; their line ranges are given under "## Left out".

The model follows the code wherever the code and its description disagree:
1. The depth-first, A*, greedy and bidirectional searches read the grid as `agent.map`, while `Agent` only defines `agent.grid` (`environment.py:292-299`). The model takes both names for the one grid the agent holds.
2. Beam search never calls `reset`, so the model requires a start cell without a parent link (a freshly built grid).
3. Greedy `search_all` never moves `agent.cell`. So after each goal, "the nearest remaining goal" is measured from the original start and not from the goal just reached. A* `search_all` does move the agent (`astar.py:150`), and the model does each as its source does.
4. The A*, greedy and bidirectional `search_all` variants have no check for a start that is itself a goal.
5. In bidirectional `search`, the start side tests for a meeting before counting a neighbour. In `search_all`, it counts first.

In one place the model departs from the code. The bidirectional meeting test `if neighbor.parent` misses the other side's root, which has no parent. The model's test also meets at that root (see "## Findings"). `SweepAsWritten` models the test as written, and "## Left out" names the inputs on which the two differ.

## Model

| member | source | states |
|---|---|---|
| Directions.Index | assignment/assignment1/code/environment.py:13-26 | the index returned holds `d` in the enumeration order Up, Left, Down, Right, the order in which `get_neighbors` walks the directions |
| Directions.MembersExactlyFour | assignment/assignment1/code/environment.py:13-26 | the enumeration lists each of the four directions exactly once |
| Directions.Value | assignment/assignment1/code/environment.py:23-26 | the string values `"up"`, `"left"`, `"down"`, `"right"`; `ValueInjective` proves them distinct |
| Directions.ValueInjective | assignment/assignment1/code/environment.py:23-26 | different directions have different string values, so a token names its direction unambiguously |
| Directions.Opposite | assignment/assignment1/code/environment.py:317-320 | the reversed direction of a link differs from the direction itself |
| Directions.OppositeInvolution | assignment/assignment1/code/environment.py:317-320 | turning a direction round twice gives it back |
| Cells.NewCell | assignment/assignment1/code/environment.py:52-59 | `Cell(x, y)`: the given coordinates, no parent, `g` and `h` zero, not blocked; the grid's constructor proves every cell starts so |
| Cells.Reset | assignment/assignment1/code/environment.py:115-121 | `reset`: parent cleared, `g` and `h` zeroed, coordinates and blocked flag kept; `Grids.Grid.Reset` applies it to every cell |
| Cells.Cell.F | assignment/assignment1/code/environment.py:129-134 | the `f` property, `g + h`, the key A*, beam and bidirectional search order by; `Informed.FKeys` and `Informed.FirstLeast` state its use |
| Cells.Manhattan | assignment/assignment1/code/environment.py:103-113 | the distance is never negative, and it is zero exactly for the same location |
| Cells.ManhattanMetric | assignment/assignment1/code/environment.py:103-113 | the distance is symmetric and obeys the triangle inequality |
| Cells.Sub | assignment/assignment1/code/environment.py:73-83 | `__sub__`: the direction from one cell to another, by the sign of the column difference, or of the row difference when the columns agree; `SubOfOffset`, `OffsetOfSub` and `SubAntisymmetric` state its meaning |
| Cells.SubOfOffset | assignment/assignment1/code/environment.py:73-83 | subtracting a cell from the one `k` steps away in direction `d` gives `d`, the distance is `k`, and the two are aligned |
| Cells.OffsetOfSub | assignment/assignment1/code/environment.py:73-83 | for two different aligned cells, stepping from one by their distance in the direction of their difference reaches the other |
| Cells.SubAntisymmetric | assignment/assignment1/code/environment.py:73-83 | `b - a` is the opposite of `a - b`, for different aligned cells |
| Cells.UnitIsAligned | assignment/assignment1/code/environment.py:192-215 | a cell at Manhattan distance one is in the same row or column |
| Grids.Grid.constructor | assignment/assignment1/code/environment.py:155-164 | the grid has the given size; every cell carries its own coordinates, no parent and zero costs; a cell is blocked exactly when some wall rectangle covers it, a wall's negative rows and columns counting back from the far edge as `grid[row][col]` does (a wall at column `-1` blocks column `width - 1`) |
| Grids.InSpanIndex | assignment/assignment1/code/environment.py:160-164 | for an in-range index `i` and a range within `[-n, n)`, the range covers `i` exactly when one of its indexes, read the Python way, names `i` |
| Grids.InWallIndex | assignment/assignment1/code/environment.py:160-164 | a cell is inside a wall that fits exactly when some `(row, col)` of the wall's ranges names it as `grid[row][col]` |
| Grids.CoveredByAny | assignment/assignment1/code/environment.py:159-164 | a cell is covered by the wall list exactly when one of the walls covers it |
| Grids.BlockWall | assignment/assignment1/code/environment.py:160-164 | after the loop over wall `i`, a cell is blocked exactly when one of the first `i + 1` walls covers it; nothing else changes |
| Grids.MarkedWellFormed | assignment/assignment1/code/environment.py:155-164 | blocking the cells of every wall keeps the table rectangular, with each cell at its own coordinates |
| Grids.Grid.GetCell | assignment/assignment1/code/environment.py:166-177 | `get_cell((x, y))` returns `grid[y][x]`: for an in-bounds location the cell stored at row `y`, column `x`; a negative coordinate counts back from the far edge, so `(-1, 0)` gives the cell `(width - 1, 0)`; the cell's own coordinates are the wrapped location |
| Grids.Grid.Wrapped | assignment/assignment1/code/environment.py:176-177 | the position `grid[y][x]` names: in bounds, equal to `(x, y)` when that is in bounds, and otherwise `width` or `height` further on |
| Grids.Grid.GetNeighbor | assignment/assignment1/code/environment.py:192-215 | `get_neighbor(p, d, k)`: the cell `k` steps from `p` in direction `d` when it is inside the grid, otherwise none; `Neighborhoods.RayShape` and `RayComplete` state what the rays built from it hold |
| Grids.Grid.InsideRay | assignment/assignment1/code/environment.py:179-190 | an in-bounds cell `k` steps away lies within the bound that ends every ray at the grid edge, so the `is_valid` walk of a ray terminates |
| Grids.Grid.GetNeighbors | assignment/assignment1/code/environment.py:217-253 | the method's list is the neighbour set of the cell, whose shape is proved in `Neighborhoods` |
| Neighborhoods.RayShape | assignment/assignment1/code/environment.py:192-215 | the `i`-th cell of a ray that starts `k` steps away is the in-bounds cell `k + i` steps away in that direction; without jumping a ray holds at most one cell |
| Neighborhoods.RayComplete | assignment/assignment1/code/environment.py:229-245 | a jumping ray contains every in-bounds cell in its direction |
| Neighborhoods.Between | assignment/assignment1/code/environment.py:192-215 | for `k` between zero and `j`, the cell `k` steps away is in bounds when the cell `j` steps away is |
| Neighborhoods.InRays | assignment/assignment1/code/environment.py:217-253 | a cell is among the rays of the first `n` directions exactly when it is in the ray of one of them |
| Neighborhoods.NeighborsInLine | assignment/assignment1/code/environment.py:217-253 | a cell is a neighbour exactly when it is in bounds, different, aligned, and one step away unless jumping |
| Neighborhoods.UnitNeighbors | assignment/assignment1/code/environment.py:217-253 | without jumping, the neighbours are exactly the in-bounds cells at Manhattan distance one, at most four of them |
| Neighborhoods.RaysCount | assignment/assignment1/code/environment.py:217-253 | without jumping, the rays of `n` directions hold at most `n` cells |
| Neighborhoods.JumpNeighbors | assignment/assignment1/code/environment.py:217-253 | with jumping, the neighbours are exactly the in-bounds cells in the same row or column, other than the cell itself |
| Neighborhoods.RaysOrdered | assignment/assignment1/code/environment.py:229-245 | the rays of the first `n` directions are in direction order, each in increasing distance, and every cell lies in one of those directions |
| Neighborhoods.NeighborsOrdered | assignment/assignment1/code/environment.py:217-253 | the list is in direction order, each direction's cells in increasing distance, and no cell appears twice |
| Grids.Grid.Reset | assignment/assignment1/code/environment.py:255-261 | every cell loses its parent link and has `g` and `h` set to zero; coordinates and blocked flags are kept |
| Grids.Grid.NetArea | assignment/assignment1/code/environment.py:270-275 | `net_area`: height × width minus the blocked cells; `NetAreaIsFreeCount` and `NetAreaIsFreeCells` prove it is the number of unblocked cells |
| Grids.Grid.NetAreaIsFreeCount | assignment/assignment1/code/environment.py:270-275 | `net_area` (width × height minus the blocked cells) is the number of unblocked cells |
| Grids.Grid.NetAreaIsFreeCells | assignment/assignment1/code/environment.py:270-275 | `net_area` is the size of the set of unblocked in-bounds cells |
| Grids.Grid.Detach | assignment/assignment1/code/algorithms/bfs.py:69 | `current.parent = None`: that cell loses its parent link and no other cell changes |
| Grids.Grid.Link | assignment/assignment1/code/algorithms/iddfs.py:70 | `neighbor.parent = current`: that cell gets the parent link and no other cell changes |
| Grids.Grid.Annotate | assignment/assignment1/code/algorithms/astar.py:79-83 | the cell gets the given `g`, `h` and parent, and no other cell changes |
| Agents.Agent.constructor | assignment/assignment1/code/environment.py:292-299 | the agent holds the grid; its cell is `get_cell` of the start location and its goals are `get_cell` of each goal location in order (repetitions kept), so negative coordinates wrap as there; for in-bounds locations the cell and goals are the locations themselves; it keeps the jump flag |
| Agents.Tokens | assignment/assignment1/code/environment.py:306-321 | the tokens of the `trace_path` loop along the parent chain, within a bound on its length; `TokensAlongChain`, `TraceReplays` and `Agent.TracePath` state what they are |
| Agents.TokensBoundIrrelevant | assignment/assignment1/code/environment.py:301-322 | the trace of a rooted cell is the same for every bound on its chain length |
| Agents.TokensAlongChain | assignment/assignment1/code/environment.py:306-321 | one token per parent link: read forward, token `i` is the link from the `i`-th cell of the chain to its parent; read backward, the same links appear root first |
| Agents.MoveLink | assignment/assignment1/code/environment.py:313-320 | the forward token of a link leads from the child to its parent, and the backward token leads from the parent to the child |
| Agents.TraceReplays | assignment/assignment1/code/environment.py:301-322 | following the forward trace from a cell ends at its root; following the backward trace from the root ends at the cell; the backward trace is the forward one reversed, each direction turned round |
| Agents.ReplayForward | assignment/assignment1/code/environment.py:319-321 | forward tokens built from a chain's links lead, prefix by prefix, from the cell along its ancestors |
| Agents.ReplayBackward | assignment/assignment1/code/environment.py:317-318 | backward tokens built from the same links, root first, lead prefix by prefix from the root back to the cell |
| Agents.Mirrored | assignment/assignment1/code/environment.py:317-320 | the backward tokens of a chain are its forward tokens reversed, each with the opposite direction and the same distance |
| Agents.WalkAppend | assignment/assignment1/code/environment.py:301-322 | following two token lists one after the other is following their concatenation |
| Agents.FirstNearest | assignment/assignment1/code/environment.py:324-328 | `min(goals, key=distance)` picks a goal of least Manhattan distance from the cell, and the first such goal |
| Agents.Agent.TracePath | assignment/assignment1/code/environment.py:301-322 | the returned tokens are the parent-link trace of the cell, forward or backward, with distance suffixes exactly when the agent can jump |
| Agents.Agent.NearestGoal | assignment/assignment1/code/environment.py:324-328 | the result is one of the goals; no goal is nearer to the agent's cell; and no earlier goal is as near |
| Agents.Agent.RemoveGoal | assignment/assignment1/code/algorithms/dfs.py:107 | `agent.goals.remove(c)` drops the first occurrence of `c`, so exactly one copy leaves the multiset; the agent's cell is unchanged |
| Agents.Agent.MoveTo | assignment/assignment1/code/algorithms/astar.py:150 | `agent.cell = current`: the agent's cell changes and nothing else does |
| Seqs.Reversed | assignment/assignment1/code/algorithms/dfs.py:60 | `[::-1]`: same length, element `i` is element `n - 1 - i` of the input |
| Seqs.ReversedDistinct | assignment/assignment1/code/algorithms/dfs.py:60 | reversing a list without repeats leaves it without repeats and with the same elements |
| Seqs.RemoveFirst | assignment/assignment1/code/algorithms/dfs.py:107 | `list.remove`: one element shorter when the value is present, unchanged when it is absent |
| Seqs.RemoveFirstAt | assignment/assignment1/code/algorithms/dfs.py:107 | the result is the list with the element at the first index holding the value taken out |
| Seqs.RemoveFirstMultiset | assignment/assignment1/code/algorithms/dfs.py:107 | removing a present value takes exactly one copy of it out of the multiset |
| Seqs.DistinctSnoc | assignment/assignment1/code/algorithms/bfs.py:76-80 | appending a new cell to a frontier without repeats keeps it without repeats |
| Seqs.DistinctOnce | assignment/assignment1/code/algorithms/dfs.py:105-107 | a value occurs at most once in a list without repeats |
| Searching.EdgeIsNeighbor | assignment/assignment1/code/algorithms/bfs.py:73-74 | a search may step from `a` to `b` exactly when `b` is in `get_neighbors(a)` and not blocked |
| Searching.NeighborsAdjacent | assignment/assignment1/code/environment.py:217-253 | every member of a neighbour list is in bounds, different and in line with the cell |
| Searching.ReachableSet | assignment/assignment1/code/algorithms/bfs.py:81-82 | the reachable set holds exactly the in-bounds cells that a walk of legal steps reaches from the start |
| Searching.InAllCells | assignment/assignment1/code/environment.py:155-164 | the grid's cell set is exactly its in-bounds locations |
| Searching.RouteAppend | assignment/assignment1/code/algorithms/dfs.py:108 | concatenating two legal routes, where the second starts where the first ends, gives a legal route through both routes' cells |
| Searching.RouteSnoc | assignment/assignment1/code/algorithms/bidirectional.py:85-88 | a legal route extended by a token whose move is a legal step from where the route ends stays legal |
| Searching.RouteWalk | assignment/assignment1/code/algorithms/bfs.py:57 | the cells a legal route passes through form a walk of legal steps, one step per token, from its start to its end |
| Searching.TreeTrace | assignment/assignment1/code/environment.py:301-322 | on a search tree, the parent chain of a visited cell ends at the root within its depth; its backward trace has one token per level, each the legal step along one parent link, so it is a legal route from the root to the cell |
| Searching.TreeWalk | assignment/assignment1/code/algorithms/bfs.py:73-80 | a visited cell at depth `d` is reached from the root by a walk of `d` legal steps |
| Searching.ClosedHoldsReachable | assignment/assignment1/code/algorithms/bfs.py:81-82 | a set that holds the start and is closed under legal steps holds every cell reachable from it |
| Searching.JoinReach | assignment/assignment1/code/algorithms/bfs.py:66-70 | reachability is transitive, so a goal reached from a restart cell is reached from the start |
| Searching.EdgeBack | assignment/assignment1/code/environment.py:217-253 | a legal step between two unblocked cells can be taken back |
| Searching.Backtrack | assignment/assignment1/code/algorithms/bidirectional.py:106-130 | a cell reachable from an unblocked cell can reach it back (the goal side's search is valid for the start) |
| Searching.TreeWithinReach | assignment/assignment1/code/algorithms/bfs.py:76 | every visited cell is reachable from the root, so the number visited is at most the number reachable |
| Searching.TreeUnblocked | assignment/assignment1/code/algorithms/bfs.py:73-74 | every visited cell other than the root is unblocked |
| Searching.ExhaustedTree | assignment/assignment1/code/algorithms/bfs.py:81-82 | a visited tree closed under legal steps is exactly the reachable set, which makes the final count exact |
| Searching.Singleton | assignment/assignment1/code/algorithms/bfs.py:41-48 | the start alone, with no parent, is a search tree |
| Searching.Adopt | assignment/assignment1/code/algorithms/bfs.py:78-80 | hanging a new neighbour below a visited cell, one level deeper, keeps the search tree |
| Searching.DistinctCard | assignment/assignment1/code/algorithms/bfs.py:76 | a list without repeats has as many elements as its set |
| Searching.ShortenWalk | assignment/assignment1/code/algorithms/iddfs.py:103 | any walk can be cut down to a walk between the same ends that repeats no cell and is no longer |
| Searching.SimpleWalkBound | assignment/assignment1/code/algorithms/iddfs.py:103 | a walk without repeated cells makes at most `net_area` moves, so every reachable cell lies within depth `net_area` |
| Searching.UnseenMembers | assignment/assignment1/code/algorithms/bfs.py:73-80 | a cell is among the unseen neighbours exactly when it is a neighbour, not visited and not blocked |
| Searching.UnseenDistinct | assignment/assignment1/code/algorithms/bfs.py:73-80 | the unseen neighbours of a list without repeats have no repeats |
| Searching.Discover | assignment/assignment1/code/algorithms/bfs.py:73-80 | the neighbour loop: the unseen neighbours are appended to the frontier in order, added to the visited set, counted, and given `current` as parent; the search tree is kept |
| Informed.Without | assignment/assignment1/code/algorithms/beam.py:32 | the frontier with its `i`-th entry taken out: one shorter, with the other entries in order |
| Informed.WithoutMembers | assignment/assignment1/code/algorithms/astar.py:58 | taking an entry out of a frontier without repeats removes exactly that cell and keeps it without repeats |
| Informed.FirstLeast | assignment/assignment1/code/algorithms/beam.py:31 | `min(open_list, key=f)` returns an index of least key, and no earlier index has that key |
| Informed.PopLeast | assignment/assignment1/code/algorithms/astar.py:58 | `heappop` returns an open cell of least `f` |
| Informed.FKeys | assignment/assignment1/code/environment.py:129-134 | the keys of a frontier are its cells' `f = g + h`, in frontier order |
| Informed.HKeys | assignment/assignment1/code/algorithms/greedy.py:106 | greedy's heap keys are its cells' `h`, in frontier order |
| Informed.UnitWalkSpan | assignment/assignment1/code/algorithms/astar.py:44 | a walk of unit moves spans at most its number of moves in Manhattan distance, so `h` never overestimates |
| Informed.SubWalk | assignment/assignment1/code/algorithms/astar.py:54-93 | a piece of a walk is a walk |
| Informed.TreeByParents | assignment/assignment1/code/algorithms/astar.py:79-83 | a search tree depends only on the parent links, and not on `g` or `h` |
| Informed.Hang | assignment/assignment1/code/algorithms/astar.py:79-86 | hanging a new cell below a visited cell, whatever its costs, keeps the tree |
| Informed.Reparent | assignment/assignment1/code/algorithms/astar.py:87-93 | moving a visited cell that is nobody's parent under another visited cell, one level lower, keeps the tree |
| Informed.PutAt | assignment/assignment1/code/algorithms/astar.py:79-83 | writing one cell of the table changes what is read at that cell only |
| Informed.ParentsPut | assignment/assignment1/code/algorithms/astar.py:79-83 | hanging a cell from a closed cell keeps every visited cell hanging from a closed cell |
| Informed.Covering | assignment/assignment1/code/algorithms/astar.py:70-93 | once every neighbour of the popped cell is handled, every move out of a closed cell lands on a visited cell |
| GoalLists.FoundAtStart | assignment/assignment1/code/algorithms/dfs.py:34-39 | a start that is itself a goal is a correct answer, with an empty path and count 1 |
| GoalLists.FreshStart | assignment/assignment1/code/algorithms/dfs.py:90-99 | before the first goal, nothing is found, the path is empty, and the start is the root |
| GoalLists.Reached | assignment/assignment1/code/algorithms/dfs.py:105-120 | recording a reached goal: it moves from the wanted list to the found list (one copy), the path extended by its trace leads through every found goal to it, and it becomes the root |
| GoalLists.FoundAll | assignment/assignment1/code/algorithms/dfs.py:110-115 | once no goal is wanted, the path visits every found goal and the found goals equal the original list, counting repetitions |
| GoalLists.Record | assignment/assignment1/code/algorithms/dfs.py:105-121 | the goal's trace is appended, it is added to the found list and removed once from the agent's goals; the result is final when that was the last goal, and otherwise the search restarts at it with its parent cleared |
| GoalLists.StandsOnGoal | assignment/assignment1/code/algorithms/astar.py:150 | an agent moved to each goal it records stands at its start or at one of the original goals |
| GoalLists.NextLeg | assignment/assignment1/code/algorithms/astar.py:146-150 | a turn that records nothing leaves the agent where it stood, and one that records a goal leaves it on that goal |
| GoalLists.StoppedAt | assignment/assignment1/code/algorithms/astar.py:150-174 | a search that ends with the bare count leaves the agent at its start or on one of the original goals |
| GoalLists.LastLeg | assignment/assignment1/code/algorithms/astar.py:139-144 | when the last goal is recorded the agent is not moved: it stands at its start for a single goal, and otherwise at the goal found before the last |
| Bfs.Search | assignment/assignment1/code/algorithms/bfs.py:15-82 | with one goal wanted: the nearest goal with a shortest legal route and a count at most the reachable cells, or the count of all reachable cells when no goal is reachable; with all goals wanted: a route through every goal, or the count when one is unreachable |
| Bfs.Step | assignment/assignment1/code/algorithms/bfs.py:50-80 | one queue pop: a goal found ends the search or restarts it, and any other cell is expanded; the BFS discipline holds either way |
| Bfs.Advance | assignment/assignment1/code/algorithms/bfs.py:72-80 | expanding the popped cell keeps the queue in breadth-first order, with every new cell one level deeper |
| Bfs.ReachOne | assignment/assignment1/code/algorithms/bfs.py:54-64 | a popped goal, when one goal is wanted, returns its trace from the start, a shortest route |
| Bfs.ReachLast | assignment/assignment1/code/algorithms/bfs.py:54-64 | the last wanted goal popped returns the route through every goal |
| Bfs.ReachNext | assignment/assignment1/code/algorithms/bfs.py:54-70 | a goal popped with more goals wanted is recorded, and the search restarts at it |
| Bfs.Rejoin | assignment/assignment1/code/algorithms/bfs.py:57-69 | the restart: the goal's trace is appended and the goal loses its parent link |
| BfsLayers.QueueAbove | assignment/assignment1/code/algorithms/bfs.py:50-80 | every queued cell lies at depth at least that of every closed cell |
| BfsLayers.Cross | assignment/assignment1/code/algorithms/bfs.py:73-80 | a walk that leaves the closed cells passes through a queued cell no deeper than its position on the walk |
| BfsLayers.NoShorterWalk | assignment/assignment1/code/algorithms/bfs.py:54-57 | no walk from the root reaches a popped cell in fewer moves than its depth |
| BfsLayers.AddedFacts | assignment/assignment1/code/algorithms/bfs.py:73-80 | the cells added by one expansion are unblocked neighbours of the popped cell that were not visited |
| BfsLayers.ExpandSets | assignment/assignment1/code/algorithms/bfs.py:72-80 | after an expansion, the visited cells are the closed ones plus the queued ones |
| BfsLayers.ExpandDepths | assignment/assignment1/code/algorithms/bfs.py:72-80 | the new cells sit one level below the popped cell, so the queue stays sorted by depth within one level |
| BfsLayers.Expand | assignment/assignment1/code/algorithms/bfs.py:72-80 | expanding the popped cell keeps the breadth-first invariant |
| BfsLayers.ExpandEdges | assignment/assignment1/code/algorithms/bfs.py:72-80 | after the expansion, every legal step out of a closed cell lands on a visited cell |
| BfsLayers.Start | assignment/assignment1/code/algorithms/bfs.py:41-48 | the state after the reset: the start is the only visited and queued cell, at depth zero |
| BfsLayers.ReachClosed | assignment/assignment1/code/algorithms/bfs.py:81-82 | with the queue empty, the visited cells are closed under legal steps |
| BfsLayers.Begin | assignment/assignment1/code/algorithms/bfs.py:41-48 | the initial state meets the loop invariant of the phase |
| BfsLayers.FoundGoal | assignment/assignment1/code/algorithms/bfs.py:54-57 | the goal at the head of the queue is rooted; the path extended by its trace is a legal route from the start to it through every reached goal, and with one goal wanted it is the trace alone, one token per level |
| BfsLayers.Nearest | assignment/assignment1/code/algorithms/bfs.py:54-64 | with one goal wanted, the goal at the head of the queue is as near the start as any goal a walk reaches, and the count is within the reachable cells |
| BfsLayers.RestartedPhase | assignment/assignment1/code/algorithms/bfs.py:66-70 | a restarted search is a phase whose queue and visited set hold only its root |
| BfsLayers.Reroot | assignment/assignment1/code/algorithms/bfs.py:66-70 | a goal reached in all-goals mode, with its parent cleared, is a restart: the path leads through it, it moves from the wanted goals to the reached ones, and fewer goals are wanted |
| BfsLayers.Restart | assignment/assignment1/code/algorithms/bfs.py:66-70 | a goal reached with others wanted has a finite parent chain, and its trace appended to the path gives a restart at it |
| BfsLayers.AddedCount | assignment/assignment1/code/algorithms/bfs.py:76 | the added cells are new, so the visited set grows by exactly their number |
| BfsLayers.AddedMeasure | assignment/assignment1/code/algorithms/bfs.py:50-80 | an expansion lowers the termination measure (unvisited cells, then queue length) |
| BfsLayers.Expanded | assignment/assignment1/code/algorithms/bfs.py:72-80 | expanding a popped non-goal keeps the whole loop state |
| BfsLayers.AnswerAtStart | assignment/assignment1/code/algorithms/bfs.py:34-40 | with one goal wanted, a start that is a goal is answered with the empty path and count 1 |
| BfsLayers.AnswerNearest | assignment/assignment1/code/algorithms/bfs.py:58-64 | the single-goal answer: the goal's shortest route and a count within the reachable cells |
| BfsLayers.AnswerAll | assignment/assignment1/code/algorithms/bfs.py:58-64 | the all-goals answer: a route that visits every goal |
| BfsLayers.AnswerDrained | assignment/assignment1/code/algorithms/bfs.py:81-82 | an empty queue: no wanted goal is reachable, and the count is what was visited |
| Dfs.Expand | assignment/assignment1/code/algorithms/dfs.py:59-67 | the neighbours in reverse direction order that are neither blocked nor visited are pushed, counted and parented; the stack invariant is kept |
| Dfs.Search | assignment/assignment1/code/algorithms/dfs.py:15-71 | a goal with a legal route from the start and a count within the reachable cells, or, when no goal is reachable, the count of all reachable cells |
| Dfs.Step | assignment/assignment1/code/algorithms/dfs.py:101-135 | one pop of `search_all`: a goal is recorded, or the cell is expanded, keeping the state |
| Dfs.SearchAll | assignment/assignment1/code/algorithms/dfs.py:74-137 | a route through every goal whose goal list equals the original one, counting repetitions; or the count, with the goals left unreachable from the start when it is unblocked; the agent's cell is unchanged |
| DfsLayers.PushedFacts | assignment/assignment1/code/algorithms/dfs.py:60-67 | the pushed cells are unvisited, unblocked neighbours of the popped cell |
| DfsLayers.PushFrontier | assignment/assignment1/code/algorithms/dfs.py:46-67 | after a push, the stack holds distinct cells, and the visited cells are the closed ones plus the stacked ones |
| DfsLayers.PushedCount | assignment/assignment1/code/algorithms/dfs.py:62-63 | the count grows by the number of pushed cells |
| DfsLayers.PushedMeasure | assignment/assignment1/code/algorithms/dfs.py:46-67 | a pop and push lowers the termination measure |
| DfsLayers.LoneBegin | assignment/assignment1/code/algorithms/dfs.py:40-45 | the state after the reset meets the loop invariant of `search` |
| DfsLayers.LoneExpanded | assignment/assignment1/code/algorithms/dfs.py:59-67 | expanding a popped non-goal keeps the loop invariant |
| DfsLayers.LoneFound | assignment/assignment1/code/algorithms/dfs.py:50-55 | a popped goal gives a correct answer |
| DfsLayers.LoneDrained | assignment/assignment1/code/algorithms/dfs.py:70-71 | an empty stack: no goal is reachable, and the count is the number of reachable cells |
| DfsLayers.RestartedRoving | assignment/assignment1/code/algorithms/dfs.py:117-121 | a restart at the goal just recorded meets the invariant of `search_all` |
| DfsLayers.RovingBegin | assignment/assignment1/code/algorithms/dfs.py:90-99 | the initial state of `search_all` meets its invariant |
| DfsLayers.RovingExpanded | assignment/assignment1/code/algorithms/dfs.py:125-133 | an expansion keeps the invariant of `search_all` |
| DfsLayers.RovingFound | assignment/assignment1/code/algorithms/dfs.py:104-121 | a popped goal is recorded correctly |
| DfsLayers.RovingDrained | assignment/assignment1/code/algorithms/dfs.py:136-137 | an empty stack: the goals left are unreachable from the restart cell, hence from the start |
| Iddfs.Dls | assignment/assignment1/code/algorithms/iddfs.py:18-81 | the goal test comes first, then the depth test; success means a goal within the depth along a chain of parent links it set; the count never passes the limit; a failure below the limit means no goal lies within that depth, and the cells are unchanged |
| Iddfs.Scan | assignment/assignment1/code/algorithms/iddfs.py:53-81 | the loop over the neighbours of one level keeps what `Dls` promises |
| Iddfs.Sweep | assignment/assignment1/code/algorithms/iddfs.py:53-76 | the loop proper: each neighbour in direction order until one succeeds or the count reaches the limit; when neither happens, every neighbour is blocked, visited or without a goal one level shallower, and the table is as it was |
| Iddfs.Step | assignment/assignment1/code/algorithms/iddfs.py:60-76 | one turn of that loop: a failed visit below the limit extends the run of such neighbours by the one just tried |
| IddfsLayers.AllDeadStep | assignment/assignment1/code/algorithms/iddfs.py:53-76 | a run of neighbours none of which leads to a goal, followed by one more such neighbour, is again such a run |
| Iddfs.Visit | assignment/assignment1/code/algorithms/iddfs.py:60-76 | one neighbour: a blocked or visited one is skipped; otherwise it is counted and searched one level shallower, and on success linked to `current`; a failure below the limit means no goal lies within that depth from it |
| Iddfs.Deepen | assignment/assignment1/code/algorithms/iddfs.py:108-120 | the depths are tried in order, up to `net_area`; the first success is at the least depth with a goal |
| Iddfs.Search | assignment/assignment1/code/algorithms/iddfs.py:84-122 | the count never passes the limit; below it, a goal found has a shortest legal route, and a bare count means no goal is reachable |
| Iddfs.SearchAll | assignment/assignment1/code/algorithms/iddfs.py:125-181 | the count stays within the limit; a route through every goal when all are found; a bare count with some goal left otherwise |
| IddfsLayers.NoGoalAtDepth | assignment/assignment1/code/algorithms/iddfs.py:46-51 | depth zero at a non-goal: no goal lies within depth zero |
| IddfsLayers.NoGoalBeyond | assignment/assignment1/code/algorithms/iddfs.py:53-81 | if none of a cell's neighbours has a goal within `d - 1` moves, the cell has none within `d` |
| IddfsLayers.ChainCons | assignment/assignment1/code/algorithms/iddfs.py:67-75 | a goal found below a linked neighbour is found below the cell, one move further |
| IddfsLayers.ChainTrace | assignment/assignment1/code/algorithms/iddfs.py:116-117 | the trace of the goal found is a legal route of the depth it was found at |
| IddfsLayers.Shortest | assignment/assignment1/code/algorithms/iddfs.py:108-120 | a goal first found at depth `d`, after every smaller depth failed, has no shorter route |
| IddfsLayers.Unreachable | assignment/assignment1/code/algorithms/iddfs.py:103-122 | no goal within depth `net_area` means no goal is reachable at all |
| IddfsLayers.IdFound | assignment/assignment1/code/algorithms/iddfs.py:158-176 | a goal found in `search_all` is recorded and the next round starts at it |
| IddfsLayers.IdExhausted | assignment/assignment1/code/algorithms/iddfs.py:177-181 | a round in which no depth found a goal, below the limit: the goals left are unreachable from the start |
| IddfsLayers.IdStopped | assignment/assignment1/code/algorithms/iddfs.py:150 | the round loop stopped at the limit with goals left: the count with those goals left is an answer |
| AStar.Search | assignment/assignment1/code/algorithms/astar.py:15-95 | a goal with a legal route from the start, shortest among all walks to that goal, and a count within the reachable cells; or, when no goal is reachable, the count of all reachable cells |
| AStar.Close | assignment/assignment1/code/algorithms/astar.py:58-93 | pop an open cell of least `f` and expand it unless it is a goal |
| AStar.Arrive | assignment/assignment1/code/algorithms/astar.py:63-68 | a popped goal returns its trace, a shortest route to it |
| AStar.Expand | assignment/assignment1/code/algorithms/astar.py:70-93 | every neighbour is handled, and the A* invariant (every closed cell settled, its `g` its true distance) is kept |
| AStar.Visit | assignment/assignment1/code/algorithms/astar.py:70-93 | one neighbour: skipped, pushed or improved as its state requires |
| AStar.Push | assignment/assignment1/code/algorithms/astar.py:75-86 | a new neighbour gets `g = current.g + 1`, its distance to the target as `h`, `current` as parent, and joins the open list |
| AStar.Improve | assignment/assignment1/code/algorithms/astar.py:87-93 | an open neighbour reached more cheaply gets the lower `g` and `current` as parent |
| AStar.SearchAll | assignment/assignment1/code/algorithms/astar.py:98-174 | a route through every goal whose goal list equals the original one, or the count with the goals left unreachable; each leg aims at the goal nearest the agent's cell; the agent ends at its start or at a goal, and on success at the start of the last leg: its original cell for a single goal, otherwise the goal found before the last |
| AStar.Step | assignment/assignment1/code/algorithms/astar.py:128-173 | one pop of `search_all`: a goal is recorded, or the cell is expanded, keeping the state; a recorded goal is appended to the found list and becomes the root where the agent stands, and the final answer lists the goals found before plus this one, with the agent not moved |
| AStar.Reach | assignment/assignment1/code/algorithms/astar.py:133-157 | a popped goal: its trace is appended, it is found and removed; the last goal returns the answer with the agent not moved (lines 139-144 return before line 150); otherwise the agent moves to it, and the search restarts there aimed at the next nearest goal |
| AStar.Advance | assignment/assignment1/code/algorithms/astar.py:159-173 | a popped non-goal is expanded, keeping the state of `search_all` |
| AStarLayers.Begin | assignment/assignment1/code/algorithms/astar.py:41-52 | the annotated start alone is open and nothing is closed: the A* invariant holds |
| AStarLayers.FirstOpen | assignment/assignment1/code/algorithms/astar.py:54-93 | a walk from the root to a cell that is not closed passes through an open cell no deeper than its position on the walk |
| AStarLayers.SettleWalk | assignment/assignment1/code/algorithms/astar.py:54-60 | no walk from the root reaches an open cell of least `f` in fewer moves than its `g` |
| AStarLayers.Popped | assignment/assignment1/code/algorithms/astar.py:58-60 | after the popped cell is closed, every closed cell is still settled |
| AStarLayers.Skipped | assignment/assignment1/code/algorithms/astar.py:71-72 | a neighbour that is blocked, closed, or open with no worse `g` needs nothing done |
| AStarLayers.AnnotatedPut | assignment/assignment1/code/algorithms/astar.py:79-81 | giving a cell its depth as `g` and its distance to the target as `h` keeps every visited cell's annotations |
| AStarLayers.RelaxedPut | assignment/assignment1/code/algorithms/astar.py:87-93 | lowering the depth of a cell that is not closed keeps every move out of a closed cell pulled |
| AStarLayers.SettledPut | assignment/assignment1/code/algorithms/astar.py:87-93 | changing the depth of a cell that is not closed keeps the closed cells settled |
| AStarLayers.HandledPut | assignment/assignment1/code/algorithms/astar.py:75-93 | a neighbour made open one level below the popped cell is handled |
| AStarLayers.KeyOf | assignment/assignment1/code/environment.py:129-134 | a visited cell's `g` is its depth and its `h` its distance to the target |
| AStarLayers.Discovered | assignment/assignment1/code/algorithms/astar.py:75-86 | a first-seen neighbour is hung one level below the popped cell, annotated and pushed, keeping the invariant |
| AStarLayers.Improved | assignment/assignment1/code/algorithms/astar.py:87-93 | a deeper open neighbour moved under the popped cell keeps the invariant |
| AStarLayers.Finished | assignment/assignment1/code/algorithms/astar.py:70-93 | once every neighbour is handled, every move out of every closed cell is pulled again |
| AStarLayers.ShortestAtStart | assignment/assignment1/code/algorithms/astar.py:34-39 | a start that is a goal: the empty path is a shortest route |
| AStarLayers.Arrived | assignment/assignment1/code/algorithms/astar.py:63-68 | a popped goal's parent chain is finite and its trace is a shortest route from the root |
| AStarLayers.Drained | assignment/assignment1/code/algorithms/astar.py:95 | an empty open list: the closed cells are everything reachable and none is a goal |
| AStarLayers.RoamingBegin | assignment/assignment1/code/algorithms/astar.py:114-126 | the state of `search_all` after the reset and the start's annotation |
| AStarLayers.RestartedRoaming | assignment/assignment1/code/algorithms/astar.py:147-155 | a restart at the goal just recorded, `g` cleared and `h` aimed at the next target, meets the invariant |
| AStarLayers.RoamingExpanded | assignment/assignment1/code/algorithms/astar.py:159-173 | an expansion keeps the invariant of `search_all` |
| AStarLayers.RoamingFound | assignment/assignment1/code/algorithms/astar.py:133-146 | a popped goal is recorded, and the search restarts at it |
| AStarLayers.RoamingDrained | assignment/assignment1/code/algorithms/astar.py:174 | an empty open list: no wanted goal is reachable from the phase root, hence from the start |
| Greedy.Search | assignment/assignment1/code/algorithms/greedy.py:15-80 | a goal with a legal route from the start and a count within the reachable cells, or, when no goal is reachable, the count of all reachable cells |
| Greedy.Run | assignment/assignment1/code/algorithms/greedy.py:54-80 | the loop of `search` keeps the greedy invariant until a goal is popped or the heap runs dry |
| Greedy.Pop | assignment/assignment1/code/algorithms/greedy.py:58 | the popped cell has least `h` on the open list, an open cell nearest the target |
| Greedy.Close | assignment/assignment1/code/algorithms/greedy.py:58-78 | pop, arrive at a goal or expand |
| Greedy.Arrive | assignment/assignment1/code/algorithms/greedy.py:61-66 | a popped goal returns its trace, a legal route |
| Greedy.Expand | assignment/assignment1/code/algorithms/greedy.py:68-78 | every neighbour is handled, and every move out of a closed cell lands on a visited cell |
| Greedy.Visit | assignment/assignment1/code/algorithms/greedy.py:68-78 | one neighbour: skipped, or pushed when first seen |
| Greedy.Push | assignment/assignment1/code/algorithms/greedy.py:71-78 | a first-seen neighbour is counted and gets its distance to the target as `h` and `current` as parent |
| Greedy.SearchAll | assignment/assignment1/code/algorithms/greedy.py:83-154 | a route through every goal whose goal list equals the original one, or the count with the goals left unreachable |
| Greedy.Step | assignment/assignment1/code/algorithms/greedy.py:113-152 | one pop of `search_all`: a goal is recorded, or the cell is expanded |
| Greedy.Reach | assignment/assignment1/code/algorithms/greedy.py:119-141 | a popped goal is recorded, and the search restarts at it |
| Greedy.Retarget | assignment/assignment1/code/algorithms/greedy.py:133-139 | the next target is the goal nearest the agent's cell, which is not moved; the restart cell's `h` is its distance to that target |
| Greedy.Advance | assignment/assignment1/code/algorithms/greedy.py:143-152 | a popped non-goal is expanded, keeping the state of `search_all` |
| GreedyLayers.Begin | assignment/assignment1/code/algorithms/greedy.py:41-52 | the state after the start is hinted, with nothing closed |
| GreedyLayers.Nearest | assignment/assignment1/code/algorithms/greedy.py:58 | a cell of least `h` on a hinted open list is an open cell nearest the target |
| GreedyLayers.Popped | assignment/assignment1/code/algorithms/greedy.py:58-59 | after the popped cell is closed, only the moves out of it are left to cover |
| GreedyLayers.Skipped | assignment/assignment1/code/algorithms/greedy.py:69-70 | a blocked, closed or already open neighbour needs nothing done |
| GreedyLayers.Discovered | assignment/assignment1/code/algorithms/greedy.py:71-78 | a first-seen neighbour is hung below the popped cell, hinted and pushed, keeping the invariant |
| GreedyLayers.Finished | assignment/assignment1/code/algorithms/greedy.py:68-78 | once every neighbour is handled, every move out of a closed cell is covered again |
| GreedyLayers.Arrived | assignment/assignment1/code/algorithms/greedy.py:61-66 | a popped goal's parent chain is finite and its trace is a legal route from the root |
| GreedyLayers.Drained | assignment/assignment1/code/algorithms/greedy.py:80 | an empty open list: the closed cells are everything reachable and none is a goal |
| GreedyLayers.RangingBegin | assignment/assignment1/code/algorithms/greedy.py:99-111 | the state of `search_all` after the reset and the start's hint |
| GreedyLayers.RestartedRanging | assignment/assignment1/code/algorithms/greedy.py:133-139 | a restart at the goal just recorded, `h` aimed at the next target, meets the invariant |
| GreedyLayers.RangingExpanded | assignment/assignment1/code/algorithms/greedy.py:143-152 | an expansion keeps the invariant of `search_all` |
| GreedyLayers.RangingFound | assignment/assignment1/code/algorithms/greedy.py:119-131 | a popped goal is recorded, and the search restarts at it |
| GreedyLayers.RangingDrained | assignment/assignment1/code/algorithms/greedy.py:153-154 | an empty open list: no wanted goal is reachable from the phase root, hence from the start |
| Beam.Search | assignment/assignment1/code/algorithms/beam.py:8-57 | a goal with a legal route from the start, or a bare count; the count is at least one either way |
| Beam.Run | assignment/assignment1/code/algorithms/beam.py:29-57 | the loop keeps the beam invariant until a goal is popped or the beam is empty |
| Beam.Close | assignment/assignment1/code/algorithms/beam.py:32-55 | the popped non-goal cell `S[i]` (`Run` picks the first of least `f`) is removed once and closed, and its neighbours are handled as `Appended` says; the new open list holds cells of that expanded list, sorted by `f` ascending, `min(w, n)` of them for a width `w >= 0`, and no cell it keeps has a larger `f` than one the cut drops |
| Beam.Arrive | assignment/assignment1/code/algorithms/beam.py:35-40 | a popped goal returns its trace, a legal route |
| Beam.Expand | assignment/assignment1/code/algorithms/beam.py:42-53 | the neighbour loop: the old open entries stay in front, the count grows by exactly the number of cells appended, each appended cell is an unblocked, unclosed neighbour, and every unblocked, unclosed neighbour is open afterwards; the search tree and annotations are kept |
| BeamLayers.AppendedStep | assignment/assignment1/code/algorithms/beam.py:43-50 | one more neighbour keeps `Appended`: a blocked or closed one changes nothing, one not yet open is appended and counted once, and an open one stays where it is |
| Beam.Visit | assignment/assignment1/code/algorithms/beam.py:42-53 | one neighbour: skipped, pushed or improved |
| Beam.Push | assignment/assignment1/code/algorithms/beam.py:45-50 | a new neighbour is counted and gets `h` (its distance to the target) and `current` as parent; its `g` is left as it was, since lines 45-50 never assign it |
| Beam.Improve | assignment/assignment1/code/algorithms/beam.py:51-53 | an open neighbour reached more cheaply gets the lower `g` and `current` as parent |
| BeamLayers.InsertF | assignment/assignment1/code/algorithms/beam.py:55 | inserting a cell adds exactly that cell to the list's multiset |
| BeamLayers.SortF | assignment/assignment1/code/algorithms/beam.py:55 | `sorted(key=f)` returns a permutation of the list, of the same length |
| BeamLayers.InsertSorted | assignment/assignment1/code/algorithms/beam.py:55 | inserting a cell before the first one of no smaller `f` keeps the list sorted by `f` |
| BeamLayers.SortedCons | assignment/assignment1/code/algorithms/beam.py:55 | a cell no greater than the head of a sorted list can go in front |
| BeamLayers.InsertDistinct | assignment/assignment1/code/algorithms/beam.py:55 | inserting a new cell into a list without repeats keeps it without repeats |
| BeamLayers.SortFacts | assignment/assignment1/code/algorithms/beam.py:55 | the result of `sorted` is in ascending `f`, and has no repeats when the list had none |
| BeamLayers.Take | assignment/assignment1/code/algorithms/beam.py:55 | `[:w]` with Python's slice rules: the first `w` entries, all for a large `w`, all but the last `-w` for a negative `w` |
| BeamLayers.TakeSortedOrder | assignment/assignment1/code/algorithms/beam.py:55 | a prefix of a sorted list is sorted and no kept cell has a larger `f` than a dropped one |
| BeamLayers.TrimKeepsBest | assignment/assignment1/code/algorithms/beam.py:55 | the trimmed beam is a part of the open list without repeats, sorted by `f`, of length min(w, n) for `w ≥ 0`; every kept cell is no worse than every dropped one |
| BeamLayers.Begin | assignment/assignment1/code/algorithms/beam.py:21-27 | the start alone is open, with `h` its distance to the target |
| BeamLayers.Popped | assignment/assignment1/code/algorithms/beam.py:31-33 | `open_list.remove(current)` on the least entry is taking that entry out, and the beam invariant is kept |
| BeamLayers.PoppedLists | assignment/assignment1/code/algorithms/beam.py:31-33 | after the removal, the open list has no repeats and lacks the popped cell |
| BeamLayers.Discovered | assignment/assignment1/code/algorithms/beam.py:45-50 | a new neighbour hung below the popped cell keeps the invariant |
| BeamLayers.Improved | assignment/assignment1/code/algorithms/beam.py:51-53 | a cheaper open neighbour moved under the popped cell keeps the invariant |
| BeamLayers.Trimmed | assignment/assignment1/code/algorithms/beam.py:55 | trimming the open list keeps the invariant |
| BeamLayers.Arrived | assignment/assignment1/code/algorithms/beam.py:35-40 | a popped goal's parent chain is finite and its trace is a legal route from the start |
| Bidirectional.Search | assignment/assignment1/code/algorithms/bidirectional.py:15-132 | a start that is a goal yields the empty path; otherwise the goal nearest the start: the count is between 1 and the cells reachable from the start plus those reachable from that goal; a goal result is that goal with a path ending at it, a legal route when the goal is unblocked; a bare count means the goal is unreachable, when the start is unblocked |
| Bidirectional.Run | assignment/assignment1/code/algorithms/bidirectional.py:61-132 | rounds run while both open heaps are non-empty, then the count |
| Bidirectional.Round | assignment/assignment1/code/algorithms/bidirectional.py:61-130 | one iteration: both sides pop, the start side expands, and the goal side expands too unless the sides met |
| Bidirectional.StartHalf | assignment/assignment1/code/algorithms/bidirectional.py:67-104 | both sides pop and close a cell of least `f`, and the start side expands its cell |
| Bidirectional.GoalHalf | assignment/assignment1/code/algorithms/bidirectional.py:106-130 | the goal side expands its popped cell |
| Bidirectional.Expand | assignment/assignment1/code/algorithms/bidirectional.py:77-104 | a side's neighbour loop, in direction order, until the sides meet; both sides keep their invariant |
| Bidirectional.Visit | assignment/assignment1/code/algorithms/bidirectional.py:77-104 | one neighbour: skipped, met, pushed or improved |
| Bidirectional.Discover | assignment/assignment1/code/algorithms/bidirectional.py:82-99 | a neighbour that is neither closed nor open: a meeting returns the stitched path; otherwise it is counted and pushed |
| Bidirectional.Join | assignment/assignment1/code/algorithms/bidirectional.py:83-91 | a meeting at a neighbour the other side has reached: the answer is the stitched path to the goal with the count so far |
| Bidirectional.Stitch | assignment/assignment1/code/algorithms/bidirectional.py:85-88 | the start side's trace to its cell, the step to the goal side's cell, then that cell's trace towards the goal: a legal route from start to goal when the goal is unblocked |
| Bidirectional.Push | assignment/assignment1/code/algorithms/bidirectional.py:92-99 | an unreached neighbour gets `g`, its distance to the other root as `h`, and `current` as parent |
| Bidirectional.Improve | assignment/assignment1/code/algorithms/bidirectional.py:100-104 | an open neighbour reached more cheaply gets the lower `g` and `current` as parent |
| Bidirectional.SearchAll | assignment/assignment1/code/algorithms/bidirectional.py:135-249 | a path that visits every goal, legal when no goal is blocked, with a goal list equal to the original one counting repetitions; or a bare count with goals left, one of which is unreachable when every goal and the start are unblocked, the goals are distinct and the start is not one of them; the agent ends at its start or at a goal, and on success at the start of the last leg: its original cell for a single goal, otherwise the goal found before the last |
| Bidirectional.Tour | assignment/assignment1/code/algorithms/bidirectional.py:169-247 | one leg from the agent's cell: a goal reached is recorded, and a failed leg ends with the count; the agent stays at the start or the last goal found before the leg, and moves to the leg's goal only when more goals are left |
| Bidirectional.Leg | assignment/assignment1/code/algorithms/bidirectional.py:151-226 | the leg's rounds until the sides meet or a heap runs dry, with a legal route from the agent's cell to the leg's goal on a meeting |
| Bidirectional.Launch | assignment/assignment1/code/algorithms/bidirectional.py:151-167 | after the reset, the leg's goal is the goal nearest the agent's cell, and each side holds only its root |
| Bidirectional.RoundAll | assignment/assignment1/code/algorithms/bidirectional.py:169-225 | one iteration of `search_all`: the start side counts before testing for a meeting, and after a meeting the goal side still expands |
| Bidirectional.MetFirst | assignment/assignment1/code/algorithms/bidirectional.py:202-225 | after the start side meets, the goal side's popped cell is still expanded, without a second join (the `found_goal` guard at line 208) |
| Bidirectional.ExpandOnly | assignment/assignment1/code/algorithms/bidirectional.py:202-225 | every unblocked neighbour that is neither closed nor open is counted and pushed, in order |
| Bidirectional.Touch | assignment/assignment1/code/algorithms/bidirectional.py:203-225 | one neighbour: pushed and counted exactly when it is unblocked and neither closed nor open |
| Bidirectional.Touched | assignment/assignment1/code/algorithms/bidirectional.py:203-225 | the open list and count after `k + 1` neighbours are the old ones plus the unseen neighbours among them |
| Bidirectional.Record | assignment/assignment1/code/algorithms/bidirectional.py:186-191 | a reached leg goal: its path is appended, it is found and removed once from the goals, and the agent moves to it unless it was the last, when the answer lists every goal found with the agent not moved |
| BidirectionalLayers.MeetsExactly | assignment/assignment1/code/algorithms/bidirectional.py:83 | the corrected meeting test holds, for a cell this side has not reached, exactly when the other side has reached it, its root included |
| BidirectionalLayers.SweepAsWritten | assignment/assignment1/code/algorithms/bidirectional.py:77-124 | one side's neighbour loop with the meeting test as written: a meeting is at the cell being expanded, with no fewer cells counted; otherwise the open list is extended, keeping its old entries in front, and the count grows by the number of cells added |
| BidirectionalLayers.GoalAdopted | assignment/assignment1/code/algorithms/bidirectional.py:77-97 | on the free 1×3 row, the start side's first sweep finds the parentless goal and adopts it, with `g` 1, `h` 0 and the start as parent, count 2 |
| BidirectionalLayers.StartAdopted | assignment/assignment1/code/algorithms/bidirectional.py:106-124 | on the free 1×3 row, the goal side's first sweep adopts the parentless start and then `(2, 0)`, both with `g` 2, count 4 |
| BidirectionalLayers.EndAdopted | assignment/assignment1/code/algorithms/bidirectional.py:110-124 | the rest of the goal side's first sweep on the free 1×3 row: `(2, 0)`, neither open nor parented, is hung below the goal with `g` 2 and `h` 2 and appended after the start, count 4 |
| BidirectionalLayers.RowReset | assignment/assignment1/code/algorithms/bidirectional.py:31-43 | the 1×3 row the replay starts from is the reset grid with the start's `h` set to its distance 1 to the goal |
| BidirectionalLayers.StartLeast | assignment/assignment1/code/algorithms/bidirectional.py:67-68 | after the first round the start's `f` (2) is the least on the goal side's open list, below that of `(2, 0)` (4) |
| BidirectionalLayers.MetBeyond | assignment/assignment1/code/algorithms/bidirectional.py:62-89 | in the second round the goal side pops the start (least `f`), and the start side, expanding the goal, skips the closed start and meets at `(2, 0)` |
| BidirectionalLayers.Circled | assignment/assignment1/code/environment.py:306-321 | after the first round the start and the goal are each other's parent, so no parent chain from the goal reaches a root |
| BidirectionalLayers.RootAdopted | assignment/assignment1/code/algorithms/bidirectional.py:83 | the test as written, on a free 1×3 row with start `(0, 0)` and goal `(1, 0)`: the states its sweeps compute tie the two roots into a cycle, the second round meets and traces the goal, and that trace never reaches a root; the corrected test meets at the goal at once |
| BidirectionalLayers.CountAsWritten | assignment/assignment1/code/algorithms/bidirectional.py:83 | the test as written, on a free 1×2 row with start `(0, 0)` and goal `(1, 0)`: each side adopts the other's root, both second sweeps add nothing, so both heaps are empty and the search returns the count 3; the corrected test meets at the goal at once |
| BidirectionalLayers.Cycle | assignment/assignment1/code/environment.py:306-321 | two cells that are each other's parent: following parents from either never reaches a cell without one |
| BidirectionalLayers.Swap | assignment/assignment1/code/algorithms/bidirectional.py:106-130 | the two sides' invariant does not depend on which side is named first, so the goal side's half is the start side's with the roles swapped |
| BidirectionalLayers.ApartKept | assignment/assignment1/code/algorithms/bidirectional.py:61-130 | sides that keep their roots and their reached cells stay disjoint |
| BidirectionalLayers.Begin | assignment/assignment1/code/algorithms/bidirectional.py:53-59 | each side holds only its root, and no cell has a parent |
| BidirectionalLayers.Popped | assignment/assignment1/code/algorithms/bidirectional.py:67-71 | popping and closing a cell keeps the side's cells, and its root is closed from then on |
| BidirectionalLayers.Closing | assignment/assignment1/code/algorithms/bidirectional.py:67-71 | popping on both sides keeps both sides apart and keeps their cells |
| BidirectionalLayers.Advanced | assignment/assignment1/code/algorithms/bidirectional.py:77-79 | a move to a blocked or reached neighbour is covered, and reaching more cells uncovers nothing |
| BidirectionalLayers.Adopted | assignment/assignment1/code/algorithms/bidirectional.py:92-99 | an unreached neighbour hung below the closed cell extends this side and leaves the other untouched |
| BidirectionalLayers.Extended | assignment/assignment1/code/algorithms/bidirectional.py:92-99 | the side grows by exactly that neighbour |
| BidirectionalLayers.Untouched | assignment/assignment1/code/algorithms/bidirectional.py:92-104 | changing a cell a side has not reached keeps that side |
| BidirectionalLayers.Reparented | assignment/assignment1/code/algorithms/bidirectional.py:100-104 | an open neighbour moved under the closed cell: both sides keep their cells |
| BidirectionalLayers.TraceForward | assignment/assignment1/code/algorithms/bidirectional.py:88 | the forward trace of a goal-side cell ends at the goal root, through unblocked cells when that root is unblocked |
| BidirectionalLayers.Stitched | assignment/assignment1/code/algorithms/bidirectional.py:85-88 | the stitched path leads from the start root to the goal root, and it is a legal route unless the goal root is blocked |
| BidirectionalLayers.Bridged | assignment/assignment1/code/algorithms/bidirectional.py:85-88 | with the goal root unblocked, the goal is reachable from the start |
| BidirectionalLayers.Drained | assignment/assignment1/code/algorithms/bidirectional.py:61 | a side whose open heap ran dry has reached everything reachable from its root, so the goal is unreachable from an unblocked start |
| BidirectionalLayers.Bounded | assignment/assignment1/code/algorithms/bidirectional.py:92-99 | each side has reached no more cells than are reachable from its root |
| BidirectionalLayers.BoundedBeyond | assignment/assignment1/code/algorithms/bidirectional.py:122 | one more unreached neighbour is one more reachable cell, so the count stays within the bound |
| BidirectionalLayers.StepReach | assignment/assignment1/code/algorithms/bidirectional.py:92-99 | a cell one legal step from a reachable cell is reachable |
| BidirectionalLayers.Grown | assignment/assignment1/code/algorithms/bidirectional.py:92-99 | a set within the reachable cells, grown by a reachable cell it lacks, stays within them and grows by one |
| BidirectionalLayers.Met | assignment/assignment1/code/algorithms/bidirectional.py:83-91 | at a meeting, the other side has reached the neighbour, and the count with it is within the bound |
| BidirectionalLayers.Rooted | assignment/assignment1/code/algorithms/bidirectional.py:53-59 | a side has reached its root |
| BidirectionalLayers.TourBegin | assignment/assignment1/code/algorithms/bidirectional.py:165-167 | before the first leg, the tour is the empty path at the start |
| BidirectionalLayers.TourExtended | assignment/assignment1/code/algorithms/bidirectional.py:186-191 | a leg from the current cell to its goal extends the tour to that goal |
| BidirectionalLayers.Recorded | assignment/assignment1/code/algorithms/bidirectional.py:186-191 | recording a leg: the tour reaches the goal, which moves from the goals left to the goals found |
| BidirectionalLayers.TourDone | assignment/assignment1/code/algorithms/bidirectional.py:228-234 | the last goal recorded: the tour visits every goal, and the found list equals the original one, counting repetitions |
| BidirectionalLayers.TourStuck | assignment/assignment1/code/algorithms/bidirectional.py:249 | a failed leg: under the contract's grid conditions, some goal left is unreachable from the start |
| BidirectionalLayers.JoinedLeg | assignment/assignment1/code/algorithms/bidirectional.py:183-192 | a meeting found by the start side stays a found leg whatever the goal side adds to the count |

## Left out

- `classes/grid.py` (`__init__` 22-31, `get_cell` 33-44, `is_valid` 46-57, `get_neighbor` 59-82, `get_neighbors` 84-120, `reset` 122-128, `net_area` 137-142), `classes/agent.py` (18-54) and `classes/direction.py` (4-17) repeat the `environment.py` definitions. The same members model them.
- Grids.Grid.constructor: a non-empty wall with a row outside `[-height, height)` or a column outside `[-width, width)` makes the source raise `IndexError` part way through the wall loop, after blocking the cells before it. The model requires every wall to fit (`WallFits`) and does not model that exception path.
- Grids.Grid.GetCell: a coordinate outside `[-width, width)` or `[-height, height)` raises `IndexError` in the source. The model requires `Indexable` and does not model that exception.
- Agents.Agent.constructor: a start or goal location that `get_cell` cannot index raises `IndexError` in the source, as for `GetCell`. The model requires every location to be `Indexable`.
- `Cell.__eq__` / `__hash__` are modelled by value equality of positions. `__lt__`, `__gt__`, `__repr__`, `size` and `location` have no row, because no property depends on them beyond position identity.
- Informed.PopLeast: heap tie-breaking is not modelled. `heappop` may return any open cell of least key, and the model proves the properties for every such choice. `heapify` and the heap's internal order are not modelled, because a list popped by least key is enough.
- Greedy.Pop: the heap holds `(h, cell)` pairs whose `h` the restart may change (`greedy.py:134-138`). The model reads the current `h` of the cell, after the restart has replaced the heap by the single restart cell.
- `can_jump`: only breadth-first search passes it to `get_neighbors`. The other searches use unit moves, as their source does. The model keeps `can_jump` for `trace_path`'s distance suffixes.
- Tokens are the datatype `Token` (a direction, with its distance when jumping), not the strings `"up"` / `"up_3"`. The bidirectional join token is the bare `Direction` member (`Raw`), because the source appends `current_start - neighbor` without `.value`.
- Iddfs.Search: the limit (default `10**5`) is a parameter. Optimality and the bare-count meaning are promised only while the count stays below it, because the source stops counting at the limit.
- AStar.Search, Greedy.Search, Beam.Search, Bidirectional.Search: they require a non-empty goal list. `get_nearest_goal` raises `ValueError` on an empty list (`min` of an empty sequence). This is an exception path of the source, not a modelled result.
- Beam.Search: `beam_width` (default 2) is a parameter without a default, since Dafny methods have none; callers pass 2 for the source's default.
- Beam.Search: requires the start cell to have no parent, because beam search never resets the grid. It also promises no bare-count meaning, because a trimmed beam is incomplete. The sort by `f` is proved to be a sorted permutation, but not to be stable.
- Greedy.SearchAll: each leg aims at the goal nearest the agent's original cell, as the source does (`agent.cell` is never moved). It does not promise the nearest goal from the current cell.
- AStar.SearchAll: promises a legal route through every goal, not that each leg is shortest.
- The docstrings promise "the shortest path" for every search (`dfs.py:17, 76`, `greedy.py:17, 85`, `beam.py:10`, `bidirectional.py:17, 137`, `iddfs.py:127`, `astar.py:100`, and `bfs.py:21` for all goals). The model proves a shortest route only for breadth-first search with one goal, iterative deepening `search` and A* `search`. The others do not keep the promise: depth-first search returns the first route its stack order finds; greedy search orders by `h` alone; beam search trims cells that may lie on every shortest route; bidirectional search stops at the first meeting, whichever side it is on; and every all-goals mode chains legs from goal to goal, each aimed at one goal at a time, which need not give the shortest route through them all.
- Bidirectional.Search: uses the corrected meeting test, so its result differs from the source's wherever a side's neighbour is the other side's parentless root. That needs the start to be next to the goal: for start and goal further apart, the first round puts every unblocked neighbour of both roots into a tree, so a later step meets there first. On such inputs the source loops forever in `trace_path` (`RootAdopted`), returns a bare count although the goal is next to the start (`CountAsWritten`), or, with a blocked start or goal, returns a longer path that runs past the adopted root and back, while the model returns the one-step path.
- Bidirectional.Search: a goal that is itself blocked gives a weaker promise, only that the stitched route ends at it. A bare count means the goal is unreachable only when the start is unblocked, because the goal side walks back towards the start.
- Bidirectional.SearchAll: uses the corrected meeting test, so a leg whose start is next to its goal ends differently from the source's, in the same three ways as `search`.
- Bidirectional.SearchAll: the route is promised legal only when no goal is blocked. A bare count means some goal left is unreachable only when every goal and the start are unblocked, the goals are distinct, and the start is not a goal. The `search_all` start side has no start-equals-goal check, so a leg that starts on its own goal yields a path out and back, or the count.
- Bidirectional.ExpandOnly: the state of the cells after it, other than the count and the open list, is not specified. No later step of the source reads them.
- The visited and closed sets and the open lists are values local to each method, as in the source. Parent links, `g` and `h` are updated in place in the grid's cells.
- The count of `search_all` variants is carried across legs; each leg's count is the leg's own, added to what earlier legs counted.
- `utils.py`, `map.py`, `search.py`, `ui.py`, `analyze.py` and `test-enum.py` read map files, parse arguments, draw, time and print. They are I/O and are not part of this model. `search.py` builds `Grid(size, walls)` and `Agent(grid, start, goals)` and calls `search`, which the constructors model.

## Findings

| source | as written | input that shows it | evidently intended | confidence | as-written member | corrected member |
|---|---|---|---|---|---|---|
| assignment/assignment1/code/algorithms/bidirectional.py:83 (also 113, 184, 208) | a neighbour is taken as the meeting cell when it has a parent; the other side's root has none, so it is adopted instead, and the two roots can become each other's parents | a free grid of one row and three cells, start `(0, 0)`, goal `(1, 0)`: the start side adopts the goal, the goal side adopts the start, and the next meeting's `trace_path` follows the cycle forever; on a free row of two cells, start `(0, 0)`, goal `(1, 0)`, both heaps run dry and the search returns the bare count 3 for a goal next to the start | a neighbour the other side has reached, its root included, is a meeting | not executed | BidirectionalLayers.RootAdopted, BidirectionalLayers.CountAsWritten | BidirectionalLayers.MeetsExactly |

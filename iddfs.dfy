/**
 * Iterative deepening depth-first search (`algorithms/iddfs.py`): a
 * recursive depth-limited search that marks cells visited on the way down
 * and unmarks them on the way back, with a ceiling on the visited count,
 * run for depths 0 up to the net area of the grid.
 */
module Iddfs {
  import opened Wrappers
  import opened Cells
  import opened Grids
  import opened Neighborhoods
  import opened Agents
  import opened Searching
  import Seqs
  import opened GoalLists
  import opened IddfsLayers

  /**
   * `dls(agent, current, max_depth, visited, count, limit)`, with the agent
   * passed as its grid and goal list, which `dls` only reads and annotates:
   * the goal test comes first, then the depth test, then each unit neighbour
   * in direction order, stopping as soon as the count reaches the limit. The visited set
   * is threaded through and comes back unchanged on failure; `chain` is the
   * walk a success went along.
   */
  method Dls(g: Grid, goals: seq<Pos>, current: Pos, maxDepth: int, visited: set<Pos>, count: int, limit: int)
    returns (success: bool, goal: Pos, count': int, visited': set<Pos>, ghost chain: seq<Pos>)
    requires g.Valid() && g.InBounds(current) && current in visited
    modifies g
    ensures g.Valid()
    ensures count' >= count && (count <= limit ==> count' <= limit) && (count >= limit ==> count' == count)
    ensures current in goals ==> success && goal == current && count' == count
    ensures current !in goals && maxDepth <= 0 ==> !success && count' == count
    ensures !success ==> visited' == visited && g.cells == old(g.cells)
    ensures !success && count' < limit ==> NoGoalWithin(g, goals, current, maxDepth, visited)
    ensures success ==>
      && Chained(g, old(g.cells), g.cells, chain, visited)
      && chain[0] == current && chain[|chain| - 1] == goal && goal in goals
      && |chain| - 1 <= (if maxDepth > 0 then maxDepth else 0)
    decreases maxDepth, 4
  {
    if current in goals {
      return true, current, count, visited, [current];
    }
    if maxDepth <= 0 {
      NoGoalAtDepth(g, goals, current, maxDepth, visited);
      return false, current, count, visited, [];
    }
    success, goal, count', chain := Scan(g, goals, current, maxDepth, visited, count, limit);
    visited' := visited;
  }

  /**
   * The neighbour loop of `dls`, for a cell that is not a goal and a depth
   * still positive: each unit neighbour of `current` in direction order,
   * until one succeeds or the count reaches the limit.
   */
  method Scan(g: Grid, goals: seq<Pos>, current: Pos, maxDepth: int, visited: set<Pos>, count: int, limit: int)
    returns (success: bool, goal: Pos, count': int, ghost chain: seq<Pos>)
    requires g.Valid() && g.InBounds(current) && current in visited
    requires current !in goals && maxDepth > 0
    modifies g
    ensures g.Valid()
    ensures count' >= count && (count <= limit ==> count' <= limit) && (count >= limit ==> count' == count)
    ensures !success ==> g.cells == old(g.cells)
    ensures !success && count' < limit ==> NoGoalWithin(g, goals, current, maxDepth, visited)
    ensures success ==>
      && Chained(g, old(g.cells), g.cells, chain, visited)
      && chain[0] == current && chain[|chain| - 1] == goal && goal in goals
      && |chain| - 1 <= maxDepth
    decreases maxDepth, 3
  {
    var ns := g.GetNeighbors(current, false);
    NeighborsAdjacent(g, false, current, ns);
    success, goal, count', chain := Sweep(g, goals, current, ns, maxDepth, visited, count, limit);
    if !success && count' < limit {
      NoGoalBeyond(g, goals, current, maxDepth, visited, ns);
    }
  }

  /**
   * The loop itself: `Visit` each cell of `ns` in order until one succeeds
   * or the count reaches the limit; if neither happens, every cell of `ns`
   * is `Dead`.
   */
  method Sweep(g: Grid, goals: seq<Pos>, current: Pos, ns: seq<Pos>, maxDepth: int, visited: set<Pos>, count: int, limit: int)
    returns (success: bool, goal: Pos, count': int, ghost chain: seq<Pos>)
    requires g.Valid() && g.InBounds(current) && current in visited && maxDepth > 0
    requires forall j :: 0 <= j < |ns| ==> Adjacent(g, false, current, ns[j])
    modifies g
    ensures g.Valid()
    ensures count' >= count && (count <= limit ==> count' <= limit) && (count >= limit ==> count' == count)
    ensures !success ==> g.cells == old(g.cells)
    ensures !success && count' < limit ==> AllDead(g, goals, ns, maxDepth - 1, visited)
    ensures success ==>
      && Chained(g, old(g.cells), g.cells, chain, visited)
      && chain[0] == current && chain[|chain| - 1] == goal && goal in goals
      && |chain| - 1 <= maxDepth
    decreases maxDepth, 2
  {
    count' := count;
    var i := 0;
    while i < |ns|
      invariant 0 <= i <= |ns|
      invariant g.Valid() && g.cells == old(g.cells)
      invariant count' >= count && (count <= limit ==> count' <= limit) && (count >= limit ==> count' == count)
      invariant count' < limit ==> AllDead(g, goals, ns[..i], maxDepth - 1, visited)
    {
      if count' >= limit {
        break;
      }
      var s, found;
      s, found, count', chain := Step(g, goals, current, ns, i, maxDepth, visited, count', limit);
      if s {
        return true, found, count', chain;
      }
      i := i + 1;
    }
    assert ns[..|ns|] == ns;
    return false, current, count', [];
  }

  /** One turn of the loop: `Visit` the `i`-th cell of `ns`, which extends the run of `Dead` cells on failure. */
  method Step(g: Grid, goals: seq<Pos>, current: Pos, ns: seq<Pos>, i: int, maxDepth: int, visited: set<Pos>, count: int, limit: int)
    returns (success: bool, goal: Pos, count': int, ghost chain: seq<Pos>)
    requires g.Valid() && g.InBounds(current) && current in visited && maxDepth > 0 && count < limit
    requires 0 <= i < |ns| && Adjacent(g, false, current, ns[i])
    requires AllDead(g, goals, ns[..i], maxDepth - 1, visited)
    modifies g
    ensures g.Valid()
    ensures count' >= count && count' <= limit
    ensures !success ==> g.cells == old(g.cells)
    ensures !success && count' < limit ==> AllDead(g, goals, ns[..i + 1], maxDepth - 1, visited)
    ensures success ==>
      && Chained(g, old(g.cells), g.cells, chain, visited)
      && chain[0] == current && chain[|chain| - 1] == goal && goal in goals
      && |chain| - 1 <= maxDepth
    decreases maxDepth, 1
  {
    success, goal, count', chain := Visit(g, goals, current, ns[i], maxDepth, visited, count, limit);
    if !success && count' < limit {
      AllDeadStep(g, goals, ns, i, maxDepth - 1, visited);
    }
  }

  /**
   * The body of the neighbour loop of `dls` for one neighbour `n` of
   * `current`: a blocked or visited neighbour is skipped; otherwise it is
   * marked visited, counted and searched one level shallower, and on
   * success it is linked to `current`; on failure it is unmarked again.
   */
  method Visit(g: Grid, goals: seq<Pos>, current: Pos, n: Pos, maxDepth: int, visited: set<Pos>, count: int, limit: int)
    returns (success: bool, goal: Pos, count': int, ghost chain: seq<Pos>)
    requires g.Valid() && g.InBounds(current) && current in visited && maxDepth > 0 && count < limit
    requires Adjacent(g, false, current, n)
    modifies g
    ensures g.Valid()
    ensures count' >= count && count' <= limit
    ensures !success ==> g.cells == old(g.cells)
    ensures !success && count' < limit ==> Dead(g, goals, n, maxDepth - 1, visited)
    ensures success ==>
      && Chained(g, old(g.cells), g.cells, chain, visited)
      && chain[0] == current && chain[|chain| - 1] == goal && goal in goals
      && |chain| - 1 <= maxDepth
    decreases maxDepth, 0
  {
    if At(g.cells, n).blocked || n in visited {
      return false, current, count, [];
    }
    var s, found, v2;
    ghost var ch;
    s, found, count', v2, ch := Dls(g, goals, n, maxDepth - 1, visited + {n}, count + 1, limit);
    if s {
      ChainCons(g, old(g.cells), g.cells, ch, visited, current, n);
      g.Link(n, current);
      return true, found, count', [current] + ch;
    }
    return false, current, count', [];
  }

  /**
   * The deepening loop of `search` and `search_all`: depths 0 to
   * `maxDepth` from `root`, each with the visited set reset to `{root}`,
   * until one succeeds. Below the limit, a success is at a nearest goal and
   * a failure means no goal within `maxDepth` moves.
   */
  method Deepen(g: Grid, goals: seq<Pos>, root: Pos, maxDepth: int, count: int, limit: int)
    returns (success: bool, goal: Pos, count': int, ghost chain: seq<Pos>)
    requires g.Valid() && g.InBounds(root) && maxDepth >= 0
    modifies g
    ensures g.Valid()
    ensures count' >= count && (count <= limit ==> count' <= limit) && (count >= limit ==> count' == count)
    ensures !success ==> g.cells == old(g.cells)
    ensures !success && count' < limit ==> NoGoalWithin(g, goals, root, maxDepth, {root})
    ensures success ==>
      && Chained(g, old(g.cells), g.cells, chain, {root})
      && chain[0] == root && chain[|chain| - 1] == goal && goal in goals
      && (count' < limit ==>
            forall w :: IsWalk(g, false, w) && w[0] == root && w[|w| - 1] in goals ==> |chain| - 1 <= |w| - 1)
  {
    var depth := 0;
    count' := count;
    while depth <= maxDepth
      invariant 0 <= depth <= maxDepth + 1
      invariant g.Valid() && g.cells == old(g.cells)
      invariant count' >= count && (count <= limit ==> count' <= limit) && (count >= limit ==> count' == count)
      invariant depth > 0 && count' < limit ==> NoGoalWithin(g, goals, root, depth - 1, {root})
    {
      var s, found, c2, v2;
      ghost var ch;
      s, found, c2, v2, ch := Dls(g, goals, root, depth, {root}, count', limit);
      if s {
        if c2 < limit {
          Shortest(g, goals, root, depth, |ch| - 1);
        }
        return true, found, c2, ch;
      }
      count' := c2;
      depth := depth + 1;
    }
    return false, root, count', [];
  }

  /** `search(agent, limit)`: see `IdOne` for what it returns. */
  method Search(agent: Agent, limit: int) returns (r: Outcome)
    requires agent.Valid()
    modifies agent.grid
    ensures agent.Valid()
    ensures IdOne(agent.grid, agent.cell, agent.goals, limit, r)
  {
    var g := agent.grid;
    g.Reset();
    var start := agent.cell;
    var maxDepth := g.NetArea();
    g.NetAreaIsFreeCount();
    g.NetAreaIsFreeCells();
    ghost var cells0 := g.cells;
    var success, goal, count;
    ghost var chain;
    success, goal, count, chain := Deepen(g, agent.goals, start, maxDepth, 1, limit);
    if success {
      ChainTrace(g, cells0, g.cells, chain, {start}, agent.canJump);
      var p := agent.TracePath(goal, true, |chain| - 1);
      return Goal(p, goal, count);
    }
    if count < limit {
      Unreachable(g, agent.goals, start, maxDepth);
    }
    return Count(count);
  }

  /**
   * `search_all(agent, limit)`: rounds of deepening while goals remain and
   * the count is below the limit; each goal found is recorded and becomes
   * the root of the next round. See `IdAll` for what it returns.
   */
  method SearchAll(agent: Agent, limit: int) returns (r: Outcome)
    requires agent.Valid()
    modifies agent, agent.grid
    ensures agent.Valid() && agent.cell == old(agent.cell)
    ensures IdAll(agent.grid, agent.cell, old(agent.goals), agent.goals, limit, r)
  {
    var g := agent.grid;
    g.Reset();
    var root := agent.cell;
    var count := 1;
    var maxDepth := g.NetArea();
    g.NetAreaIsFreeCount();
    g.NetAreaIsFreeCells();
    var path: seq<Token> := [];
    var found: seq<Pos> := [];
    ghost var start := agent.cell;
    ghost var targets := agent.goals;
    FreshStart(g, start, targets, g.cells);

    while agent.goals != [] && count < limit
      invariant agent.Valid() && agent.grid == g && agent.cell == start && targets == old(agent.goals)
      invariant Restarted(g, start, targets, g.cells, root, count, path, agent.goals, found)
      invariant limit >= 1 ==> count <= limit
      invariant targets != [] ==> agent.goals != []
      decreases |agent.goals|
    {
      ghost var cells0 := g.cells;
      var success, goal, count';
      ghost var chain;
      success, goal, count', chain := Deepen(g, agent.goals, root, maxDepth, count, limit);
      if !success {
        IdExhausted(g, start, targets, g.cells, root, count, path, agent.goals, found, maxDepth, count', limit);
        return Count(count');
      }
      IdFound(g, start, targets, cells0, g.cells, root, count, path, agent.goals, found, chain, count', agent.canJump);
      var answer;
      answer, path, found := Record(agent, start, targets, goal, |chain| - 1, count', path, found);
      count := count';
      if answer.Some? {
        return answer.value;
      }
      root := goal;
    }
    IdStopped(g, start, targets, g.cells, root, count, path, agent.goals, found, limit);
    return Count(count);
  }
}

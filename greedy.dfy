/**
 * Greedy best-first search (`algorithms/greedy.py`): an open list popped by
 * least `h`, the Manhattan distance to the nearest goal (as the crow flies
 * from the start), a closed set, unit moves only, and a neighbour pushed
 * only when it is neither closed nor already open; in `search_all`, a
 * restart at each goal found, aimed at the goal nearest to the agent's
 * cell, which this search never moves.
 */
module Greedy {
  import opened Wrappers
  import opened Cells
  import opened Grids
  import opened Neighborhoods
  import opened Agents
  import opened Searching
  import Seqs
  import opened GoalLists
  import opened Informed
  import opened GreedyLayers

  /**
   * The body of the neighbour loop for the popped cell `current` and its
   * neighbour `ns[k]`: a blocked, closed or already open neighbour is
   * skipped; any other is pushed (`Push`).
   */
  method Visit(g: Grid, target: Pos, S: seq<Pos>, closed: set<Pos>, count: int, current: Pos, ns: seq<Pos>, k: nat,
               ghost root: Pos, ghost D: map<Pos, nat>)
    returns (S': seq<Pos>, count': int, ghost D': map<Pos, nat>)
    requires g.Valid() && Widening(g, g.cells, root, target, S, closed, D, current) && current in closed
    requires Swept(g, closed + ToSet(S), current, ns, k) && k < |ns| && Adjacent(g, false, current, ns[k])
    modifies g
    ensures g.Valid() && Widening(g, g.cells, root, target, S', closed, D', current)
    ensures Swept(g, closed + ToSet(S'), current, ns, k + 1)
    ensures count' - count == |closed + ToSet(S')| - |closed + ToSet(S)| && count' >= count
  {
    var n := ns[k];
    S', count', D' := S, count, D;
    if At(g.cells, n).blocked || n in closed || n in S {
      assert n in S ==> n in ToSet(S);
      Skipped(g, closed + ToSet(S), current, ns, k);
    } else {
      S', count', D' := Push(g, target, S, closed, count, current, ns, k, root, D);
    }
  }

  /** A neighbour neither closed nor open: counted, given its distance to the target as `h` and `current` as parent, and pushed. */
  method Push(g: Grid, target: Pos, S: seq<Pos>, closed: set<Pos>, count: int, current: Pos, ns: seq<Pos>, k: nat,
              ghost root: Pos, ghost D: map<Pos, nat>)
    returns (S': seq<Pos>, count': int, ghost D': map<Pos, nat>)
    requires g.Valid() && Widening(g, g.cells, root, target, S, closed, D, current) && current in closed
    requires Swept(g, closed + ToSet(S), current, ns, k) && k < |ns| && Adjacent(g, false, current, ns[k])
    requires !At(g.cells, ns[k]).blocked && ns[k] !in closed && ns[k] !in S
    modifies g
    ensures g.Valid() && Widening(g, g.cells, root, target, S', closed, D', current)
    ensures Swept(g, closed + ToSet(S'), current, ns, k + 1)
    ensures count' == count + 1 && |closed + ToSet(S')| == |closed + ToSet(S)| + 1
  {
    var n := ns[k];
    var cn := At(g.cells, n);
    assert current in closed + ToSet(S);
    ghost var cells1 := Put(g.cells, n, cn.(h := Manhattan(n, target), parent := Some(current)));
    Discovered(g, g.cells, cells1, root, target, S, closed, D, current, ns, k);
    g.Annotate(n, cn.g, Manhattan(n, target), Some(current));
    assert cn.(g := cn.g, h := Manhattan(n, target), parent := Some(current)) == cn.(h := Manhattan(n, target), parent := Some(current));
    assert g.cells == cells1;
    S', count', D' := S + [n], count + 1, D[n := D[current] + 1];
  }

  /** The neighbour loop for the popped cell `current`: every unit neighbour in direction order. */
  method Expand(g: Grid, target: Pos, S: seq<Pos>, closed: set<Pos>, count: int, current: Pos,
                ghost root: Pos, ghost D: map<Pos, nat>)
    returns (S': seq<Pos>, count': int, ghost D': map<Pos, nat>)
    requires g.Valid() && Widening(g, g.cells, root, target, S, closed, D, current) && current in closed
    modifies g
    ensures g.Valid() && Fringe(g, g.cells, root, target, S', closed, D')
    ensures count' - count == |closed + ToSet(S')| - |closed + ToSet(S)| && count' >= count
  {
    var ns := g.GetNeighbors(current, false);
    NeighborsAdjacent(g, false, current, ns);
    S', count', D' := S, count, D;
    var k := 0;
    while k < |ns|
      invariant k <= |ns| && g.Valid()
      invariant Widening(g, g.cells, root, target, S', closed, D', current)
      invariant Swept(g, closed + ToSet(S'), current, ns, k)
      invariant count' - count == |closed + ToSet(S')| - |closed + ToSet(S)| && count' >= count
    {
      S', count', D' := Visit(g, target, S', closed, count', current, ns, k, root, D');
      k := k + 1;
    }
    Finished(g, g.cells, root, target, S', closed, D', current);
  }

  /**
   * Pop a cell of least `h` from the open list, which is an open cell
   * nearest the target: which of several cells of equal `h` the heap
   * yields is left open.
   */
  method Pop(cells: seq<seq<Cell>>, S: seq<Pos>, ghost target: Pos) returns (i: nat)
    requires S != [] && Aimed(cells, S, target)
    ensures Least(HKeys(cells, S), i)
    ensures forall x :: x in S ==> Manhattan(S[i], target) <= Manhattan(x, target)
  {
    var keys := HKeys(cells, S);
    ghost var first := FirstLeast(keys);
    i :| Least(keys, i);
    Nearest(cells, S, target, i);
  }

  /** The popped cell `S[i]`, not a goal, is moved to the closed set and expanded. */
  method Close(g: Grid, target: Pos, S: seq<Pos>, closed: set<Pos>, count: int,
               ghost root: Pos, ghost D: map<Pos, nat>, i: nat)
    returns (S': seq<Pos>, closed': set<Pos>, count': int, ghost D': map<Pos, nat>)
    requires g.Valid() && Fringe(g, g.cells, root, target, S, closed, D) && i < |S|
    modifies g
    ensures g.Valid() && Fringe(g, g.cells, root, target, S', closed', D') && closed' == closed + {S[i]}
    ensures count' - count == |closed' + ToSet(S')| - |closed + ToSet(S)| && count' >= count
    ensures AllCells(g) - closed' < AllCells(g) - closed
  {
    var c := S[i];
    Popped(g, g.cells, root, target, S, closed, D, i);
    InAllCells(g, c);
    closed' := closed + {c};
    S', count', D' := Expand(g, target, Without(S, i), closed', count, c, root, D);
  }

  /** A goal popped in `search`: the answer is its trace and the count. */
  method Arrive(agent: Agent, target: Pos, S: seq<Pos>, closed: set<Pos>, count: int, ghost D: map<Pos, nat>, i: nat)
    returns (r: Outcome)
    requires agent.Valid() && Fringe(agent.grid, agent.grid.cells, agent.cell, target, S, closed, D)
    requires count == |closed + ToSet(S)| && i < |S| && S[i] in agent.goals
    ensures OneFound(agent.grid, agent.cell, agent.goals, r)
  {
    var g := agent.grid;
    var c := S[i];
    Popped(g, g.cells, agent.cell, target, S, closed, D, i);
    Arrived(g, g.cells, agent.cell, target, agent.goals, Without(S, i), closed + {c}, D, c, count, agent.canJump);
    var p := agent.TracePath(c, true, D[c]);
    return Goal(p, c, count);
  }

  /**
   * `search(agent)`: the first goal popped, with the trace to it, or the
   * count of discovered cells when the open list runs dry; see
   * `OneFound`. The source fails on an empty goal list, hence the
   * precondition.
   */
  method Search(agent: Agent) returns (r: Outcome)
    requires agent.Valid() && agent.goals != []
    modifies agent.grid
    ensures agent.Valid()
    ensures OneFound(agent.grid, agent.cell, agent.goals, r)
  {
    var g := agent.grid;
    g.Reset();
    var start := agent.cell;
    if start in agent.goals {
      FoundAtStart(g, start, agent.goals);
      return Goal([], start, 1);
    }
    var target := agent.NearestGoal();
    var c0 := At(g.cells, start);
    g.Annotate(start, c0.g, Manhattan(start, target), c0.parent);
    Begin(g, g.cells, start, target);
    assert ToSet([start]) == {start};
    r := Run(agent, target, [start], {}, 1, map[start := 0]);
  }

  /** The loop of `search`: pop a cell of least `h`; a goal is the answer, any other cell is expanded. */
  method Run(agent: Agent, target: Pos, S: seq<Pos>, closed: set<Pos>, count: int, ghost D: map<Pos, nat>)
    returns (r: Outcome)
    requires agent.Valid() && Fringe(agent.grid, agent.grid.cells, agent.cell, target, S, closed, D)
    requires count == |closed + ToSet(S)| && forall c :: c in closed ==> c !in agent.goals
    modifies agent.grid
    ensures agent.Valid()
    ensures OneFound(agent.grid, agent.cell, agent.goals, r)
  {
    var g := agent.grid;
    var S, closed, count, D := S, closed, count, D;
    while S != []
      invariant agent.Valid()
      invariant Fringe(g, g.cells, agent.cell, target, S, closed, D) && count == |closed + ToSet(S)|
      invariant forall c :: c in closed ==> c !in agent.goals
      decreases AllCells(g) - closed
    {
      var i := Pop(g.cells, S, target);
      var current := S[i];
      if current in agent.goals {
        r := Arrive(agent, target, S, closed, count, D, i);
        return;
      }
      S, closed, count, D := Close(g, target, S, closed, count, agent.cell, D, i);
    }
    Drained(g, g.cells, agent.cell, target, agent.goals, closed, D, count);
    return Count(count);
  }

  /**
   * A goal `c` popped in `search_all`: it is recorded; unless it was the
   * last goal, the search restarts there, aimed at the goal nearest to the
   * agent's cell, with `c` re-hinted.
   */
  method Reach(agent: Agent, ghost start: Pos, ghost targets: seq<Pos>, count: int, path: seq<Token>, found: seq<Pos>,
               c: Pos, ghost n: nat)
    returns (answer: Option<Outcome>, path': seq<Token>, found': seq<Pos>, target': Pos)
    requires agent.Valid() && agent.grid.InBounds(c) && c in agent.goals && RootedWithin(agent.grid.cells, c, n)
    requires Restarted(agent.grid, start, targets,
                       Put(agent.grid.cells, c, At(agent.grid.cells, c).(parent := None)),
                       c, count, path + Tokens(agent.grid.cells, c, n, agent.canJump, true),
                       Seqs.RemoveFirst(agent.goals, c), found + [c])
    modifies agent, agent.grid
    ensures agent.Valid() && agent.goals == Seqs.RemoveFirst(old(agent.goals), c) && agent.cell == old(agent.cell)
    ensures answer.Some? ==> AllFound(agent.grid, start, targets, agent.goals, answer.value)
    ensures answer.None? ==>
      Ranging(agent.grid, start, targets, agent.grid.cells, [c], {}, count, path', agent.goals, found', c, target', map[c := 0])
  {
    answer, path', found' := Record(agent, start, targets, c, n, count, path, found);
    target' := c;
    if answer.None? {
      target' := Retarget(agent, start, targets, count, path', found', c);
    }
  }

  /** The restart at the goal `c` just reached: aim at the goal nearest to the agent's cell and re-hint `c` with it. */
  method Retarget(agent: Agent, ghost start: Pos, ghost targets: seq<Pos>, count: int, path: seq<Token>, found: seq<Pos>,
                  c: Pos)
    returns (target: Pos)
    requires agent.Valid() && agent.grid.InBounds(c) && agent.goals != []
    requires Restarted(agent.grid, start, targets, agent.grid.cells, c, count, path, agent.goals, found)
    modifies agent.grid
    ensures agent.Valid() && target == agent.NearestGoal()
    ensures Ranging(agent.grid, start, targets, agent.grid.cells, [c], {}, count, path, agent.goals, found, c, target, map[c := 0])
  {
    target := agent.NearestGoal();
    var cc := At(agent.grid.cells, c);
    ghost var cells1 := Put(agent.grid.cells, c, cc.(h := Manhattan(c, target), parent := None));
    RestartedRanging(agent.grid, start, targets, agent.grid.cells, c, count, path, agent.goals, found, target);
    agent.grid.Annotate(c, cc.g, Manhattan(c, target), None);
    assert cc.(g := cc.g, h := Manhattan(c, target), parent := None) == cc.(h := Manhattan(c, target), parent := None);
    assert agent.grid.cells == cells1;
  }

  /**
   * One turn of the `search_all` loop: pop a cell of least `h`; a goal is
   * reached (`Reach`); any other cell is expanded.
   */
  method Step(agent: Agent, ghost start: Pos, ghost targets: seq<Pos>, ghost goals: seq<Pos>,
              S: seq<Pos>, closed: set<Pos>, count: int, path: seq<Token>, found: seq<Pos>, target: Pos,
              ghost root: Pos, ghost D: map<Pos, nat>)
    returns (answer: Option<Outcome>, S': seq<Pos>, closed': set<Pos>, count': int, path': seq<Token>, found': seq<Pos>,
             target': Pos, ghost root': Pos, ghost D': map<Pos, nat>)
    requires agent.Valid() && goals == agent.goals
    requires Ranging(agent.grid, start, targets, agent.grid.cells, S, closed, count, path, goals, found, root, target, D)
    requires S != []
    modifies agent, agent.grid
    ensures agent.Valid() && agent.cell == old(agent.cell)
    ensures answer.Some? ==> AllFound(agent.grid, start, targets, agent.goals, answer.value)
    ensures answer.None? ==>
      && Ranging(agent.grid, start, targets, agent.grid.cells, S', closed', count', path', agent.goals, found', root', target', D')
      && (|agent.goals| < |goals| ||
          (agent.goals == goals && AllCells(agent.grid) - closed' < AllCells(agent.grid) - closed))
  {
    var g := agent.grid;
    var i := Pop(g.cells, S, target);
    var c := S[i];
    if c in agent.goals {
      Popped(g, g.cells, root, target, S, closed, D, i);
      RangingFound(g, start, targets, g.cells, Without(S, i), closed + {c}, count, path, goals, found, root, target, D, c, agent.canJump);
      answer, path', found', target' := Reach(agent, start, targets, count, path, found, c, D[c]);
      S', closed', count', root', D' := [c], {}, count, c, map[c := 0];
    } else {
      answer, path', found', target', root' := None, path, found, target, root;
      S', closed', count', D' := Advance(g, start, targets, goals, S, closed, count, path, found, target, root, D, i);
    }
  }

  /** A popped cell `S[i]` that is not a goal in `search_all`: it is closed and expanded. */
  method Advance(g: Grid, ghost start: Pos, ghost targets: seq<Pos>, ghost goals: seq<Pos>,
                 S: seq<Pos>, closed: set<Pos>, count: int, ghost path: seq<Token>, ghost found: seq<Pos>,
                 target: Pos, ghost root: Pos, ghost D: map<Pos, nat>, i: nat)
    returns (S': seq<Pos>, closed': set<Pos>, count': int, ghost D': map<Pos, nat>)
    requires g.Valid() && Ranging(g, start, targets, g.cells, S, closed, count, path, goals, found, root, target, D)
    requires i < |S| && S[i] !in goals
    modifies g
    ensures g.Valid() && Ranging(g, start, targets, g.cells, S', closed', count', path, goals, found, root, target, D')
    ensures AllCells(g) - closed' < AllCells(g) - closed
  {
    ghost var cells0 := g.cells;
    S', closed', count', D' := Close(g, target, S, closed, count, root, D, i);
    RangingExpanded(g, start, targets, cells0, S, closed, count, path, goals, found, root, target, D, S[i],
                    g.cells, S', count', D');
  }

  /**
   * `search_all(agent)`: one path through every goal of the agent's list,
   * which it empties, or the count when the open list runs dry; see
   * `AllFound`. The source fails on an empty goal list, hence the
   * precondition.
   */
  method SearchAll(agent: Agent) returns (r: Outcome)
    requires agent.Valid() && agent.goals != []
    modifies agent, agent.grid
    ensures agent.Valid() && agent.cell == old(agent.cell)
    ensures AllFound(agent.grid, agent.cell, old(agent.goals), agent.goals, r)
  {
    var g := agent.grid;
    g.Reset();
    var start := agent.cell;
    var target := agent.NearestGoal();
    var c0 := At(g.cells, start);
    g.Annotate(start, c0.g, Manhattan(start, target), c0.parent);
    var S := [start];
    var closed: set<Pos> := {};
    var count := 1;
    var path: seq<Token> := [];
    var found: seq<Pos> := [];
    ghost var targets := agent.goals;
    ghost var root := start;
    ghost var D := map[start := 0];
    RangingBegin(g, start, targets, g.cells, target);

    while S != []
      invariant agent.Valid() && agent.grid == g && agent.cell == start && targets == old(agent.goals)
      invariant Ranging(g, start, targets, g.cells, S, closed, count, path, agent.goals, found, root, target, D)
      decreases |agent.goals|, AllCells(g) - closed
    {
      var answer;
      answer, S, closed, count, path, found, target, root, D :=
        Step(agent, start, targets, agent.goals, S, closed, count, path, found, target, root, D);
      if answer.Some? {
        return answer.value;
      }
    }
    RangingDrained(g, start, targets, g.cells, closed, count, path, agent.goals, found, root, target, D);
    return Count(count);
  }
}

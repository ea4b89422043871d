/**
 * A* search (`algorithms/astar.py`): an open list popped by least
 * `f = g + h`, with `h` the Manhattan distance to the nearest goal (as the
 * crow flies from the start), a closed set, unit moves only, and a cheaper
 * route to an open cell taken when one is found; in `search_all`, a
 * restart at each goal found, aimed at the goal nearest to it.
 */
module AStar {
  import opened Wrappers
  import opened Cells
  import opened Grids
  import opened Neighborhoods
  import opened Agents
  import opened Searching
  import Seqs
  import opened GoalLists
  import opened Informed
  import opened AStarLayers

  /**
   * The body of the neighbour loop for the popped cell `current` and its
   * neighbour `ns[k]`: a blocked or closed neighbour is skipped; one not on
   * the open list is pushed (`Push`); one on the open list that is now
   * reached in fewer moves is moved under `current` (`Improve`).
   */
  method Visit(g: Grid, target: Pos, S: seq<Pos>, closed: set<Pos>, count: int, current: Pos, ns: seq<Pos>, k: nat,
               ghost root: Pos, ghost D: map<Pos, nat>)
    returns (S': seq<Pos>, count': int, ghost D': map<Pos, nat>)
    requires g.Valid() && Expanding(g, g.cells, root, target, S, closed, D, current) && current in closed
    requires Handled(g, S, D, closed, current, ns, k) && k < |ns| && Adjacent(g, false, current, ns[k])
    modifies g
    ensures g.Valid() && Expanding(g, g.cells, root, target, S', closed, D', current)
    ensures Handled(g, S', D', closed, current, ns, k + 1)
    ensures count' - count == |closed + ToSet(S')| - |closed + ToSet(S)| && count' >= count
  {
    var n := ns[k];
    var cn := At(g.cells, n);
    S', count', D' := S, count, D;
    if cn.blocked || n in closed {
      Skipped(g, S, D, closed, current, ns, k);
    } else if n !in S {
      S', count', D' := Push(g, target, S, closed, count, current, ns, k, root, D);
    } else {
      KeyOf(g, g.cells, root, target, S, closed, D, current, current);
      KeyOf(g, g.cells, root, target, S, closed, D, current, n);
      if At(g.cells, current).g + 1 < cn.g {
        D' := Improve(g, target, S, closed, current, ns, k, root, D);
      } else {
        Skipped(g, S, D, closed, current, ns, k);
      }
    }
  }

  /** A neighbour not on the open list: counted, given a `g` one more than `current`'s, its distance to the target as `h` and `current` as parent, and pushed. */
  method Push(g: Grid, target: Pos, S: seq<Pos>, closed: set<Pos>, count: int, current: Pos, ns: seq<Pos>, k: nat,
              ghost root: Pos, ghost D: map<Pos, nat>)
    returns (S': seq<Pos>, count': int, ghost D': map<Pos, nat>)
    requires g.Valid() && Expanding(g, g.cells, root, target, S, closed, D, current) && current in closed
    requires Handled(g, S, D, closed, current, ns, k) && k < |ns| && Adjacent(g, false, current, ns[k])
    requires !At(g.cells, ns[k]).blocked && ns[k] !in closed && ns[k] !in S
    modifies g
    ensures g.Valid() && Expanding(g, g.cells, root, target, S', closed, D', current)
    ensures Handled(g, S', D', closed, current, ns, k + 1)
    ensures count' == count + 1 && |closed + ToSet(S')| == |closed + ToSet(S)| + 1
  {
    var n := ns[k];
    KeyOf(g, g.cells, root, target, S, closed, D, current, current);
    var tentative := At(g.cells, current).g + 1;
    assert tentative == D[current] + 1;
    ghost var cells1 := Put(g.cells, n, At(g.cells, n).(g := tentative, h := Manhattan(n, target), parent := Some(current)));
    Discovered(g, g.cells, cells1, root, target, S, closed, D, current, ns, k);
    g.Annotate(n, tentative, Manhattan(n, target), Some(current));
    assert g.cells == cells1;
    S', count', D' := S + [n], count + 1, D[n := D[current] + 1];
  }

  /**
   * A neighbour on the open list now reached in fewer moves: it gets the
   * lower `g` and `current` as parent (the heap is then re-ordered, which
   * the open list as a sequence does not need).
   */
  method Improve(g: Grid, target: Pos, S: seq<Pos>, closed: set<Pos>, current: Pos, ns: seq<Pos>, k: nat,
                 ghost root: Pos, ghost D: map<Pos, nat>)
    returns (ghost D': map<Pos, nat>)
    requires g.Valid() && Expanding(g, g.cells, root, target, S, closed, D, current) && current in closed
    requires Handled(g, S, D, closed, current, ns, k) && k < |ns| && Adjacent(g, false, current, ns[k])
    requires !At(g.cells, ns[k]).blocked && ns[k] !in closed && ns[k] in S
    requires current in D && ns[k] in D && At(g.cells, current).g == D[current] && At(g.cells, ns[k]).g == D[ns[k]]
    requires At(g.cells, current).g + 1 < At(g.cells, ns[k]).g
    modifies g
    ensures g.Valid() && Expanding(g, g.cells, root, target, S, closed, D', current)
    ensures Handled(g, S, D', closed, current, ns, k + 1)
  {
    var n := ns[k];
    var cn := At(g.cells, n);
    var tentative := At(g.cells, current).g + 1;
    assert tentative == D[current] + 1;
    ghost var cells1 := Put(g.cells, n, cn.(g := tentative, parent := Some(current)));
    Improved(g, g.cells, cells1, root, target, S, closed, D, current, ns, k);
    g.Annotate(n, tentative, cn.h, Some(current));
    assert cn.(g := tentative, h := cn.h, parent := Some(current)) == cn.(g := tentative, parent := Some(current));
    assert g.cells == cells1;
    D' := D[n := D[current] + 1];
  }

  /** The neighbour loop for the popped cell `current`: every unit neighbour in direction order. */
  method Expand(g: Grid, target: Pos, S: seq<Pos>, closed: set<Pos>, count: int, current: Pos,
                ghost root: Pos, ghost D: map<Pos, nat>)
    returns (S': seq<Pos>, count': int, ghost D': map<Pos, nat>)
    requires g.Valid() && Expanding(g, g.cells, root, target, S, closed, D, current) && current in closed
    modifies g
    ensures g.Valid() && Open(g, g.cells, root, target, S', closed, D')
    ensures count' - count == |closed + ToSet(S')| - |closed + ToSet(S)| && count' >= count
  {
    var ns := g.GetNeighbors(current, false);
    NeighborsAdjacent(g, false, current, ns);
    S', count', D' := S, count, D;
    var k := 0;
    while k < |ns|
      invariant k <= |ns| && g.Valid()
      invariant Expanding(g, g.cells, root, target, S', closed, D', current)
      invariant Handled(g, S', D', closed, current, ns, k)
      invariant count' - count == |closed + ToSet(S')| - |closed + ToSet(S)| && count' >= count
    {
      S', count', D' := Visit(g, target, S', closed, count', current, ns, k, root, D');
      k := k + 1;
    }
    Finished(g, g.cells, root, target, S', closed, D', current);
  }

  /** `search(agent)`: see `OneShortest`. The source fails on an empty goal list when the start is not a goal, hence the precondition. */
  method Search(agent: Agent) returns (r: Outcome)
    requires agent.Valid() && agent.goals != []
    modifies agent.grid
    ensures agent.Valid()
    ensures OneShortest(agent.grid, agent.cell, agent.goals, r)
  {
    var g := agent.grid;
    g.Reset();
    var start := agent.cell;
    if start in agent.goals {
      ShortestAtStart(g, start, agent.goals);
      return Goal([], start, 1);
    }
    var target := agent.NearestGoal();
    var c0 := At(g.cells, start);
    g.Annotate(start, c0.g, Manhattan(start, target), c0.parent);
    var count := 1;
    var S := [start];
    var closed: set<Pos> := {};
    ghost var D := map[start := 0];
    Begin(g, g.cells, start, target);
    assert ToSet(S) == {start};

    while S != []
      invariant agent.Valid()
      invariant Open(g, g.cells, start, target, S, closed, D) && count == |closed + ToSet(S)|
      invariant forall c :: c in closed ==> c !in agent.goals
      decreases AllCells(g) - closed
    {
      var i := PopLeast(g.cells, S);
      var current := S[i];
      if current in agent.goals {
        r := Arrive(agent, target, S, closed, count, D, i);
        return;
      }
      S, closed, count, D := Close(g, target, S, closed, count, start, D, i);
    }
    Drained(g, g.cells, start, target, agent.goals, closed, D, count);
    return Count(count);
  }

  /** A goal popped in `search`: the answer is its trace and the count. */
  method Arrive(agent: Agent, target: Pos, S: seq<Pos>, closed: set<Pos>, count: int, ghost D: map<Pos, nat>, i: nat)
    returns (r: Outcome)
    requires agent.Valid() && Open(agent.grid, agent.grid.cells, agent.cell, target, S, closed, D)
    requires count == |closed + ToSet(S)| && Least(FKeys(agent.grid.cells, S), i) && S[i] in agent.goals
    ensures OneShortest(agent.grid, agent.cell, agent.goals, r)
  {
    var g := agent.grid;
    var c := S[i];
    Popped(g, g.cells, agent.cell, target, S, closed, D, i);
    Arrived(g, g.cells, agent.cell, target, agent.goals, Without(S, i), closed + {c}, D, c, count, agent.canJump);
    var p := agent.TracePath(c, true, D[c]);
    return Goal(p, c, count);
  }

  /**
   * A goal `c` popped in `search_all`: it is recorded; unless it was the
   * last goal, the search restarts there, with the agent moved to it, the
   * target the goal nearest to it, and `c` re-annotated as a root.
   */
  method Reach(agent: Agent, ghost start: Pos, ghost targets: seq<Pos>, count: int, path: seq<Token>, found: seq<Pos>,
               c: Pos, ghost n: nat)
    returns (answer: Option<Outcome>, path': seq<Token>, found': seq<Pos>, target': Pos)
    requires agent.Valid() && agent.grid.InBounds(c) && c in agent.goals && RootedWithin(agent.grid.cells, c, n)
    requires Restarted(agent.grid, start, targets,
                       Put(agent.grid.cells, c, At(agent.grid.cells, c).(parent := None)),
                       c, count, path + Tokens(agent.grid.cells, c, n, agent.canJump, true),
                       Seqs.RemoveFirst(agent.goals, c), found + [c])
    modifies agent, agent.grid
    ensures agent.Valid() && agent.goals == Seqs.RemoveFirst(old(agent.goals), c) && found' == found + [c]
    ensures answer.Some? ==> AllFound(agent.grid, start, targets, agent.goals, answer.value)
    ensures answer.Some? ==> answer.value == Goals(path', found', count) && agent.cell == old(agent.cell)
    ensures answer.None? ==>
      && agent.cell == c
      && Roaming(agent.grid, start, targets, agent.grid.cells, [c], {}, count, path', agent.goals, found', c, target', map[c := 0])
  {
    answer, path', found' := Record(agent, start, targets, c, n, count, path, found);
    target' := c;
    if answer.None? {
      agent.MoveTo(c);
      target' := agent.NearestGoal();
      ghost var cells1 := agent.grid.cells;
      agent.grid.Annotate(c, 0, Manhattan(c, target'), None);
      RestartedRoaming(agent.grid, start, targets, cells1, c, count, path', agent.goals, found', target');
    }
  }

  /**
   * One turn of the `search_all` loop: pop a cell of least `f`; a goal is
   * reached (`Reach`); any other cell is expanded.
   */
  method Step(agent: Agent, ghost start: Pos, ghost targets: seq<Pos>, ghost goals: seq<Pos>,
              S: seq<Pos>, closed: set<Pos>, count: int, path: seq<Token>, found: seq<Pos>, target: Pos,
              ghost root: Pos, ghost D: map<Pos, nat>)
    returns (answer: Option<Outcome>, S': seq<Pos>, closed': set<Pos>, count': int, path': seq<Token>, found': seq<Pos>,
             target': Pos, ghost root': Pos, ghost D': map<Pos, nat>)
    requires agent.Valid() && goals == agent.goals && agent.cell == root
    requires Roaming(agent.grid, start, targets, agent.grid.cells, S, closed, count, path, goals, found, root, target, D)
    requires S != []
    modifies agent, agent.grid
    ensures agent.Valid()
    ensures answer.Some? ==> AllFound(agent.grid, start, targets, agent.goals, answer.value)
    ensures answer.Some? ==> answer.value.Goals? && answer.value.goals[..|found|] == found &&
                             |answer.value.goals| == |found| + 1 && agent.cell == root
    ensures answer.None? ==> (found' == found && root' == root) || found' == found + [root']
    ensures answer.None? ==>
      && agent.cell == root'
      && Roaming(agent.grid, start, targets, agent.grid.cells, S', closed', count', path', agent.goals, found', root', target', D')
      && (|agent.goals| < |goals| ||
          (agent.goals == goals && AllCells(agent.grid) - closed' < AllCells(agent.grid) - closed))
  {
    var g := agent.grid;
    var i := PopLeast(g.cells, S);
    var c := S[i];
    if c in agent.goals {
      Popped(g, g.cells, root, target, S, closed, D, i);
      RoamingFound(g, start, targets, g.cells, Without(S, i), closed + {c}, count, path, goals, found, root, target, D, c, agent.canJump);
      answer, path', found', target' := Reach(agent, start, targets, count, path, found, c, D[c]);
      S', closed', count', root', D' := [c], {}, count, c, map[c := 0];
    } else {
      answer, path', found', target', root' := None, path, found, target, root;
      S', closed', count', D' := Advance(g, start, targets, goals, S, closed, count, path, found, target, root, D, i);
    }
  }

  /** A popped cell `S[i]` that is not a goal in `search_all`: it is closed and expanded. */
  method Advance(g: Grid, ghost start: Pos, ghost targets: seq<Pos>, ghost goals: seq<Pos>,
                 S: seq<Pos>, closed: set<Pos>, count: int, ghost path: seq<Token>, ghost found: seq<Pos>,
                 target: Pos, ghost root: Pos, ghost D: map<Pos, nat>, i: nat)
    returns (S': seq<Pos>, closed': set<Pos>, count': int, ghost D': map<Pos, nat>)
    requires g.Valid() && Roaming(g, start, targets, g.cells, S, closed, count, path, goals, found, root, target, D)
    requires Least(FKeys(g.cells, S), i) && S[i] !in goals
    modifies g
    ensures g.Valid() && Roaming(g, start, targets, g.cells, S', closed', count', path, goals, found, root, target, D')
    ensures AllCells(g) - closed' < AllCells(g) - closed
  {
    ghost var cells0 := g.cells;
    S', closed', count', D' := Close(g, target, S, closed, count, root, D, i);
    RoamingExpanded(g, start, targets, cells0, S, closed, count, path, goals, found, root, target, D, S[i],
                    g.cells, S', count', D');
  }

  /** The popped cell `S[i]`, not a goal, is moved to the closed set and expanded. */
  method Close(g: Grid, target: Pos, S: seq<Pos>, closed: set<Pos>, count: int,
               ghost root: Pos, ghost D: map<Pos, nat>, i: nat)
    returns (S': seq<Pos>, closed': set<Pos>, count': int, ghost D': map<Pos, nat>)
    requires g.Valid() && Open(g, g.cells, root, target, S, closed, D) && Least(FKeys(g.cells, S), i)
    modifies g
    ensures g.Valid() && Open(g, g.cells, root, target, S', closed', D') && closed' == closed + {S[i]}
    ensures count' - count == |closed' + ToSet(S')| - |closed + ToSet(S)| && count' >= count
    ensures AllCells(g) - closed' < AllCells(g) - closed
  {
    var c := S[i];
    Popped(g, g.cells, root, target, S, closed, D, i);
    InAllCells(g, c);
    closed' := closed + {c};
    S', count', D' := Expand(g, target, Without(S, i), closed', count, c, root, D);
  }

  /**
   * `search_all(agent)`: one path through every goal of the agent's list,
   * which it empties, or the count when the open list runs dry; see
   * `AllFound`. The agent moves to each goal it reaches except the last
   * one, so it ends at the start or at a goal: on success, at the start of
   * the last leg. The source fails on an empty goal list, hence the
   * precondition.
   */
  method SearchAll(agent: Agent) returns (r: Outcome)
    requires agent.Valid() && agent.goals != []
    modifies agent, agent.grid
    ensures agent.Valid()
    ensures AllFound(agent.grid, old(agent.cell), old(agent.goals), agent.goals, r)
    ensures LeftAt(old(agent.cell), old(agent.goals), r, agent.cell)
  {
    var g := agent.grid;
    g.Reset();
    var start := agent.cell;
    var target := agent.NearestGoal();
    var c0 := At(g.cells, start);
    g.Annotate(start, c0.g, Manhattan(start, target), c0.parent);
    var S := [start];
    var closed: set<Pos> := {};
    var count := 1;
    var path: seq<Token> := [];
    var found: seq<Pos> := [];
    ghost var targets := agent.goals;
    ghost var root := start;
    ghost var D := map[start := 0];
    RoamingBegin(g, start, targets, g.cells, target);

    while S != []
      invariant agent.Valid() && agent.grid == g && agent.cell == root && targets == old(agent.goals)
      invariant Roaming(g, start, targets, g.cells, S, closed, count, path, agent.goals, found, root, target, D)
      invariant root == Standing(start, found)
      decreases |agent.goals|, AllCells(g) - closed
    {
      var answer;
      ghost var found0, goals0, root0 := found, agent.goals, root;
      answer, S, closed, count, path, found, target, root, D :=
        Step(agent, start, targets, agent.goals, S, closed, count, path, found, target, root, D);
      if answer.Some? {
        LastLeg(start, targets, goals0, found0, agent.cell, answer.value);
        return answer.value;
      }
      NextLeg(start, found0, found, root0, root);
    }
    RoamingDrained(g, start, targets, g.cells, closed, count, path, agent.goals, found, root, target, D);
    StoppedAt(start, targets, agent.goals, found, count);
    return Count(count);
  }
}

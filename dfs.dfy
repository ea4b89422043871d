/**
 * Depth-first search (`algorithms/dfs.py`): a LIFO stack of discovered
 * cells, unit neighbours pushed from the last direction to the first so the
 * first direction is popped first, and, in `search_all`, a restart of the
 * search at each goal found until the agent's goal list is empty.
 */
module Dfs {
  import opened Wrappers
  import opened Cells
  import opened Grids
  import opened Neighborhoods
  import opened Agents
  import opened Searching
  import Seqs
  import opened GoalLists
  import opened DfsLayers

  /** The neighbour loop for a popped cell that is not a goal: it is closed and its unseen neighbours are pushed. */
  method Expand(g: Grid, S: seq<Pos>, V: set<Pos>, count: int, ghost root: Pos, ghost D: map<Pos, nat>, ghost closed: set<Pos>)
    returns (S': seq<Pos>, V': set<Pos>, count': int, ghost D': map<Pos, nat>, ghost closed': set<Pos>)
    requires g.Valid() && Tree(g, g.cells, false, root, V, D) && Frontier(g, V, S, closed) && S != []
    modifies g
    ensures g.Valid() && Tree(g, g.cells, false, root, V', D') && Frontier(g, V', S', closed')
    ensures closed' == closed + {S[|S| - 1]}
    ensures S' == S[..|S| - 1] + Pushed(g, V, S[|S| - 1])
    ensures V' == V + ToSet(Pushed(g, V, S[|S| - 1]))
    ensures count' == count + |Pushed(g, V, S[|S| - 1])| && |V'| == |V| + |Pushed(g, V, S[|S| - 1])|
    ensures AllCells(g) - V' < AllCells(g) - V || (AllCells(g) - V' == AllCells(g) - V && |S'| < |S|)
  {
    var current := S[|S| - 1];
    assert current in ToSet(S);
    var ns := g.GetNeighbors(current, false);
    var rs := Seqs.Reversed(ns);
    NeighborsOrdered(g, current, false);
    Seqs.ReversedDistinct(ns);
    NeighborsAdjacent(g, false, current, rs);
    S', V', count', D' := Discover(g, false, current, rs, S[..|S| - 1], V, count, root, D);
    PushedFacts(g, V, current);
    PushFrontier(g, V, S, closed, Pushed(g, V, current));
    PushedCount(g, V, current);
    PushedMeasure(g, V, S);
    closed' := closed + {current};
  }

  /**
   * `search(agent)`: the first goal popped, with the trace to it, or the
   * count of visited cells when the stack runs dry; see `OneFound`.
   */
  method Search(agent: Agent) returns (r: Outcome)
    requires agent.Valid()
    modifies agent.grid
    ensures agent.Valid()
    ensures OneFound(agent.grid, agent.cell, agent.goals, r)
  {
    var g := agent.grid;
    g.Reset();
    var start := agent.cell;
    if start in agent.goals {
      FoundAtStart(g, start, agent.goals);
      return Goal([], start, 1);
    }
    var stack := [start];
    var visited := {start};
    var count := 1;
    ghost var D := map[start := 0];
    ghost var closed: set<Pos> := {};
    LoneBegin(g, start, agent.goals, g.cells);

    while stack != []
      invariant agent.Valid()
      invariant Lone(g, start, agent.goals, g.cells, stack, visited, count, D, closed)
      decreases AllCells(g) - visited, |stack|
    {
      var current := stack[|stack| - 1];
      if current in agent.goals {
        LoneFound(g, start, agent.goals, g.cells, stack, visited, count, D, closed, agent.canJump);
        var p := agent.TracePath(current, true, D[current]);
        return Goal(p, current, count);
      }
      ghost var cells0 := g.cells;
      var stack', visited', count', D', closed' := Expand(g, stack, visited, count, start, D, closed);
      LoneExpanded(g, start, agent.goals, cells0, stack, visited, count, D, closed, g.cells, stack', visited', count', D');
      stack, visited, count, D, closed := stack', visited', count', D', closed';
    }
    LoneDrained(g, start, agent.goals, g.cells, visited, count, D, closed);
    return Count(count);
  }

  /**
   * One turn of the `search_all` loop: pop the top; a goal is recorded and
   * either completes the answer or restarts the search at it; any other
   * cell is expanded. Returns the answer, or the next loop state, which is
   * smaller in the loop measure.
   */
  method Step(agent: Agent, ghost start: Pos, ghost targets: seq<Pos>, ghost goals: seq<Pos>,
              S: seq<Pos>, V: set<Pos>, count: int, path: seq<Token>, found: seq<Pos>,
              ghost root: Pos, ghost D: map<Pos, nat>, ghost closed: set<Pos>)
    returns (answer: Option<Outcome>, S': seq<Pos>, V': set<Pos>, count': int, path': seq<Token>, found': seq<Pos>,
             ghost root': Pos, ghost D': map<Pos, nat>, ghost closed': set<Pos>)
    requires agent.Valid() && goals == agent.goals
    requires Roving(agent.grid, start, targets, agent.grid.cells, S, V, count, path, goals, found, root, D, closed) && S != []
    modifies agent, agent.grid
    ensures agent.Valid() && agent.cell == old(agent.cell)
    ensures answer.Some? ==> AllFound(agent.grid, start, targets, agent.goals, answer.value)
    ensures answer.None? ==>
      && Roving(agent.grid, start, targets, agent.grid.cells, S', V', count', path', agent.goals, found', root', D', closed')
      && (|agent.goals| < |goals| ||
          (agent.goals == goals &&
           (AllCells(agent.grid) - V' < AllCells(agent.grid) - V ||
            (AllCells(agent.grid) - V' == AllCells(agent.grid) - V && |S'| < |S|))))
  {
    var g := agent.grid;
    var c := S[|S| - 1];
    if c in agent.goals {
      RovingFound(g, start, targets, g.cells, S, V, count, path, goals, found, root, D, closed, agent.canJump);
      answer, path', found' := Record(agent, start, targets, c, D[c], count, path, found);
      S', V', count', root', D', closed' := [c], {c}, count, c, map[c := 0], {};
      if answer.None? {
        RestartedRoving(g, start, targets, g.cells, c, count, path', agent.goals, found');
      }
    } else {
      answer, path', found', root' := None, path, found, root;
      ghost var cells0 := g.cells;
      S', V', count', D', closed' := Expand(g, S, V, count, root, D, closed);
      RovingExpanded(g, start, targets, cells0, S, V, count, path, goals, found, root, D, closed, g.cells, S', V', count', D');
    }
  }

  /**
   * `search_all(agent)`: one path through every goal of the agent's list,
   * which it empties, or the count when the stack runs dry; see `AllFound`.
   */
  method SearchAll(agent: Agent) returns (r: Outcome)
    requires agent.Valid()
    modifies agent, agent.grid
    ensures agent.Valid() && agent.cell == old(agent.cell)
    ensures AllFound(agent.grid, agent.cell, old(agent.goals), agent.goals, r)
  {
    var g := agent.grid;
    g.Reset();
    var start := agent.cell;
    var stack := [start];
    var visited := {start};
    var count := 1;
    var path: seq<Token> := [];
    var found: seq<Pos> := [];
    ghost var targets := agent.goals;
    ghost var root := start;
    ghost var D := map[start := 0];
    ghost var closed: set<Pos> := {};
    RovingBegin(g, start, targets, g.cells);

    while stack != []
      invariant agent.Valid() && agent.grid == g && agent.cell == start && targets == old(agent.goals)
      invariant Roving(g, start, targets, g.cells, stack, visited, count, path, agent.goals, found, root, D, closed)
      decreases |agent.goals|, AllCells(g) - visited, |stack|
    {
      var answer;
      answer, stack, visited, count, path, found, root, D, closed :=
        Step(agent, start, targets, agent.goals, stack, visited, count, path, found, root, D, closed);
      if answer.Some? {
        return answer.value;
      }
    }
    RovingDrained(g, start, targets, g.cells, visited, count, path, agent.goals, found, root, D, closed);
    return Count(count);
  }
}

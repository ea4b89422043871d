/**
 * Breadth-first search (`algorithms/bfs.py`): a FIFO queue of discovered
 * cells, neighbours taken in direction order with or without jumping, and,
 * when every goal is wanted, a restart of the search at each goal reached.
 */
module Bfs {
  import opened Wrappers
  import opened Cells
  import opened Grids
  import opened Neighborhoods
  import opened Agents
  import opened Searching
  import Seqs
  import opened BfsLayers

  /** The neighbour loop for a head that is not a goal: the head is closed and its unseen neighbours are queued. */
  method Advance(g: Grid, canJump: bool, ghost start: Pos, ghost targets: set<Pos>, ghost all: bool,
                 queue: seq<Pos>, visited: set<Pos>, count: int, ghost path: seq<Token>, ghost goals: set<Pos>, ghost reached: set<Pos>,
                 ghost root: Pos, ghost D: map<Pos, nat>, ghost closed: set<Pos>)
    returns (queue': seq<Pos>, visited': set<Pos>, count': int, ghost D': map<Pos, nat>, ghost closed': set<Pos>)
    requires g.Valid()
    requires Phase(g, canJump, start, targets, all, g.cells, queue, visited, count, path, goals, reached, root, D, closed)
    requires queue != [] && queue[0] !in goals
    modifies g
    ensures g.Valid()
    ensures Phase(g, canJump, start, targets, all, g.cells, queue', visited', count', path, goals, reached, root, D', closed')
    ensures AllCells(g) - visited' < AllCells(g) - visited || (AllCells(g) - visited' == AllCells(g) - visited && |queue'| < |queue|)
  {
    var current := queue[0];
    assert current in ToSet(queue);
    var ns := g.GetNeighbors(current, canJump);
    NeighborsOrdered(g, current, canJump);
    NeighborsAdjacent(g, canJump, current, ns);
    ghost var cells0 := g.cells;
    queue', visited', count', D' := Discover(g, canJump, current, ns, queue[1..], visited, count, root, D);
    Expanded(g, canJump, start, targets, all, cells0, queue, visited, count, path, goals, reached, root, D, closed, g.cells, D');
    AddedMeasure(g, canJump, visited, queue);
    closed' := closed + {current};
  }

  /** One goal wanted and the head of the queue is a goal: the trace to it is the answer. */
  method ReachOne(agent: Agent, all: bool, ghost start: Pos, ghost targets: set<Pos>,
                  queue: seq<Pos>, ghost visited: set<Pos>, count: int, ghost path: seq<Token>, ghost goals: set<Pos>, ghost reached: set<Pos>,
                  ghost root: Pos, ghost D: map<Pos, nat>, ghost closed: set<Pos>)
    returns (answer: Outcome)
    requires agent.Valid() && start == agent.cell && targets == ToSet(agent.goals) && !all
    requires Phase(agent.grid, agent.canJump, start, targets, all, agent.grid.cells, queue, visited, count, path, goals, reached, root, D, closed)
    requires queue != [] && queue[0] in goals
    ensures Answer(agent.grid, agent.canJump, start, agent.goals, all, answer)
  {
    var g := agent.grid;
    var current := queue[0];
    FoundGoal(g, agent.canJump, start, targets, all, g.cells, queue, visited, count, path, goals, reached, root, D, closed);
    var p := agent.TracePath(current, true, D[current]);
    AnswerNearest(g, agent.canJump, start, targets, g.cells, queue, visited, count, goals, root, D, closed, agent.goals, p);
    answer := Goal(p, current, count);
  }

  /** All goals wanted and the head of the queue is the last one: the path extended by its trace is the answer. */
  method ReachLast(agent: Agent, all: bool, ghost start: Pos, ghost targets: set<Pos>,
                   queue: seq<Pos>, ghost visited: set<Pos>, count: int, path: seq<Token>, goals: set<Pos>, reached: set<Pos>,
                   ghost root: Pos, ghost D: map<Pos, nat>, ghost closed: set<Pos>)
    returns (answer: Outcome)
    requires agent.Valid() && start == agent.cell && targets == ToSet(agent.goals) && all
    requires Phase(agent.grid, agent.canJump, start, targets, all, agent.grid.cells, queue, visited, count, path, goals, reached, root, D, closed)
    requires queue != [] && queue[0] in goals && goals - {queue[0]} == {}
    ensures Answer(agent.grid, agent.canJump, start, agent.goals, all, answer)
  {
    var g := agent.grid;
    var current := queue[0];
    FoundGoal(g, agent.canJump, start, targets, all, g.cells, queue, visited, count, path, goals, reached, root, D, closed);
    var p := agent.TracePath(current, true, D[current]);
    assert reached + {current} == targets;
    AnswerAll(g, agent.canJump, start, agent.goals, path + p, reached + {current}, count);
    answer := GoalSet(path + p, reached + {current}, count);
  }

  /**
   * Record the goal `current` and restart there: append its trace to the
   * path and clear its parent link.
   */
  method Rejoin(agent: Agent, ghost start: Pos, ghost targets: set<Pos>, current: Pos, ghost n: nat,
                count: int, path: seq<Token>, goals: set<Pos>, reached: set<Pos>)
    returns (path': seq<Token>, goals': set<Pos>, reached': set<Pos>)
    requires agent.Valid() && agent.grid.InBounds(current) && RootedWithin(agent.grid.cells, current, n)
    requires Restarted(agent.grid, agent.canJump, start, targets,
                       Put(agent.grid.cells, current, At(agent.grid.cells, current).(parent := None)),
                       current, count, path + Tokens(agent.grid.cells, current, n, agent.canJump, true),
                       goals - {current}, reached + {current})
    modifies agent.grid
    ensures agent.Valid()
    ensures goals' == goals - {current} && reached' == reached + {current}
    ensures Restarted(agent.grid, agent.canJump, start, targets, agent.grid.cells, current, count, path', goals', reached')
  {
    var p := agent.TracePath(current, true, n);
    path', goals', reached' := path + p, goals - {current}, reached + {current};
    agent.grid.Detach(current);
  }

  /**
   * All goals wanted, the head of the queue is a goal and others remain: its
   * trace is appended to the path and the search restarts at it, with its
   * parent link cleared.
   */
  method ReachNext(agent: Agent, all: bool, ghost start: Pos, ghost targets: set<Pos>,
                   queue: seq<Pos>, ghost visited: set<Pos>, count: int, path: seq<Token>, goals: set<Pos>, reached: set<Pos>,
                   ghost root: Pos, ghost D: map<Pos, nat>, ghost closed: set<Pos>)
    returns (queue': seq<Pos>, visited': set<Pos>, path': seq<Token>, goals': set<Pos>, reached': set<Pos>)
    requires agent.Valid() && start == agent.cell && targets == ToSet(agent.goals) && all
    requires Phase(agent.grid, agent.canJump, start, targets, all, agent.grid.cells, queue, visited, count, path, goals, reached, root, D, closed)
    requires queue != [] && queue[0] in goals && goals - {queue[0]} != {}
    modifies agent.grid
    ensures agent.Valid()
    ensures queue' == [queue[0]] && visited' == {queue[0]}
    ensures Restarted(agent.grid, agent.canJump, start, targets, agent.grid.cells, queue[0], count, path', goals', reached')
    ensures |goals'| < |goals|
  {
    var g := agent.grid;
    var current := queue[0];
    Restart(g, agent.canJump, start, targets, g.cells, queue, visited, count, path, goals, reached, root, D, closed, all);
    queue', visited' := [current], {current};
    path', goals', reached' := Rejoin(agent, start, targets, current, D[current], count, path, goals, reached);
  }

  /**
   * One turn of the search loop: pop the head; a goal is either the answer
   * or, in all-goals mode, the root of a restarted search; any other cell
   * is expanded. Returns the answer, or the next loop state, which is
   * smaller in the loop measure.
   */
  method Step(agent: Agent, all: bool, ghost start: Pos, ghost targets: set<Pos>,
              queue: seq<Pos>, visited: set<Pos>, count: int, path: seq<Token>, goals: set<Pos>, reached: set<Pos>,
              ghost root: Pos, ghost D: map<Pos, nat>, ghost closed: set<Pos>)
    returns (answer: Option<Outcome>,
             queue': seq<Pos>, visited': set<Pos>, count': int, path': seq<Token>, goals': set<Pos>, reached': set<Pos>,
             ghost root': Pos, ghost D': map<Pos, nat>, ghost closed': set<Pos>)
    requires agent.Valid() && start == agent.cell && targets == ToSet(agent.goals)
    requires Phase(agent.grid, agent.canJump, start, targets, all, agent.grid.cells, queue, visited, count, path, goals, reached, root, D, closed)
    requires queue != []
    modifies agent.grid
    ensures agent.Valid()
    ensures answer.Some? ==> Answer(agent.grid, agent.canJump, start, agent.goals, all, answer.value)
    ensures answer.None? ==>
      && Phase(agent.grid, agent.canJump, start, targets, all, agent.grid.cells, queue', visited', count', path', goals', reached', root', D', closed')
      && (|goals'| < |goals| ||
          (|goals'| == |goals| &&
           (AllCells(agent.grid) - visited' < AllCells(agent.grid) - visited ||
            (AllCells(agent.grid) - visited' == AllCells(agent.grid) - visited && |queue'| < |queue|))))
  {
    if queue[0] in goals {
      if all && goals - {queue[0]} == {} {
        var a := ReachLast(agent, all, start, targets, queue, visited, count, path, goals, reached, root, D, closed);
        answer := Some(a);
        queue', visited', count', path', goals', reached' := queue, visited, count, path, goals, reached;
        root', D', closed' := root, D, closed;
      } else if all {
        answer, count', root', D', closed' := None, count, queue[0], map[queue[0] := 0], {};
        queue', visited', path', goals', reached' :=
          ReachNext(agent, all, start, targets, queue, visited, count, path, goals, reached, root, D, closed);
        RestartedPhase(agent.grid, agent.canJump, start, targets, all, agent.grid.cells, queue[0], count, path', goals', reached');
      } else {
        var a := ReachOne(agent, all, start, targets, queue, visited, count, path, goals, reached, root, D, closed);
        answer := Some(a);
        queue', visited', count', path', goals', reached' := queue, visited, count, path, goals, reached;
        root', D', closed' := root, D, closed;
      }
    } else {
      answer := None;
      path', goals', reached', root' := path, goals, reached, root;
      queue', visited', count', D', closed' :=
        Advance(agent.grid, agent.canJump, start, targets, all, queue, visited, count, path, goals, reached, root, D, closed);
    }
  }

  /**
   * `search(agent, all)`: see `Answer` for what it returns.
   */
  method Search(agent: Agent, all: bool) returns (r: Outcome)
    requires agent.Valid()
    modifies agent.grid
    ensures agent.Valid()
    ensures Answer(agent.grid, agent.canJump, agent.cell, agent.goals, all, r)
  {
    var g := agent.grid;
    var canJump := agent.canJump;
    g.Reset();
    var start := agent.cell;
    if !all && start in agent.goals {
      AnswerAtStart(g, canJump, start, agent.goals);
      return Goal([], start, 1);
    }
    var queue := [start];
    var visited := {start};
    var count := 1;
    var path: seq<Token> := [];
    var goals := set q | q in agent.goals;
    var reached: set<Pos> := {};
    ghost var targets := ToSet(agent.goals);
    ghost var root := start;
    ghost var D := map[start := 0];
    ghost var closed: set<Pos> := {};
    assert goals == targets;
    Begin(g, canJump, start, targets, all, g.cells);

    while queue != []
      invariant agent.Valid()
      invariant Phase(g, canJump, start, targets, all, g.cells, queue, visited, count, path, goals, reached, root, D, closed)
      decreases |goals|, AllCells(g) - visited, |queue|
    {
      var answer;
      answer, queue, visited, count, path, goals, reached, root, D, closed :=
        Step(agent, all, start, targets, queue, visited, count, path, goals, reached, root, D, closed);
      if answer.Some? {
        return answer.value;
      }
    }
    AnswerDrained(g, canJump, start, targets, all, g.cells, visited, count, path, goals, reached, root, D, closed, agent.goals);
    return Count(count);
  }
}

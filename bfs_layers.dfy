/**
 * The proof layer of breadth-first search (`algorithms/bfs.py`): the queue
 * invariant that makes the first goal dequeued a nearest one, the state of
 * one search phase, the answers the search returns, and the lemmas that
 * carry them from one turn of the loop to the next.
 */
module BfsLayers {
  import opened Wrappers
  import opened Cells
  import opened Grids
  import opened Neighborhoods
  import opened Agents
  import opened Searching
  import Seqs

  /**
   * The queue discipline of breadth-first search over the visited cells `V`
   * with depths `D`: the visited cells are the `closed` (already expanded)
   * ones plus the queued ones; queued depths never decrease from head to
   * tail; every visited cell is at most one level below the head and every
   * closed cell at most at the head's level; and the moves out of a closed
   * cell all land on visited cells at most one level further down.
   */
  ghost predicate Layered(g: Grid, canJump: bool, V: set<Pos>, D: map<Pos, nat>, Q: seq<Pos>, closed: set<Pos>)
  {
    && V <= D.Keys
    && Seqs.Distinct(Q)
    && (forall i :: 0 <= i < |Q| ==> Q[i] in V)
    && closed + ToSet(Q) == V && closed * ToSet(Q) == {}
    && (forall i, j :: 0 <= i <= j < |Q| ==> D[Q[i]] <= D[Q[j]])
    && (|Q| > 0 ==> (forall v :: v in V ==> D[v] <= D[Q[0]] + 1) && (forall c :: c in closed ==> D[c] <= D[Q[0]]))
    && (forall c, n :: c in closed && Edge(g, canJump, c, n) ==> n in V && D[n] <= D[c] + 1)
  }

  /** No queued cell is shallower than the head. */
  lemma QueueAbove(g: Grid, canJump: bool, V: set<Pos>, D: map<Pos, nat>, Q: seq<Pos>, closed: set<Pos>, x: Pos)
    requires Layered(g, canJump, V, D, Q, closed) && x in ToSet(Q)
    ensures x in V && D[Q[0]] <= D[x]
  {
    var j :| 0 <= j < |Q| && Q[j] == x;
  }

  /**
   * A walk from the root to a cell that is not closed crosses the queue at
   * some index `j` no smaller than that queued cell's depth.
   */
  lemma {:induction false} Cross(g: Grid, cells: seq<seq<Cell>>, canJump: bool, root: Pos, V: set<Pos>, D: map<Pos, nat>,
                                 Q: seq<Pos>, closed: set<Pos>, w: seq<Pos>) returns (j: nat)
    requires Tree(g, cells, canJump, root, V, D) && Layered(g, canJump, V, D, Q, closed)
    requires IsWalk(g, canJump, w) && w[0] == root && w[|w| - 1] !in closed
    ensures j < |w| && w[j] in ToSet(Q) && w[j] in V && D[w[j]] <= j
  {
    j := 0;
    while w[j] in closed
      invariant j < |w| && w[j] in V && D[w[j]] <= j
      decreases |w| - j
    {
      assert Edge(g, canJump, w[j], w[j + 1]);
      j := j + 1;
    }
  }

  /** When the head of the queue is a goal and no goal is closed, no walk reaches a goal in fewer moves. */
  lemma NoShorterWalk(g: Grid, cells: seq<seq<Cell>>, canJump: bool, root: Pos, V: set<Pos>, D: map<Pos, nat>,
                      Q: seq<Pos>, closed: set<Pos>, goals: set<Pos>, w: seq<Pos>)
    requires Tree(g, cells, canJump, root, V, D) && Layered(g, canJump, V, D, Q, closed) && |Q| > 0
    requires forall x :: x in closed ==> x !in goals
    requires IsWalk(g, canJump, w) && w[0] == root && w[|w| - 1] in goals
    ensures D[Q[0]] <= |w| - 1
  {
    var j := Cross(g, cells, canJump, root, V, D, Q, closed, w);
    QueueAbove(g, canJump, V, D, Q, closed, w[j]);
  }

  lemma ToSetTail(Q: seq<Pos>)
    requires |Q| > 0 && Seqs.Distinct(Q)
    ensures ToSet(Q) == ToSet(Q[1..]) + {Q[0]} && Q[0] !in ToSet(Q[1..])
  {
    assert Q == [Q[0]] + Q[1..];
    ToSetConcat([Q[0]], Q[1..]);
  }

  /** The cells `Discover` adds to the queue. */
  ghost function Added(g: Grid, canJump: bool, V: set<Pos>, current: Pos): seq<Pos>
  {
    Unseen(g, g.Neighbors(current, canJump), V, |g.Neighbors(current, canJump)|)
  }

  lemma AddedFacts(g: Grid, canJump: bool, V: set<Pos>, current: Pos)
    requires g.InBounds(current)
    ensures Seqs.Distinct(Added(g, canJump, V, current))
    ensures forall n :: n in Added(g, canJump, V, current) <==> Edge(g, canJump, current, n) && n !in V
  {
    var ns := g.Neighbors(current, canJump);
    NeighborsOrdered(g, current, canJump);
    UnseenDistinct(g, ns, V, |ns|);
    UnseenMembers(g, ns, V, |ns|);
    forall n ensures n in ns <==> exists i :: 0 <= i < |ns| && ns[i] == n {
      if n in ns {
        var i :| 0 <= i < |ns| && ns[i] == n;
      }
    }
    forall n ensures Edge(g, canJump, current, n) <==> n in ns && !g.Blocked(n) {
      EdgeIsNeighbor(g, canJump, current, n);
    }
  }

  /** The queue after an expansion is still distinct and its cells are split off the closed ones. */
  lemma ExpandSets(Q: seq<Pos>, U: seq<Pos>, V: set<Pos>, closed: set<Pos>)
    requires |Q| > 0 && Seqs.Distinct(Q) && Seqs.Distinct(U)
    requires closed + ToSet(Q) == V && closed * ToSet(Q) == {}
    requires forall n :: n in U ==> n !in V
    ensures Seqs.Distinct(Q[1..] + U)
    ensures (closed + {Q[0]}) + ToSet(Q[1..] + U) == V + ToSet(U)
    ensures (closed + {Q[0]}) * ToSet(Q[1..] + U) == {}
  {
    ToSetTail(Q);
    ToSetConcat(Q[1..], U);
    var R := Q[1..] + U;
    forall i, j | 0 <= i < j < |R| ensures R[i] != R[j] {
      if j >= |Q| - 1 && i < |Q| - 1 {
        assert R[i] == Q[i + 1] && Q[i + 1] in ToSet(Q);
        assert R[j] == U[j - |Q| + 1];
      } else if i >= |Q| - 1 {
        assert R[i] == U[i - |Q| + 1] && R[j] == U[j - |Q| + 1];
      } else {
        assert R[i] == Q[i + 1] && R[j] == Q[j + 1];
      }
    }
  }

  /** Depths along the queue after an expansion: old tail, then the new cells one level below the old head. */
  lemma ExpandDepths(Q: seq<Pos>, U: seq<Pos>, V: set<Pos>, D: map<Pos, nat>, D': map<Pos, nat>, closed: set<Pos>)
    requires |Q| > 0 && V <= D.Keys && (forall i :: 0 <= i < |Q| ==> Q[i] in V)
    requires forall i, j :: 0 <= i <= j < |Q| ==> D[Q[i]] <= D[Q[j]]
    requires forall v :: v in V ==> D[v] <= D[Q[0]] + 1
    requires forall v :: v in V ==> v in D' && D'[v] == D[v]
    requires forall n :: n in U ==> n in D' && D'[n] == D[Q[0]] + 1
    ensures forall i :: 0 <= i < |Q[1..] + U| ==> (Q[1..] + U)[i] in D'
    ensures forall i, j :: 0 <= i <= j < |Q[1..] + U| ==> D'[(Q[1..] + U)[i]] <= D'[(Q[1..] + U)[j]]
    ensures |Q[1..] + U| > 0 ==> D[Q[0]] <= D'[(Q[1..] + U)[0]]
  {
    var R := Q[1..] + U;
    forall i | 0 <= i < |R| ensures R[i] in D' && D[Q[0]] <= D'[R[i]] <= D[Q[0]] + 1 {
      if i < |Q| - 1 {
        assert R[i] == Q[i + 1];
      } else {
        assert R[i] == U[i - |Q| + 1];
      }
    }
    forall i, j | 0 <= i <= j < |R| ensures D'[R[i]] <= D'[R[j]] {
      if j < |Q| - 1 {
        assert R[i] == Q[i + 1] && R[j] == Q[j + 1];
      } else {
        assert R[j] == U[j - |Q| + 1];
      }
    }
  }

  /** Expanding the head of the queue keeps the breadth-first discipline. */
  lemma Expand(g: Grid, canJump: bool, V: set<Pos>, D: map<Pos, nat>, Q: seq<Pos>, closed: set<Pos>, D': map<Pos, nat>)
    requires Layered(g, canJump, V, D, Q, closed) && |Q| > 0 && g.InBounds(Q[0])
    requires Deepened(D, D', V, Added(g, canJump, V, Q[0]), Q[0])
    ensures var U := Added(g, canJump, V, Q[0]);
      Layered(g, canJump, V + ToSet(U), D', Q[1..] + U, closed + {Q[0]})
  {
    var current := Q[0];
    var U := Added(g, canJump, V, current);
    var V', Q', closed' := V + ToSet(U), Q[1..] + U, closed + {current};
    AddedFacts(g, canJump, V, current);
    ExpandSets(Q, U, V, closed);
    ExpandDepths(Q, U, V, D, D', closed);
    forall i | 0 <= i < |Q'| ensures Q'[i] in V' {
      assert Q'[i] in ToSet(Q');
    }
    if |Q'| > 0 {
      forall v | v in V' ensures D'[v] <= D'[Q'[0]] + 1 {
        if v !in V {
          assert v in U;
        }
      }
    }
    ExpandEdges(g, canJump, V, D, Q, closed, D');
  }

  /** After an expansion the moves out of every closed cell, the old head included, still land on visited cells one level down. */
  lemma ExpandEdges(g: Grid, canJump: bool, V: set<Pos>, D: map<Pos, nat>, Q: seq<Pos>, closed: set<Pos>, D': map<Pos, nat>)
    requires Layered(g, canJump, V, D, Q, closed) && |Q| > 0 && g.InBounds(Q[0])
    requires Deepened(D, D', V, Added(g, canJump, V, Q[0]), Q[0])
    ensures var U := Added(g, canJump, V, Q[0]);
      forall c, n :: c in closed + {Q[0]} && Edge(g, canJump, c, n) ==> n in V + ToSet(U) && D'[n] <= D'[c] + 1
  {
    var U := Added(g, canJump, V, Q[0]);
    AddedFacts(g, canJump, V, Q[0]);
    forall c, n | c in closed + {Q[0]} && Edge(g, canJump, c, n) ensures n in V + ToSet(U) && D'[n] <= D'[c] + 1 {
      if c in closed {
        assert n in V;
      } else if n !in V {
        assert n in U;
      }
    }
  }

  /** A fresh search tree rooted at `root`, with `root` alone on the queue. */
  lemma Start(g: Grid, cells: seq<seq<Cell>>, canJump: bool, root: Pos)
    requires g.InBounds(root) && At(cells, root).parent == None
    ensures Tree(g, cells, canJump, root, {root}, map[root := 0])
    ensures Layered(g, canJump, {root}, map[root := 0], [root], {})
  {
    Singleton(g, cells, canJump, root);
    assert ToSet([root]) == {root};
  }

  /** If `b` is reachable from `a`, everything reachable from `b` is reachable from `a`. */
  lemma ReachClosed(g: Grid, canJump: bool, a: Pos, b: Pos)
    requires Reachable(g, canJump, a, b)
    ensures forall c :: Reachable(g, canJump, b, c) ==> Reachable(g, canJump, a, c)
  {
    forall c | Reachable(g, canJump, b, c) ensures Reachable(g, canJump, a, c) {
      JoinReach(g, canJump, a, b, c);
    }
  }

  /**
   * The state of the search loop. The current phase searches from `root`
   * (the start, or in all-goals mode the goal reached last) with a layered
   * queue over a tree of visited cells; `targets` are the goal cells, split
   * into `reached` ones and `goals` still wanted, none of which is closed;
   * `path` is a legal route from the start through every reached goal that
   * ends at `root`. With one goal wanted, nothing has been reached and the
   * count is the number of visited cells.
   */
  ghost predicate Phase(g: Grid, canJump: bool, start: Pos, targets: set<Pos>, all: bool, cells: seq<seq<Cell>>,
                        queue: seq<Pos>, visited: set<Pos>, count: int, path: seq<Token>, goals: set<Pos>, reached: set<Pos>,
                        root: Pos, D: map<Pos, nat>, closed: set<Pos>)
  {
    && Tree(g, cells, canJump, root, visited, D)
    && Layered(g, canJump, visited, D, queue, closed)
    && Tally(targets, goals, reached, closed)
    && Travelled(g, canJump, start, path, reached, root)
    && count >= 1
    && (!all ==> root == start && count == |visited| && path == [] && reached == {} && goals == targets)
  }

  /** The goal cells split into the reached ones and the wanted ones; no wanted goal is closed. */
  ghost predicate Tally(targets: set<Pos>, goals: set<Pos>, reached: set<Pos>, closed: set<Pos>)
  {
    && reached + goals == targets && reached * goals == {}
    && (forall x :: x in closed ==> x !in goals)
    && (targets != {} ==> goals != {})
  }

  lemma Begin(g: Grid, canJump: bool, start: Pos, targets: set<Pos>, all: bool, cells: seq<seq<Cell>>)
    requires g.InBounds(start) && At(cells, start).parent == None
    ensures Phase(g, canJump, start, targets, all, cells, [start], {start}, 1, [], targets, {}, start, map[start := 0], {})
  {
    Start(g, cells, canJump, start);
    assert IsWalk(g, canJump, [start]);
  }

  /** The trace of a goal at the head of the queue extends the route to that goal. */
  lemma FoundGoal(g: Grid, canJump: bool, start: Pos, targets: set<Pos>, all: bool, cells: seq<seq<Cell>>,
                  queue: seq<Pos>, visited: set<Pos>, count: int, path: seq<Token>, goals: set<Pos>, reached: set<Pos>,
                  root: Pos, D: map<Pos, nat>, closed: set<Pos>)
    requires Phase(g, canJump, start, targets, all, cells, queue, visited, count, path, goals, reached, root, D, closed)
    requires queue != [] && queue[0] in goals
    ensures queue[0] in visited && RootedWithin(cells, queue[0], D[queue[0]])
    ensures var p := Tokens(cells, queue[0], D[queue[0]], canJump, true);
      && Route(g, canJump, start, path + p) && Walk(start, path + p) == queue[0]
      && (forall q :: q in reached + {queue[0]} ==> Visits(start, path + p, q))
      && (!all ==> path + p == p && |p| == D[queue[0]])
  {
    var current := queue[0];
    assert current in ToSet(queue);
    TreeTrace(g, cells, canJump, root, visited, D, current, canJump);
    var p := Tokens(cells, current, D[current], canJump, true);
    RouteAppend(g, canJump, start, path, p);
    assert (path + p)[..|path + p|] == path + p;
    if !all {
      assert path + p == p;
    }
  }

  /** With one goal wanted, the goal at the head of the queue is a nearest goal and the count is bounded. */
  lemma Nearest(g: Grid, canJump: bool, start: Pos, targets: set<Pos>, cells: seq<seq<Cell>>,
                queue: seq<Pos>, visited: set<Pos>, count: int, goals: set<Pos>, root: Pos, D: map<Pos, nat>, closed: set<Pos>)
    requires Phase(g, canJump, start, targets, false, cells, queue, visited, count, [], goals, {}, root, D, closed)
    requires queue != [] && queue[0] in goals
    ensures queue[0] in D
    ensures forall w :: IsWalk(g, canJump, w) && w[0] == start && w[|w| - 1] in targets ==> D[queue[0]] <= |w| - 1
    ensures count <= |ReachableSet(g, canJump, start)|
  {
    forall w | IsWalk(g, canJump, w) && w[0] == start && w[|w| - 1] in targets
      ensures D[queue[0]] <= |w| - 1
    {
      NoShorterWalk(g, cells, canJump, root, visited, D, queue, closed, goals, w);
    }
    TreeWithinReach(g, cells, canJump, root, visited, D);
  }

  /**
   * The state right after a restart at `root` in all-goals mode: `root` is
   * an in-bounds cell without a parent, the goals are tallied with nothing
   * closed, and the path so far leads from the start to `root`.
   */
  ghost predicate Restarted(g: Grid, canJump: bool, start: Pos, targets: set<Pos>, cells: seq<seq<Cell>>,
                            root: Pos, count: int, path: seq<Token>, goals: set<Pos>, reached: set<Pos>)
  {
    && g.InBounds(root) && At(cells, root).parent == None
    && Tally(targets, goals, reached, {})
    && Travelled(g, canJump, start, path, reached, root)
    && count >= 1
  }

  /** A restarted search is a phase whose queue and visited set hold only its root. */
  lemma RestartedPhase(g: Grid, canJump: bool, start: Pos, targets: set<Pos>, all: bool, cells: seq<seq<Cell>>,
                       root: Pos, count: int, path: seq<Token>, goals: set<Pos>, reached: set<Pos>)
    requires all && Restarted(g, canJump, start, targets, cells, root, count, path, goals, reached)
    ensures Phase(g, canJump, start, targets, all, cells, [root], {root}, count, path, goals, reached, root, map[root := 0], {})
  {
    Start(g, cells, canJump, root);
  }

  /** In all-goals mode the search restarts at the goal just reached, with its parent link cleared. */
  lemma Reroot(g: Grid, canJump: bool, start: Pos, targets: set<Pos>, cells: seq<seq<Cell>>,
               queue: seq<Pos>, visited: set<Pos>, count: int, path: seq<Token>, goals: set<Pos>, reached: set<Pos>,
               root: Pos, D: map<Pos, nat>, closed: set<Pos>, all: bool, p: seq<Token>)
    requires all && Phase(g, canJump, start, targets, all, cells, queue, visited, count, path, goals, reached, root, D, closed)
    requires queue != [] && queue[0] in goals && goals - {queue[0]} != {}
    requires Route(g, canJump, start, path + p) && Walk(start, path + p) == queue[0]
    requires forall q :: q in reached + {queue[0]} ==> Visits(start, path + p, q)
    ensures var current := queue[0];
      var cells' := Put(cells, current, At(cells, current).(parent := None));
      && Restarted(g, canJump, start, targets, cells', current, count, path + p, goals - {current}, reached + {current})
      && |goals - {current}| < |goals|
  {
    var current := queue[0];
    assert current in ToSet(queue);
    var w := TreeWalk(g, cells, canJump, root, visited, D, current);
    JoinReach(g, canJump, start, root, current);
    if current != root {
      TreeUnblocked(g, cells, canJump, root, visited, D, current);
    }
    assert goals == (goals - {current}) + {current};
  }

  /** A goal reached with others still wanted: its parent chain is finite, and the phase restarts at it. */
  lemma Restart(g: Grid, canJump: bool, start: Pos, targets: set<Pos>, cells: seq<seq<Cell>>,
                queue: seq<Pos>, visited: set<Pos>, count: int, path: seq<Token>, goals: set<Pos>, reached: set<Pos>,
                root: Pos, D: map<Pos, nat>, closed: set<Pos>, all: bool)
    requires all && Phase(g, canJump, start, targets, all, cells, queue, visited, count, path, goals, reached, root, D, closed)
    requires queue != [] && queue[0] in goals && goals - {queue[0]} != {}
    ensures queue[0] in D && RootedWithin(cells, queue[0], D[queue[0]])
    ensures var current := queue[0];
      var cells' := Put(cells, current, At(cells, current).(parent := None));
      var p := Tokens(cells, current, D[current], canJump, true);
      && Restarted(g, canJump, start, targets, cells', current, count, path + p, goals - {current}, reached + {current})
      && |goals - {current}| < |goals|
  {
    FoundGoal(g, canJump, start, targets, all, cells, queue, visited, count, path, goals, reached, root, D, closed);
    var p := Tokens(cells, queue[0], D[queue[0]], canJump, true);
    Reroot(g, canJump, start, targets, cells, queue, visited, count, path, goals, reached, root, D, closed, all, p);
  }

  /** The cells added by an expansion are new, so the visited set grows by exactly their number. */
  lemma AddedCount(g: Grid, canJump: bool, V: set<Pos>, current: Pos)
    requires g.InBounds(current)
    ensures |V + ToSet(Added(g, canJump, V, current))| == |V| + |Added(g, canJump, V, current)|
  {
    var U := Added(g, canJump, V, current);
    AddedFacts(g, canJump, V, current);
    DistinctCard(U);
    assert V * ToSet(U) == {};
  }

  /** Each expansion either visits a new grid cell or shortens the queue. */
  lemma AddedMeasure(g: Grid, canJump: bool, V: set<Pos>, queue: seq<Pos>)
    requires queue != [] && g.InBounds(queue[0])
    ensures var V' := V + ToSet(Added(g, canJump, V, queue[0]));
      AllCells(g) - V' < AllCells(g) - V ||
      (AllCells(g) - V' == AllCells(g) - V && |queue[1..] + Added(g, canJump, V, queue[0])| < |queue|)
  {
    var U := Added(g, canJump, V, queue[0]);
    AddedFacts(g, canJump, V, queue[0]);
    if U != [] {
      assert U[0] in ToSet(U);
      InAllCells(g, U[0]);
      assert U[0] in AllCells(g) - V;
    } else {
      assert ToSet(U) == {};
    }
  }

  /** Expanding a head that is not a goal keeps the loop state. */
  lemma Expanded(g: Grid, canJump: bool, start: Pos, targets: set<Pos>, all: bool, cells: seq<seq<Cell>>,
                 queue: seq<Pos>, visited: set<Pos>, count: int, path: seq<Token>, goals: set<Pos>, reached: set<Pos>,
                 root: Pos, D: map<Pos, nat>, closed: set<Pos>,
                 cells': seq<seq<Cell>>, D': map<Pos, nat>)
    requires Phase(g, canJump, start, targets, all, cells, queue, visited, count, path, goals, reached, root, D, closed)
    requires queue != [] && queue[0] !in goals
    requires Tree(g, cells', canJump, root, visited + ToSet(Added(g, canJump, visited, queue[0])), D')
    requires Deepened(D, D', visited, Added(g, canJump, visited, queue[0]), queue[0])
    ensures g.InBounds(queue[0])
    ensures var U := Added(g, canJump, visited, queue[0]);
      Phase(g, canJump, start, targets, all, cells', queue[1..] + U, visited + ToSet(U), count + |U|, path, goals, reached,
            root, D', closed + {queue[0]})
  {
    assert queue[0] in ToSet(queue);
    Expand(g, canJump, visited, D, queue, closed, D');
    if !all {
      AddedCount(g, canJump, visited, queue[0]);
    }
  }

  /**
   * What `search(agent, all)` returns when started at `start` with goal list
   * `goals`. One goal: a nearest goal (no walk reaches any goal in fewer
   * moves) with a legal route to it and a count bounded by the reachable
   * cells, or, when no goal is reachable, the number of reachable cells. All
   * goals: the set of all goals with one legal route passing through each,
   * or the count, which for an unblocked start means some goal is
   * unreachable.
   */
  ghost predicate Answer(g: Grid, canJump: bool, start: Pos, goals: seq<Pos>, all: bool, r: Outcome)
  {
    if all then AllAnswer(g, canJump, start, goals, r) else OneAnswer(g, canJump, start, goals, r)
  }

  /** With one goal wanted: a nearest goal and a legal route to it, or the count of reachable cells when there is none. */
  ghost predicate OneAnswer(g: Grid, canJump: bool, start: Pos, goals: seq<Pos>, r: Outcome)
  {
    && (r.Goal? || r.Count?)
    && r.count >= 1
    && (r.Goal? ==>
          && r.goal in goals
          && Route(g, canJump, start, r.path) && Walk(start, r.path) == r.goal
          && (forall w :: IsWalk(g, canJump, w) && w[0] == start && w[|w| - 1] in goals ==> |r.path| <= |w| - 1)
          && r.count <= |ReachableSet(g, canJump, start)|)
    && (r.Count? ==>
          && (forall q :: q in goals ==> !Reachable(g, canJump, start, q))
          && r.count == |ReachableSet(g, canJump, start)|)
  }

  /** With all goals wanted: one legal route through every goal, or the count when (for an unblocked start) some goal is unreachable. */
  ghost predicate AllAnswer(g: Grid, canJump: bool, start: Pos, goals: seq<Pos>, r: Outcome)
  {
    && (r.GoalSet? || r.Count?)
    && r.count >= 1
    && (r.GoalSet? ==>
          && r.reached == ToSet(goals)
          && Route(g, canJump, start, r.path)
          && (forall q :: q in goals ==> Visits(start, r.path, q)))
    && (r.Count? && goals != [] && !g.Blocked(start) ==>
          exists q :: q in goals && !Reachable(g, canJump, start, q))
  }

  /** One goal wanted and the start is a goal: the empty path. */
  lemma AnswerAtStart(g: Grid, canJump: bool, start: Pos, goalList: seq<Pos>)
    requires g.InBounds(start) && start in goalList
    ensures Answer(g, canJump, start, goalList, false, Goal([], start, 1))
  {
    assert IsWalk(g, canJump, [start]);
    assert start in ReachableSet(g, canJump, start);
  }

  /** One goal wanted and the head of the queue is a goal: its trace is the answer. */
  lemma AnswerNearest(g: Grid, canJump: bool, start: Pos, targets: set<Pos>, cells: seq<seq<Cell>>,
                      queue: seq<Pos>, visited: set<Pos>, count: int, goals: set<Pos>, root: Pos, D: map<Pos, nat>, closed: set<Pos>,
                      goalList: seq<Pos>, p: seq<Token>)
    requires Phase(g, canJump, start, targets, false, cells, queue, visited, count, [], goals, {}, root, D, closed)
    requires targets == ToSet(goalList)
    requires queue != [] && queue[0] in goals && queue[0] in D
    requires Route(g, canJump, start, p) && Walk(start, p) == queue[0] && |p| == D[queue[0]]
    ensures Answer(g, canJump, start, goalList, false, Goal(p, queue[0], count))
  {
    Nearest(g, canJump, start, targets, cells, queue, visited, count, goals, root, D, closed);
    assert queue[0] in targets;
  }

  /** All goals wanted and the last one reached: the accumulated path is the answer. */
  lemma AnswerAll(g: Grid, canJump: bool, start: Pos, goalList: seq<Pos>, path: seq<Token>, reached: set<Pos>, count: int)
    requires reached == ToSet(goalList) && count >= 1
    requires Route(g, canJump, start, path) && forall q :: q in reached ==> Visits(start, path, q)
    ensures Answer(g, canJump, start, goalList, true, GoalSet(path, reached, count))
  {
  }

  /** When the queue runs dry, the search explored all of the current phase's reachable cells. */
  lemma AnswerDrained(g: Grid, canJump: bool, start: Pos, targets: set<Pos>, all: bool, cells: seq<seq<Cell>>,
                      visited: set<Pos>, count: int, path: seq<Token>, goals: set<Pos>, reached: set<Pos>,
                      root: Pos, D: map<Pos, nat>, closed: set<Pos>, goalList: seq<Pos>)
    requires Phase(g, canJump, start, targets, all, cells, [], visited, count, path, goals, reached, root, D, closed)
    requires targets == ToSet(goalList) && forall i :: 0 <= i < |goalList| ==> g.InBounds(goalList[i])
    ensures Answer(g, canJump, start, goalList, all, Count(count))
  {
    assert ToSet([]) == {};
    ExhaustedTree(g, cells, canJump, root, visited, D);
    if !all {
      forall q | q in goalList ensures !Reachable(g, canJump, start, q) {
        var i :| 0 <= i < |goalList| && goalList[i] == q;
        assert q in targets;
      }
    }
    if all && goalList != [] && !g.Blocked(start) {
      assert goalList[0] in targets;
      var q :| q in goals;
      Backtrack(g, canJump, start, root);
      ReachClosed(g, canJump, root, start);
      assert q in goalList && !Reachable(g, canJump, start, q);
    }
  }
}

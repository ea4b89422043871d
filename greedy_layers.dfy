/**
 * The proof layer of greedy best-first search (`algorithms/greedy.py`): an
 * open list keyed by `h`, the Manhattan distance to the target, a closed
 * set, and a neighbour taken only when it is neither closed nor already
 * open. Each pop takes an open cell nearest the target; the search tree
 * over the discovered cells makes every goal popped reachable along its
 * trace, and an empty open list means every reachable cell was discovered.
 */
module GreedyLayers {
  import opened Wrappers
  import opened Cells
  import opened Grids
  import opened Agents
  import opened Searching
  import Seqs
  import opened GoalLists
  import opened Informed

  /** The cell `c` carries its Manhattan distance to the target as `h`. */
  ghost predicate Hinted(cells: seq<seq<Cell>>, target: Pos, c: Pos)
  {
    At(cells, c).h == Manhattan(c, target)
  }

  /** Every open cell is hinted. */
  ghost predicate Aimed(cells: seq<seq<Cell>>, S: seq<Pos>, target: Pos)
  {
    forall x {:trigger Hinted(cells, target, x)} :: x in S ==> Hinted(cells, target, x)
  }

  /**
   * What holds between two pops, except that the moves out of `current`
   * need not be covered yet: a search tree over the discovered cells (the
   * closed ones and the open ones), the open list without repeats and apart
   * from the closed set, every open cell hinted, and the moves out of the
   * other closed cells covered.
   */
  ghost predicate Widening(g: Grid, cells: seq<seq<Cell>>, root: Pos, target: Pos,
                           S: seq<Pos>, closed: set<Pos>, D: map<Pos, nat>, current: Pos)
  {
    && Tree(g, cells, false, root, closed + ToSet(S), D)
    && Seqs.Distinct(S) && (forall x :: x in S ==> x !in closed)
    && Aimed(cells, S, target)
    && Spread(g, closed + ToSet(S), closed - {current})
  }

  /** The loop state between two pops: `Widening` with the moves out of every closed cell covered. */
  ghost predicate Fringe(g: Grid, cells: seq<seq<Cell>>, root: Pos, target: Pos,
                         S: seq<Pos>, closed: set<Pos>, D: map<Pos, nat>)
  {
    && Widening(g, cells, root, target, S, closed, D, root)
    && Spread(g, closed + ToSet(S), closed)
  }

  /** The state after the start (or the restart cell) is hinted, with nothing closed. */
  lemma Begin(g: Grid, cells: seq<seq<Cell>>, root: Pos, target: Pos)
    requires g.InBounds(root) && At(cells, root).parent == None && At(cells, root).h == Manhattan(root, target)
    ensures Fringe(g, cells, root, target, [root], {}, map[root := 0])
  {
    assert ToSet([root]) == {root};
    Singleton(g, cells, false, root);
    assert Hinted(cells, target, root);
  }

  /** A cell of least `h` on a hinted open list is an open cell nearest the target. */
  lemma Nearest(cells: seq<seq<Cell>>, S: seq<Pos>, target: Pos, i: int)
    requires Aimed(cells, S, target) && Least(HKeys(cells, S), i)
    ensures forall x :: x in S ==> Manhattan(S[i], target) <= Manhattan(x, target)
  {
    forall x | x in S ensures Manhattan(S[i], target) <= Manhattan(x, target) {
      var j :| 0 <= j < |S| && S[j] == x;
      assert HKeys(cells, S)[i] <= HKeys(cells, S)[j];
      assert Hinted(cells, target, S[i]) && Hinted(cells, target, x);
    }
  }

  /** Popping the open cell `S[i]` and adding it to the closed set: the moves out of it are the ones left to cover. */
  lemma Popped(g: Grid, cells: seq<seq<Cell>>, root: Pos, target: Pos,
               S: seq<Pos>, closed: set<Pos>, D: map<Pos, nat>, i: int)
    requires Fringe(g, cells, root, target, S, closed, D) && 0 <= i < |S|
    ensures S[i] !in closed && g.InBounds(S[i])
    ensures (closed + {S[i]}) + ToSet(Without(S, i)) == closed + ToSet(S)
    ensures Widening(g, cells, root, target, Without(S, i), closed + {S[i]}, D, S[i])
  {
    var u := S[i];
    var S' := Without(S, i);
    var closed' := closed + {u};
    assert u in ToSet(S);
    WithoutMembers(S, i);
    assert closed' + ToSet(S') == closed + ToSet(S);
    forall x | x in S' ensures x !in closed' {
      assert x in ToSet(S');
    }
    forall x | x in S' ensures Hinted(cells, target, x) {
      assert x in ToSet(S');
    }
    forall u0, v | u0 in closed' - {u} ensures Covered(g, closed' + ToSet(S'), u0, v) {
      assert Covered(g, closed + ToSet(S), u0, v);
    }
  }

  /** A neighbour that is blocked, closed or already open needs nothing done. */
  lemma Skipped(g: Grid, V: set<Pos>, current: Pos, ns: seq<Pos>, k: nat)
    requires Swept(g, V, current, ns, k) && k < |ns|
    requires g.Blocked(ns[k]) || ns[k] in V
    ensures Swept(g, V, current, ns, k + 1)
  {
  }

  /** A neighbour seen for the first time is hung below `current`, hinted, and pushed. */
  lemma Discovered(g: Grid, cells: seq<seq<Cell>>, cells': seq<seq<Cell>>, root: Pos, target: Pos,
                   S: seq<Pos>, closed: set<Pos>, D: map<Pos, nat>, current: Pos, ns: seq<Pos>, k: nat)
    requires WellFormed(cells, g.height, g.width, g.walls)
    requires Widening(g, cells, root, target, S, closed, D, current) && current in closed
    requires Swept(g, closed + ToSet(S), current, ns, k) && k < |ns|
    requires Edge(g, false, current, ns[k]) && ns[k] !in closed && ns[k] !in S && current in D
    requires cells' == Put(cells, ns[k], At(cells, ns[k]).(h := Manhattan(ns[k], target), parent := Some(current)))
    ensures var n := ns[k];
      && Widening(g, cells', root, target, S + [n], closed, D[n := D[current] + 1], current)
      && Swept(g, closed + ToSet(S + [n]), current, ns, k + 1)
      && |closed + ToSet(S + [n])| == |closed + ToSet(S)| + 1
  {
    var n := ns[k];
    var V := closed + ToSet(S);
    assert current in V && n !in V;
    var c := At(cells, n).(h := Manhattan(n, target), parent := Some(current));
    var S' := S + [n];
    ToSetSnoc(S, n);
    assert closed + ToSet(S') == V + {n};
    Hang(g, cells, root, V, D, current, n, c);
    Seqs.DistinctSnoc(S, n);
    PutAt(g, cells, n, c);
    forall x | x in S' ensures Hinted(cells', target, x) {
      if x != n {
        assert x in S;
        assert Hinted(cells, target, x);
      }
    }
    forall u, v | u in closed - {current} ensures Covered(g, V + {n}, u, v) {
      assert Covered(g, V, u, v);
    }
    forall j | 0 <= j < k + 1 && j < |ns| ensures Covered(g, V + {n}, current, ns[j]) {
      if j < k {
        assert Covered(g, V, current, ns[j]);
      }
    }
  }

  /** Once every neighbour of `current` is handled, the moves out of every closed cell are covered again. */
  lemma Finished(g: Grid, cells: seq<seq<Cell>>, root: Pos, target: Pos,
                 S: seq<Pos>, closed: set<Pos>, D: map<Pos, nat>, current: Pos)
    requires Widening(g, cells, root, target, S, closed, D, current) && current in closed
    requires Swept(g, closed + ToSet(S), current, g.Neighbors(current, false), |g.Neighbors(current, false)|)
    ensures Fringe(g, cells, root, target, S, closed, D)
  {
    var V := closed + ToSet(S);
    var ns := g.Neighbors(current, false);
    assert g.InBounds(current);
    forall u, v | u in closed ensures Covered(g, V, u, v) {
      if u == current {
        EdgeIsNeighbor(g, false, current, v);
        if Edge(g, false, current, v) {
          var j :| 0 <= j < |ns| && ns[j] == v;
          assert Covered(g, V, current, ns[j]);
        }
      } else {
        assert u in closed - {current};
        assert Covered(g, V, u, v);
      }
    }
    forall u, v | u in closed - {root} ensures Covered(g, V, u, v) {
      assert u in closed;
      assert Covered(g, V, u, v);
    }
  }

  /** A popped goal: the parent chain is finite and its trace is a legal route from the root to it. */
  lemma Arrived(g: Grid, cells: seq<seq<Cell>>, root: Pos, target: Pos, goals: seq<Pos>,
                S: seq<Pos>, closed: set<Pos>, D: map<Pos, nat>, c: Pos, count: int, suffix: bool)
    requires Widening(g, cells, root, target, S, closed, D, c) && c in closed && c in goals
    requires count == |closed + ToSet(S)|
    ensures c in D && RootedWithin(cells, c, D[c])
    ensures OneFound(g, root, goals, Goal(Tokens(cells, c, D[c], suffix, true), c, count))
  {
    var V := closed + ToSet(S);
    TreeTrace(g, cells, false, root, V, D, c, suffix);
    TreeWithinReach(g, cells, false, root, V, D);
  }

  /** An empty open list: the closed cells are everything reachable, and none is a goal. */
  lemma Drained(g: Grid, cells: seq<seq<Cell>>, root: Pos, target: Pos, goals: seq<Pos>,
                closed: set<Pos>, D: map<Pos, nat>, count: int)
    requires Fringe(g, cells, root, target, [], closed, D) && count == |closed + ToSet([])|
    requires forall c :: c in closed ==> c !in goals
    requires forall i :: 0 <= i < |goals| ==> g.InBounds(goals[i])
    ensures closed == ReachableSet(g, false, root)
    ensures OneFound(g, root, goals, Count(count))
  {
    assert ToSet([]) == {};
    assert closed + ToSet([]) == closed;
    forall c, n | c in closed && Edge(g, false, c, n) ensures n in closed {
      assert Covered(g, closed, c, n);
    }
    ExhaustedTree(g, cells, false, root, closed, D);
    forall q | q in goals ensures !Reachable(g, false, root, q) {
      var i :| 0 <= i < |goals| && goals[i] == q;
    }
  }

  /**
   * The loop state of `search_all`: the current phase is a greedy search
   * from `root` (the start, or the goal found last) aimed at `target`, the
   * goals are tallied, and `path` leads from the start through every found
   * goal to `root`.
   */
  ghost predicate Ranging(g: Grid, start: Pos, targets: seq<Pos>, cells: seq<seq<Cell>>,
                          S: seq<Pos>, closed: set<Pos>, count: int, path: seq<Token>, goals: seq<Pos>, found: seq<Pos>,
                          root: Pos, target: Pos, D: map<Pos, nat>)
  {
    && Fringe(g, cells, root, target, S, closed, D)
    && Tallied(targets, goals, found, closed)
    && (targets != [] ==> goals != [])
    && Travelled(g, false, start, path, ToSet(found), root)
    && count >= 1
  }

  /** The state after the reset and the start's hint. */
  lemma RangingBegin(g: Grid, start: Pos, targets: seq<Pos>, cells: seq<seq<Cell>>, target: Pos)
    requires g.InBounds(start) && At(cells, start).parent == None && At(cells, start).h == Manhattan(start, target)
    ensures Ranging(g, start, targets, cells, [start], {}, 1, [], targets, [], start, target, map[start := 0])
  {
    assert IsWalk(g, false, [start]);
    assert ToSet([]) == {};
    Begin(g, cells, start, target);
  }

  /** A restart at the goal `root` just recorded, with `h` aimed at the next target. */
  lemma RestartedRanging(g: Grid, start: Pos, targets: seq<Pos>, cells: seq<seq<Cell>>,
                         root: Pos, count: int, path: seq<Token>, goals: seq<Pos>, found: seq<Pos>, target: Pos)
    requires WellFormed(cells, g.height, g.width, g.walls)
    requires Restarted(g, start, targets, cells, root, count, path, goals, found) && goals != []
    ensures var cells' := Put(cells, root, At(cells, root).(h := Manhattan(root, target), parent := None));
      Ranging(g, start, targets, cells', [root], {}, count, path, goals, found, root, target, map[root := 0])
  {
    var cells' := Put(cells, root, At(cells, root).(h := Manhattan(root, target), parent := None));
    Begin(g, cells', root, target);
  }

  /** Expanding a popped cell that is not a goal keeps the state. */
  lemma RangingExpanded(g: Grid, start: Pos, targets: seq<Pos>, cells: seq<seq<Cell>>,
                        S: seq<Pos>, closed: set<Pos>, count: int, path: seq<Token>, goals: seq<Pos>, found: seq<Pos>,
                        root: Pos, target: Pos, D: map<Pos, nat>, current: Pos,
                        cells': seq<seq<Cell>>, S': seq<Pos>, count': int, D': map<Pos, nat>)
    requires Ranging(g, start, targets, cells, S, closed, count, path, goals, found, root, target, D)
    requires current !in goals && count' >= count
    requires Fringe(g, cells', root, target, S', closed + {current}, D')
    ensures Ranging(g, start, targets, cells', S', closed + {current}, count', path, goals, found, root, target, D')
  {
  }

  /** A popped goal: its trace is appended, it is recorded as found and dropped from the wanted goals, and the search restarts at it. */
  lemma RangingFound(g: Grid, start: Pos, targets: seq<Pos>, cells: seq<seq<Cell>>,
                     S: seq<Pos>, closed: set<Pos>, count: int, path: seq<Token>, goals: seq<Pos>, found: seq<Pos>,
                     root: Pos, target: Pos, D: map<Pos, nat>, c: Pos, suffix: bool)
    requires Tallied(targets, goals, found, {}) && Travelled(g, false, start, path, ToSet(found), root)
    requires count >= 1 && c in goals
    requires Widening(g, cells, root, target, S, closed, D, c) && c in closed
    ensures g.InBounds(c) && c in D && RootedWithin(cells, c, D[c])
    ensures Restarted(g, start, targets, Put(cells, c, At(cells, c).(parent := None)), c, count,
                      path + Tokens(cells, c, D[c], suffix, true), Seqs.RemoveFirst(goals, c), found + [c])
  {
    var V := closed + ToSet(S);
    TreeTrace(g, cells, false, root, V, D, c, suffix);
    var w := TreeWalk(g, cells, false, root, V, D, c);
    if c != root {
      TreeUnblocked(g, cells, false, root, V, D, c);
    }
    Reached(g, start, targets, cells, root, count, path, goals, found, {}, c, Tokens(cells, c, D[c], suffix, true));
  }

  /** An empty open list: the phase's closed cells are all that is reachable from its root, and no wanted goal is among them. */
  lemma RangingDrained(g: Grid, start: Pos, targets: seq<Pos>, cells: seq<seq<Cell>>,
                       closed: set<Pos>, count: int, path: seq<Token>, goals: seq<Pos>, found: seq<Pos>,
                       root: Pos, target: Pos, D: map<Pos, nat>)
    requires Ranging(g, start, targets, cells, [], closed, count, path, goals, found, root, target, D)
    requires forall i :: 0 <= i < |goals| ==> g.InBounds(goals[i])
    ensures AllFound(g, start, targets, goals, Count(count))
  {
    assert ToSet([]) == {};
    assert closed + ToSet([]) == closed;
    forall c, n | c in closed && Edge(g, false, c, n) ensures n in closed {
      assert Covered(g, closed, c, n);
    }
    ExhaustedTree(g, cells, false, root, closed, D);
    if !g.Blocked(start) {
      Backtrack(g, false, start, root);
      forall q | q in goals ensures !Reachable(g, false, start, q) {
        var i :| 0 <= i < |goals| && goals[i] == q;
        if Reachable(g, false, start, q) {
          JoinReach(g, false, root, start, q);
        }
      }
    }
  }
}

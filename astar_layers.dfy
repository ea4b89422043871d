/**
 * The proof layer of A* search (`algorithms/astar.py`). With unit moves and
 * the Manhattan distance to the target as `h`, a cell of least `f = g + h`
 * popped from the open list already has its least `g`, so every closed cell
 * sits at its distance from the root in the search tree, and the goal that
 * is popped first is reached along a shortest route.
 */
module AStarLayers {
  import opened Wrappers
  import opened Cells
  import opened Grids
  import opened Agents
  import opened Searching
  import Seqs
  import opened GoalLists
  import opened Informed

  /** The cell `c` has its depth in `D` as `g` and its Manhattan distance to the target as `h`. */
  ghost predicate Keyed(cells: seq<seq<Cell>>, D: map<Pos, nat>, target: Pos, c: Pos)
  {
    c in D && At(cells, c).g == D[c] && At(cells, c).h == Manhattan(c, target)
  }

  /** Every visited cell is keyed. */
  ghost predicate Annotated(cells: seq<seq<Cell>>, V: set<Pos>, D: map<Pos, nat>, target: Pos)
  {
    forall c {:trigger Keyed(cells, D, target, c)} :: c in V ==> Keyed(cells, D, target, c)
  }

  /** A move from `u` to a cell `v` that is not closed, if there is one, lands on the open list `S`, at most one level below `u`. */
  ghost predicate Pulled(g: Grid, S: seq<Pos>, D: map<Pos, nat>, closed: set<Pos>, u: Pos, v: Pos)
  {
    Edge(g, false, u, v) && v !in closed ==> v in S && u in D && v in D && D[v] <= D[u] + 1
  }

  /** Every move out of a cell of `from` is pulled. */
  ghost predicate Relaxed(g: Grid, S: seq<Pos>, D: map<Pos, nat>, closed: set<Pos>, from: set<Pos>)
  {
    forall u, v {:trigger Pulled(g, S, D, closed, u, v)} :: u in from ==> Pulled(g, S, D, closed, u, v)
  }

  /** The walk `w`, if it leads from the root to a closed cell, is no shorter than that cell's depth. */
  ghost predicate NoShortcut(g: Grid, root: Pos, closed: set<Pos>, D: map<Pos, nat>, w: seq<Pos>)
  {
    IsWalk(g, false, w) && w[0] == root && w[|w| - 1] in closed ==> w[|w| - 1] in D && D[w[|w| - 1]] <= |w| - 1
  }

  /** No walk from the root reaches a closed cell in fewer moves than that cell's depth. */
  ghost predicate Settled(g: Grid, root: Pos, closed: set<Pos>, D: map<Pos, nat>)
  {
    forall w {:trigger NoShortcut(g, root, closed, D, w)} :: NoShortcut(g, root, closed, D, w)
  }

  /**
   * What holds of the open list `S`, the closed set and the cell
   * annotations between two pops, except that the moves out of `current`
   * need not be pulled yet: a search tree over the visited cells, keyed
   * with `g` as depth and `h` as the distance to the target, the open list
   * without repeats and apart from the closed set, parents closed, moves
   * out of the other closed cells pulled, and the closed cells settled.
   */
  ghost predicate Expanding(g: Grid, cells: seq<seq<Cell>>, root: Pos, target: Pos,
                            S: seq<Pos>, closed: set<Pos>, D: map<Pos, nat>, current: Pos)
  {
    && Tree(g, cells, false, root, closed + ToSet(S), D)
    && Seqs.Distinct(S) && (forall x :: x in S ==> x !in closed)
    && Annotated(cells, closed + ToSet(S), D, target)
    && ParentsClosed(cells, root, closed + ToSet(S), closed)
    && Relaxed(g, S, D, closed, closed - {current})
    && Settled(g, root, closed, D)
  }

  /** The loop state of A* between two pops: `Expanding` with the moves out of every closed cell pulled. */
  ghost predicate Open(g: Grid, cells: seq<seq<Cell>>, root: Pos, target: Pos,
                       S: seq<Pos>, closed: set<Pos>, D: map<Pos, nat>)
  {
    && Expanding(g, cells, root, target, S, closed, D, root)
    && Relaxed(g, S, D, closed, closed)
  }

  /** The moves from `current` to its first `k` neighbours `ns` are pulled. */
  ghost predicate Handled(g: Grid, S: seq<Pos>, D: map<Pos, nat>, closed: set<Pos>, current: Pos, ns: seq<Pos>, k: nat)
  {
    forall j :: 0 <= j < k && j < |ns| ==> Pulled(g, S, D, closed, current, ns[j])
  }

  /** The state after the start (or the restart cell) is annotated, with nothing closed. */
  lemma Begin(g: Grid, cells: seq<seq<Cell>>, root: Pos, target: Pos)
    requires g.InBounds(root) && At(cells, root).parent == None
    requires At(cells, root).g == 0 && At(cells, root).h == Manhattan(root, target)
    ensures Open(g, cells, root, target, [root], {}, map[root := 0])
  {
    assert ToSet([root]) == {root};
    Singleton(g, cells, false, root);
    assert Keyed(cells, map[root := 0], target, root);
  }

  /**
   * A walk from the root to a cell that is not closed leaves the closed
   * cells at an open cell `w[k]` no deeper than `k`: the root itself, or
   * a neighbour of a closed cell that is settled.
   */
  lemma FirstOpen(g: Grid, root: Pos, S: seq<Pos>, closed: set<Pos>, D: map<Pos, nat>, w: seq<Pos>) returns (k: nat)
    requires Relaxed(g, S, D, closed, closed) && Settled(g, root, closed, D)
    requires root !in closed ==> root in S && root in D && D[root] == 0
    requires IsWalk(g, false, w) && w[0] == root && w[|w| - 1] !in closed
    ensures k < |w| && w[k] in S && w[k] in D && D[w[k]] <= k
  {
    k := 0;
    while w[k] in closed
      invariant k < |w| && (k > 0 ==> w[k - 1] in closed)
      decreases |w| - k
    {
      k := k + 1;
    }
    if k > 0 {
      SubWalk(g, w, 0, k);
      assert w[..k][k - 1] == w[k - 1];
      assert NoShortcut(g, root, closed, D, w[..k]);
      assert Edge(g, false, w[k - 1], w[k]);
      assert Pulled(g, S, D, closed, w[k - 1], w[k]);
    }
  }

  /**
   * The heart of A*: no walk from the root reaches a cell `S[i]` of least
   * `f` on the open list in fewer moves than its `g`. The walk leaves the
   * closed cells at an open cell `v` no deeper than its position on the
   * walk, `S[i]` has an `f` no larger than `v`'s, and from `v` the Manhattan
   * distance to `S[i]`, which bounds the difference of their `h`, is at
   * most the rest of the walk.
   */
  lemma SettleWalk(g: Grid, cells: seq<seq<Cell>>, root: Pos, target: Pos,
                   S: seq<Pos>, closed: set<Pos>, D: map<Pos, nat>, i: int, w: seq<Pos>)
    requires Open(g, cells, root, target, S, closed, D) && Least(FKeys(cells, S), i)
    requires IsWalk(g, false, w) && w[0] == root && w[|w| - 1] == S[i]
    ensures S[i] in D && D[S[i]] <= |w| - 1
  {
    var u := S[i];
    var V := closed + ToSet(S);
    assert u in ToSet(S) && root in V && u !in closed;
    var k := FirstOpen(g, root, S, closed, D, w);
    var v := w[k];
    var j :| 0 <= j < |S| && S[j] == v;
    assert FKeys(cells, S)[i] <= FKeys(cells, S)[j];
    assert v in ToSet(S);
    assert Keyed(cells, D, target, u) && Keyed(cells, D, target, v);
    SubWalk(g, w, k, |w|);
    UnitWalkSpan(g, w[k..]);
    ManhattanMetric(v, u, target);
  }

  /**
   * Popping a cell of least `f` and adding it to the closed set: every
   * closed cell is still settled, and the moves out of the popped cell are
   * the ones left to pull.
   */
  lemma Popped(g: Grid, cells: seq<seq<Cell>>, root: Pos, target: Pos,
               S: seq<Pos>, closed: set<Pos>, D: map<Pos, nat>, i: int)
    requires Open(g, cells, root, target, S, closed, D) && Least(FKeys(cells, S), i)
    ensures S[i] !in closed && g.InBounds(S[i])
    ensures (closed + {S[i]}) + ToSet(Without(S, i)) == closed + ToSet(S)
    ensures Expanding(g, cells, root, target, Without(S, i), closed + {S[i]}, D, S[i])
  {
    var u := S[i];
    var S' := Without(S, i);
    var closed' := closed + {u};
    assert u in ToSet(S);
    WithoutMembers(S, i);
    assert closed' + ToSet(S') == closed + ToSet(S);
    forall x | x in S' ensures x !in closed' {
      assert x in ToSet(S');
    }
    forall c | c in closed + ToSet(S) && c != root ensures HangsClosed(cells, closed', c) {
      assert HangsClosed(cells, closed, c);
    }
    forall u0, v | u0 in closed' - {u} ensures Pulled(g, S', D, closed', u0, v) {
      assert Pulled(g, S, D, closed, u0, v);
      if Edge(g, false, u0, v) && v !in closed' {
        assert v in ToSet(S) - {u};
      }
    }
    forall w ensures NoShortcut(g, root, closed', D, w) {
      if IsWalk(g, false, w) && w[0] == root && w[|w| - 1] == u {
        SettleWalk(g, cells, root, target, S, closed, D, i, w);
      } else {
        assert NoShortcut(g, root, closed, D, w);
      }
    }
  }

  /** A neighbour that is blocked, closed, or open no deeper than `current`'s next level needs nothing done. */
  lemma Skipped(g: Grid, S: seq<Pos>, D: map<Pos, nat>, closed: set<Pos>, current: Pos, ns: seq<Pos>, k: nat)
    requires Handled(g, S, D, closed, current, ns, k) && k < |ns|
    requires g.Blocked(ns[k]) || ns[k] in closed || (ns[k] in S && current in D && ns[k] in D && D[ns[k]] <= D[current] + 1)
    ensures Handled(g, S, D, closed, current, ns, k + 1)
  {
  }

  /** Giving `n` the depth `d` as its `g` and its distance to the target as `h` keeps the annotations, with `n` visited. */
  lemma AnnotatedPut(cells: seq<seq<Cell>>, cells': seq<seq<Cell>>, V: set<Pos>, D: map<Pos, nat>, target: Pos, n: Pos, d: nat)
    requires Annotated(cells, V, D, target)
    requires forall q :: q != n ==> At(cells', q) == At(cells, q)
    requires At(cells', n).g == d && At(cells', n).h == Manhattan(n, target)
    ensures Annotated(cells', V + {n}, D[n := d], target)
  {
    forall c | c in V + {n} ensures Keyed(cells', D[n := d], target, c) {
      if c != n {
        assert Keyed(cells, D, target, c);
      }
    }
  }

  /** Lowering the depth of a cell `n` that is not closed, and keeping every open cell open, keeps the moves pulled. */
  lemma RelaxedPut(g: Grid, S: seq<Pos>, S': seq<Pos>, D: map<Pos, nat>, closed: set<Pos>, from: set<Pos>, n: Pos, d: nat)
    requires Relaxed(g, S, D, closed, from) && from <= closed && n !in closed
    requires forall x :: x in S ==> x in S'
    requires n in S ==> n in D && d <= D[n]
    ensures Relaxed(g, S', D[n := d], closed, from)
  {
    var D' := D[n := d];
    forall u, v | u in from ensures Pulled(g, S', D', closed, u, v) {
      assert Pulled(g, S, D, closed, u, v);
      assert u != n;
    }
  }

  /** Changing the depth of a cell that is not closed keeps the closed cells settled. */
  lemma SettledPut(g: Grid, root: Pos, closed: set<Pos>, D: map<Pos, nat>, n: Pos, d: nat)
    requires Settled(g, root, closed, D) && n !in closed
    ensures Settled(g, root, closed, D[n := d])
  {
    var D' := D[n := d];
    forall w ensures NoShortcut(g, root, closed, D', w) {
      assert NoShortcut(g, root, closed, D, w);
    }
  }

  /** The neighbour `ns[k]`, made open one level below `current`, is handled. */
  lemma HandledPut(g: Grid, S: seq<Pos>, S': seq<Pos>, D: map<Pos, nat>, closed: set<Pos>, current: Pos, ns: seq<Pos>, k: nat)
    requires Handled(g, S, D, closed, current, ns, k) && k < |ns|
    requires current in D && current != ns[k] && ns[k] in S'
    requires forall x :: x in S ==> x in S'
    requires ns[k] in S ==> ns[k] in D && D[current] + 1 <= D[ns[k]]
    ensures Handled(g, S', D[ns[k] := D[current] + 1], closed, current, ns, k + 1)
  {
    forall j | 0 <= j < k + 1 && j < |ns| ensures Pulled(g, S', D[ns[k] := D[current] + 1], closed, current, ns[j]) {
      if j < k {
        assert Pulled(g, S, D, closed, current, ns[j]);
      }
    }
  }

  /** The annotations of a visited cell: its depth as `g`, its distance to the target as `h`. */
  lemma KeyOf(g: Grid, cells: seq<seq<Cell>>, root: Pos, target: Pos, S: seq<Pos>, closed: set<Pos>, D: map<Pos, nat>,
              current: Pos, c: Pos)
    requires Expanding(g, cells, root, target, S, closed, D, current) && (c in closed || c in S)
    ensures c in D && At(cells, c).g == D[c] && At(cells, c).h == Manhattan(c, target)
  {
    assert c in closed + ToSet(S);
    assert Keyed(cells, D, target, c);
  }

  /** A neighbour seen for the first time is hung below `current` one level down, keyed, and pushed. */
  lemma Discovered(g: Grid, cells: seq<seq<Cell>>, cells': seq<seq<Cell>>, root: Pos, target: Pos,
                   S: seq<Pos>, closed: set<Pos>, D: map<Pos, nat>, current: Pos, ns: seq<Pos>, k: nat)
    requires WellFormed(cells, g.height, g.width, g.walls)
    requires Expanding(g, cells, root, target, S, closed, D, current) && current in closed
    requires Handled(g, S, D, closed, current, ns, k) && k < |ns|
    requires Edge(g, false, current, ns[k]) && ns[k] !in closed && ns[k] !in S && current in D
    requires cells' == Put(cells, ns[k], At(cells, ns[k]).(g := D[current] + 1, h := Manhattan(ns[k], target), parent := Some(current)))
    ensures var n := ns[k];
      && Expanding(g, cells', root, target, S + [n], closed, D[n := D[current] + 1], current)
      && Handled(g, S + [n], D[n := D[current] + 1], closed, current, ns, k + 1)
      && |closed + ToSet(S + [n])| == |closed + ToSet(S)| + 1
  {
    var n := ns[k];
    var V := closed + ToSet(S);
    assert current in V && n !in V;
    var d := D[current] + 1;
    var c := At(cells, n).(g := d, h := Manhattan(n, target), parent := Some(current));
    var S' := S + [n];
    ToSetSnoc(S, n);
    assert closed + ToSet(S') == V + {n};
    Hang(g, cells, root, V, D, current, n, c);
    Seqs.DistinctSnoc(S, n);
    PutAt(g, cells, n, c);
    AnnotatedPut(cells, cells', V, D, target, n, d);
    ParentsPut(cells, cells', root, V, closed, n, current);
    RelaxedPut(g, S, S', D, closed, closed - {current}, n, d);
    SettledPut(g, root, closed, D, n, d);
    HandledPut(g, S, S', D, closed, current, ns, k);
  }

  /** A neighbour already open but deeper than `current`'s next level is moved under `current`, one level down, keeping its `h`. */
  lemma Improved(g: Grid, cells: seq<seq<Cell>>, cells': seq<seq<Cell>>, root: Pos, target: Pos,
                 S: seq<Pos>, closed: set<Pos>, D: map<Pos, nat>, current: Pos, ns: seq<Pos>, k: nat)
    requires WellFormed(cells, g.height, g.width, g.walls)
    requires Expanding(g, cells, root, target, S, closed, D, current) && current in closed
    requires Handled(g, S, D, closed, current, ns, k) && k < |ns|
    requires Edge(g, false, current, ns[k]) && ns[k] in S && current in D && ns[k] in D && D[current] + 1 < D[ns[k]]
    requires cells' == Put(cells, ns[k], At(cells, ns[k]).(g := D[current] + 1, parent := Some(current)))
    ensures var n := ns[k];
      && Expanding(g, cells', root, target, S, closed, D[n := D[current] + 1], current)
      && Handled(g, S, D[n := D[current] + 1], closed, current, ns, k + 1)
  {
    var n := ns[k];
    var V := closed + ToSet(S);
    assert n in ToSet(S) && n !in closed && current in V;
    assert Keyed(cells, D, target, n);
    var d := D[current] + 1;
    var c := At(cells, n).(g := d, parent := Some(current));
    forall q | q in V && q != root ensures At(cells, q).parent != Some(n) {
      assert Linked(g, cells, false, V, D, q);
      assert HangsClosed(cells, closed, q);
    }
    Reparent(g, cells, root, V, D, current, n, c);
    assert V + {n} == V;
    PutAt(g, cells, n, c);
    AnnotatedPut(cells, cells', V, D, target, n, d);
    ParentsPut(cells, cells', root, V, closed, n, current);
    RelaxedPut(g, S, S, D, closed, closed - {current}, n, d);
    SettledPut(g, root, closed, D, n, d);
    HandledPut(g, S, S, D, closed, current, ns, k);
  }

  /** Once every neighbour of `current` is handled, the moves out of every closed cell are pulled again. */
  lemma Finished(g: Grid, cells: seq<seq<Cell>>, root: Pos, target: Pos,
                 S: seq<Pos>, closed: set<Pos>, D: map<Pos, nat>, current: Pos)
    requires Expanding(g, cells, root, target, S, closed, D, current) && current in closed
    requires Handled(g, S, D, closed, current, g.Neighbors(current, false), |g.Neighbors(current, false)|)
    ensures Open(g, cells, root, target, S, closed, D)
  {
    var ns := g.Neighbors(current, false);
    assert g.InBounds(current);
    forall u, v | u in closed ensures Pulled(g, S, D, closed, u, v) {
      if u == current {
        EdgeIsNeighbor(g, false, current, v);
        if Edge(g, false, current, v) {
          var j :| 0 <= j < |ns| && ns[j] == v;
          assert Pulled(g, S, D, closed, current, ns[j]);
        }
      } else {
        assert u in closed - {current};
        assert Pulled(g, S, D, closed, u, v);
      }
    }
    forall u, v | u in closed - {root} ensures Pulled(g, S, D, closed, u, v) {
      assert u in closed;
      assert Pulled(g, S, D, closed, u, v);
    }
  }

  /** What `search` promises: as `OneFound`, and a goal it returns is reached by a shortest route. */
  ghost predicate OneShortest(g: Grid, start: Pos, goals: seq<Pos>, r: Outcome)
  {
    && OneFound(g, start, goals, r)
    && (r.Goal? ==> forall w :: IsWalk(g, false, w) && w[0] == start && w[|w| - 1] == r.goal ==> |r.path| <= |w| - 1)
  }

  /** A start that is a goal: the empty path is a shortest route. */
  lemma ShortestAtStart(g: Grid, start: Pos, goals: seq<Pos>)
    requires g.InBounds(start) && start in goals
    ensures OneShortest(g, start, goals, Goal([], start, 1))
  {
    FoundAtStart(g, start, goals);
  }

  /** A popped goal: the parent chain is finite and its trace is a shortest route from the root. */
  lemma Arrived(g: Grid, cells: seq<seq<Cell>>, root: Pos, target: Pos, goals: seq<Pos>,
                S: seq<Pos>, closed: set<Pos>, D: map<Pos, nat>, c: Pos, count: int, suffix: bool)
    requires Expanding(g, cells, root, target, S, closed, D, c) && c in closed && c in goals
    requires count == |closed + ToSet(S)|
    ensures c in D && RootedWithin(cells, c, D[c])
    ensures OneShortest(g, root, goals, Goal(Tokens(cells, c, D[c], suffix, true), c, count))
  {
    var V := closed + ToSet(S);
    TreeTrace(g, cells, false, root, V, D, c, suffix);
    TreeWithinReach(g, cells, false, root, V, D);
    forall w | IsWalk(g, false, w) && w[0] == root && w[|w| - 1] == c ensures D[c] <= |w| - 1 {
      assert NoShortcut(g, root, closed, D, w);
    }
  }

  /** An empty open list: the closed cells are everything reachable, and none is a goal. */
  lemma Drained(g: Grid, cells: seq<seq<Cell>>, root: Pos, target: Pos, goals: seq<Pos>,
                closed: set<Pos>, D: map<Pos, nat>, count: int)
    requires Open(g, cells, root, target, [], closed, D) && count == |closed + ToSet([])|
    requires forall c :: c in closed ==> c !in goals
    requires forall i :: 0 <= i < |goals| ==> g.InBounds(goals[i])
    ensures closed == ReachableSet(g, false, root)
    ensures OneShortest(g, root, goals, Count(count))
  {
    assert ToSet([]) == {};
    assert closed + ToSet([]) == closed;
    forall c, n | c in closed && Edge(g, false, c, n) ensures n in closed {
      assert Pulled(g, [], D, closed, c, n);
    }
    ExhaustedTree(g, cells, false, root, closed, D);
    forall q | q in goals ensures !Reachable(g, false, root, q) {
      var i :| 0 <= i < |goals| && goals[i] == q;
    }
  }

  /**
   * The loop state of `search_all`: the current phase is an A* search from
   * `root` (the start, or the goal found last) aimed at `target`, the goals
   * are tallied, and `path` leads from the start through every found goal
   * to `root`.
   */
  ghost predicate Roaming(g: Grid, start: Pos, targets: seq<Pos>, cells: seq<seq<Cell>>,
                          S: seq<Pos>, closed: set<Pos>, count: int, path: seq<Token>, goals: seq<Pos>, found: seq<Pos>,
                          root: Pos, target: Pos, D: map<Pos, nat>)
  {
    && Open(g, cells, root, target, S, closed, D)
    && Tallied(targets, goals, found, closed)
    && (targets != [] ==> goals != [])
    && Travelled(g, false, start, path, ToSet(found), root)
    && count >= 1
  }

  /** The state after the reset and the start's annotation. */
  lemma RoamingBegin(g: Grid, start: Pos, targets: seq<Pos>, cells: seq<seq<Cell>>, target: Pos)
    requires g.InBounds(start) && At(cells, start).parent == None
    requires At(cells, start).g == 0 && At(cells, start).h == Manhattan(start, target)
    ensures Roaming(g, start, targets, cells, [start], {}, 1, [], targets, [], start, target, map[start := 0])
  {
    assert IsWalk(g, false, [start]);
    assert ToSet([]) == {};
    Begin(g, cells, start, target);
  }

  /** A restart at the goal `root` just recorded, with `g` cleared and `h` aimed at the next target. */
  lemma RestartedRoaming(g: Grid, start: Pos, targets: seq<Pos>, cells: seq<seq<Cell>>,
                         root: Pos, count: int, path: seq<Token>, goals: seq<Pos>, found: seq<Pos>, target: Pos)
    requires WellFormed(cells, g.height, g.width, g.walls)
    requires Restarted(g, start, targets, cells, root, count, path, goals, found) && goals != []
    ensures var cells' := Put(cells, root, At(cells, root).(g := 0, h := Manhattan(root, target), parent := None));
      Roaming(g, start, targets, cells', [root], {}, count, path, goals, found, root, target, map[root := 0])
  {
    var cells' := Put(cells, root, At(cells, root).(g := 0, h := Manhattan(root, target), parent := None));
    Begin(g, cells', root, target);
  }

  /** Expanding a popped cell that is not a goal keeps the state. */
  lemma RoamingExpanded(g: Grid, start: Pos, targets: seq<Pos>, cells: seq<seq<Cell>>,
                        S: seq<Pos>, closed: set<Pos>, count: int, path: seq<Token>, goals: seq<Pos>, found: seq<Pos>,
                        root: Pos, target: Pos, D: map<Pos, nat>, current: Pos,
                        cells': seq<seq<Cell>>, S': seq<Pos>, count': int, D': map<Pos, nat>)
    requires Roaming(g, start, targets, cells, S, closed, count, path, goals, found, root, target, D)
    requires current !in goals && count' >= count
    requires Open(g, cells', root, target, S', closed + {current}, D')
    ensures Roaming(g, start, targets, cells', S', closed + {current}, count', path, goals, found, root, target, D')
  {
  }

  /** A popped goal: its trace is appended, it is recorded as found and dropped from the wanted goals, and the search restarts at it. */
  lemma RoamingFound(g: Grid, start: Pos, targets: seq<Pos>, cells: seq<seq<Cell>>,
                     S: seq<Pos>, closed: set<Pos>, count: int, path: seq<Token>, goals: seq<Pos>, found: seq<Pos>,
                     root: Pos, target: Pos, D: map<Pos, nat>, c: Pos, suffix: bool)
    requires Tallied(targets, goals, found, {}) && Travelled(g, false, start, path, ToSet(found), root)
    requires count >= 1 && c in goals
    requires Expanding(g, cells, root, target, S, closed, D, c) && c in closed
    ensures g.InBounds(c) && c in D && RootedWithin(cells, c, D[c])
    ensures Restarted(g, start, targets, Put(cells, c, At(cells, c).(parent := None)), c, count,
                      path + Tokens(cells, c, D[c], suffix, true), Seqs.RemoveFirst(goals, c), found + [c])
  {
    var V := closed + ToSet(S);
    TreeTrace(g, cells, false, root, V, D, c, suffix);
    var w := TreeWalk(g, cells, false, root, V, D, c);
    if c != root {
      TreeUnblocked(g, cells, false, root, V, D, c);
    }
    Reached(g, start, targets, cells, root, count, path, goals, found, {}, c, Tokens(cells, c, D[c], suffix, true));
  }

  /** An empty open list: the phase's closed cells are all that is reachable from its root, and no wanted goal is among them. */
  lemma RoamingDrained(g: Grid, start: Pos, targets: seq<Pos>, cells: seq<seq<Cell>>,
                       closed: set<Pos>, count: int, path: seq<Token>, goals: seq<Pos>, found: seq<Pos>,
                       root: Pos, target: Pos, D: map<Pos, nat>)
    requires Roaming(g, start, targets, cells, [], closed, count, path, goals, found, root, target, D)
    requires forall i :: 0 <= i < |goals| ==> g.InBounds(goals[i])
    ensures AllFound(g, start, targets, goals, Count(count))
  {
    assert ToSet([]) == {};
    assert closed + ToSet([]) == closed;
    forall c, n | c in closed && Edge(g, false, c, n) ensures n in closed {
      assert Pulled(g, [], D, closed, c, n);
    }
    ExhaustedTree(g, cells, false, root, closed, D);
    if !g.Blocked(start) {
      Backtrack(g, false, start, root);
      forall q | q in goals ensures !Reachable(g, false, start, q) {
        var i :| 0 <= i < |goals| && goals[i] == q;
        if Reachable(g, false, start, q) {
          JoinReach(g, false, root, start, q);
        }
      }
    }
  }
}

/**
 * The proof layer of depth-first search (`algorithms/dfs.py`): the stack
 * invariant, the cells one expansion pushes, the loop state of `search` and
 * of `search_all`, the answers they return, and the lemmas that carry the
 * state from one turn of the loop to the next.
 */
module DfsLayers {
  import opened Wrappers
  import opened Cells
  import opened Grids
  import opened Neighborhoods
  import opened Agents
  import opened Searching
  import Seqs
  import opened GoalLists

  /** The cells an expansion of `current` pushes: its unit neighbours from the last direction to the first, unblocked and unvisited. */
  ghost function Pushed(g: Grid, V: set<Pos>, current: Pos): seq<Pos>
  {
    var rs := Seqs.Reversed(g.Neighbors(current, false));
    Unseen(g, rs, V, |rs|)
  }

  lemma PushedFacts(g: Grid, V: set<Pos>, current: Pos)
    requires g.InBounds(current)
    ensures Seqs.Distinct(Pushed(g, V, current))
    ensures forall n :: n in Pushed(g, V, current) <==> Edge(g, false, current, n) && n !in V
  {
    var ns := g.Neighbors(current, false);
    var rs := Seqs.Reversed(ns);
    NeighborsOrdered(g, current, false);
    Seqs.ReversedDistinct(ns);
    UnseenDistinct(g, rs, V, |rs|);
    UnseenMembers(g, rs, V, |rs|);
    forall n ensures n in rs <==> exists i :: 0 <= i < |rs| && rs[i] == n {
      if n in rs {
        var i :| 0 <= i < |rs| && rs[i] == n;
      }
    }
    forall n ensures Edge(g, false, current, n) <==> n in ns && !g.Blocked(n) {
      EdgeIsNeighbor(g, false, current, n);
    }
  }

  /** Popping the top of the stack and pushing its unseen neighbours keeps the stack discipline, with the top now closed. */
  lemma PushFrontier(g: Grid, V: set<Pos>, S: seq<Pos>, closed: set<Pos>, U: seq<Pos>)
    requires Frontier(g, V, S, closed) && S != []
    requires Seqs.Distinct(U)
    requires forall n :: n in U <==> Edge(g, false, S[|S| - 1], n) && n !in V
    ensures Frontier(g, V + ToSet(U), S[..|S| - 1] + U, closed + {S[|S| - 1]})
  {
    var c := S[|S| - 1];
    var I := S[..|S| - 1];
    assert S == I + [c];
    ToSetSnoc(I, c);
    ToSetConcat(I, U);
    var R := I + U;
    forall i, j | 0 <= i < j < |R| ensures R[i] != R[j] {
      if i < |I| && j >= |I| {
        assert R[i] == S[i] && S[i] in ToSet(S);
        assert R[j] == U[j - |I|];
      } else if i < |I| {
        assert R[i] == S[i] && R[j] == S[j];
      } else {
        assert R[i] == U[i - |I|] && R[j] == U[j - |I|];
      }
    }
    forall n | n in ToSet(U) ensures n in U && n !in V {
      var i :| 0 <= i < |U| && U[i] == n;
    }
    assert c in V;
  }

  /** The pushed cells are new, so the visited set grows by exactly their number. */
  lemma PushedCount(g: Grid, V: set<Pos>, current: Pos)
    requires g.InBounds(current)
    ensures |V + ToSet(Pushed(g, V, current))| == |V| + |Pushed(g, V, current)|
  {
    var U := Pushed(g, V, current);
    PushedFacts(g, V, current);
    DistinctCard(U);
    assert V * ToSet(U) == {};
  }

  /** Each expansion either visits a new grid cell or shortens the stack. */
  lemma PushedMeasure(g: Grid, V: set<Pos>, S: seq<Pos>)
    requires S != [] && g.InBounds(S[|S| - 1])
    ensures var V' := V + ToSet(Pushed(g, V, S[|S| - 1]));
      AllCells(g) - V' < AllCells(g) - V ||
      (AllCells(g) - V' == AllCells(g) - V && |S[..|S| - 1] + Pushed(g, V, S[|S| - 1])| < |S|)
  {
    var U := Pushed(g, V, S[|S| - 1]);
    PushedFacts(g, V, S[|S| - 1]);
    if U != [] {
      assert U[0] in ToSet(U) && U[0] !in V;
      InAllCells(g, U[0]);
    } else {
      assert ToSet(U) == {};
    }
  }

  /**
   * The loop state of `search`: a search tree from `start` over the
   * visited cells, the stack discipline, one count per visited cell, and
   * no closed cell is a goal.
   */
  ghost predicate Lone(g: Grid, start: Pos, goals: seq<Pos>, cells: seq<seq<Cell>>,
                       S: seq<Pos>, V: set<Pos>, count: int, D: map<Pos, nat>, closed: set<Pos>)
  {
    && Tree(g, cells, false, start, V, D)
    && Frontier(g, V, S, closed)
    && count == |V|
    && (forall c :: c in closed ==> c !in goals)
  }

  /** The state after the reset: the stack and the visited set hold the start alone. */
  lemma LoneBegin(g: Grid, start: Pos, goals: seq<Pos>, cells: seq<seq<Cell>>)
    requires g.InBounds(start) && At(cells, start).parent == None
    ensures Lone(g, start, goals, cells, [start], {start}, 1, map[start := 0], {})
  {
    Singleton(g, cells, false, start);
    assert ToSet([start]) == {start};
  }

  /** Expanding a top that is not a goal keeps the state. */
  lemma LoneExpanded(g: Grid, start: Pos, goals: seq<Pos>, cells: seq<seq<Cell>>,
                     S: seq<Pos>, V: set<Pos>, count: int, D: map<Pos, nat>, closed: set<Pos>,
                     cells': seq<seq<Cell>>, S': seq<Pos>, V': set<Pos>, count': int, D': map<Pos, nat>)
    requires Lone(g, start, goals, cells, S, V, count, D, closed) && S != [] && S[|S| - 1] !in goals
    requires Tree(g, cells', false, start, V', D') && Frontier(g, V', S', closed + {S[|S| - 1]})
    requires count' == count + |V'| - |V|
    ensures Lone(g, start, goals, cells', S', V', count', D', closed + {S[|S| - 1]})
  {
  }

  /** A goal on top of the stack: its parent chain is finite and its trace is a legal route from the start to it. */
  lemma LoneFound(g: Grid, start: Pos, goals: seq<Pos>, cells: seq<seq<Cell>>,
                  S: seq<Pos>, V: set<Pos>, count: int, D: map<Pos, nat>, closed: set<Pos>, suffix: bool)
    requires Lone(g, start, goals, cells, S, V, count, D, closed) && S != [] && S[|S| - 1] in goals
    ensures S[|S| - 1] in D && RootedWithin(cells, S[|S| - 1], D[S[|S| - 1]])
    ensures var c := S[|S| - 1];
      OneFound(g, start, goals, Goal(Tokens(cells, c, D[c], suffix, true), c, count))
  {
    var c := S[|S| - 1];
    assert c in ToSet(S);
    TreeTrace(g, cells, false, start, V, D, c, suffix);
    TreeWithinReach(g, cells, false, start, V, D);
  }

  /** An empty stack: the visited cells are every reachable cell, and none of them is a goal. */
  lemma LoneDrained(g: Grid, start: Pos, goals: seq<Pos>, cells: seq<seq<Cell>>,
                    V: set<Pos>, count: int, D: map<Pos, nat>, closed: set<Pos>)
    requires Lone(g, start, goals, cells, [], V, count, D, closed)
    requires forall i :: 0 <= i < |goals| ==> g.InBounds(goals[i])
    ensures OneFound(g, start, goals, Count(count))
  {
    assert ToSet([]) == {};
    ExhaustedTree(g, cells, false, start, V, D);
    forall q | q in goals ensures !Reachable(g, false, start, q) {
      var i :| 0 <= i < |goals| && goals[i] == q;
    }
  }

  /**
   * The loop state of `search_all`. The current phase searches from `root`
   * (the start, or the goal found last) with a search tree and the stack
   * discipline; the goals are tallied; while goals were wanted at all some
   * are still wanted; and `path` is a legal route from the start through
   * every found goal to `root`.
   */
  ghost predicate Roving(g: Grid, start: Pos, targets: seq<Pos>, cells: seq<seq<Cell>>,
                         S: seq<Pos>, V: set<Pos>, count: int, path: seq<Token>, goals: seq<Pos>, found: seq<Pos>,
                         root: Pos, D: map<Pos, nat>, closed: set<Pos>)
  {
    && Tree(g, cells, false, root, V, D)
    && Frontier(g, V, S, closed)
    && Tallied(targets, goals, found, closed)
    && (targets != [] ==> goals != [])
    && Travelled(g, false, start, path, ToSet(found), root)
    && count >= 1
  }

  /** A restart with goals still wanted is a phase whose stack and visited set hold only its root. */
  lemma RestartedRoving(g: Grid, start: Pos, targets: seq<Pos>, cells: seq<seq<Cell>>,
                        root: Pos, count: int, path: seq<Token>, goals: seq<Pos>, found: seq<Pos>)
    requires Restarted(g, start, targets, cells, root, count, path, goals, found) && goals != []
    ensures Roving(g, start, targets, cells, [root], {root}, count, path, goals, found, root, map[root := 0], {})
  {
    Singleton(g, cells, false, root);
    assert ToSet([root]) == {root};
  }

  /** The state after the reset: nothing found, the path empty, the start as root. */
  lemma RovingBegin(g: Grid, start: Pos, targets: seq<Pos>, cells: seq<seq<Cell>>)
    requires g.InBounds(start) && At(cells, start).parent == None
    ensures Roving(g, start, targets, cells, [start], {start}, 1, [], targets, [], start, map[start := 0], {})
  {
    assert IsWalk(g, false, [start]);
    assert ToSet([]) == {};
    Singleton(g, cells, false, start);
    assert ToSet([start]) == {start};
  }

  /** Expanding a top that is not a goal keeps the state. */
  lemma RovingExpanded(g: Grid, start: Pos, targets: seq<Pos>, cells: seq<seq<Cell>>,
                       S: seq<Pos>, V: set<Pos>, count: int, path: seq<Token>, goals: seq<Pos>, found: seq<Pos>,
                       root: Pos, D: map<Pos, nat>, closed: set<Pos>,
                       cells': seq<seq<Cell>>, S': seq<Pos>, V': set<Pos>, count': int, D': map<Pos, nat>)
    requires Roving(g, start, targets, cells, S, V, count, path, goals, found, root, D, closed)
    requires S != [] && S[|S| - 1] !in goals
    requires Tree(g, cells', false, root, V', D') && Frontier(g, V', S', closed + {S[|S| - 1]})
    requires count' >= count
    ensures Roving(g, start, targets, cells', S', V', count', path, goals, found, root, D', closed + {S[|S| - 1]})
  {
  }

  /**
   * A goal on top of the stack: its parent chain is finite, and after its
   * trace is appended, it is recorded as found and removed (its first
   * occurrence) from the wanted goals, the search restarts at it.
   */
  lemma RovingFound(g: Grid, start: Pos, targets: seq<Pos>, cells: seq<seq<Cell>>,
                    S: seq<Pos>, V: set<Pos>, count: int, path: seq<Token>, goals: seq<Pos>, found: seq<Pos>,
                    root: Pos, D: map<Pos, nat>, closed: set<Pos>, suffix: bool)
    requires Roving(g, start, targets, cells, S, V, count, path, goals, found, root, D, closed)
    requires S != [] && S[|S| - 1] in goals
    ensures g.InBounds(S[|S| - 1]) && S[|S| - 1] in D && RootedWithin(cells, S[|S| - 1], D[S[|S| - 1]])
    ensures var c := S[|S| - 1];
      Restarted(g, start, targets, Put(cells, c, At(cells, c).(parent := None)), c, count,
                path + Tokens(cells, c, D[c], suffix, true), Seqs.RemoveFirst(goals, c), found + [c])
  {
    var c := S[|S| - 1];
    assert c in ToSet(S);
    TreeTrace(g, cells, false, root, V, D, c, suffix);
    var w := TreeWalk(g, cells, false, root, V, D, c);
    if c != root {
      TreeUnblocked(g, cells, false, root, V, D, c);
    }
    Reached(g, start, targets, cells, root, count, path, goals, found, closed, c, Tokens(cells, c, D[c], suffix, true));
  }

  /** An empty stack: the phase's visited cells are everything reachable from its root, and no wanted goal is among them. */
  lemma RovingDrained(g: Grid, start: Pos, targets: seq<Pos>, cells: seq<seq<Cell>>,
                      V: set<Pos>, count: int, path: seq<Token>, goals: seq<Pos>, found: seq<Pos>,
                      root: Pos, D: map<Pos, nat>, closed: set<Pos>)
    requires Roving(g, start, targets, cells, [], V, count, path, goals, found, root, D, closed)
    requires forall i :: 0 <= i < |goals| ==> g.InBounds(goals[i])
    ensures AllFound(g, start, targets, goals, Count(count))
  {
    assert ToSet([]) == {};
    ExhaustedTree(g, cells, false, root, V, D);
    if !g.Blocked(start) {
      Backtrack(g, false, start, root);
      forall q | q in goals ensures !Reachable(g, false, start, q) {
        var i :| 0 <= i < |goals| && goals[i] == q;
        if Reachable(g, false, start, q) {
          JoinReach(g, false, root, start, q);
        }
      }
    }
  }
}

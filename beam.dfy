/**
 * Beam search (`algorithms/beam.py`): A*'s loop over an open list popped
 * by least `f`, a closed set and unit moves, with the nearest goal's
 * Manhattan distance as `h`, where after each expansion the open list is
 * sorted by `f` and cut to the beam width. The grid is not reset first,
 * and a cell dropped by the cut may be discovered, and counted, again.
 */
module Beam {
  import opened Wrappers
  import opened Cells
  import opened Grids
  import opened Neighborhoods
  import opened Agents
  import opened Searching
  import Seqs
  import opened Informed
  import opened BeamLayers

  /**
   * The body of the neighbour loop for the popped cell `current` and its
   * neighbour `n`: a blocked or closed neighbour is skipped; one not open
   * is counted, given its distance to the target as `h` and `current` as
   * parent, and appended; an open one reached more cheaply through
   * `current` gets the lower `g` and `current` as parent.
   */
  method Visit(g: Grid, target: Pos, S: seq<Pos>, closed: set<Pos>, count: int, current: Pos, n: Pos,
               ghost root: Pos, ghost D: map<Pos, nat>)
    returns (S': seq<Pos>, count': int, ghost D': map<Pos, nat>)
    requires g.Valid() && Beamed(g, g.cells, root, S, closed, D) && current in closed && root in closed
    requires Adjacent(g, false, current, n)
    modifies g
    ensures g.Valid() && Beamed(g, g.cells, root, S', closed, D')
    ensures At(old(g.cells), n).blocked || n in closed ==>
      g.cells == old(g.cells) && S' == S && count' == count
    ensures !At(old(g.cells), n).blocked && n !in closed && n !in S ==>
      && g.cells == Put(old(g.cells), n, At(old(g.cells), n).(h := Manhattan(n, target), parent := Some(current)))
      && S' == S + [n] && count' == count + 1
    ensures !At(old(g.cells), n).blocked && n !in closed && n in S ==>
      && S' == S && count' == count
      && g.cells == if At(old(g.cells), current).g + 1 < At(old(g.cells), n).g
                    then Put(old(g.cells), n, At(old(g.cells), n).(g := At(old(g.cells), current).g + 1, parent := Some(current)))
                    else old(g.cells)
  {
    S', count', D' := S, count, D;
    var cn := At(g.cells, n);
    if cn.blocked || n in closed {
      return;
    }
    assert Edge(g, false, current, n);
    if n !in S {
      S', count', D' := Push(g, target, S, closed, count, current, n, root, D);
    } else {
      D' := Improve(g, S, closed, current, n, root, D);
    }
  }

  /** A neighbour neither closed nor open: counted, hinted, hung below `current` and appended. */
  method Push(g: Grid, target: Pos, S: seq<Pos>, closed: set<Pos>, count: int, current: Pos, n: Pos,
              ghost root: Pos, ghost D: map<Pos, nat>)
    returns (S': seq<Pos>, count': int, ghost D': map<Pos, nat>)
    requires g.Valid() && Beamed(g, g.cells, root, S, closed, D) && current in closed && root in closed
    requires Edge(g, false, current, n) && n !in closed && n !in S
    modifies g
    ensures g.Valid() && Beamed(g, g.cells, root, S', closed, D')
    ensures g.cells == Put(old(g.cells), n, At(old(g.cells), n).(h := Manhattan(n, target), parent := Some(current)))
    ensures S' == S + [n] && count' == count + 1
  {
    var cn := At(g.cells, n);
    ghost var cells1 := Put(g.cells, n, cn.(h := Manhattan(n, target), parent := Some(current)));
    Discovered(g, g.cells, cells1, root, target, S, closed, D, current, n);
    g.Annotate(n, cn.g, Manhattan(n, target), Some(current));
    assert cn.(g := cn.g, h := Manhattan(n, target), parent := Some(current)) == cn.(h := Manhattan(n, target), parent := Some(current));
    assert g.cells == cells1;
    S', count', D' := S + [n], count + 1, D[n := D[current] + 1];
  }

  /** An open neighbour: moved under `current` when that lowers its `g`. */
  method Improve(g: Grid, S: seq<Pos>, closed: set<Pos>, current: Pos, n: Pos,
                 ghost root: Pos, ghost D: map<Pos, nat>)
    returns (ghost D': map<Pos, nat>)
    requires g.Valid() && Beamed(g, g.cells, root, S, closed, D) && current in closed && root in closed
    requires Edge(g, false, current, n) && n in S
    modifies g
    ensures g.Valid() && Beamed(g, g.cells, root, S, closed, D')
    ensures g.cells == if At(old(g.cells), current).g + 1 < At(old(g.cells), n).g
                       then Put(old(g.cells), n, At(old(g.cells), n).(g := At(old(g.cells), current).g + 1, parent := Some(current)))
                       else old(g.cells)
  {
    D' := D;
    var cn := At(g.cells, n);
    var v := At(g.cells, current).g + 1;
    if v < cn.g {
      ghost var cells1 := Put(g.cells, n, cn.(g := v, parent := Some(current)));
      Improved(g, g.cells, cells1, root, S, closed, D, current, n, v);
      g.Annotate(n, v, cn.h, Some(current));
      assert cn.(g := v, h := cn.h, parent := Some(current)) == cn.(g := v, parent := Some(current));
      assert g.cells == cells1;
      D' := D[n := D[current] + 1];
    }
  }

  /** The neighbour loop for the popped cell `current`: every unit neighbour in direction order. */
  method Expand(g: Grid, target: Pos, S: seq<Pos>, closed: set<Pos>, count: int, current: Pos,
                ghost root: Pos, ghost D: map<Pos, nat>)
    returns (S': seq<Pos>, count': int, ghost D': map<Pos, nat>)
    requires g.Valid() && Beamed(g, g.cells, root, S, closed, D) && current in closed && root in closed
    modifies g
    ensures g.Valid() && Beamed(g, g.cells, root, S', closed, D') && count' >= count
    ensures Appended(g, S, S', count, count', closed, g.Neighbors(current, false))
  {
    var ns := g.GetNeighbors(current, false);
    NeighborsAdjacent(g, false, current, ns);
    S', count', D' := S, count, D;
    AppendedNone(g, S, count, closed, ns);
    for k := 0 to |ns|
      invariant g.Valid() && Beamed(g, g.cells, root, S', closed, D') && count' >= count
      invariant Appended(g, S, S', count, count', closed, ns[..k])
    {
      ghost var T, c := S', count';
      assert At(g.cells, ns[k]).blocked == g.Blocked(ns[k]);
      S', count', D' := Visit(g, target, S', closed, count', current, ns[k], root, D');
      AppendedStep(g, S, T, S', count, c, count', closed, ns, k);
    }
    assert ns[..|ns|] == ns;
  }

  /**
   * The popped cell `S[i]`, not a goal, is closed and expanded, and the
   * open list is sorted by `f` and cut to the beam width.
   */
  method Close(g: Grid, target: Pos, w: int, S: seq<Pos>, closed: set<Pos>, count: int,
               ghost root: Pos, ghost D: map<Pos, nat>, i: nat)
    returns (S': seq<Pos>, closed': set<Pos>, count': int, ghost D': map<Pos, nat>, ghost T: seq<Pos>)
    requires g.Valid() && Beamed(g, g.cells, root, S, closed, D) && i < |S|
    modifies g
    ensures g.Valid() && Beamed(g, g.cells, root, S', closed', D') && closed' == closed + {S[i]}
    ensures count' >= count
    ensures AllCells(g) - closed' < AllCells(g) - closed
    // `T` is the open list after the neighbour loop: the rest of `S` followed by the new neighbours
    ensures Appended(g, Seqs.RemoveFirst(S, S[i]), T, count, count', closed', g.Neighbors(S[i], false))
    // the cut keeps cells of `T`, in ascending `f`, as many as the width allows, and none worse than a dropped one
    ensures SortedF(g.cells, S') && (forall x :: x in S' ==> x in T)
    ensures w >= 0 ==> |S'| == if w <= |T| then w else |T|
    ensures forall x, y :: x in S' && y in T && y !in S' ==> At(g.cells, x).F() <= At(g.cells, y).F()
  {
    var c := S[i];
    Popped(g, g.cells, root, S, closed, D, i);
    InAllCells(g, c);
    closed' := closed + {c};
    var t;
    t, count', D' := Expand(g, target, Seqs.RemoveFirst(S, c), closed', count, c, root, D);
    Trimmed(g, g.cells, root, t, closed', D', w);
    TrimKeepsBest(g.cells, t, w);
    S', T := Trim(g.cells, t, w), t;
  }

  /** A goal popped: the answer is its trace and the count. */
  method Arrive(agent: Agent, S: seq<Pos>, closed: set<Pos>, count: int, ghost D: map<Pos, nat>, i: nat)
    returns (r: Outcome)
    requires agent.Valid() && Beamed(agent.grid, agent.grid.cells, agent.cell, S, closed, D)
    requires count >= 1 && i < |S| && S[i] in agent.goals
    ensures BeamFound(agent.grid, agent.cell, agent.goals, r) && r.Goal? && r.goal == S[i] && r.count == count
  {
    var g := agent.grid;
    var c := S[i];
    Popped(g, g.cells, agent.cell, S, closed, D, i);
    Arrived(g, g.cells, agent.cell, agent.goals, Without(S, i), closed + {c}, D, c, count, agent.canJump);
    var p := agent.TracePath(c, true, D[c]);
    return Goal(p, c, count);
  }

  /**
   * `search(agent, beam_width)`: the first goal popped, with the trace to
   * it, or the count of discovered cells when the open list runs dry; see
   * `BeamFound`. The source fails on an empty goal list, and it does not
   * reset the grid, so the start must have no parent for the trace to end
   * there.
   */
  method Search(agent: Agent, beamWidth: int) returns (r: Outcome)
    requires agent.Valid() && agent.goals != [] && At(agent.grid.cells, agent.cell).parent == None
    modifies agent.grid
    ensures agent.Valid()
    ensures BeamFound(agent.grid, agent.cell, agent.goals, r)
  {
    var g := agent.grid;
    var start := agent.cell;
    var target := agent.NearestGoal();
    Begin(g, g.cells, start);
    r := Run(agent, target, beamWidth, [start], {}, 1, map[start := 0]);
  }

  /** The loop of `search`: pop the first cell of least `f`; a goal is the answer, any other cell is expanded and the beam cut. */
  method Run(agent: Agent, target: Pos, w: int, S: seq<Pos>, closed: set<Pos>, count: int, ghost D: map<Pos, nat>)
    returns (r: Outcome)
    requires agent.Valid() && Beamed(agent.grid, agent.grid.cells, agent.cell, S, closed, D) && count >= 1
    modifies agent.grid
    ensures agent.Valid()
    ensures BeamFound(agent.grid, agent.cell, agent.goals, r)
  {
    var g := agent.grid;
    var S, closed, count, D := S, closed, count, D;
    while S != []
      invariant agent.Valid() && Beamed(g, g.cells, agent.cell, S, closed, D) && count >= 1
      decreases AllCells(g) - closed
    {
      var i := FirstLeast(FKeys(g.cells, S));
      if S[i] in agent.goals {
        r := Arrive(agent, S, closed, count, D, i);
        return;
      }
      ghost var T;
      S, closed, count, D, T := Close(g, target, w, S, closed, count, agent.cell, D, i);
    }
    return Count(count);
  }
}

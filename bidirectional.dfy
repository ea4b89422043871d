/**
 * Bidirectional search (`algorithms/bidirectional.py`): a side grows from
 * the start towards the nearest goal and a side from that goal back
 * towards the start, each with an open heap by least `f`, a closed set and
 * unit moves; every iteration pops and closes one cell on each side and
 * expands the start side's cell, then the goal side's. A side meets the
 * other at a neighbour the other side has already reached, and the answer
 * is the stitched path. The meeting test is the intended one (`Meets`):
 * the source's own test misses the other side's root.
 */
module Bidirectional {
  import opened Wrappers
  import opened Cells
  import opened Grids
  import opened Neighborhoods
  import opened Agents
  import opened Searching
  import Seqs
  import opened Informed
  import opened BidirectionalLayers
  import GoalLists

  /**
   * The meeting of the side `X` (the start side when `fromStart`) at the
   * neighbour `n` of its closed cell `current`, which `X` has not reached
   * and which meets the other side `Y`: the path is stitched from the start
   * side's cell to the goal side's. The goal side counts the neighbour
   * first.
   */
  method Join(agent: Agent, fromStart: bool, current: Pos, n: Pos, goal: Pos, count: int, ghost X: Front, ghost Y: Front)
    returns (r: Outcome)
    requires agent.Valid() && Both(agent.grid, agent.grid.cells, X, Y)
    requires current in X.closed && Edge(agent.grid, false, current, n) && n !in X.Seen() && Meets(agent.grid.cells, n, Y.root)
    requires count == |X.Seen()| + |Y.Seen()| - 1
    requires if fromStart then X.root == agent.cell && Y.root == goal else Y.root == agent.cell && X.root == goal
    ensures BiJoined(agent.grid, agent.cell, goal, r)
    ensures r.count == if fromStart then count else count + 1
  {
    var g := agent.grid;
    Met(g, g.cells, X, Y, current, n);
    if fromStart {
      r := Stitch(agent, current, n, goal, count, X, Y);
    } else {
      AlignedSymmetric(current, n);
      r := Stitch(agent, n, current, goal, count + 1, Y, X);
    }
  }

  /**
   * The path through the adjacent cells `a`, reached by the start side `A`,
   * and `b`, reached by the goal side `B`: `a`'s trace from the start, the
   * step from `a` to `b`, and `b`'s trace read towards the goal.
   */
  method Stitch(agent: Agent, a: Pos, b: Pos, goal: Pos, count: int, ghost A: Front, ghost B: Front)
    returns (r: Outcome)
    requires agent.Valid() && Side(agent.grid, agent.grid.cells, A) && Side(agent.grid, agent.grid.cells, B)
    requires a in A.Seen() && b in B.Seen() && agent.grid.InBounds(a) && Adjacent(agent.grid, false, a, b)
    requires A.root == agent.cell && B.root == goal
    requires 1 <= count <= |ReachableSet(agent.grid, false, A.root)| + |ReachableSet(agent.grid, false, B.root)|
    ensures BiJoined(agent.grid, agent.cell, goal, r) && r.count == count
  {
    var g := agent.grid;
    Stitched(g, g.cells, A, B, a, b, agent.canJump);
    var p1 := agent.TracePath(a, true, A.depth[a]);
    var p2 := agent.TracePath(b, false, B.depth[b]);
    r := Goal(p1 + [Raw(Sub(a, b))] + p2, goal, count);
  }

  /**
   * The body of a side's neighbour loop for its popped cell `current` and
   * its neighbour `n`: a blocked or closed neighbour is skipped; one not
   * open is discovered; an open one reached more cheaply through `current`
   * gets the lower `g` and `current` as parent. The side is `X` with root
   * `root`, open list `open` and closed set `closed`; the other side is `Y`
   * with root `other`. Unless the sides meet, the side keeps what it had
   * reached and has reached `n` if `n` is not blocked.
   */
  method Visit(agent: Agent, fromStart: bool, root: Pos, open: seq<Pos>, closed: set<Pos>, other: Pos, count: int,
               current: Pos, n: Pos, ghost X: Front, ghost Y: Front)
    returns (met: Option<Outcome>, open': seq<Pos>, count': int, ghost X': Front)
    requires agent.Valid() && X.root == root && X.open == open && X.closed == closed && Y.root == other
    requires if fromStart then root == agent.cell else other == agent.cell
    requires Both(agent.grid, agent.grid.cells, X, Y)
    requires Adjacent(agent.grid, false, current, n) && current in closed && root in closed && agent.grid.InBounds(current)
    requires count == |X.Seen()| + |Y.Seen()| - 1
    modifies agent.grid
    ensures agent.Valid()
    ensures met.None? ==>
      && X'.root == root && X'.open == open' && X'.closed == closed
      && Both(agent.grid, agent.grid.cells, X', Y) && X.Seen() <= X'.Seen() && (agent.grid.Blocked(n) || n in X'.Seen())
      && count' == |X'.Seen()| + |Y.Seen()| - 1
    ensures met.Some? ==> BiJoined(agent.grid, agent.cell, if fromStart then other else root, met.value)
  {
    var g := agent.grid;
    met, open', count', X' := None, open, count, X;
    var cn := At(g.cells, n);
    if cn.blocked || n in closed {
      return;
    }
    assert Edge(g, false, current, n);
    if n !in open {
      met, open', count', X' := Discover(agent, fromStart, root, open, closed, other, count, current, n, X, Y);
    } else {
      assert n in ToSet(open);
      var tentative := At(g.cells, current).g + 1;
      if tentative < cn.g {
        X' := Improve(g, current, n, tentative, X, Y);
      }
    }
  }

  /**
   * A neighbour neither closed nor open on this side: if it meets the other
   * side, the answer is the stitched path; otherwise it is counted, given
   * `current.g + 1` as `g`, its distance to the other root as `h` and
   * `current` as parent, and pushed. The start side counts a neighbour after
   * the meeting test, the goal side before it.
   */
  method Discover(agent: Agent, fromStart: bool, root: Pos, open: seq<Pos>, closed: set<Pos>, other: Pos, count: int,
                  current: Pos, n: Pos, ghost X: Front, ghost Y: Front)
    returns (met: Option<Outcome>, open': seq<Pos>, count': int, ghost X': Front)
    requires agent.Valid() && X.root == root && X.open == open && X.closed == closed && Y.root == other
    requires if fromStart then root == agent.cell else other == agent.cell
    requires Both(agent.grid, agent.grid.cells, X, Y)
    requires Edge(agent.grid, false, current, n) && current in closed && root in closed && n !in closed && n !in open
    requires count == |X.Seen()| + |Y.Seen()| - 1
    modifies agent.grid
    ensures agent.Valid()
    ensures met.None? ==>
      && X'.root == root && X'.open == open' && X'.closed == closed
      && Both(agent.grid, agent.grid.cells, X', Y) && X'.Seen() == X.Seen() + {n}
      && count' == |X'.Seen()| + |Y.Seen()| - 1
    ensures met.Some? ==> BiJoined(agent.grid, agent.cell, if fromStart then other else root, met.value)
  {
    var g := agent.grid;
    met, open', count', X' := None, open, count, X;
    assert n !in X.Seen() by {
      assert n !in ToSet(open);
    }
    if Meets(g.cells, n, other) {
      var r := Join(agent, fromStart, current, n, if fromStart then other else root, count, X, Y);
      return Some(r), open', count', X';
    }
    var tentative := At(g.cells, current).g + 1;
    open', X' := Push(g, open, current, n, other, tentative, X, Y);
    count' := count + 1;
  }

  /** A neighbour that neither side has reached: given `g`, its distance to the other root as `h`, and `current` as parent, and pushed. */
  method Push(g: Grid, open: seq<Pos>, current: Pos, n: Pos, other: Pos, tentative: int, ghost X: Front, ghost Y: Front)
    returns (open': seq<Pos>, ghost X': Front)
    requires g.Valid() && Y.root == other && X.open == open
    requires Both(g, g.cells, X, Y) && current in X.closed && X.root in X.closed
    requires Edge(g, false, current, n) && n !in X.Seen() && !Meets(g.cells, n, other)
    modifies g
    ensures g.Valid() && Both(g, g.cells, X', Y)
    ensures X'.Seen() == X.Seen() + {n} && X'.root == X.root && X'.closed == X.closed && X'.open == open'
    ensures open' == open + [n]
    ensures g.cells == Put(old(g.cells), n, At(old(g.cells), n).(g := tentative, h := Manhattan(n, other), parent := Some(current)))
  {
    var cn := At(g.cells, n);
    ghost var c := cn.(g := tentative, h := Manhattan(n, other), parent := Some(current));
    ghost var cells1 := Put(g.cells, n, c);
    Adopted(g, g.cells, cells1, X, Y, current, n, c);
    open' := open + [n];
    X' := Front(X.root, open', X.closed, X.depth[n := X.depth[current] + 1]);
    g.Annotate(n, tentative, Manhattan(n, other), Some(current));
    assert g.cells == cells1;
  }

  /** An open neighbour reached more cheaply through `current`: the lower `g` and `current` as parent; the heap is re-ordered, which a list popped by least key need not model. */
  method Improve(g: Grid, current: Pos, n: Pos, tentative: int, ghost X: Front, ghost Y: Front)
    returns (ghost X': Front)
    requires g.Valid()
    requires Both(g, g.cells, X, Y) && current in X.closed && X.root in X.closed
    requires Edge(g, false, current, n) && n in X.open
    modifies g
    ensures g.Valid() && Both(g, g.cells, X', Y)
    ensures X'.Seen() == X.Seen() && X'.root == X.root && X'.closed == X.closed && X'.open == X.open
    ensures g.cells == Put(old(g.cells), n, At(old(g.cells), n).(g := tentative, parent := Some(current)))
  {
    var cn := At(g.cells, n);
    ghost var c := cn.(g := tentative, parent := Some(current));
    ghost var cells1 := Put(g.cells, n, c);
    Reparented(g, g.cells, cells1, X, Y, current, n, c);
    X' := Front(X.root, X.open, X.closed, X.depth[n := X.depth[current] + 1]);
    g.Annotate(n, tentative, cn.h, Some(current));
    assert cn.(g := tentative, h := cn.h, parent := Some(current)) == c;
    assert g.cells == cells1;
  }

  /** A side's neighbour loop for its popped cell `current`: every unit neighbour in direction order, until the sides meet. */
  method Expand(agent: Agent, fromStart: bool, root: Pos, open: seq<Pos>, closed: set<Pos>, other: Pos, count: int,
                current: Pos, ghost X: Front, ghost Y: Front)
    returns (met: Option<Outcome>, open': seq<Pos>, count': int, ghost X': Front)
    requires agent.Valid() && X.root == root && X.open == open && X.closed == closed && Y.root == other
    requires if fromStart then root == agent.cell else other == agent.cell
    requires Both(agent.grid, agent.grid.cells, X, Y) && Spread(agent.grid, X.Seen(), closed - {current})
    requires current in closed && root in closed && agent.grid.InBounds(current)
    requires count == |X.Seen()| + |Y.Seen()| - 1
    modifies agent.grid
    ensures agent.Valid()
    ensures met.None? ==>
      && X'.root == root && X'.open == open' && X'.closed == closed
      && Both(agent.grid, agent.grid.cells, X', Y) && Spread(agent.grid, X'.Seen(), closed)
      && count' == |X'.Seen()| + |Y.Seen()| - 1
    ensures met.Some? ==> BiJoined(agent.grid, agent.cell, if fromStart then other else root, met.value)
  {
    var g := agent.grid;
    var ns := g.GetNeighbors(current, false);
    NeighborsAdjacent(g, false, current, ns);
    met, open', count', X' := None, open, count, X;
    var k := 0;
    while k < |ns|
      invariant k <= |ns| && agent.Valid() && met.None?
      invariant X'.root == root && X'.open == open' && X'.closed == closed
      invariant Both(g, g.cells, X', Y) && Spread(g, X'.Seen(), closed - {current})
      invariant Swept(g, X'.Seen(), current, ns, k)
      invariant count' == |X'.Seen()| + |Y.Seen()| - 1
    {
      ghost var V := X'.Seen();
      met, open', count', X' := Visit(agent, fromStart, root, open', closed, other, count', current, ns[k], X', Y);
      if met.Some? {
        return;
      }
      Advanced(g, V, X'.Seen(), closed - {current}, current, ns, k);
      k := k + 1;
    }
    Covering(g, X'.Seen(), closed, current);
  }

  /**
   * One iteration: pop and close the open cell `SA[i]` of least `f` on the
   * start side `A` and `SB[j]` on the goal side `B`, then expand the start
   * side's cell and, unless the sides met, the goal side's.
   */
  method Round(agent: Agent, t: Pos, SA: seq<Pos>, CA: set<Pos>, SB: seq<Pos>, CB: set<Pos>, count: int, i: nat, j: nat,
               ghost A: Front, ghost B: Front)
    returns (met: Option<Outcome>, SA': seq<Pos>, CA': set<Pos>, SB': seq<Pos>, CB': set<Pos>, count': int,
             ghost A': Front, ghost B': Front)
    requires agent.Valid() && i < |SA| && j < |SB|
    requires A.root == agent.cell && A.open == SA && A.closed == CA && B.root == t && B.open == SB && B.closed == CB
    requires Meeting(agent.grid, agent.grid.cells, A, B) && count == |A.Seen()| + |B.Seen()| - 1
    modifies agent.grid
    ensures agent.Valid()
    ensures met.None? ==>
      && A'.root == agent.cell && A'.open == SA' && A'.closed == CA' && B'.root == t && B'.open == SB' && B'.closed == CB'
      && Meeting(agent.grid, agent.grid.cells, A', B') && count' == |A'.Seen()| + |B'.Seen()| - 1
      && CA' == CA + {SA[i]} && SA[i] !in CA && agent.grid.InBounds(SA[i])
    ensures met.Some? ==> BiJoined(agent.grid, agent.cell, t, met.value)
  {
    met, SA', CA', SB', CB', count', A', B' := StartHalf(agent, t, SA, CA, SB, CB, count, i, j, A, B);
    if met.None? {
      met, SB', count', B' := GoalHalf(agent, t, SB', CB', count', SB[j], A', B');
    }
  }

  /**
   * The first half of an iteration: both sides pop and close their cells
   * `SA[i]` and `SB[j]`, and the start side expands its cell.
   */
  method StartHalf(agent: Agent, t: Pos, SA: seq<Pos>, CA: set<Pos>, SB: seq<Pos>, CB: set<Pos>, count: int, i: nat, j: nat,
                   ghost A: Front, ghost B: Front)
    returns (met: Option<Outcome>, SA': seq<Pos>, CA': set<Pos>, SB': seq<Pos>, CB': set<Pos>, count': int,
             ghost A': Front, ghost B': Front)
    requires agent.Valid() && i < |SA| && j < |SB|
    requires A.root == agent.cell && A.open == SA && A.closed == CA && B.root == t && B.open == SB && B.closed == CB
    requires Meeting(agent.grid, agent.grid.cells, A, B) && count == |A.Seen()| + |B.Seen()| - 1
    modifies agent.grid
    ensures agent.Valid() && agent.grid.InBounds(SB[j]) && SB' == Without(SB, j) && CB' == CB + {SB[j]}
    ensures met.None? ==>
      && A'.root == agent.cell && A'.open == SA' && A'.closed == CA' && B'.root == t && B'.open == SB' && B'.closed == CB'
      && A'.root in CA' && t in CB' && Both(agent.grid, agent.grid.cells, A', B')
      && Spread(agent.grid, A'.Seen(), CA') && Spread(agent.grid, B'.Seen(), CB' - {SB[j]})
      && count' == |A'.Seen()| + |B'.Seen()| - 1
      && CA' == CA + {SA[i]} && SA[i] !in CA && agent.grid.InBounds(SA[i])
    ensures met.Some? ==> BiJoined(agent.grid, agent.cell, t, met.value)
  {
    var g := agent.grid;
    var s := agent.cell;
    var ca, cb := SA[i], SB[j];
    SA', CA', SB', CB' := Without(SA, i), CA + {ca}, Without(SB, j), CB + {cb};
    ghost var A1 := Front(s, SA', CA', A.depth);
    B' := Front(t, SB', CB', B.depth);
    Closing(g, g.cells, A, B, i, j, A1, B');
    met, SA', count', A' := Expand(agent, true, s, SA', CA', t, count, ca, A1, B');
  }

  /** The second half of an iteration: the goal side `B` expands its popped cell `cb`. */
  method GoalHalf(agent: Agent, t: Pos, SB: seq<Pos>, CB: set<Pos>, count: int, cb: Pos, ghost A: Front, ghost B: Front)
    returns (met: Option<Outcome>, SB': seq<Pos>, count': int, ghost B': Front)
    requires agent.Valid() && agent.grid.InBounds(cb) && cb in CB
    requires A.root == agent.cell && B.root == t && B.open == SB && B.closed == CB && A.root in A.closed && t in CB
    requires Both(agent.grid, agent.grid.cells, A, B) && Spread(agent.grid, A.Seen(), A.closed)
    requires Spread(agent.grid, B.Seen(), CB - {cb}) && count == |A.Seen()| + |B.Seen()| - 1
    modifies agent.grid
    ensures agent.Valid()
    ensures met.None? ==>
      && B'.root == t && B'.open == SB' && B'.closed == CB
      && Meeting(agent.grid, agent.grid.cells, A, B') && count' == |A.Seen()| + |B'.Seen()| - 1
    ensures met.Some? ==> BiJoined(agent.grid, agent.cell, t, met.value)
  {
    var g := agent.grid;
    Swap(g, g.cells, A, B);
    met, SB', count', B' := Expand(agent, false, t, SB, CB, agent.cell, count, cb, B, A);
    if met.None? {
      Swap(g, g.cells, B', A);
    }
  }

  /**
   * `search(agent)`: after the grid is reset, a start that is a goal is the
   * answer with an empty path; otherwise the sides grow from the start and
   * from the goal nearest to it until they meet or either open heap runs
   * dry; see `BiFound`. The source fails on an empty goal list, hence the
   * precondition.
   */
  method Search(agent: Agent) returns (r: Outcome)
    requires agent.Valid() && agent.goals != []
    modifies agent.grid
    ensures agent.Valid()
    ensures agent.cell in agent.goals ==> r == Goal([], agent.cell, 1)
    ensures agent.cell !in agent.goals ==> BiFound(agent.grid, agent.cell, agent.NearestGoal(), r)
  {
    var g := agent.grid;
    g.Reset();
    var s := agent.cell;
    if s in agent.goals {
      return Goal([], s, 1);
    }
    var t := agent.NearestGoal();
    var c0 := At(g.cells, s);
    g.Annotate(s, c0.g, Manhattan(s, t), c0.parent);
    forall p | g.InBounds(p) ensures At(g.cells, p).parent == None {
    }
    ghost var A, B := Front(s, [s], {}, map[s := 0]), Front(t, [t], {}, map[t := 0]);
    Begin(g, g.cells, s, t);
    r := Run(agent, t, [s], {}, [t], {}, 1, A, B);
  }

  /** The loop of `search`: a round while both open heaps are non-empty, then the count. */
  method Run(agent: Agent, t: Pos, SA: seq<Pos>, CA: set<Pos>, SB: seq<Pos>, CB: set<Pos>, count: int, ghost A: Front, ghost B: Front)
    returns (r: Outcome)
    requires agent.Valid() && agent.cell != t
    requires A.root == agent.cell && A.open == SA && A.closed == CA && B.root == t && B.open == SB && B.closed == CB
    requires Meeting(agent.grid, agent.grid.cells, A, B) && count == |A.Seen()| + |B.Seen()| - 1
    modifies agent.grid
    ensures agent.Valid()
    ensures BiFound(agent.grid, agent.cell, t, r)
  {
    var g := agent.grid;
    var SA, CA, SB, CB, count, A, B := SA, CA, SB, CB, count, A, B;
    while SA != [] && SB != []
      invariant agent.Valid()
      invariant A.root == agent.cell && A.open == SA && A.closed == CA && B.root == t && B.open == SB && B.closed == CB
      invariant Meeting(g, g.cells, A, B) && count == |A.Seen()| + |B.Seen()| - 1
      decreases AllCells(g) - CA
    {
      var i := PopLeast(g.cells, SA);
      var j := PopLeast(g.cells, SB);
      var met;
      ghost var c := SA[i];
      met, SA, CA, SB, CB, count, A, B := Round(agent, t, SA, CA, SB, CB, count, i, j, A, B);
      if met.Some? {
        return met.value;
      }
      InAllCells(g, c);
    }
    Drained(g, g.cells, A, B);
    Bounded(g, g.cells, A, B);
    return Count(count);
  }



  /**
   * The goal side's neighbour loop of `search_all` once the start side has
   * met it: no meeting is tested any more. Every neighbour of `current` that
   * is unblocked and neither closed nor open is counted, given `g`, its
   * distance to `start` as `h` and `current` as parent, and pushed; an open
   * one reached more cheaply gets the lower `g` and `current` as parent.
   */
  method ExpandOnly(g: Grid, open: seq<Pos>, closed: set<Pos>, current: Pos, start: Pos, count: int)
    returns (open': seq<Pos>, count': int)
    requires g.Valid() && g.InBounds(current)
    modifies g
    ensures g.Valid()
    ensures var ns := g.Neighbors(current, false); var added := Unseen(g, ns, closed + ToSet(open), |ns|);
      open' == open + added && count' == count + |added|
  {
    var ns := g.GetNeighbors(current, false);
    NeighborsAdjacent(g, false, current, ns);
    ghost var V := closed + ToSet(open);
    open', count' := open, count;
    var k := 0;
    while k < |ns|
      invariant k <= |ns| && g.Valid()
      invariant open' == open + Unseen(g, ns, V, k) && count' == count + |Unseen(g, ns, V, k)|
    {
      ghost var open0, count0 := open', count';
      open', count' := Touch(g, open', closed, current, ns[k], start, count');
      Touched(g, current, ns, closed, open, k, count, open0, count0, open', count');
      k := k + 1;
    }
  }

  /** One step of `ExpandOnly`: what `Touch` does to the open list and the count keeps them `open` and `count` plus the first `k + 1` unseen neighbours. */
  lemma Touched(g: Grid, current: Pos, ns: seq<Pos>, closed: set<Pos>, open: seq<Pos>, k: nat, count: int,
                cur: seq<Pos>, c: int, cur': seq<Pos>, c': int)
    requires k < |ns| && ns == g.Neighbors(current, false)
    requires cur == open + Unseen(g, ns, closed + ToSet(open), k) && c == count + |Unseen(g, ns, closed + ToSet(open), k)|
    requires if !g.Blocked(ns[k]) && ns[k] !in closed && ns[k] !in cur then cur' == cur + [ns[k]] && c' == c + 1
      else cur' == cur && c' == c
    ensures cur' == open + Unseen(g, ns, closed + ToSet(open), k + 1) && c' == count + |Unseen(g, ns, closed + ToSet(open), k + 1)|
  {
    NeighborsOrdered(g, current, false);
    var V := closed + ToSet(open);
    var before := Unseen(g, ns, V, k);
    UnseenMembers(g, ns, V, k);
    assert ns[k] !in before;
    assert ns[k] in cur <==> ns[k] in ToSet(open);
  }

  /** The body of `ExpandOnly` for the neighbour `n`: it is pushed and counted exactly when it is unblocked and neither closed nor open. */
  method Touch(g: Grid, open: seq<Pos>, closed: set<Pos>, current: Pos, n: Pos, start: Pos, count: int)
    returns (open': seq<Pos>, count': int)
    requires g.Valid() && g.InBounds(current) && g.InBounds(n)
    modifies g
    ensures g.Valid()
    ensures if !g.Blocked(n) && n !in closed && n !in open then open' == open + [n] && count' == count + 1
      else open' == open && count' == count
  {
    open', count' := open, count;
    var cn := At(g.cells, n);
    if cn.blocked || n in closed {
      return;
    }
    var tentative := At(g.cells, current).g + 1;
    if n !in open {
      count' := count + 1;
      g.Annotate(n, tentative, Manhattan(n, start), Some(current));
      open' := open + [n];
    } else if tentative < cn.g {
      g.Annotate(n, tentative, cn.h, Some(current));
    }
  }

  /**
   * One iteration of `search_all`: as `Round`, except that the start side
   * counts a neighbour before the meeting test, and once it meets, the goal
   * side still expands its popped cell with `ExpandOnly`. A meeting yields
   * the leg's path to `t` with the count so far.
   */
  method RoundAll(agent: Agent, t: Pos, SA: seq<Pos>, CA: set<Pos>, SB: seq<Pos>, CB: set<Pos>, count: int, i: nat, j: nat,
                  ghost A: Front, ghost B: Front)
    returns (met: Option<Outcome>, SA': seq<Pos>, CA': set<Pos>, SB': seq<Pos>, CB': set<Pos>, count': int,
             ghost A': Front, ghost B': Front)
    requires agent.Valid() && i < |SA| && j < |SB|
    requires A.root == agent.cell && A.open == SA && A.closed == CA && B.root == t && B.open == SB && B.closed == CB
    requires Meeting(agent.grid, agent.grid.cells, A, B) && count == |A.Seen()| + |B.Seen()| - 1
    modifies agent.grid
    ensures agent.Valid()
    ensures met.None? ==>
      && A'.root == agent.cell && A'.open == SA' && A'.closed == CA' && B'.root == t && B'.open == SB' && B'.closed == CB'
      && Meeting(agent.grid, agent.grid.cells, A', B') && count' == |A'.Seen()| + |B'.Seen()| - 1
      && CA' == CA + {SA[i]} && SA[i] !in CA && agent.grid.InBounds(SA[i])
    ensures met.Some? ==> LegFound(agent.grid, agent.cell, t, met.value)
  {
    met, SA', CA', SB', CB', count', A', B' := StartHalf(agent, t, SA, CA, SB, CB, count, i, j, A, B);
    if met.Some? {
      met, SB' := MetFirst(agent, t, SB', CB', SB[j], met.value);
    } else {
      met, SB', count', B' := GoalHalf(agent, t, SB', CB', count', SB[j], A', B');
    }
  }

  /**
   * After the start side meets the goal side, the goal side of the same
   * iteration still expands its popped cell `cb`: its new neighbours are
   * counted, annotated and queued, and no second meeting is looked for.
   */
  method MetFirst(agent: Agent, t: Pos, SB: seq<Pos>, CB: set<Pos>, cb: Pos, r: Outcome)
    returns (met: Option<Outcome>, SB': seq<Pos>)
    requires agent.Valid() && agent.grid.InBounds(cb) && BiJoined(agent.grid, agent.cell, t, r)
    modifies agent.grid
    ensures agent.Valid() && met.Some? && LegFound(agent.grid, agent.cell, t, met.value)
    ensures met.value.count > r.count
  {
    var count;
    SB', count := ExpandOnly(agent.grid, SB, CB, cb, agent.cell, r.count + 1);
    met := Some(Goal(r.path, r.goal, count));
    JoinedLeg(agent.grid, agent.cell, t, r, count);
  }

  /**
   * The start of a leg: the grid is reset, the goal nearest to the agent's
   * cell becomes the leg's goal `t`, and the agent's cell gets its distance
   * to `t` as `h`. Each side then holds only its root.
   */
  method Launch(agent: Agent) returns (t: Pos)
    requires agent.Valid() && agent.goals != []
    modifies agent.grid
    ensures agent.Valid() && t in agent.goals && t == agent.NearestGoal()
    ensures Meeting(agent.grid, agent.grid.cells, Front(agent.cell, [agent.cell], {}, map[agent.cell := 0]), Front(t, [t], {}, map[t := 0]))
    ensures Front(agent.cell, [agent.cell], {}, map[agent.cell := 0]).Seen() == {agent.cell} && Front(t, [t], {}, map[t := 0]).Seen() == {t}
  {
    var g := agent.grid;
    g.Reset();
    var s := agent.cell;
    t := agent.NearestGoal();
    var c0 := At(g.cells, s);
    g.Annotate(s, c0.g, Manhattan(s, t), c0.parent);
    forall p | g.InBounds(p) ensures At(g.cells, p).parent == None {
    }
    Begin(g, g.cells, s, t);
  }

  /**
   * One leg of `search_all`, from the agent's cell to the goal `t` nearest
   * to it: the iterations of `RoundAll` until the sides meet or either open
   * heap runs dry; see `LegOver`. The count is the leg's own, as in `search`.
   */
  method Leg(agent: Agent) returns (t: Pos, r: Outcome)
    requires agent.Valid() && agent.goals != []
    modifies agent.grid
    ensures agent.Valid() && t in agent.goals
    ensures LegOver(agent.grid, agent.cell, t, r)
  {
    var g := agent.grid;
    t := Launch(agent);
    var s := agent.cell;
    var SA, CA, SB, CB, count := [s], {}, [t], {}, 1;
    ghost var A, B := Front(s, [s], {}, map[s := 0]), Front(t, [t], {}, map[t := 0]);
    while SA != [] && SB != []
      invariant agent.Valid()
      invariant A.root == s && A.open == SA && A.closed == CA && B.root == t && B.open == SB && B.closed == CB
      invariant Meeting(g, g.cells, A, B) && count == |A.Seen()| + |B.Seen()| - 1
      decreases AllCells(g) - CA
    {
      var i := PopLeast(g.cells, SA);
      var j := PopLeast(g.cells, SB);
      var met;
      ghost var c := SA[i];
      met, SA, CA, SB, CB, count, A, B := RoundAll(agent, t, SA, CA, SB, CB, count, i, j, A, B);
      if met.Some? {
        return t, met.value;
      }
      InAllCells(g, c);
    }
    if s != t {
      Drained(g, g.cells, A, B);
    }
    Rooted(g, g.cells, A);
    Rooted(g, g.cells, B);
    return t, Count(count);
  }

  /**
   * `search_all(agent)`: legs of bidirectional search, each from the agent's
   * cell to the goal nearest to it (`Leg`); each goal reached is appended to
   * the found list, removed from the agent's goals and its path appended,
   * after which the agent moves to it and the next leg starts there; see
   * `BiAllFound`. The source runs all legs in one loop whose lists are
   * refilled at each goal; a fresh leg's lists are non-empty, so this is the
   * loop of `Leg` inside a loop over legs. The count runs on across legs:
   * the source's `count` is `done` plus the leg's count, where `done` is
   * what the earlier legs counted less the one cell each new leg's count
   * starts from. The source fails on an empty goal list, hence the
   * precondition.
   */
  method SearchAll(agent: Agent) returns (r: Outcome)
    requires agent.Valid() && agent.goals != []
    modifies agent, agent.grid
    ensures agent.Valid()
    ensures BiAllFound(agent.grid, old(agent.cell), old(agent.goals), agent.goals, r)
    ensures GoalLists.LeftAt(old(agent.cell), old(agent.goals), r, agent.cell)
  {
    var g := agent.grid;
    ghost var origin, targets := agent.cell, agent.goals;
    var done := 0;
    var path: seq<Token> := [];
    var found: seq<Pos> := [];
    TourBegin(g, origin, targets);
    while true
      invariant agent.Valid() && agent.grid == g && agent.goals != [] && done >= 0
      invariant multiset(found) + multiset(agent.goals) == multiset(targets)
      invariant Toured(g, origin, targets, path, found, agent.cell)
      invariant agent.cell == GoalLists.Standing(origin, found)
      decreases |agent.goals|
    {
      var answer;
      answer, done, path, found := Tour(agent, origin, targets, done, path, found);
      if answer.Some? {
        return answer.value;
      }
    }
  }

  /**
   * One pass of `search_all`'s loop over legs: a leg from the agent's cell;
   * a goal it reaches is recorded (`Record`), and a leg that fails ends the
   * search with the count.
   */
  method Tour(agent: Agent, ghost origin: Pos, ghost targets: seq<Pos>, done: int, path: seq<Token>, found: seq<Pos>)
    returns (answer: Option<Outcome>, done': int, path': seq<Token>, found': seq<Pos>)
    requires agent.Valid() && agent.goals != [] && done >= 0
    requires multiset(found) + multiset(agent.goals) == multiset(targets)
    requires Toured(agent.grid, origin, targets, path, found, agent.cell)
    requires agent.cell == GoalLists.Standing(origin, found)
    modifies agent, agent.grid
    ensures agent.Valid()
    ensures answer.Some? ==> BiAllFound(agent.grid, origin, targets, agent.goals, answer.value)
    ensures answer.Some? ==> GoalLists.LeftAt(origin, targets, answer.value, agent.cell)
    ensures answer.None? ==>
      && agent.goals != [] && done' >= 0 && |agent.goals| < |old(agent.goals)|
      && multiset(found') + multiset(agent.goals) == multiset(targets)
      && Toured(agent.grid, origin, targets, path', found', agent.cell)
      && agent.cell == GoalLists.Standing(origin, found')
  {
    var t, leg := Leg(agent);
    if leg.Count? {
      TourStuck(agent.grid, origin, targets, path, found, agent.goals, agent.cell, t, done + leg.count);
      GoalLists.StoppedAt(origin, targets, agent.goals, found, done + leg.count);
      answer, done', path', found' := Some(Count(done + leg.count)), done, path, found;
    } else {
      answer, done', path', found' := Record(agent, origin, targets, done, path, found, t, leg);
    }
  }

  /**
   * A leg that reached the goal `t`: its path is appended, `t` is noted as
   * found and removed from the agent's goals; unless that was the last
   * goal, the agent moves to `t`. The agent stands where the goals found
   * so far leave it (`Standing`).
   */
  method Record(agent: Agent, ghost origin: Pos, ghost targets: seq<Pos>, done: int, path: seq<Token>, found: seq<Pos>,
                t: Pos, leg: Outcome)
    returns (answer: Option<Outcome>, done': int, path': seq<Token>, found': seq<Pos>)
    requires agent.Valid() && t in agent.goals && done >= 0
    requires multiset(found) + multiset(agent.goals) == multiset(targets)
    requires Toured(agent.grid, origin, targets, path, found, agent.cell) && LegFound(agent.grid, agent.cell, t, leg)
    requires agent.cell == GoalLists.Standing(origin, found)
    modifies agent
    ensures agent.Valid()
    ensures answer.Some? ==> BiAllFound(agent.grid, origin, targets, agent.goals, answer.value)
    ensures answer.Some? ==> answer.value == Goals(path', found', done' + leg.count) && agent.cell == old(agent.cell)
    ensures answer.Some? ==> GoalLists.LeftAt(origin, targets, answer.value, agent.cell)
    ensures found' == found + [t]
    ensures answer.None? ==>
      && agent.goals != [] && done' >= 0 && |agent.goals| < |old(agent.goals)|
      && multiset(found') + multiset(agent.goals) == multiset(targets)
      && Toured(agent.grid, origin, targets, path', found', agent.cell)
      && agent.cell == t && agent.cell == GoalLists.Standing(origin, found')
  {
    var g := agent.grid;
    var count := done + leg.count;
    answer, done' := None, done;
    path', found' := path + leg.path, found + [t];
    ghost var goals := agent.goals;
    ghost var k :| 0 <= k < |goals| && goals[k] == t;
    agent.RemoveGoal(t);
    Recorded(g, origin, targets, path, found, agent.cell, t, leg, goals, agent.goals, count);
    if agent.goals == [] {
      answer := Some(Goals(path', found', count));
    } else {
      agent.MoveTo(t);
      done' := count - 1;
    }
  }
}

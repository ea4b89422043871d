/**
 * The proof layer of bidirectional search (`algorithms/bidirectional.py`):
 * one search tree grows from the start and one from the goal, each with
 * its own open heap and closed set, and they meet when a side reaches a
 * cell the other side has already reached. The stitched path is the start
 * side's trace to its cell, the joining direction, and the goal side's
 * trace read towards the goal.
 *
 * The source recognises the other side's cells by their parent link, which
 * misses the other side's root: the root has no parent, so it is adopted
 * and the two trees are tied into a cycle (`RootAdopted`). The model meets
 * at the other side's root as well (`Meets`), which is exactly the test
 * "reached from the other side" (`MeetsExactly`).
 */
module BidirectionalLayers {
  import opened Wrappers
  import opened Directions
  import opened Cells
  import opened Grids
  import opened Agents
  import opened Searching
  import Seqs
  import opened Informed
  import GoalLists

  /** One side's search state: its root, its open list, its closed set and the tree depth of each cell it has reached. */
  datatype Front = Front(root: Pos, open: seq<Pos>, closed: set<Pos>, depth: map<Pos, nat>)
  {
    /** The cells this side has reached. */
    ghost function Seen(): set<Pos>
    {
      closed + ToSet(open)
    }
  }

  /**
   * One side: a search tree from its root over the cells it has reached,
   * the open list without repeats and apart from the closed set, every
   * parent closed, and the root closed once anything is.
   */
  ghost predicate Side(g: Grid, cells: seq<seq<Cell>>, F: Front)
  {
    match F
    case Front(root, open, closed, depth) =>
      && Tree(g, cells, false, root, F.Seen(), depth)
      && Seqs.Distinct(open) && (forall x :: x in open ==> x !in closed)
      && ParentsClosed(cells, root, F.Seen(), closed)
      && (root !in closed ==> open == [root])
  }

  /** The cell `c` has been reached by one of the sides or has no parent. */
  ghost predicate Claimed(cells: seq<seq<Cell>>, A: Front, B: Front, c: Pos)
  {
    c in A.Seen() || c in B.Seen() || At(cells, c).parent == None
  }

  /** The sides share no cell but a common root, and every cell with a parent belongs to one of them. */
  ghost predicate Apart(g: Grid, cells: seq<seq<Cell>>, A: Front, B: Front)
  {
    && (forall c :: c in A.Seen() && c in B.Seen() ==> c == A.root && c == B.root)
    && (forall c {:trigger Claimed(cells, A, B, c)} :: g.InBounds(c) ==> Claimed(cells, A, B, c))
  }

  /** Both sides, apart. */
  ghost predicate Both(g: Grid, cells: seq<seq<Cell>>, X: Front, Y: Front)
  {
    match X
    case Front(_, _, _, _) => Side(g, cells, X) && Side(g, cells, Y) && Apart(g, cells, X, Y)
  }

  /** The loop state between two iterations: both sides, apart, and every move out of a closed cell lands on a cell its side has reached. */
  ghost predicate Meeting(g: Grid, cells: seq<seq<Cell>>, A: Front, B: Front)
  {
    Both(g, cells, A, B) && Spread(g, A.Seen(), A.closed) && Spread(g, B.Seen(), B.closed)
  }

  /** The sides' state does not depend on which side is named first. */
  lemma Swap(g: Grid, cells: seq<seq<Cell>>, A: Front, B: Front)
    requires Both(g, cells, A, B)
    ensures Both(g, cells, B, A)
  {
    ApartSwap(g, cells, A, B);
  }

  /** Sides that keep their roots and their reached cells stay apart. */
  lemma ApartKept(g: Grid, cells: seq<seq<Cell>>, A: Front, B: Front, A': Front, B': Front)
    requires Apart(g, cells, A, B)
    requires A'.root == A.root && A'.Seen() == A.Seen() && B'.root == B.root && B'.Seen() == B.Seen()
    ensures Apart(g, cells, A', B')
  {
    forall c | g.InBounds(c) ensures Claimed(cells, A', B', c) {
      assert Claimed(cells, A, B, c);
    }
  }

  lemma ApartSwap(g: Grid, cells: seq<seq<Cell>>, A: Front, B: Front)
    requires Apart(g, cells, A, B)
    ensures Apart(g, cells, B, A)
  {
    forall c | g.InBounds(c) ensures Claimed(cells, B, A, c) {
      assert Claimed(cells, A, B, c);
    }
  }

  /** The meeting test as the source writes it: the neighbour already has a parent. */
  predicate MeetsAsWritten(cells: seq<seq<Cell>>, n: Pos)
  {
    At(cells, n).parent.Some?
  }

  /** The meeting test as intended: the neighbour has a parent or is the other side's root `other`. */
  predicate Meets(cells: seq<seq<Cell>>, n: Pos, other: Pos)
  {
    MeetsAsWritten(cells, n) || n == other
  }

  /** For a cell this side has not reached, `Meets` holds exactly when the other side has reached it. */
  lemma MeetsExactly(g: Grid, cells: seq<seq<Cell>>, X: Front, Y: Front, n: Pos)
    requires Side(g, cells, X) && Side(g, cells, Y) && Apart(g, cells, X, Y)
    requires g.InBounds(n) && n !in X.Seen()
    ensures Meets(cells, n, Y.root) <==> n in Y.Seen()
  {
    assert Claimed(cells, X, Y, n);
    if n in Y.Seen() && n != Y.root {
      assert Linked(g, cells, false, Y.Seen(), Y.depth, n);
    }
  }

  /** The state at the start: each side holds its root, and no cell has a parent. */
  lemma Begin(g: Grid, cells: seq<seq<Cell>>, s: Pos, t: Pos)
    requires g.InBounds(s) && g.InBounds(t)
    requires forall p :: g.InBounds(p) ==> At(cells, p).parent == None
    ensures Meeting(g, cells, Front(s, [s], {}, map[s := 0]), Front(t, [t], {}, map[t := 0]))
    ensures Front(s, [s], {}, map[s := 0]).Seen() == {s} && Front(t, [t], {}, map[t := 0]).Seen() == {t}
  {
    assert ToSet([s]) == {s} && ToSet([t]) == {t};
    Singleton(g, cells, false, s);
    Singleton(g, cells, false, t);
  }

  /** Popping (and closing) the open cell `X.open[i]`: the side keeps its cells, and its root is closed from then on. */
  lemma Popped(g: Grid, cells: seq<seq<Cell>>, X: Front, i: nat)
    requires Side(g, cells, X) && i < |X.open|
    ensures var X' := Front(X.root, Without(X.open, i), X.closed + {X.open[i]}, X.depth);
      && Side(g, cells, X') && X'.Seen() == X.Seen() && X'.closed - {X.open[i]} == X.closed
      && X.open[i] in X.Seen() && g.InBounds(X.open[i]) && X.root in X'.closed
  {
    var u := X.open[i];
    var X' := Front(X.root, Without(X.open, i), X.closed + {u}, X.depth);
    assert u in ToSet(X.open);
    WithoutMembers(X.open, i);
    assert X'.Seen() == X.Seen();
    forall x | x in X'.open ensures x !in X'.closed {
      assert x in ToSet(X'.open);
    }
    forall c | c in X.Seen() && c != X.root ensures HangsClosed(cells, X'.closed, c) {
      assert HangsClosed(cells, X.closed, c);
    }
  }

  /** A move from `current` to its `k`-th neighbour is covered once the neighbour is blocked or reached; reaching more cells uncovers nothing. */
  lemma Advanced(g: Grid, V: set<Pos>, V': set<Pos>, from: set<Pos>, current: Pos, ns: seq<Pos>, k: nat)
    requires V <= V' && Spread(g, V, from) && Swept(g, V, current, ns, k) && k < |ns|
    requires g.Blocked(ns[k]) || ns[k] in V'
    ensures Spread(g, V', from) && Swept(g, V', current, ns, k + 1)
  {
    forall u, v | u in from ensures Covered(g, V', u, v) {
      assert Covered(g, V, u, v);
    }
    forall j | 0 <= j < k + 1 && j < |ns| ensures Covered(g, V', current, ns[j]) {
      if j < k {
        assert Covered(g, V, current, ns[j]);
      }
    }
  }

  /**
   * A neighbour `n` that neither side has reached (it has no parent and is
   * not the other root) is hung below the closed cell `current` and pushed;
   * the other side is not touched.
   */
  lemma Adopted(g: Grid, cells: seq<seq<Cell>>, cells': seq<seq<Cell>>, X: Front, Y: Front, current: Pos, n: Pos, c: Cell)
    requires WellFormed(cells, g.height, g.width, g.walls)
    requires Both(g, cells, X, Y)
    requires current in X.closed && X.root in X.closed
    requires Edge(g, false, current, n) && n !in X.Seen() && !Meets(cells, n, Y.root)
    requires c.parent == Some(current) && cells' == Put(cells, n, c)
    ensures current in X.depth
    ensures var X' := Front(X.root, X.open + [n], X.closed, X.depth[n := X.depth[current] + 1]);
      Both(g, cells', X', Y) && X'.Seen() == X.Seen() + {n}
  {
    MeetsExactly(g, cells, X, Y, n);
    var X' := Front(X.root, X.open + [n], X.closed, X.depth[n := X.depth[current] + 1]);
    Extended(g, cells, cells', X, current, n, c);
    PutAt(g, cells, n, c);
    Untouched(g, cells, cells', Y, n);
    forall q | g.InBounds(q) ensures Claimed(cells', X', Y, q) {
      assert Claimed(cells, X, Y, q);
    }
  }

  /** Hanging the unreached neighbour `n` below the closed cell `current` and pushing it extends the side by `n`. */
  lemma Extended(g: Grid, cells: seq<seq<Cell>>, cells': seq<seq<Cell>>, X: Front, current: Pos, n: Pos, c: Cell)
    requires WellFormed(cells, g.height, g.width, g.walls)
    requires Side(g, cells, X) && current in X.closed && X.root in X.closed
    requires Edge(g, false, current, n) && n !in X.Seen()
    requires c.parent == Some(current) && cells' == Put(cells, n, c)
    ensures current in X.depth
    ensures var X' := Front(X.root, X.open + [n], X.closed, X.depth[n := X.depth[current] + 1]);
      Side(g, cells', X') && X'.Seen() == X.Seen() + {n}
  {
    var V := X.Seen();
    var X' := Front(X.root, X.open + [n], X.closed, X.depth[n := X.depth[current] + 1]);
    ToSetSnoc(X.open, n);
    assert X'.Seen() == V + {n};
    assert n !in X.open by {
      assert n !in ToSet(X.open);
    }
    Hang(g, cells, X.root, V, X.depth, current, n, c);
    assert Seqs.Distinct(X'.open) by {
      forall a, b | 0 <= a < b < |X'.open| ensures X'.open[a] != X'.open[b] {
        if b == |X.open| {
          assert X.open[a] in X.open;
        }
      }
    }
    ParentsPut(cells, cells', X.root, V, X.closed, n, current);
  }

  /** Changing a cell that a side has not reached keeps the side. */
  lemma Untouched(g: Grid, cells: seq<seq<Cell>>, cells': seq<seq<Cell>>, Y: Front, n: Pos)
    requires Side(g, cells, Y) && n !in Y.Seen()
    requires forall q :: q != n ==> At(cells', q) == At(cells, q)
    ensures Side(g, cells', Y)
  {
    TreeByParents(g, cells, cells', Y.root, Y.Seen(), Y.depth);
    forall q | q in Y.Seen() && q != Y.root ensures HangsClosed(cells', Y.closed, q) {
      assert HangsClosed(cells, Y.closed, q);
    }
  }

  /** An open neighbour moved under the closed cell `current`: both sides keep their cells. */
  lemma Reparented(g: Grid, cells: seq<seq<Cell>>, cells': seq<seq<Cell>>, X: Front, Y: Front, current: Pos, n: Pos, c: Cell)
    requires WellFormed(cells, g.height, g.width, g.walls)
    requires Both(g, cells, X, Y)
    requires current in X.closed && X.root in X.closed
    requires Edge(g, false, current, n) && n in X.open
    requires c.parent == Some(current) && cells' == Put(cells, n, c)
    ensures current in X.depth
    ensures var X' := Front(X.root, X.open, X.closed, X.depth[n := X.depth[current] + 1]);
      Both(g, cells', X', Y) && X'.Seen() == X.Seen()
  {
    var V := X.Seen();
    assert n in ToSet(X.open) && n !in X.closed && current in V;
    forall q | q in V && q != X.root ensures At(cells, q).parent != Some(n) {
      assert HangsClosed(cells, X.closed, q);
    }
    Reparent(g, cells, X.root, V, X.depth, current, n, c);
    assert V + {n} == V;
    PutAt(g, cells, n, c);
    ParentsPut(cells, cells', X.root, V, X.closed, n, current);
    Untouched(g, cells, cells', Y, n);
    var X' := Front(X.root, X.open, X.closed, X.depth[n := X.depth[current] + 1]);
    forall q | g.InBounds(q) ensures Claimed(cells', X', Y, q) {
      assert Claimed(cells, X, Y, q);
    }
  }

  /** The forward trace of a tree cell ends at the root and, if the root is not blocked, is a route of unit moves towards it. */
  lemma {:induction false} TraceForward(g: Grid, cells: seq<seq<Cell>>, root: Pos, V: set<Pos>, D: map<Pos, nat>, c: Pos, suffix: bool)
    requires Tree(g, cells, false, root, V, D) && c in V
    ensures RootedWithin(cells, c, D[c])
    ensures var path := Tokens(cells, c, D[c], suffix, false);
      Walk(c, path) == root && (!g.Blocked(root) ==> Route(g, false, c, path))
    decreases D[c]
  {
    if c != root {
      assert Linked(g, cells, false, V, D, c);
      var p := At(cells, c).parent.value;
      TraceForward(g, cells, root, V, D, p, suffix);
      var t := LinkToken(c, p, suffix, false);
      var rest := Tokens(cells, p, D[p], suffix, false);
      assert Tokens(cells, c, D[c], suffix, false) == [t] + rest;
      AlignedSymmetric(p, c);
      ManhattanMetric(p, c, c);
      MoveLink(c, p, suffix);
      WalkAppend(c, [t], rest);
      assert Walk(c, [t]) == p;
      if !g.Blocked(root) {
        if p != root {
          TreeUnblocked(g, cells, false, root, V, D, p);
        }
        RouteSnoc(g, false, c, [], t);
        RouteAppend(g, false, c, [t], rest);
      }
    } else {
      assert Tokens(cells, c, D[c], suffix, false) == [];
    }
  }

  /**
   * The stitched path: from the start side's root along its trace to `a`,
   * one step to the neighbour `b` the goal side has reached, and along `b`'s
   * trace read towards the goal side's root. It ends at that root, and unless
   * that root is blocked, it is a route of unit moves.
   */
  lemma Stitched(g: Grid, cells: seq<seq<Cell>>, A: Front, B: Front, a: Pos, b: Pos, suffix: bool)
    requires Tree(g, cells, false, A.root, A.Seen(), A.depth) && Tree(g, cells, false, B.root, B.Seen(), B.depth)
    requires a in A.Seen() && b in B.Seen() && Adjacent(g, false, a, b)
    ensures RootedWithin(cells, a, A.depth[a]) && RootedWithin(cells, b, B.depth[b])
    ensures var path := Tokens(cells, a, A.depth[a], suffix, true) + [Raw(Sub(a, b))] + Tokens(cells, b, B.depth[b], suffix, false);
      Walk(A.root, path) == B.root && (!g.Blocked(B.root) ==> Route(g, false, A.root, path))
    ensures !g.Blocked(B.root) ==> Reachable(g, false, A.root, B.root)
  {
    TreeTrace(g, cells, false, A.root, A.Seen(), A.depth, a, suffix);
    TraceForward(g, cells, B.root, B.Seen(), B.depth, b, suffix);
    var p1 := Tokens(cells, a, A.depth[a], suffix, true);
    var p2 := Tokens(cells, b, B.depth[b], suffix, false);
    var j := Raw(Sub(a, b));
    OffsetOfSub(a, b);
    assert Move(a, j) == b;
    WalkAppend(A.root, p1, [j]);
    WalkAppend(A.root, p1 + [j], p2);
    if !g.Blocked(B.root) {
      if b != B.root {
        TreeUnblocked(g, cells, false, B.root, B.Seen(), B.depth, b);
      }
      RouteSnoc(g, false, A.root, p1, j);
      RouteAppend(g, false, A.root, p1 + [j], p2);
      Bridged(g, cells, A, B, a, b);
    }
  }

  /** With the goal side's root unblocked, the walk from the start side's root to `a`, the step to `b` and the walk back from `b` to the goal side's root. */
  lemma Bridged(g: Grid, cells: seq<seq<Cell>>, A: Front, B: Front, a: Pos, b: Pos)
    requires Tree(g, cells, false, A.root, A.Seen(), A.depth) && Tree(g, cells, false, B.root, B.Seen(), B.depth)
    requires a in A.Seen() && b in B.Seen() && Adjacent(g, false, a, b) && !g.Blocked(B.root)
    ensures Reachable(g, false, A.root, B.root)
  {
    var u := TreeWalk(g, cells, false, A.root, A.Seen(), A.depth, a);
    if b != B.root {
      TreeUnblocked(g, cells, false, B.root, B.Seen(), B.depth, b);
    }
    assert Edge(g, false, a, b);
    StepReach(g, A.root, a, b);
    var v := TreeWalk(g, cells, false, B.root, B.Seen(), B.depth, b);
    Backtrack(g, false, B.root, b);
    JoinReach(g, false, A.root, b, B.root);
  }

  /**
   * A side whose open list ran dry has reached everything reachable from
   * its root, so, unless the roots coincide, the goal is not reachable from
   * the start; walking back from the goal side needs the start unblocked.
   */
  lemma Drained(g: Grid, cells: seq<seq<Cell>>, A: Front, B: Front)
    requires Meeting(g, cells, A, B) && (A.open == [] || B.open == []) && A.root != B.root
    ensures !g.Blocked(A.root) ==> !Reachable(g, false, A.root, B.root)
  {
    if !g.Blocked(A.root) && Reachable(g, false, A.root, B.root) {
      if A.open == [] {
        assert A.Seen() == A.closed;
        forall c, n | c in A.Seen() && Edge(g, false, c, n) ensures n in A.Seen() {
          assert Covered(g, A.Seen(), c, n);
        }
        ClosedHoldsReachable(g, false, A.Seen(), A.root, B.root);
      } else {
        assert B.Seen() == B.closed;
        forall c, n | c in B.Seen() && Edge(g, false, c, n) ensures n in B.Seen() {
          assert Covered(g, B.Seen(), c, n);
        }
        Backtrack(g, false, A.root, B.root);
        ClosedHoldsReachable(g, false, B.Seen(), B.root, A.root);
      }
    }
  }

  /** Each side has reached no more cells than are reachable from its root. */
  lemma Bounded(g: Grid, cells: seq<seq<Cell>>, A: Front, B: Front)
    requires Side(g, cells, A) && Side(g, cells, B)
    ensures |A.Seen()| + |B.Seen()| <= |ReachableSet(g, false, A.root)| + |ReachableSet(g, false, B.root)|
  {
    TreeWithinReach(g, cells, false, A.root, A.Seen(), A.depth);
    TreeWithinReach(g, cells, false, B.root, B.Seen(), B.depth);
  }

  /** A cell one move from the goal side that it has not reached is one more reachable cell. */
  lemma BoundedBeyond(g: Grid, cells: seq<seq<Cell>>, A: Front, B: Front, b: Pos, n: Pos)
    requires Side(g, cells, A) && Side(g, cells, B)
    requires b in B.Seen() && Edge(g, false, b, n) && n !in B.Seen()
    ensures |A.Seen()| + |B.Seen()| + 1 <= |ReachableSet(g, false, A.root)| + |ReachableSet(g, false, B.root)|
  {
    TreeWithinReach(g, cells, false, A.root, A.Seen(), A.depth);
    TreeWithinReach(g, cells, false, B.root, B.Seen(), B.depth);
    var R := ReachableSet(g, false, B.root);
    assert b in R;
    StepReach(g, B.root, b, n);
    Grown(B.Seen(), R, n);
  }

  lemma StepReach(g: Grid, a: Pos, b: Pos, n: Pos)
    requires Reachable(g, false, a, b) && Edge(g, false, b, n)
    ensures Reachable(g, false, a, n)
  {
    assert IsWalk(g, false, [b, n]);
    JoinReach(g, false, a, b, n);
  }

  lemma Grown(X: set<Pos>, R: set<Pos>, n: Pos)
    requires X <= R && n in R && n !in X
    ensures |X| + 1 <= |R|
  {
    var X' := X + {n};
    assert |X'| == |X| + 1;
    assert R == X' + (R - X');
  }

  /**
   * What `search` promises once the start is not a goal and `t` is the goal
   * nearest to it: the goal `t` with a path from the start to it, which is a
   * legal route unless `t` itself is blocked; or the count, when `t` is
   * unreachable (the start being unblocked). The count is positive and at
   * most the cells reachable from the start plus those reachable from `t`.
   */
  ghost predicate BiFound(g: Grid, s: Pos, t: Pos, r: Outcome)
  {
    && (r.Goal? || r.Count?)
    && 1 <= r.count <= |ReachableSet(g, false, s)| + |ReachableSet(g, false, t)|
    && (r.Goal? ==> r.goal == t && Walk(s, r.path) == t && (!g.Blocked(t) ==> Route(g, false, s, r.path) && Reachable(g, false, s, t)))
    && (r.Count? ==> (!g.Blocked(s) ==> !Reachable(g, false, s, t)))
  }

  /** What a meeting of the sides yields: `BiFound` with a goal and its path. */
  ghost predicate BiJoined(g: Grid, s: Pos, t: Pos, r: Outcome)
  {
    r.Goal? && BiFound(g, s, t, r)
  }

  /**
   * A neighbour `n` of a cell of `X` that `X` has not reached and that meets
   * `Y`: `Y` has reached it, and the cells both sides have reached, with `n`
   * counted once more, are at most those reachable from the two roots.
   */
  lemma Met(g: Grid, cells: seq<seq<Cell>>, X: Front, Y: Front, current: Pos, n: Pos)
    requires Both(g, cells, X, Y) && current in X.Seen() && Edge(g, false, current, n)
    requires n !in X.Seen() && Meets(cells, n, Y.root)
    ensures n in Y.Seen() && X.root in X.Seen()
    ensures |X.Seen()| + |Y.Seen()| + 1 <= |ReachableSet(g, false, X.root)| + |ReachableSet(g, false, Y.root)|
  {
    MeetsExactly(g, cells, X, Y, n);
    BoundedBeyond(g, cells, Y, X, current, n);
  }

  /**
   * Popping `A.open[i]` and `B.open[j]` from the loop state: both sides, apart,
   * keep their cells, and only the popped cells are closed without having been
   * expanded.
   */
  lemma Closing(g: Grid, cells: seq<seq<Cell>>, A: Front, B: Front, i: nat, j: nat, A': Front, B': Front)
    requires Meeting(g, cells, A, B) && i < |A.open| && j < |B.open|
    requires A' == Front(A.root, Without(A.open, i), A.closed + {A.open[i]}, A.depth)
    requires B' == Front(B.root, Without(B.open, j), B.closed + {B.open[j]}, B.depth)
    ensures Both(g, cells, A', B') && A'.Seen() == A.Seen() && B'.Seen() == B.Seen()
    ensures Spread(g, A'.Seen(), A'.closed - {A.open[i]}) && Spread(g, B'.Seen(), B'.closed - {B.open[j]})
    ensures A.open[i] !in A.closed && g.InBounds(A.open[i]) && g.InBounds(B.open[j])
    ensures A.root in A'.closed && B.root in B'.closed
  {
    Popped(g, cells, A, i);
    Popped(g, cells, B, j);
    ApartKept(g, cells, A, B, A', B');
    assert A.open[i] in A.open;
  }

  /** Two cells that are each other's parent: the chain from either never reaches a root. */
  lemma {:induction false} Cycle(cells: seq<seq<Cell>>, a: Pos, b: Pos, n: nat)
    requires At(cells, a).parent == Some(b) && At(cells, b).parent == Some(a)
    ensures !RootedWithin(cells, a, n) && !RootedWithin(cells, b, n)
    decreases n
  {
    if n > 0 {
      Cycle(cells, a, b, n - 1);
    }
  }

  /** How a side's neighbour loop ends: at a meeting, or with every neighbour handled. */
  datatype Sweep =
    | Joined(current: Pos, neighbor: Pos, count: int)
    | Handled(cells: seq<seq<Cell>>, open: seq<Pos>, count: int)

  /**
   * A side's neighbour loop over `ns` with the meeting test as the source
   * writes it (`MeetsAsWritten`), at bidirectional.py:77-104 for the start
   * side and 106-124 for the goal side: a blocked or closed neighbour is
   * skipped; a neighbour not yet open meets, or is counted, hung below
   * `current` with `g` one more and `h` aimed at `other`, and pushed; an
   * open neighbour with a lower `g` through `current` is re-hung. The goal
   * side (`countFirst`) counts a neighbour before the meeting test, the
   * start side after it.
   */
  function SweepAsWritten(cells: seq<seq<Cell>>, current: Pos, ns: seq<Pos>, closed: set<Pos>, open: seq<Pos>,
                          count: int, other: Pos, countFirst: bool): (r: Sweep)
    ensures r.Joined? ==> r.current == current && r.count >= count
    ensures r.Handled? ==> r.count - count == |r.open| - |open| >= 0 && r.open[..|open|] == open
    decreases |ns|
  {
    if ns == [] then Handled(cells, open, count)
    else
      var n, rest, tentative := ns[0], ns[1..], At(cells, current).g + 1;
      if At(cells, n).blocked || n in closed then
        SweepAsWritten(cells, current, rest, closed, open, count, other, countFirst)
      else if n !in open then
        if MeetsAsWritten(cells, n) then Joined(current, n, if countFirst then count + 1 else count)
        else
          var cells' := Put(cells, n, At(cells, n).(g := tentative, h := Manhattan(n, other), parent := Some(current)));
          var r := SweepAsWritten(cells', current, rest, closed, open + [n], count + 1, other, countFirst);
          assert r.Handled? ==> r.open[..|open|] == r.open[..|open| + 1][..|open|];
          r
      else if tentative < At(cells, n).g then
        SweepAsWritten(Put(cells, n, At(cells, n).(g := tentative, parent := Some(current))), current, rest, closed, open, count, other, countFirst)
      else
        SweepAsWritten(cells, current, rest, closed, open, count, other, countFirst)
  }

  /**
   * The one-row grid of three free cells `(0, 0)`, `(1, 0)`, `(2, 0)` as
   * each sweep of the first iteration leaves it: after the reset and the
   * start's `h` (`k = 0`), after the start side adopts the goal (`k = 1`),
   * and after the goal side adopts the start (`k = 2`) and then `(2, 0)`
   * (`k = 3`).
   */
  function RowOfThree(k: nat): seq<seq<Cell>>
  {
    var s, t := Pos(0, 0), Pos(1, 0);
    var start := if k >= 2 then Cell(0, 0, Some(t), 2, 0, false) else NewCell(0, 0).(h := 1);
    var goal := if k >= 1 then Cell(1, 0, Some(s), 1, 0, false) else NewCell(1, 0);
    var end := if k >= 3 then Cell(2, 0, Some(t), 2, 2, false) else NewCell(2, 0);
    [[start, goal, end]]
  }

  /** Overwriting a cell of a one-row grid of three cells. */
  lemma PutInRow(a: Cell, b: Cell, c: Cell, x: int, v: Cell)
    requires 0 <= x < 3
    ensures Put([[a, b, c]], Pos(x, 0), v) == if x == 0 then [[v, b, c]] else if x == 1 then [[a, v, c]] else [[a, b, v]]
  {
    var row := [a, b, c][x := v];
    assert row == if x == 0 then [v, b, c] else if x == 1 then [a, v, c] else [a, b, v];
  }

  /** The first row is the reset grid with the start's `h` set to its distance to the goal. */
  lemma RowReset()
    ensures var blank := [[NewCell(0, 0), NewCell(1, 0), NewCell(2, 0)]];
      RowOfThree(0) == Put(blank, Pos(0, 0), At(blank, Pos(0, 0)).(h := Manhattan(Pos(0, 0), Pos(1, 0))))
  {
    PutInRow(NewCell(0, 0), NewCell(1, 0), NewCell(2, 0), 0, NewCell(0, 0).(h := 1));
  }

  /** First iteration, start side: the start `(0, 0)` finds the goal `(1, 0)` without a parent and adopts it. */
  lemma GoalAdopted()
    ensures SweepAsWritten(RowOfThree(0), Pos(0, 0), [Pos(1, 0)], {Pos(0, 0)}, [], 1, Pos(1, 0), false)
            == Handled(RowOfThree(1), [Pos(1, 0)], 2)
  {
    var cells0 := RowOfThree(0);
    PutInRow(cells0[0][0], cells0[0][1], cells0[0][2], 1, Cell(1, 0, Some(Pos(0, 0)), 1, 0, false));
    assert [Pos(1, 0)][1..] == [];
  }

  /** First iteration, goal side: the goal finds the start without a parent and adopts it, then `(2, 0)`. */
  lemma StartAdopted()
    ensures SweepAsWritten(RowOfThree(1), Pos(1, 0), [Pos(0, 0), Pos(2, 0)], {Pos(1, 0)}, [], 2, Pos(0, 0), true)
            == Handled(RowOfThree(3), [Pos(0, 0), Pos(2, 0)], 4)
  {
    var s, t, e := Pos(0, 0), Pos(1, 0), Pos(2, 0);
    var cells1 := RowOfThree(1);
    PutInRow(cells1[0][0], cells1[0][1], cells1[0][2], 0, Cell(0, 0, Some(t), 2, 0, false));
    assert [s, e][1..] == [e];
    EndAdopted();
  }

  /** The rest of that sweep: `(2, 0)`, not yet open and without a parent, is adopted by the goal. */
  lemma EndAdopted()
    ensures SweepAsWritten(RowOfThree(2), Pos(1, 0), [Pos(2, 0)], {Pos(1, 0)}, [Pos(0, 0)], 3, Pos(0, 0), true)
            == Handled(RowOfThree(3), [Pos(0, 0), Pos(2, 0)], 4)
  {
    var cells2 := RowOfThree(2);
    PutInRow(cells2[0][0], cells2[0][1], cells2[0][2], 2, Cell(2, 0, Some(Pos(1, 0)), 2, 2, false));
    assert [Pos(2, 0)][1..] == [];
  }

  /**
   * Second iteration: the goal side pops the start, whose `f` is the least;
   * the start side pops the goal, skips the closed start and meets at
   * `(2, 0)`, which has a parent.
   */
  lemma MetBeyond()
    ensures Least(FKeys(RowOfThree(3), [Pos(0, 0), Pos(2, 0)]), 0)
    ensures SweepAsWritten(RowOfThree(3), Pos(1, 0), [Pos(0, 0), Pos(2, 0)], {Pos(0, 0), Pos(1, 0)}, [], 4, Pos(1, 0), false)
            == Joined(Pos(1, 0), Pos(2, 0), 4)
  {
    var s, e := Pos(0, 0), Pos(2, 0);
    StartLeast();
    assert [s, e][1..] == [e];
    assert MetAtEnd: SweepAsWritten(RowOfThree(3), Pos(1, 0), [e], {s, Pos(1, 0)}, [], 4, Pos(1, 0), false) == Joined(Pos(1, 0), e, 4) by {
      assert MeetsAsWritten(RowOfThree(3), e);
    }
  }

  /** The start's `f` is 2 and that of `(2, 0)` is 4. */
  lemma StartLeast()
    ensures Least(FKeys(RowOfThree(3), [Pos(0, 0), Pos(2, 0)]), 0)
  {
    var cells3 := RowOfThree(3);
    assert At(cells3, Pos(0, 0)).F() == 2 && At(cells3, Pos(2, 0)).F() == 4;
    var keys := FKeys(cells3, [Pos(0, 0), Pos(2, 0)]);
    assert keys[0] == 2 && keys[1] == 4;
  }

  /** After the first iteration the start and the goal are each other's parent, so no trace from the goal ends. */
  lemma Circled()
    ensures forall n: nat :: !RootedWithin(RowOfThree(3), Pos(1, 0), n)
  {
    var cells3 := RowOfThree(3);
    assert At(cells3, Pos(1, 0)).parent == Some(Pos(0, 0)) && At(cells3, Pos(0, 0)).parent == Some(Pos(1, 0));
    forall n: nat ensures !RootedWithin(cells3, Pos(1, 0), n) {
      Cycle(cells3, Pos(1, 0), Pos(0, 0), n);
    }
  }

  /**
   * The source's meeting test on a one-row grid of three free cells, start
   * `s = (0, 0)`, goal `t = (1, 0)`, `e = (2, 0)`; `get_neighbors` gives
   * `[t]` for `s` and `[s, e]` for `t`. After the reset the start's `h` is
   * its distance to the goal. In the first iteration the start side pops the
   * start and, finding the goal without a parent, adopts it (`GoalAdopted`);
   * the goal side pops the goal and adopts the start and `e`
   * (`StartAdopted`). In the second the start side pops the goal and meets
   * at `e` (`MetBeyond`), so it traces the goal, whose parent chain now runs
   * in a circle (`Circled`): `trace_path` never returns. The intended test
   * stops at the goal at once.
   */
  lemma RootAdopted()
    ensures var s, t, e := Pos(0, 0), Pos(1, 0), Pos(2, 0);
      var blank := [[NewCell(0, 0), NewCell(1, 0), NewCell(2, 0)]];
      && RowOfThree(0) == Put(blank, s, At(blank, s).(h := Manhattan(s, t)))
      && Meets(RowOfThree(0), t, t)
      && SweepAsWritten(RowOfThree(0), s, [t], {s}, [], 1, t, false) == Handled(RowOfThree(1), [t], 2)
      && SweepAsWritten(RowOfThree(1), t, [s, e], {t}, [], 2, s, true) == Handled(RowOfThree(3), [s, e], 4)
      && Least(FKeys(RowOfThree(3), [s, e]), 0)
      && SweepAsWritten(RowOfThree(3), t, [s, e], {s, t}, [], 4, t, false) == Joined(t, e, 4)
      && forall n: nat :: !RootedWithin(RowOfThree(3), t, n)
  {
    RowReset();
    GoalAdopted();
    StartAdopted();
    MetBeyond();
    Circled();
  }

  /**
   * The source's meeting test on a one-row grid of two free cells, start
   * `s = (0, 0)`, goal `t = (1, 0)`; `get_neighbors` gives `[t]` for `s`
   * and `[s]` for `t`. In the first iteration each side adopts the other's
   * root; in the second each pops that root and finds its only neighbour
   * closed. Both heaps are then empty and the source returns the bare count
   * 3, although the goal is next to the start. The intended test stops at
   * the goal at once.
   */
  lemma CountAsWritten()
    ensures var s, t := Pos(0, 0), Pos(1, 0);
      var blank := [[NewCell(0, 0), NewCell(1, 0)]];
      var cells0 := Put(blank, s, At(blank, s).(h := 1));
      var cells1 := Put(cells0, t, At(cells0, t).(g := 1, h := 0, parent := Some(s)));
      var cells2 := Put(cells1, s, At(cells1, s).(g := 2, h := 0, parent := Some(t)));
      && Meets(cells0, t, t)
      && SweepAsWritten(cells0, s, [t], {s}, [], 1, t, false) == Handled(cells1, [t], 2)
      && SweepAsWritten(cells1, t, [s], {t}, [], 2, s, true) == Handled(cells2, [s], 3)
      && SweepAsWritten(cells2, t, [s], {s, t}, [], 3, t, false) == Handled(cells2, [], 3)
      && SweepAsWritten(cells2, s, [t], {t, s}, [], 3, s, true) == Handled(cells2, [], 3)
  {
    var s, t := Pos(0, 0), Pos(1, 0);
    assert [t][1..] == [] && [s][1..] == [];
  }

  /** A side has reached its root. */
  lemma Rooted(g: Grid, cells: seq<seq<Cell>>, F: Front)
    requires Side(g, cells, F)
    ensures F.root in F.Seen() && |F.Seen()| >= 1
  {
    if F.root !in F.closed {
      assert F.open[0] == F.root;
    }
  }

  /** What a leg of `search_all` yields: the goal `t` and a path from the leg's start `s` to it, a legal route unless `t` is blocked. */
  ghost predicate LegFound(g: Grid, s: Pos, t: Pos, r: Outcome)
  {
    match r
    case Goal(path, goal, count) =>
      && goal == t && Walk(s, path) == t && count >= 1
      && (!g.Blocked(t) ==> Route(g, false, s, path) && Reachable(g, false, s, t))
    case _ => false
  }

  /** What a whole leg yields: `LegFound`, or the count when either open heap runs dry, with `t` unreachable from a different, unblocked `s`. */
  ghost predicate LegOver(g: Grid, s: Pos, t: Pos, r: Outcome)
  {
    match r
    case Goal(_, _, _) => LegFound(g, s, t, r)
    case Count(count) => count >= 1 && (s != t && !g.Blocked(s) ==> !Reachable(g, false, s, t))
    case _ => false
  }

  /** No goal of `targets` is blocked. */
  ghost predicate Free(g: Grid, targets: seq<Pos>)
  {
    forall q :: q in targets ==> !g.Blocked(q)
  }

  /**
   * The tour of `search_all` so far: `path` leads from `start` through every
   * goal of `found` to `root`, which is the start or a found goal, and it is
   * a legal route when no goal is blocked.
   */
  ghost predicate Toured(g: Grid, start: Pos, targets: seq<Pos>, path: seq<Token>, found: seq<Pos>, root: Pos)
  {
    match root
    case Pos(_, _) =>
      && Walk(start, path) == root && (root == start || root in found)
      && (forall q :: q in found ==> Visits(start, path, q))
      && (Free(g, targets) ==> Route(g, false, start, path) && Reachable(g, false, start, root))
  }

  /**
   * What `search_all` promises, given the original goal list `targets` and
   * the goals `left` in the agent's list at the end: either a path from the
   * start through every goal, which it empties, and a legal route unless a
   * goal is blocked; or the count once a leg fails, with some goal left
   * unreachable from the start. The last part needs an unblocked start
   * and goals that are all unblocked, distinct and apart from the start,
   * since a leg whose goal is its own start yields a path out and back, or,
   * from a cell with no free neighbour, the count.
   */
  ghost predicate BiAllFound(g: Grid, start: Pos, targets: seq<Pos>, left: seq<Pos>, r: Outcome)
  {
    match r
    case Goals(path, goals, count) =>
      && count >= 1 && left == [] && multiset(goals) == multiset(targets)
      && (forall i :: 0 <= i < |goals| ==> Visits(start, path, goals[i]))
      && (Free(g, targets) ==> Route(g, false, start, path))
    case Count(count) =>
      && count >= 1 && multiset(left) <= multiset(targets) && left != []
      && (Free(g, targets) && !g.Blocked(start) && start !in targets && Seqs.Distinct(targets) ==>
            exists q :: q in left && !Reachable(g, false, start, q))
    case _ => false
  }

  /** The tour through every goal: the answer of `search_all`. */
  lemma TourDone(g: Grid, start: Pos, targets: seq<Pos>, path: seq<Token>, found: seq<Pos>, root: Pos, count: int)
    requires Toured(g, start, targets, path, found, root)
    requires multiset(found) == multiset(targets) && count >= 1
    ensures BiAllFound(g, start, targets, [], Goals(path, found, count))
  {
    forall i | 0 <= i < |found| ensures Visits(start, path, found[i]) {
      assert found[i] in found;
    }
  }

  /** The tour before the first leg: the empty path at the start. */
  lemma TourBegin(g: Grid, start: Pos, targets: seq<Pos>)
    requires g.InBounds(start)
    ensures Toured(g, start, targets, [], [], start)
  {
    assert IsWalk(g, false, [start]);
  }

  /** A leg from `root` to the goal `t` extends the tour to `t`. */
  lemma TourExtended(g: Grid, start: Pos, targets: seq<Pos>, path: seq<Token>, found: seq<Pos>, root: Pos, t: Pos, r: Outcome)
    requires Toured(g, start, targets, path, found, root) && LegFound(g, root, t, r) && t in targets
    ensures Toured(g, start, targets, path + r.path, found + [t], t)
  {
    var p := r.path;
    WalkAppend(start, path, p);
    forall q | q in found + [t] ensures Visits(start, path + p, q) {
      if q == t {
        assert (path + p)[..|path + p|] == path + p;
      } else {
        var i :| 0 <= i <= |path| && Walk(start, path[..i]) == q;
        assert (path + p)[..i] == path[..i];
      }
    }
    if Free(g, targets) {
      RouteAppend(g, false, start, path, p);
      JoinReach(g, false, start, root, t);
    }
  }

  /**
   * A leg that fails: its goal `t`, still wanted, is unreachable from its
   * start `root` whenever the two differ and `root` is unblocked; then, under
   * the conditions of `BiAllFound`, some goal left is unreachable from the
   * start of the tour.
   */
  lemma TourStuck(g: Grid, start: Pos, targets: seq<Pos>, path: seq<Token>, found: seq<Pos>, left: seq<Pos>,
                  root: Pos, t: Pos, count: int)
    requires Toured(g, start, targets, path, found, root)
    requires multiset(found) + multiset(left) == multiset(targets) && t in left && count >= 1
    requires root != t && !g.Blocked(root) ==> !Reachable(g, false, root, t)
    ensures BiAllFound(g, start, targets, left, Count(count))
  {
    if Free(g, targets) && !g.Blocked(start) && start !in targets && Seqs.Distinct(targets) {
      assert t in multiset(targets);
      if root != start {
        assert root in multiset(found);
        Seqs.DistinctOnce(targets, root);
        assert root != t;
        assert root in multiset(targets);
      }
      if Reachable(g, false, start, t) {
        Backtrack(g, false, start, root);
        JoinReach(g, false, root, start, t);
      }
    }
  }

  /** Recording a leg to `t`: the tour reaches `t`, and `t` moves from the goals left to the goals found. */
  lemma Recorded(g: Grid, start: Pos, targets: seq<Pos>, path: seq<Token>, found: seq<Pos>, root: Pos, t: Pos, r: Outcome,
                 left: seq<Pos>, left': seq<Pos>, count: int)
    requires Toured(g, start, targets, path, found, root) && LegFound(g, root, t, r)
    requires multiset(found) + multiset(left) == multiset(targets) && t in left
    requires multiset(left') == multiset(left) - multiset{t} && count >= 1
    requires root == GoalLists.Standing(start, found)
    ensures Toured(g, start, targets, path + r.path, found + [t], t)
    ensures multiset(found + [t]) + multiset(left') == multiset(targets)
    ensures t == GoalLists.Standing(start, found + [t])
    ensures left' == [] ==> BiAllFound(g, start, targets, left', Goals(path + r.path, found + [t], count))
    ensures GoalLists.LeftAt(start, targets, Goals(path + r.path, found + [t], count), root)
  {
    GoalLists.LastLeg(start, targets, left, found, root, Goals(path + r.path, found + [t], count));
    assert t in targets by {
      assert t in multiset(targets);
    }
    TourExtended(g, start, targets, path, found, root, t, r);
    if left' == [] {
      TourDone(g, start, targets, path + r.path, found + [t], t, count);
    }
  }

  /** A meeting found by one side stays a found leg whatever the other side's extra count. */
  lemma JoinedLeg(g: Grid, s: Pos, t: Pos, r: Outcome, count: int)
    requires BiJoined(g, s, t, r) && count >= r.count
    ensures LegFound(g, s, t, Goal(r.path, r.goal, count))
  {
  }
}

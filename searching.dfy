/**
 * What the search algorithms share: the move relation they explore,
 * reachability, the search tree their parent links form, legal routes, the
 * result they return and the neighbour-discovery loop of BFS and DFS.
 */
module Searching {
  import opened Wrappers
  import opened Directions
  import opened Cells
  import opened Grids
  import opened Neighborhoods
  import opened Agents
  import Seqs

  /** The result dictionary (`path`, `goal`, `count`), or the bare count when the frontier runs dry. */
  datatype Outcome =
    | Goal(path: seq<Token>, goal: Pos, count: int)
    | Goals(path: seq<Token>, goals: seq<Pos>, count: int)
    | GoalSet(path: seq<Token>, reached: set<Pos>, count: int)
    | Count(count: int)

  /**
   * A search may step from `a` to `b`: both are in the grid, `b` is not
   * blocked, and `b` is a different cell in line with `a`, one cell away
   * unless jumping is allowed. `EdgeIsNeighbor` shows this is exactly
   * "`b` is in `get_neighbors(a)` and not blocked".
   */
  ghost predicate Edge(g: Grid, canJump: bool, a: Pos, b: Pos)
  {
    g.InBounds(a) && Adjacent(g, canJump, a, b) && !g.Blocked(b)
  }

  /** `b` is a grid cell that `get_neighbors(a, canJump)` can return. */
  predicate Adjacent(g: Grid, canJump: bool, a: Pos, b: Pos)
  {
    g.InBounds(b) && a != b && Aligned(a, b) && (canJump || Manhattan(a, b) == 1)
  }

  lemma NeighborsAdjacent(g: Grid, canJump: bool, a: Pos, ns: seq<Pos>)
    requires forall i :: 0 <= i < |ns| ==> ns[i] in g.Neighbors(a, canJump)
    ensures forall i :: 0 <= i < |ns| ==> Adjacent(g, canJump, a, ns[i])
  {
    forall i | 0 <= i < |ns| ensures Adjacent(g, canJump, a, ns[i]) {
      NeighborsInLine(g, a, canJump, ns[i]);
    }
  }

  lemma EdgeIsNeighbor(g: Grid, canJump: bool, a: Pos, b: Pos)
    requires g.InBounds(a)
    ensures Edge(g, canJump, a, b) <==> b in g.Neighbors(a, canJump) && !g.Blocked(b)
  {
    if canJump {
      JumpNeighbors(g, a, b);
    } else {
      UnitNeighbors(g, a, b);
      if Manhattan(a, b) == 1 {
        UnitIsAligned(a, b);
      }
    }
  }

  /** A walk: consecutive cells are joined by edges. */
  ghost predicate IsWalk(g: Grid, canJump: bool, w: seq<Pos>)
  {
    |w| >= 1 && forall i :: 0 <= i < |w| - 1 ==> Edge(g, canJump, w[i], w[i + 1])
  }

  ghost predicate Reachable(g: Grid, canJump: bool, a: Pos, b: Pos)
  {
    exists w :: IsWalk(g, canJump, w) && w[0] == a && w[|w| - 1] == b
  }

  /** All cells of the grid. */
  ghost function AllCells(g: Grid): set<Pos>
  {
    set x, y | 0 <= x < g.width && 0 <= y < g.height :: Pos(x, y)
  }

  /** The in-bounds cells reachable from `a`. */
  ghost function ReachableSet(g: Grid, canJump: bool, a: Pos): (r: set<Pos>)
    ensures forall p :: p in r <==> g.InBounds(p) && Reachable(g, canJump, a, p)
  {
    set x, y | 0 <= x < g.width && 0 <= y < g.height && Reachable(g, canJump, a, Pos(x, y)) :: Pos(x, y)
  }

  lemma InAllCells(g: Grid, p: Pos)
    ensures p in AllCells(g) <==> g.InBounds(p)
  {
  }

  /**
   * The parent links of the visited cells `V` form a tree rooted at `root`:
   * every other visited cell hangs by an edge from a visited parent one level
   * higher in `D`.
   */
  ghost predicate Tree(g: Grid, cells: seq<seq<Cell>>, canJump: bool, root: Pos, V: set<Pos>, D: map<Pos, nat>)
  {
    && root in V && V <= D.Keys && D[root] == 0
    && At(cells, root).parent == None
    && (forall c :: c in V ==> g.InBounds(c))
    && (forall c {:trigger Linked(g, cells, canJump, V, D, c)} :: c in V && c != root ==> Linked(g, cells, canJump, V, D, c))
  }

  ghost predicate Linked(g: Grid, cells: seq<seq<Cell>>, canJump: bool, V: set<Pos>, D: map<Pos, nat>, c: Pos)
    requires V <= D.Keys && c in V
  {
    && At(cells, c).parent.Some?
    && At(cells, c).parent.value in V
    && D[c] == D[At(cells, c).parent.value] + 1
    && Edge(g, canJump, At(cells, c).parent.value, c)
  }

  /**
   * Every token of `path`, walked from `s`, is a move a search may make: from
   * a cell of the grid to a different, unblocked cell of the grid in line with
   * it, one cell away unless jumping is allowed.
   */
  ghost predicate Route(g: Grid, canJump: bool, s: Pos, path: seq<Token>)
  {
    forall i :: 1 <= i <= |path| ==> Edge(g, canJump, Walk(s, path[..i - 1]), Walk(s, path[..i]))
  }

  /** `p` is a cell that `path` passes through from `s` (`s` itself included). */
  ghost predicate Visits(s: Pos, path: seq<Token>, p: Pos)
  {
    exists i :: 0 <= i <= |path| && Walk(s, path[..i]) == p
  }

  lemma RouteAppend(g: Grid, canJump: bool, s: Pos, a: seq<Token>, b: seq<Token>)
    requires Route(g, canJump, s, a) && Route(g, canJump, Walk(s, a), b)
    ensures Route(g, canJump, s, a + b)
    ensures Walk(s, a + b) == Walk(Walk(s, a), b)
    ensures forall p :: Visits(s, a, p) ==> Visits(s, a + b, p)
    ensures forall p :: Visits(Walk(s, a), b, p) ==> Visits(s, a + b, p)
  {
    WalkAppend(s, a, b);
    forall i | 1 <= i <= |a + b|
      ensures Edge(g, canJump, Walk(s, (a + b)[..i - 1]), Walk(s, (a + b)[..i]))
    {
      if i <= |a| {
        assert (a + b)[..i] == a[..i] && (a + b)[..i - 1] == a[..i - 1];
      } else {
        assert (a + b)[..i] == a + b[..i - |a|];
        assert (a + b)[..i - 1] == a + b[..i - 1 - |a|];
        WalkAppend(s, a, b[..i - |a|]);
        WalkAppend(s, a, b[..i - 1 - |a|]);
        if i - 1 == |a| {
          assert b[..i - 1 - |a|] == [];
        }
      }
    }
    forall p | Visits(s, a, p) ensures Visits(s, a + b, p) {
      var i :| 0 <= i <= |a| && Walk(s, a[..i]) == p;
      assert (a + b)[..i] == a[..i];
    }
    forall p | Visits(Walk(s, a), b, p) ensures Visits(s, a + b, p) {
      var i :| 0 <= i <= |b| && Walk(Walk(s, a), b[..i]) == p;
      assert (a + b)[..|a| + i] == a + b[..i];
      WalkAppend(s, a, b[..i]);
    }
  }

  lemma RouteSnoc(g: Grid, canJump: bool, s: Pos, a: seq<Token>, t: Token)
    requires Route(g, canJump, s, a)
    requires Edge(g, canJump, Walk(s, a), Move(Walk(s, a), t))
    ensures Route(g, canJump, s, a + [t]) && Walk(s, a + [t]) == Move(Walk(s, a), t)
  {
    WalkAppend(s, a, [t]);
    forall i | 0 <= i <= |a| ensures (a + [t])[..i] == a[..i] {
    }
    assert (a + [t])[..|a| + 1] == a + [t];
    assert (a + [t])[..|a|] == a;
  }

  /** The cells a route passes through, one per prefix, form a walk of `|path|` moves from `s` to where the route ends. */
  lemma RouteWalk(g: Grid, canJump: bool, s: Pos, path: seq<Token>) returns (w: seq<Pos>)
    requires Route(g, canJump, s, path)
    ensures IsWalk(g, canJump, w) && |w| == |path| + 1 && w[0] == s && w[|w| - 1] == Walk(s, path)
    ensures forall i :: 0 <= i <= |path| ==> w[i] == Walk(s, path[..i])
  {
    w := seq(|path| + 1, i requires 0 <= i <= |path| => Walk(s, path[..i]));
    assert path[..0] == [] && path[..|path|] == path;
    forall i | 0 <= i < |w| - 1 ensures Edge(g, canJump, w[i], w[i + 1]) {
      assert Edge(g, canJump, Walk(s, path[..i + 1 - 1]), Walk(s, path[..i + 1]));
    }
  }

  lemma AlignedSymmetric(a: Pos, b: Pos)
    ensures Aligned(a, b) == Aligned(b, a)
  {
  }

  /**
   * The trace of a tree cell: `trace_path` terminates, the backward trace has
   * one token per tree level, leads from the root to the cell, and each token
   * is a move along an edge of the tree.
   */
  lemma {:induction false} TreeTrace(g: Grid, cells: seq<seq<Cell>>, canJump: bool, root: Pos, V: set<Pos>, D: map<Pos, nat>,
                                     c: Pos, suffix: bool)
    requires Tree(g, cells, canJump, root, V, D) && c in V
    requires canJump ==> suffix
    ensures RootedWithin(cells, c, D[c])
    ensures var path := Tokens(cells, c, D[c], suffix, true);
      |path| == D[c] && Walk(root, path) == c && Route(g, canJump, root, path)
    decreases D[c]
  {
    if c != root {
      assert Linked(g, cells, canJump, V, D, c);
      var p := At(cells, c).parent.value;
      TreeTrace(g, cells, canJump, root, V, D, p, suffix);
      var a := Tokens(cells, p, D[p], suffix, true);
      var t := LinkToken(c, p, suffix, true);
      assert Tokens(cells, c, D[c], suffix, true) == a + [t];
      AlignedSymmetric(p, c);
      ManhattanMetric(p, c, c);
      MoveLink(c, p, suffix);
      RouteSnoc(g, canJump, root, a, t);
    }
  }

  /** A tree cell is reachable from the root by a walk of `D[c]` edges. */
  lemma {:induction false} TreeWalk(g: Grid, cells: seq<seq<Cell>>, canJump: bool, root: Pos, V: set<Pos>, D: map<Pos, nat>, c: Pos)
    returns (w: seq<Pos>)
    requires Tree(g, cells, canJump, root, V, D) && c in V
    ensures IsWalk(g, canJump, w) && w[0] == root && w[|w| - 1] == c && |w| == D[c] + 1
    decreases D[c]
  {
    if c == root {
      w := [root];
    } else {
      assert Linked(g, cells, canJump, V, D, c);
      var p := At(cells, c).parent.value;
      var u := TreeWalk(g, cells, canJump, root, V, D, p);
      w := u + [c];
      assert w[|u| - 1] == p;
    }
  }

  /** A set that contains `a` and is closed under edges contains everything reachable from `a`. */
  lemma ClosedHoldsReachable(g: Grid, canJump: bool, S: set<Pos>, a: Pos, b: Pos)
    requires a in S && forall c, n :: c in S && Edge(g, canJump, c, n) ==> n in S
    requires Reachable(g, canJump, a, b)
    ensures b in S
  {
    var w :| IsWalk(g, canJump, w) && w[0] == a && w[|w| - 1] == b;
    var i := 0;
    while i < |w| - 1
      invariant 0 <= i <= |w| - 1 && w[i] in S
    {
      assert Edge(g, canJump, w[i], w[i + 1]);
      i := i + 1;
    }
  }

  /** Reachability is transitive. */
  lemma JoinReach(g: Grid, canJump: bool, a: Pos, b: Pos, c: Pos)
    requires Reachable(g, canJump, a, b) && Reachable(g, canJump, b, c)
    ensures Reachable(g, canJump, a, c)
  {
    var u :| IsWalk(g, canJump, u) && u[0] == a && u[|u| - 1] == b;
    var v :| IsWalk(g, canJump, v) && v[0] == b && v[|v| - 1] == c;
    var w := u + v[1..];
    forall i | 0 <= i < |w| - 1 ensures Edge(g, canJump, w[i], w[i + 1]) {
      if i < |u| - 1 {
        assert Edge(g, canJump, u[i], u[i + 1]);
      } else {
        assert w[i] == v[i - |u| + 1] && w[i + 1] == v[i - |u| + 2];
        assert Edge(g, canJump, v[i - |u| + 1], v[i - |u| + 2]);
      }
    }
    assert IsWalk(g, canJump, w) && w[0] == a && w[|w| - 1] == c;
  }

  /** A move between two unblocked cells can be made in either direction. */
  lemma EdgeBack(g: Grid, canJump: bool, a: Pos, b: Pos)
    requires Edge(g, canJump, a, b) && !g.Blocked(a)
    ensures Edge(g, canJump, b, a)
  {
    AlignedSymmetric(a, b);
    ManhattanMetric(a, b, b);
  }

  /** A walk that starts on an unblocked cell only visits unblocked cells, so it can be walked back. */
  lemma Backtrack(g: Grid, canJump: bool, a: Pos, b: Pos)
    requires Reachable(g, canJump, a, b) && !g.Blocked(a)
    ensures Reachable(g, canJump, b, a)
  {
    var w :| IsWalk(g, canJump, w) && w[0] == a && w[|w| - 1] == b;
    var r := Seqs.Reversed(w);
    forall i | 0 <= i < |r| - 1 ensures Edge(g, canJump, r[i], r[i + 1]) {
      var j := |w| - 2 - i;
      assert r[i] == w[j + 1] && r[i + 1] == w[j];
      assert Edge(g, canJump, w[j], w[j + 1]);
      if j > 0 {
        assert Edge(g, canJump, w[j - 1], w[j]);
      }
      EdgeBack(g, canJump, w[j], w[j + 1]);
    }
    assert IsWalk(g, canJump, r) && r[0] == b && r[|r| - 1] == a;
  }

  /** Every visited cell is reachable from the root, so there are at most as many as reachable cells. */
  lemma TreeWithinReach(g: Grid, cells: seq<seq<Cell>>, canJump: bool, root: Pos, V: set<Pos>, D: map<Pos, nat>)
    requires Tree(g, cells, canJump, root, V, D)
    ensures V <= ReachableSet(g, canJump, root)
    ensures |V| <= |ReachableSet(g, canJump, root)|
  {
    var R := ReachableSet(g, canJump, root);
    forall p | p in V ensures p in R {
      var w := TreeWalk(g, cells, canJump, root, V, D, p);
    }
    assert R == V + (R - V);
  }

  /** Every visited cell other than the root was entered by an edge, so it is not blocked. */
  lemma TreeUnblocked(g: Grid, cells: seq<seq<Cell>>, canJump: bool, root: Pos, V: set<Pos>, D: map<Pos, nat>, c: Pos)
    requires Tree(g, cells, canJump, root, V, D) && c in V && c != root
    ensures !g.Blocked(c)
  {
    assert Linked(g, cells, canJump, V, D, c);
  }

  /** When the visited tree is closed under edges it is exactly the reachable set. */
  lemma ExhaustedTree(g: Grid, cells: seq<seq<Cell>>, canJump: bool, root: Pos, V: set<Pos>, D: map<Pos, nat>)
    requires Tree(g, cells, canJump, root, V, D)
    requires forall c, n :: c in V && Edge(g, canJump, c, n) ==> n in V
    ensures V == ReachableSet(g, canJump, root)
  {
    forall p | p in V ensures p in ReachableSet(g, canJump, root) {
      var w := TreeWalk(g, cells, canJump, root, V, D, p);
    }
    forall p | p in ReachableSet(g, canJump, root) ensures p in V {
      ClosedHoldsReachable(g, canJump, V, root, p);
    }
  }

  /** A tree of one cell whose parent link is cleared. */
  lemma Singleton(g: Grid, cells: seq<seq<Cell>>, canJump: bool, root: Pos)
    requires g.InBounds(root) && At(cells, root).parent == None
    ensures Tree(g, cells, canJump, root, {root}, map[root := 0])
  {
  }

  /** Hanging a new cell below a visited cell keeps the tree. */
  lemma Adopt(g: Grid, cells: seq<seq<Cell>>, canJump: bool, root: Pos, V: set<Pos>, D: map<Pos, nat>, p: Pos, n: Pos)
    requires WellFormed(cells, g.height, g.width, g.walls)
    requires Tree(g, cells, canJump, root, V, D) && p in V && n !in V && Edge(g, canJump, p, n)
    ensures g.InBounds(n)
    ensures Tree(g, Put(cells, n, At(cells, n).(parent := Some(p))), canJump, root, V + {n}, D[n := D[p] + 1])
  {
    var cells' := Put(cells, n, At(cells, n).(parent := Some(p)));
    forall c | c in V + {n} && c != root
      ensures Linked(g, cells', canJump, V + {n}, D[n := D[p] + 1], c)
    {
      if c != n {
        assert Linked(g, cells, canJump, V, D, c);
      }
    }
  }

  ghost function ToSet(s: seq<Pos>): set<Pos>
  {
    set n | n in s
  }

  lemma ToSetSnoc(s: seq<Pos>, n: Pos)
    ensures ToSet(s + [n]) == ToSet(s) + {n}
  {
  }

  lemma ToSetConcat(a: seq<Pos>, b: seq<Pos>)
    ensures ToSet(a + b) == ToSet(a) + ToSet(b)
  {
  }

  /** A sequence without repeats has as many elements as its set. */
  lemma {:induction false} DistinctCard(s: seq<Pos>)
    requires Seqs.Distinct(s)
    ensures |ToSet(s)| == |s|
  {
    if s != [] {
      var t := s[..|s| - 1];
      assert s == t + [s[|s| - 1]];
      ToSetSnoc(t, s[|s| - 1]);
      DistinctCard(t);
    }
  }

  /** Cutting out the loops of a walk leaves a walk between the same ends that repeats no cell. */
  lemma {:induction false} ShortenWalk(g: Grid, canJump: bool, w: seq<Pos>) returns (v: seq<Pos>)
    requires IsWalk(g, canJump, w)
    ensures IsWalk(g, canJump, v) && Seqs.Distinct(v)
    ensures v[0] == w[0] && v[|v| - 1] == w[|w| - 1] && |v| <= |w|
    decreases |w|
  {
    if Seqs.Distinct(w) {
      return w;
    }
    var i, j :| 0 <= i < j < |w| && w[i] == w[j];
    var u := w[..i] + w[j..];
    forall k | 0 <= k < |u| - 1 ensures Edge(g, canJump, u[k], u[k + 1]) {
      if k < i - 1 {
        assert u[k] == w[k] && u[k + 1] == w[k + 1];
      } else if k == i - 1 {
        assert u[k] == w[i - 1] && u[k + 1] == w[i];
      } else {
        assert u[k] == w[k - i + j] && u[k + 1] == w[k + 1 - i + j];
      }
    }
    v := ShortenWalk(g, canJump, u);
  }

  /** A walk that repeats no cell enters each unblocked cell at most once, so it makes at most as many moves as there are unblocked cells. */
  lemma SimpleWalkBound(g: Grid, canJump: bool, w: seq<Pos>)
    requires IsWalk(g, canJump, w) && Seqs.Distinct(w)
    ensures |w| - 1 <= |g.FreeCells()|
  {
    var t := w[1..];
    DistinctCard(t);
    forall p | p in ToSet(t) ensures p in g.FreeCells() {
      var i :| 0 <= i < |t| && t[i] == p;
      assert Edge(g, canJump, w[i], w[i + 1]);
    }
    assert g.FreeCells() == ToSet(t) + (g.FreeCells() - ToSet(t));
  }

  /** `path` is a legal route from the start through the reached goals to `root`, which is reachable and not blocked unless it is the start. */
  ghost predicate Travelled(g: Grid, canJump: bool, start: Pos, path: seq<Token>, reached: set<Pos>, root: Pos)
  {
    && Route(g, canJump, start, path) && Walk(start, path) == root
    && (forall q :: q in reached ==> Visits(start, path, q))
    && Reachable(g, canJump, start, root) && (root == start || !g.Blocked(root))
  }

  /**
   * The frontier discipline over the visited cells `V`: the frontier `S`
   * holds distinct cells, the visited cells are the `closed` (already
   * popped and expanded) ones plus the frontier ones, and every unit move
   * out of a closed cell lands on a visited cell.
   */
  ghost predicate Frontier(g: Grid, V: set<Pos>, S: seq<Pos>, closed: set<Pos>)
  {
    && Seqs.Distinct(S)
    && closed + ToSet(S) == V && closed * ToSet(S) == {}
    && (forall c, n :: c in closed && Edge(g, false, c, n) ==> n in V)
  }

  /** The first `k` cells of `ns` that are neither visited nor blocked, in order. */
  ghost function Unseen(g: Grid, ns: seq<Pos>, V: set<Pos>, k: nat): seq<Pos>
    requires k <= |ns|
  {
    if k == 0 then []
    else Unseen(g, ns, V, k - 1) + (if ns[k - 1] !in V && !g.Blocked(ns[k - 1]) then [ns[k - 1]] else [])
  }

  lemma {:induction false} UnseenMembers(g: Grid, ns: seq<Pos>, V: set<Pos>, k: nat)
    requires k <= |ns|
    ensures forall n :: n in Unseen(g, ns, V, k) <==> (exists i :: 0 <= i < k && ns[i] == n) && n !in V && !g.Blocked(n)
  {
    if k > 0 {
      UnseenMembers(g, ns, V, k - 1);
    }
  }

  lemma {:induction false} UnseenDistinct(g: Grid, ns: seq<Pos>, V: set<Pos>, k: nat)
    requires k <= |ns|
    requires forall i, j :: 0 <= i < j < |ns| ==> ns[i] != ns[j]
    ensures forall i, j :: 0 <= i < j < |Unseen(g, ns, V, k)| ==> Unseen(g, ns, V, k)[i] != Unseen(g, ns, V, k)[j]
  {
    if k > 0 {
      UnseenDistinct(g, ns, V, k - 1);
      UnseenMembers(g, ns, V, k - 1);
    }
  }

  /** `after` is `before` with the parent of every cell of `added` set to `current`. */
  ghost predicate Parented(before: seq<seq<Cell>>, after: seq<seq<Cell>>, added: seq<Pos>, current: Pos)
  {
    forall p :: At(after, p) == if p in added then At(before, p).(parent := Some(current)) else At(before, p)
  }

  /** `D'` extends `D` with the cells of `added` one level below `current`. */
  ghost predicate Deepened(D: map<Pos, nat>, D': map<Pos, nat>, V: set<Pos>, added: seq<Pos>, current: Pos)
    requires current in D && V <= D.Keys
  {
    && (forall v :: v in V ==> v in D' && D'[v] == D[v])
    && (forall n :: n in added ==> n in D' && D'[n] == D[current] + 1)
  }

  lemma ParentedSnoc(before: seq<seq<Cell>>, after: seq<seq<Cell>>, added: seq<Pos>, current: Pos, n: Pos)
    requires Parented(before, after, added, current) && n !in added && InTable(after, n)
    ensures Parented(before, Put(after, n, At(after, n).(parent := Some(current))), added + [n], current)
  {
  }

  lemma DeepenedSnoc(D0: map<Pos, nat>, D: map<Pos, nat>, V0: set<Pos>, added: seq<Pos>, current: Pos, n: Pos)
    requires current in D0 && V0 <= D0.Keys && current in V0 && Deepened(D0, D, V0, added, current)
    requires n !in V0
    ensures Deepened(D0, D[n := D[current] + 1], V0, added + [n], current)
  {
  }

  /** The state of the neighbour loop after the first `k` neighbours. */
  ghost predicate Discovering(g: Grid, canJump: bool, current: Pos, root: Pos, ns: seq<Pos>, k: nat,
                              frontier0: seq<Pos>, V0: set<Pos>, count0: int, D0: map<Pos, nat>, cells0: seq<seq<Cell>>,
                              frontier: seq<Pos>, V: set<Pos>, count: int, D: map<Pos, nat>, cells: seq<seq<Cell>>)
  {
    && k <= |ns| && current in V0 && V0 <= D0.Keys
    && WellFormed(cells, g.height, g.width, g.walls) && Tree(g, cells, canJump, root, V, D)
    && frontier == frontier0 + Unseen(g, ns, V0, k)
    && V == V0 + ToSet(Unseen(g, ns, V0, k))
    && count == count0 + |Unseen(g, ns, V0, k)|
    && Parented(cells0, cells, Unseen(g, ns, V0, k), current)
    && Deepened(D0, D, V0, Unseen(g, ns, V0, k), current)
  }

  /** How the next neighbour extends the list of added cells. */
  lemma DiscoverFacts(g: Grid, canJump: bool, current: Pos, root: Pos, ns: seq<Pos>, k: nat,
                        frontier0: seq<Pos>, V0: set<Pos>, count0: int, D0: map<Pos, nat>, cells0: seq<seq<Cell>>,
                        frontier: seq<Pos>, V: set<Pos>, count: int, D: map<Pos, nat>, cells: seq<seq<Cell>>)
    requires Discovering(g, canJump, current, root, ns, k, frontier0, V0, count0, D0, cells0, frontier, V, count, D, cells)
    requires k < |ns|
    requires g.InBounds(current)
    requires forall i :: 0 <= i < |ns| ==> Adjacent(g, canJump, current, ns[i])
    requires forall i, j :: 0 <= i < j < |ns| ==> ns[i] != ns[j]
    ensures g.InBounds(ns[k]) && Edge(g, canJump, current, ns[k]) == !g.Blocked(ns[k])
    ensures At(cells, ns[k]).blocked || ns[k] in V ==> Unseen(g, ns, V0, k + 1) == Unseen(g, ns, V0, k)
    ensures !At(cells, ns[k]).blocked && ns[k] !in V ==>
              Unseen(g, ns, V0, k + 1) == Unseen(g, ns, V0, k) + [ns[k]] && ns[k] !in Unseen(g, ns, V0, k)
  {
    assert Adjacent(g, canJump, current, ns[k]);
    UnseenMembers(g, ns, V0, k);
    assert ns[k] in V <==> ns[k] in V0;
    assert At(cells, ns[k]).blocked == g.Blocked(ns[k]);
  }

  lemma DiscoverTake(g: Grid, canJump: bool, current: Pos, root: Pos, ns: seq<Pos>, k: nat,
                        frontier0: seq<Pos>, V0: set<Pos>, count0: int, D0: map<Pos, nat>, cells0: seq<seq<Cell>>,
                        frontier: seq<Pos>, V: set<Pos>, count: int, D: map<Pos, nat>, cells: seq<seq<Cell>>)
    requires Discovering(g, canJump, current, root, ns, k, frontier0, V0, count0, D0, cells0, frontier, V, count, D, cells)
    requires k < |ns|
    requires !At(cells, ns[k]).blocked && ns[k] !in V && Edge(g, canJump, current, ns[k])
    requires Unseen(g, ns, V0, k + 1) == Unseen(g, ns, V0, k) + [ns[k]] && ns[k] !in Unseen(g, ns, V0, k)
    ensures var n := ns[k];
      Discovering(g, canJump, current, root, ns, k + 1, frontier0, V0, count0, D0, cells0,
                  frontier + [n], V + {n}, count + 1, D[n := D[current] + 1], Put(cells, n, At(cells, n).(parent := Some(current))))
  {
    var n := ns[k];
    var added := Unseen(g, ns, V0, k);
    TakeTree(g, canJump, current, root, V, D, cells, n);
    ParentedSnoc(cells0, cells, added, current, n);
    assert D[current] == D0[current];
    DeepenedSnoc(D0, D, V0, added, current, n);
    ToSetSnoc(added, n);
    SnocAssoc(frontier0, added, n);
  }

  lemma SnocAssoc(a: seq<Pos>, b: seq<Pos>, n: Pos)
    ensures (a + b) + [n] == a + (b + [n])
  {
  }

  lemma TakeTree(g: Grid, canJump: bool, current: Pos, root: Pos, V: set<Pos>, D: map<Pos, nat>, cells: seq<seq<Cell>>, n: Pos)
    requires WellFormed(cells, g.height, g.width, g.walls) && Tree(g, cells, canJump, root, V, D)
    requires current in V && n !in V && Edge(g, canJump, current, n)
    ensures var cells' := Put(cells, n, At(cells, n).(parent := Some(current)));
      && WellFormed(cells', g.height, g.width, g.walls)
      && Tree(g, cells', canJump, root, V + {n}, D[n := D[current] + 1])
  {
    Adopt(g, cells, canJump, root, V, D, current, n);
    PutWellFormed(cells, g.height, g.width, g.walls, n, At(cells, n).(parent := Some(current)));
  }

  lemma DiscoverSkip(g: Grid, canJump: bool, current: Pos, root: Pos, ns: seq<Pos>, k: nat,
                        frontier0: seq<Pos>, V0: set<Pos>, count0: int, D0: map<Pos, nat>, cells0: seq<seq<Cell>>,
                        frontier: seq<Pos>, V: set<Pos>, count: int, D: map<Pos, nat>, cells: seq<seq<Cell>>)
    requires Discovering(g, canJump, current, root, ns, k, frontier0, V0, count0, D0, cells0, frontier, V, count, D, cells)
    requires k < |ns|
    requires Unseen(g, ns, V0, k + 1) == Unseen(g, ns, V0, k)
    ensures Discovering(g, canJump, current, root, ns, k + 1, frontier0, V0, count0, D0, cells0, frontier, V, count, D, cells)
  {
  }

  /**
   * The neighbour loop of BFS and DFS: every neighbour that is neither
   * blocked nor visited is counted, pushed on the frontier, marked visited
   * and given `current` as parent.
   */
  method Discover(g: Grid, canJump: bool, current: Pos, ns: seq<Pos>, frontier: seq<Pos>, visited: set<Pos>, count: int,
                  ghost root: Pos, ghost D: map<Pos, nat>)
    returns (frontier': seq<Pos>, visited': set<Pos>, count': int, ghost D': map<Pos, nat>)
    requires g.Valid() && Tree(g, g.cells, canJump, root, visited, D) && current in visited
    requires forall i :: 0 <= i < |ns| ==> Adjacent(g, canJump, current, ns[i])
    requires forall i, j :: 0 <= i < j < |ns| ==> ns[i] != ns[j]
    modifies g
    ensures g.Valid() && Tree(g, g.cells, canJump, root, visited', D')
    ensures frontier' == frontier + Unseen(g, ns, visited, |ns|)
    ensures visited' == visited + ToSet(Unseen(g, ns, visited, |ns|))
    ensures count' == count + |Unseen(g, ns, visited, |ns|)|
    ensures Parented(old(g.cells), g.cells, Unseen(g, ns, visited, |ns|), current)
    ensures Deepened(D, D', visited, Unseen(g, ns, visited, |ns|), current)
  {
    frontier', visited', count', D' := frontier, visited, count, D;
    var cells := g.cells;
    ghost var cells0 := g.cells;
    for i := 0 to |ns|
      invariant Discovering(g, canJump, current, root, ns, i, frontier, visited, count, D, cells0, frontier', visited', count', D', cells)
    {
      var neighbor := ns[i];
      DiscoverFacts(g, canJump, current, root, ns, i, frontier, visited, count, D, cells0, frontier', visited', count', D', cells);
      if !At(cells, neighbor).blocked && neighbor !in visited' {
        DiscoverTake(g, canJump, current, root, ns, i, frontier, visited, count, D, cells0, frontier', visited', count', D', cells);
        count' := count' + 1;
        frontier' := frontier' + [neighbor];
        D' := D'[neighbor := D'[current] + 1];
        visited' := visited' + {neighbor};
        cells := Put(cells, neighbor, At(cells, neighbor).(parent := Some(current)));
      } else {
        DiscoverSkip(g, canJump, current, root, ns, i, frontier, visited, count, D, cells0, frontier', visited', count', D', cells);
      }
    }
    g.cells := cells;
  }
}

/**
 * What the informed searches (A*, greedy, beam and bidirectional) share:
 * taking one entry out of a frontier list, and choosing an entry of least
 * key, which is what popping a binary heap ordered on that key returns.
 */
module Informed {
  import opened Wrappers
  import opened Cells
  import opened Grids
  import opened Searching
  import Seqs

  /** The frontier `S` with its `i`-th entry taken out, the others in order. */
  function Without(S: seq<Pos>, i: nat): (r: seq<Pos>)
    requires i < |S|
    ensures |r| == |S| - 1
    ensures forall j :: 0 <= j < |r| ==> r[j] == if j < i then S[j] else S[j + 1]
  {
    S[..i] + S[i + 1..]
  }

  /** Taking an entry out of a frontier without repeats removes exactly that cell. */
  lemma WithoutMembers(S: seq<Pos>, i: nat)
    requires i < |S| && Seqs.Distinct(S)
    ensures Seqs.Distinct(Without(S, i))
    ensures ToSet(Without(S, i)) == ToSet(S) - {S[i]}
  {
    var r := Without(S, i);
    forall p | p in ToSet(S) - {S[i]} ensures p in ToSet(r) {
      var j :| 0 <= j < |S| && S[j] == p;
      if j < i {
        assert r[j] == p;
      } else {
        assert r[j - 1] == p;
      }
    }
  }

  /** Index `i` holds a least key. */
  predicate Least(keys: seq<int>, i: int)
  {
    0 <= i < |keys| && forall j :: 0 <= j < |keys| ==> keys[i] <= keys[j]
  }

  /** The first index of a least key: what `min(s, key=...)` picks. */
  function FirstLeast(keys: seq<int>): (i: nat)
    requires keys != []
    ensures Least(keys, i)
    ensures forall j :: 0 <= j < i ==> keys[j] > keys[i]
  {
    if |keys| == 1 then 0
    else
      var i := FirstLeast(keys[..|keys| - 1]);
      if keys[|keys| - 1] < keys[i] then |keys| - 1 else i
  }

  /**
   * Pop a cell of least `f` from the open list: which of several cells of
   * equal `f` the heap yields is left open.
   */
  method PopLeast(cells: seq<seq<Cell>>, S: seq<Pos>) returns (i: nat)
    requires S != []
    ensures Least(FKeys(cells, S), i)
  {
    var keys := FKeys(cells, S);
    ghost var first := FirstLeast(keys);
    i :| Least(keys, i);
  }

  /** The `f` keys of the frontier cells, in frontier order. */
  function FKeys(cells: seq<seq<Cell>>, S: seq<Pos>): (keys: seq<int>)
    ensures |keys| == |S| && forall j :: 0 <= j < |S| ==> keys[j] == At(cells, S[j]).F()
  {
    seq(|S|, j requires 0 <= j < |S| => At(cells, S[j]).F())
  }

  /** The `h` keys of the frontier cells, in frontier order. */
  function HKeys(cells: seq<seq<Cell>>, S: seq<Pos>): (keys: seq<int>)
    ensures |keys| == |S| && forall j :: 0 <= j < |S| ==> keys[j] == At(cells, S[j]).h
  {
    seq(|S|, j requires 0 <= j < |S| => At(cells, S[j]).h)
  }

  /** A walk of unit moves spans at most its number of moves in Manhattan distance. */
  lemma {:induction false} UnitWalkSpan(g: Grid, w: seq<Pos>)
    requires IsWalk(g, false, w)
    ensures Manhattan(w[0], w[|w| - 1]) <= |w| - 1
    decreases |w|
  {
    if |w| > 1 {
      var v := w[1..];
      assert IsWalk(g, false, v) by {
        forall k | 0 <= k < |v| - 1 ensures Edge(g, false, v[k], v[k + 1]) {
          assert v[k] == w[k + 1] && v[k + 1] == w[k + 2];
        }
      }
      UnitWalkSpan(g, v);
      assert Edge(g, false, w[0], w[1]);
      ManhattanMetric(w[0], w[1], w[|w| - 1]);
    }
  }
  /** A piece of a walk is a walk. */
  lemma SubWalk(g: Grid, w: seq<Pos>, a: nat, b: nat)
    requires IsWalk(g, false, w) && a < b <= |w|
    ensures IsWalk(g, false, w[a..b])
  {
    var v := w[a..b];
    forall k | 0 <= k < |v| - 1 ensures Edge(g, false, v[k], v[k + 1]) {
      assert v[k] == w[a + k] && v[k + 1] == w[a + k + 1];
    }
  }

  /** A search tree depends only on the parent links: cells with the same links over `V` carry the same tree. */
  lemma TreeByParents(g: Grid, cells: seq<seq<Cell>>, cells': seq<seq<Cell>>, root: Pos, V: set<Pos>, D: map<Pos, nat>)
    requires Tree(g, cells, false, root, V, D)
    requires forall c :: c in V ==> At(cells', c).parent == At(cells, c).parent
    ensures Tree(g, cells', false, root, V, D)
  {
    forall c | c in V && c != root ensures Linked(g, cells', false, V, D, c) {
      assert Linked(g, cells, false, V, D, c);
    }
  }

  /** Hanging a new cell `n` below the visited cell `p`, whatever its `g` and `h`, keeps the tree. */
  lemma Hang(g: Grid, cells: seq<seq<Cell>>, root: Pos, V: set<Pos>, D: map<Pos, nat>, p: Pos, n: Pos, c: Cell)
    requires WellFormed(cells, g.height, g.width, g.walls)
    requires Tree(g, cells, false, root, V, D) && p in V && n !in V && Edge(g, false, p, n)
    requires c.parent == Some(p)
    ensures Tree(g, Put(cells, n, c), false, root, V + {n}, D[n := D[p] + 1])
  {
    Adopt(g, cells, false, root, V, D, p, n);
    TreeByParents(g, Put(cells, n, At(cells, n).(parent := Some(p))), Put(cells, n, c), root, V + {n}, D[n := D[p] + 1]);
  }

  /**
   * Moving a visited cell `n` that is nobody's parent under the visited cell
   * `p`, one level below it, keeps the tree: the step relaxation takes.
   */
  lemma Reparent(g: Grid, cells: seq<seq<Cell>>, root: Pos, V: set<Pos>, D: map<Pos, nat>, p: Pos, n: Pos, c: Cell)
    requires WellFormed(cells, g.height, g.width, g.walls)
    requires Tree(g, cells, false, root, V, D) && p in V && n in V && n != root && Edge(g, false, p, n)
    requires forall q :: q in V && q != root ==> At(cells, q).parent != Some(n)
    requires c.parent == Some(p)
    ensures Tree(g, Put(cells, n, c), false, root, V, D[n := D[p] + 1])
  {
    var cells' := Put(cells, n, c);
    var D' := D[n := D[p] + 1];
    forall q | q in V && q != root ensures Linked(g, cells', false, V, D', q) {
      if q != n {
        assert Linked(g, cells, false, V, D, q);
      }
    }
  }

  /** Writing the cell `n` of a well-formed table changes what is read at `n` only. */
  lemma PutAt(g: Grid, cells: seq<seq<Cell>>, n: Pos, c: Cell)
    requires WellFormed(cells, g.height, g.width, g.walls) && g.InBounds(n)
    ensures At(Put(cells, n, c), n) == c
    ensures forall q :: q != n ==> At(Put(cells, n, c), q) == At(cells, q)
  {
  }

  /** The cell `c`, if it has a parent, hangs from a closed cell. */
  ghost predicate HangsClosed(cells: seq<seq<Cell>>, closed: set<Pos>, c: Pos)
  {
    At(cells, c).parent.Some? ==> At(cells, c).parent.value in closed
  }

  /** Every visited cell but the root hangs from a closed cell. */
  ghost predicate ParentsClosed(cells: seq<seq<Cell>>, root: Pos, V: set<Pos>, closed: set<Pos>)
  {
    forall c {:trigger HangsClosed(cells, closed, c)} :: c in V && c != root ==> HangsClosed(cells, closed, c)
  }

  /** Hanging `n` from the closed cell `p` keeps every parent closed. */
  lemma ParentsPut(cells: seq<seq<Cell>>, cells': seq<seq<Cell>>, root: Pos, V: set<Pos>, closed: set<Pos>, n: Pos, p: Pos)
    requires ParentsClosed(cells, root, V, closed) && p in closed
    requires forall q :: q != n ==> At(cells', q) == At(cells, q)
    requires At(cells', n).parent == Some(p)
    ensures ParentsClosed(cells', root, V + {n}, closed)
  {
    forall c | c in V + {n} && c != root ensures HangsClosed(cells', closed, c) {
      if c != n {
        assert HangsClosed(cells, closed, c);
      }
    }
  }

  /** A move from `u` to `v`, if there is one, lands on a discovered cell. */
  ghost predicate Covered(g: Grid, V: set<Pos>, u: Pos, v: Pos)
  {
    Edge(g, false, u, v) ==> v in V
  }

  /** Every move out of a cell of `from` is covered. */
  ghost predicate Spread(g: Grid, V: set<Pos>, from: set<Pos>)
  {
    forall u, v {:trigger Covered(g, V, u, v)} :: u in from ==> Covered(g, V, u, v)
  }

  /** The moves from `current` to its first `k` neighbours `ns` are covered. */
  ghost predicate Swept(g: Grid, V: set<Pos>, current: Pos, ns: seq<Pos>, k: nat)
  {
    forall j :: 0 <= j < k && j < |ns| ==> Covered(g, V, current, ns[j])
  }

  /** Once every neighbour of `current` is handled, the moves out of every cell of `from` are covered. */
  lemma Covering(g: Grid, V: set<Pos>, from: set<Pos>, current: Pos)
    requires Spread(g, V, from - {current}) && current in from && g.InBounds(current)
    requires Swept(g, V, current, g.Neighbors(current, false), |g.Neighbors(current, false)|)
    ensures Spread(g, V, from)
  {
    var ns := g.Neighbors(current, false);
    forall u, v | u in from ensures Covered(g, V, u, v) {
      if u == current {
        EdgeIsNeighbor(g, false, current, v);
        if Edge(g, false, current, v) {
          var j :| 0 <= j < |ns| && ns[j] == v;
          assert Covered(g, V, current, ns[j]);
        }
      } else {
        assert u in from - {current};
      }
    }
  }
}

/**
 * The proof layer of beam search (`algorithms/beam.py`): after each
 * expansion the open list is sorted by `f` and cut down to the beam width,
 * so cells are dropped without being closed and may be found again later.
 * Every parent link still points at a closed cell, so the closed and open
 * cells keep forming a search tree from the start and the trace of a goal
 * popped is a legal route to it; the search is not complete, and an empty
 * open list says nothing about the goals that were not found.
 */
module BeamLayers {
  import opened Wrappers
  import opened Cells
  import opened Grids
  import opened Agents
  import opened Searching
  import Seqs
  import opened Informed

  /** The open list is in order of `f`. */
  ghost predicate SortedF(cells: seq<seq<Cell>>, s: seq<Pos>)
  {
    forall i, j :: 0 <= i < j < |s| ==> At(cells, s[i]).F() <= At(cells, s[j]).F()
  }

  /** Insert `x` before the first cell of `t` whose `f` is not smaller. */
  function InsertF(cells: seq<seq<Cell>>, x: Pos, t: seq<Pos>): (r: seq<Pos>)
    ensures multiset(r) == multiset(t) + multiset{x}
  {
    if t == [] then [x]
    else if At(cells, x).F() <= At(cells, t[0]).F() then [x] + t
    else
      assert t == [t[0]] + t[1..];
      [t[0]] + InsertF(cells, x, t[1..])
  }

  /**
   * `sorted(s, key=lambda cell: cell.f)`: insertion of each cell, last to
   * first, before the first cell of no smaller `f`, which keeps cells of
   * equal `f` in their order as Python's stable sort does.
   */
  function SortF(cells: seq<seq<Cell>>, s: seq<Pos>): (r: seq<Pos>)
    ensures multiset(r) == multiset(s) && |r| == |s|
  {
    if s == [] then []
    else
      assert s == [s[0]] + s[1..];
      InsertF(cells, s[0], SortF(cells, s[1..]))
  }

  lemma {:induction false} InsertSorted(cells: seq<seq<Cell>>, x: Pos, t: seq<Pos>)
    requires SortedF(cells, t)
    ensures SortedF(cells, InsertF(cells, x, t))
  {
    if t != [] && At(cells, x).F() > At(cells, t[0]).F() {
      var u := t[1..];
      var r := InsertF(cells, x, u);
      assert SortedF(cells, u) by {
        forall i, j | 0 <= i < j < |u| ensures At(cells, u[i]).F() <= At(cells, u[j]).F() {
          assert u[i] == t[i + 1] && u[j] == t[j + 1];
        }
      }
      InsertSorted(cells, x, u);
      forall j | 0 <= j < |r| ensures At(cells, t[0]).F() <= At(cells, r[j]).F() {
        assert r[j] in multiset(r);
        if r[j] != x {
          assert r[j] in multiset(u);
          var k :| 0 <= k < |u| && u[k] == r[j];
          assert u[k] == t[k + 1];
        }
      }
      SortedCons(cells, t[0], r);
      assert InsertF(cells, x, t) == [t[0]] + r;
    }
  }

  /** A cell of `f` no larger than any in a sorted list can go in front of it. */
  lemma SortedCons(cells: seq<seq<Cell>>, h: Pos, r: seq<Pos>)
    requires SortedF(cells, r) && forall j :: 0 <= j < |r| ==> At(cells, h).F() <= At(cells, r[j]).F()
    ensures SortedF(cells, [h] + r)
  {
    var R := [h] + r;
    forall a, b | 0 <= a < b < |R| ensures At(cells, R[a]).F() <= At(cells, R[b]).F() {
      assert R[b] == r[b - 1];
      if a > 0 {
        assert R[a] == r[a - 1];
      }
    }
  }

  lemma {:induction false} InsertDistinct(cells: seq<seq<Cell>>, x: Pos, t: seq<Pos>)
    requires Seqs.Distinct(t) && x !in t
    ensures Seqs.Distinct(InsertF(cells, x, t))
  {
    if t != [] && At(cells, x).F() > At(cells, t[0]).F() {
      var u := t[1..];
      assert Seqs.Distinct(u) && x !in u;
      InsertDistinct(cells, x, u);
      var r := InsertF(cells, x, u);
      assert t[0] !in r by {
        assert t[0] !in multiset(u) && t[0] != x;
        assert t[0] !in multiset(r);
      }
      var R := [t[0]] + r;
      assert R == InsertF(cells, x, t);
      assert forall b :: 0 < b < |R| ==> R[b] == r[b - 1];
    }
  }

  lemma {:induction false} SortFacts(cells: seq<seq<Cell>>, s: seq<Pos>)
    ensures SortedF(cells, SortF(cells, s))
    ensures Seqs.Distinct(s) ==> Seqs.Distinct(SortF(cells, s))
  {
    if s != [] {
      var u := s[1..];
      SortFacts(cells, u);
      InsertSorted(cells, s[0], SortF(cells, u));
      if Seqs.Distinct(s) {
        assert Seqs.Distinct(u);
        assert s[0] !in SortF(cells, u) by {
          assert s[0] !in u;
          assert s[0] !in multiset(u);
        }
        InsertDistinct(cells, s[0], SortF(cells, u));
      }
    }
  }

  /**
   * `s[:w]`: the first `w` entries, all of them when `w` exceeds the
   * length, and for a negative `w` all but the last `-w`, as Python slices.
   */
  function Take(s: seq<Pos>, w: int): (r: seq<Pos>)
    ensures |r| <= |s| && r == s[..|r|]
    ensures 0 <= w <= |s| ==> |r| == w
    ensures w > |s| ==> r == s
    ensures w < 0 ==> |r| == if |s| + w > 0 then |s| + w else 0
  {
    if w >= 0 then (if w <= |s| then s[..w] else s)
    else if |s| + w > 0 then s[..|s| + w]
    else []
  }

  /** `sorted(open_list, key=lambda cell: cell.f)[:beam_width]`. */
  function Trim(cells: seq<seq<Cell>>, S: seq<Pos>, w: int): (r: seq<Pos>)
  {
    Take(SortF(cells, S), w)
  }

  /** No cell the cut keeps has a larger `f` than a cell it drops. */
  lemma TakeSortedOrder(cells: seq<seq<Cell>>, t: seq<Pos>, r: seq<Pos>)
    requires SortedF(cells, t) && |r| <= |t| && r == t[..|r|]
    ensures forall x, y :: x in r && y in t && y !in r ==> At(cells, x).F() <= At(cells, y).F()
  {
    forall x, y | x in r && y in t && y !in r ensures At(cells, x).F() <= At(cells, y).F() {
      var i :| 0 <= i < |r| && r[i] == x;
      var j :| 0 <= j < |t| && t[j] == y;
      assert t[i] == x;
    }
  }

  /**
   * What the cut keeps: cells of the open list only, in order of `f`,
   * without repeats when there were none, no more than the beam width of
   * them, and none with a larger `f` than a cell that is dropped.
   */
  lemma TrimKeepsBest(cells: seq<seq<Cell>>, S: seq<Pos>, w: int)
    ensures forall x :: x in Trim(cells, S, w) ==> x in S
    ensures SortedF(cells, Trim(cells, S, w))
    ensures Seqs.Distinct(S) ==> Seqs.Distinct(Trim(cells, S, w))
    ensures w >= 0 ==> |Trim(cells, S, w)| == if w <= |S| then w else |S|
    ensures forall x, y :: x in Trim(cells, S, w) && y in S && y !in Trim(cells, S, w) ==> At(cells, x).F() <= At(cells, y).F()
  {
    var t := SortF(cells, S);
    var r := Trim(cells, S, w);
    SortFacts(cells, S);
    assert r == t[..|r|];
    forall x | x in r ensures x in S {
      assert x in t;
      assert x in multiset(t);
    }
    TakeSortedOrder(cells, t, r);
    forall y | y in S ensures y in t {
      assert y in multiset(S);
    }
  }

  /**
   * The loop state of beam search: a search tree from the start over the
   * closed and open cells, the open list without repeats and apart from the
   * closed set, every parent closed, and the start closed once anything is.
   */
  ghost predicate Beamed(g: Grid, cells: seq<seq<Cell>>, root: Pos, S: seq<Pos>, closed: set<Pos>, D: map<Pos, nat>)
  {
    && Tree(g, cells, false, root, closed + ToSet(S), D)
    && Seqs.Distinct(S) && (forall x :: x in S ==> x !in closed)
    && ParentsClosed(cells, root, closed + ToSet(S), closed)
    && (root !in closed ==> S == [root])
  }

  /** What `search` promises: a goal with a legal route to it, or a count; the count is at least one either way. */
  ghost predicate BeamFound(g: Grid, start: Pos, goals: seq<Pos>, r: Outcome)
  {
    && (r.Goal? || r.Count?)
    && r.count >= 1
    && (r.Goal? ==> r.goal in goals && Route(g, false, start, r.path) && Walk(start, r.path) == r.goal)
  }

  /** The state at the start: the open list holds the start, which has no parent. */
  lemma Begin(g: Grid, cells: seq<seq<Cell>>, root: Pos)
    requires g.InBounds(root) && At(cells, root).parent == None
    ensures Beamed(g, cells, root, [root], {}, map[root := 0])
  {
    assert ToSet([root]) == {root};
    Singleton(g, cells, false, root);
  }

  /** Popping the open cell `S[i]` (the list's first copy of it) and closing it; the start is closed from then on. */
  lemma Popped(g: Grid, cells: seq<seq<Cell>>, root: Pos, S: seq<Pos>, closed: set<Pos>, D: map<Pos, nat>, i: nat)
    requires Beamed(g, cells, root, S, closed, D) && i < |S|
    ensures Seqs.RemoveFirst(S, S[i]) == Without(S, i)
    ensures S[i] !in closed && g.InBounds(S[i]) && root in closed + {S[i]}
    ensures Beamed(g, cells, root, Without(S, i), closed + {S[i]}, D)
  {
    PoppedLists(S, closed, i);
    var closed' := closed + {S[i]};
    assert S[i] in ToSet(S);
    forall c | c in closed + ToSet(S) && c != root ensures HangsClosed(cells, closed', c) {
      assert HangsClosed(cells, closed, c);
    }
  }

  /** Taking `S[i]` out of an open list without repeats and closing it keeps the visited cells, and keeps the lists apart. */
  lemma PoppedLists(S: seq<Pos>, closed: set<Pos>, i: nat)
    requires Seqs.Distinct(S) && (forall x :: x in S ==> x !in closed) && i < |S|
    ensures Seqs.RemoveFirst(S, S[i]) == Without(S, i) && S[i] !in closed
    ensures closed + {S[i]} + ToSet(Without(S, i)) == closed + ToSet(S)
    ensures Seqs.Distinct(Without(S, i)) && forall x :: x in Without(S, i) ==> x !in closed + {S[i]}
  {
    var u := S[i];
    var S' := Without(S, i);
    var k := Seqs.RemoveFirstAt(S, u);
    assert k == i;
    assert u in ToSet(S);
    WithoutMembers(S, i);
    forall x | x in S' ensures x !in closed + {u} {
      assert x in ToSet(S');
    }
  }

  /** A neighbour neither closed nor open is hung below the closed cell `current`, given its distance to the target as `h`, and appended. */
  lemma Discovered(g: Grid, cells: seq<seq<Cell>>, cells': seq<seq<Cell>>, root: Pos, target: Pos,
                   S: seq<Pos>, closed: set<Pos>, D: map<Pos, nat>, current: Pos, n: Pos)
    requires WellFormed(cells, g.height, g.width, g.walls)
    requires Beamed(g, cells, root, S, closed, D) && current in closed && root in closed
    requires Edge(g, false, current, n) && n !in closed && n !in S
    requires cells' == Put(cells, n, At(cells, n).(h := Manhattan(n, target), parent := Some(current)))
    ensures current in D && Beamed(g, cells', root, S + [n], closed, D[n := D[current] + 1])
  {
    var V := closed + ToSet(S);
    assert current in V && n !in V;
    var c := At(cells, n).(h := Manhattan(n, target), parent := Some(current));
    var S' := S + [n];
    ToSetSnoc(S, n);
    assert closed + ToSet(S') == V + {n};
    Hang(g, cells, root, V, D, current, n, c);
    Seqs.DistinctSnoc(S, n);
    PutAt(g, cells, n, c);
    ParentsPut(cells, cells', root, V, closed, n, current);
  }

  /** An open neighbour whose `g` exceeds `current`'s by more than one is moved under `current` with the lower `g`. */
  lemma Improved(g: Grid, cells: seq<seq<Cell>>, cells': seq<seq<Cell>>, root: Pos,
                 S: seq<Pos>, closed: set<Pos>, D: map<Pos, nat>, current: Pos, n: Pos, v: int)
    requires WellFormed(cells, g.height, g.width, g.walls)
    requires Beamed(g, cells, root, S, closed, D) && current in closed && root in closed
    requires Edge(g, false, current, n) && n in S
    requires cells' == Put(cells, n, At(cells, n).(g := v, parent := Some(current)))
    ensures current in D && Beamed(g, cells', root, S, closed, D[n := D[current] + 1])
  {
    var V := closed + ToSet(S);
    assert n in ToSet(S) && n !in closed && current in V;
    var c := At(cells, n).(g := v, parent := Some(current));
    forall q | q in V && q != root ensures At(cells, q).parent != Some(n) {
      assert HangsClosed(cells, closed, q);
    }
    Reparent(g, cells, root, V, D, current, n, c);
    assert V + {n} == V;
    PutAt(g, cells, n, c);
    ParentsPut(cells, cells', root, V, closed, n, current);
  }

  /**
   * What the neighbour loop over `ns` did to the open list `S`, giving `S'`
   * and the count `count'`: the old entries stay in front, the count grows
   * by the number of cells appended, each appended cell is an unblocked,
   * unclosed cell of `ns`, and every unblocked, unclosed cell of `ns` is
   * open afterwards.
   */
  ghost predicate Appended(g: Grid, S: seq<Pos>, S': seq<Pos>, count: int, count': int, closed: set<Pos>, ns: seq<Pos>)
  {
    && |S'| >= |S| && S'[..|S|] == S && count' - count == |S'| - |S|
    && (forall j :: |S| <= j < |S'| ==> S'[j] in ns && S'[j] !in closed && !g.Blocked(S'[j]))
    && (forall n :: n in ns && !g.Blocked(n) && n !in closed ==> n in S')
  }

  /** Before the loop nothing has been appended. */
  lemma AppendedNone(g: Grid, S: seq<Pos>, count: int, closed: set<Pos>, ns: seq<Pos>)
    ensures Appended(g, S, S, count, count, closed, ns[..0])
  {
  }

  /**
   * One more neighbour `ns[k]`: skipped when blocked or closed, appended and
   * counted when not yet open, and otherwise left where it is in the list.
   */
  lemma AppendedStep(g: Grid, S: seq<Pos>, T: seq<Pos>, T': seq<Pos>, count: int, c: int, c': int,
                     closed: set<Pos>, ns: seq<Pos>, k: nat)
    requires k < |ns| && Appended(g, S, T, count, c, closed, ns[..k])
    requires g.Blocked(ns[k]) || ns[k] in closed ==> T' == T && c' == c
    requires !g.Blocked(ns[k]) && ns[k] !in closed && ns[k] !in T ==> T' == T + [ns[k]] && c' == c + 1
    requires !g.Blocked(ns[k]) && ns[k] !in closed && ns[k] in T ==> T' == T && c' == c
    ensures Appended(g, S, T', count, c', closed, ns[..k + 1])
  {
    assert ns[..k + 1] == ns[..k] + [ns[k]];
    if T' != T {
      assert T' == T + [ns[k]];
      assert T'[..|S|] == T[..|S|];
      assert T'[|T|] == ns[k];
    }
  }

  /** Cutting the open list down to the beam width keeps the state: every parent is closed, so dropping open cells breaks no link. */
  lemma Trimmed(g: Grid, cells: seq<seq<Cell>>, root: Pos, S: seq<Pos>, closed: set<Pos>, D: map<Pos, nat>, w: int)
    requires Beamed(g, cells, root, S, closed, D) && root in closed
    ensures Beamed(g, cells, root, Trim(cells, S, w), closed, D)
  {
    var V := closed + ToSet(S);
    var T := Trim(cells, S, w);
    TrimKeepsBest(cells, S, w);
    var V' := closed + ToSet(T);
    assert V' <= V;
    forall c | c in V' && c != root ensures Linked(g, cells, false, V', D, c) {
      assert Linked(g, cells, false, V, D, c);
      assert HangsClosed(cells, closed, c);
    }
    forall c | c in V' && c != root ensures HangsClosed(cells, closed, c) {
      assert HangsClosed(cells, closed, c);
    }
    forall x | x in T ensures x !in closed {
      assert x in S;
    }
  }

  /** A popped goal: its parent chain is finite and its trace is a legal route from the start to it. */
  lemma Arrived(g: Grid, cells: seq<seq<Cell>>, root: Pos, goals: seq<Pos>,
                S: seq<Pos>, closed: set<Pos>, D: map<Pos, nat>, c: Pos, count: int, suffix: bool)
    requires Beamed(g, cells, root, S, closed, D) && c in closed && c in goals && count >= 1
    ensures c in D && RootedWithin(cells, c, D[c])
    ensures BeamFound(g, root, goals, Goal(Tokens(cells, c, D[c], suffix, true), c, count))
  {
    TreeTrace(g, cells, false, root, closed + ToSet(S), D, c, suffix);
  }
}

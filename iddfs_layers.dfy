/**
 * The proof layer of iterative deepening (`algorithms/iddfs.py`): what a
 * depth-limited search establishes when it fails (no goal on any simple
 * walk it was allowed to take) and when it succeeds (parent links along the
 * walk it took), and what that makes of `search` and `search_all`.
 */
module IddfsLayers {
  import opened Wrappers
  import opened Cells
  import opened Grids
  import opened Neighborhoods
  import opened Agents
  import opened Searching
  import Seqs
  import opened GoalLists

  /**
   * `w` is a walk of unit moves from `c` of at most `d` moves that repeats
   * no cell and, after `c`, steps on no cell of `V`: the walks a
   * depth-limited search from `c` with depth `d` and visited set `V` tries.
   */
  ghost predicate Simple(g: Grid, w: seq<Pos>, c: Pos, d: int, V: set<Pos>)
  {
    && IsWalk(g, false, w) && w[0] == c && |w| <= d + 1
    && Seqs.Distinct(w)
    && (forall i :: 1 <= i < |w| ==> w[i] !in V)
  }

  /** No walk a depth-limited search from `c` may take ends on a goal. */
  ghost predicate NoGoalWithin(g: Grid, goals: seq<Pos>, c: Pos, d: int, V: set<Pos>)
  {
    forall w :: Simple(g, w, c, d, V) ==> w[|w| - 1] !in goals
  }

  /**
   * A successful depth-limited search went along `chain`, a simple walk
   * that avoids `V` after its first cell, and set each cell's parent on it
   * to the cell before; every other cell of the table is as it was.
   */
  ghost predicate Chained(g: Grid, before: seq<seq<Cell>>, after: seq<seq<Cell>>, chain: seq<Pos>, V: set<Pos>)
  {
    && IsWalk(g, false, chain) && Seqs.Distinct(chain)
    && (forall i :: 1 <= i < |chain| ==> chain[i] !in V)
    && (forall i :: 1 <= i < |chain| ==> At(after, chain[i]) == At(before, chain[i]).(parent := Some(chain[i - 1])))
    && (forall p :: p !in chain[1..] ==> At(after, p) == At(before, p))
  }

  /** A cell that is not a goal, with no depth left: no goal within reach. */
  lemma NoGoalAtDepth(g: Grid, goals: seq<Pos>, c: Pos, d: int, V: set<Pos>)
    requires c !in goals && d <= 0
    ensures NoGoalWithin(g, goals, c, d, V)
  {
    forall w | Simple(g, w, c, d, V) ensures w[|w| - 1] !in goals {
      assert |w| == 1;
    }
  }

  /** A neighbour `n` that a search of depth `d` does not need to enter: blocked, visited, or with no goal within `d` moves from it. */
  ghost predicate Dead(g: Grid, goals: seq<Pos>, n: Pos, d: int, V: set<Pos>)
  {
    g.Blocked(n) || n in V || NoGoalWithin(g, goals, n, d, V + {n})
  }

  /** Every cell of `ns` is `Dead`. */
  ghost predicate AllDead(g: Grid, goals: seq<Pos>, ns: seq<Pos>, d: int, V: set<Pos>)
  {
    forall j :: 0 <= j < |ns| ==> Dead(g, goals, ns[j], d, V)
  }

  /** The neighbour loop of `dls` extends its run of `Dead` neighbours by one. */
  lemma AllDeadStep(g: Grid, goals: seq<Pos>, ns: seq<Pos>, k: int, d: int, V: set<Pos>)
    requires 0 <= k < |ns| && AllDead(g, goals, ns[..k], d, V) && Dead(g, goals, ns[k], d, V)
    ensures AllDead(g, goals, ns[..k + 1], d, V)
  {
    assert forall j :: 0 <= j < k ==> ns[..k + 1][j] == ns[..k][j];
  }

  /**
   * A cell that is not a goal, every neighbour of which is blocked, visited
   * or failed with one level less: no goal within reach.
   */
  lemma NoGoalBeyond(g: Grid, goals: seq<Pos>, c: Pos, d: int, V: set<Pos>, ns: seq<Pos>)
    requires g.InBounds(c) && c in V && c !in goals && d > 0
    requires ns == g.Neighbors(c, false)
    requires AllDead(g, goals, ns, d - 1, V)
    ensures NoGoalWithin(g, goals, c, d, V)
  {
    forall w | Simple(g, w, c, d, V) ensures w[|w| - 1] !in goals {
      if |w| > 1 {
        var n := w[1];
        assert Edge(g, false, c, n);
        EdgeIsNeighbor(g, false, c, n);
        var i :| 0 <= i < |ns| && ns[i] == n;
        var t := w[1..];
        forall k | 0 <= k < |t| - 1 ensures Edge(g, false, t[k], t[k + 1]) {
          assert t[k] == w[k + 1] && t[k + 1] == w[k + 2];
        }
        forall k | 1 <= k < |t| ensures t[k] !in V + {n} {
          assert t[k] == w[k + 1] && w[k + 1] != w[1];
        }
        assert Simple(g, t, n, d - 1, V + {n});
        assert t[|t| - 1] == w[|w| - 1];
      }
    }
  }

  /** A successful search from a neighbour `n` of `c`, with `n`'s parent then set to `c`, is a successful search from `c`. */
  lemma ChainCons(g: Grid, before: seq<seq<Cell>>, after: seq<seq<Cell>>, chain: seq<Pos>, V: set<Pos>, c: Pos, n: Pos)
    requires Chained(g, before, after, chain, V + {n}) && chain[0] == n
    requires c in V && n !in V && Edge(g, false, c, n) && InTable(after, n)
    ensures Chained(g, before, Put(after, n, At(after, n).(parent := Some(c))), [c] + chain, V)
  {
    var ch := [c] + chain;
    var after' := Put(after, n, At(after, n).(parent := Some(c)));
    forall i | 0 <= i < |ch| - 1 ensures Edge(g, false, ch[i], ch[i + 1]) {
      if i > 0 {
        assert ch[i] == chain[i - 1] && ch[i + 1] == chain[i];
      }
    }
    forall i, j | 0 <= i < j < |ch| ensures ch[i] != ch[j] {
      if i == 0 {
        assert ch[j] == chain[j - 1];
        if j > 1 {
          assert chain[j - 1] !in V + {n};
        }
      } else {
        assert ch[i] == chain[i - 1] && ch[j] == chain[j - 1];
      }
    }
    forall i | 1 <= i < |ch| ensures ch[i] !in V {
      assert ch[i] == chain[i - 1];
      if i > 1 {
        assert chain[i - 1] !in V + {n};
      }
    }
    forall k | 0 <= k < |chain| - 1 ensures chain[1..][k] != n {
      assert chain[1..][k] == chain[k + 1];
    }
    forall i | 1 <= i < |ch| ensures At(after', ch[i]) == At(before, ch[i]).(parent := Some(ch[i - 1])) {
      assert ch[i] == chain[i - 1];
      if i > 1 {
        assert chain[i - 1] != chain[0];
        assert ch[i - 1] == chain[i - 2];
      }
    }
    forall p | p !in ch[1..] ensures At(after', p) == At(before, p) {
      assert ch[1..] == chain;
      assert p != n && p !in chain[1..];
    }
  }

  /** The depth of each cell of a chain: its index. */
  ghost function Depths(chain: seq<Pos>): map<Pos, nat>
    requires Seqs.Distinct(chain)
  {
    map i | 0 <= i < |chain| :: chain[i] := i
  }

  /**
   * The parent links a successful search leaves lead from the goal back to
   * the entry cell, whose own link is `None`; the trace along them is a
   * legal route with one token per move of the chain.
   */
  lemma ChainTrace(g: Grid, before: seq<seq<Cell>>, after: seq<seq<Cell>>, chain: seq<Pos>, V: set<Pos>, suffix: bool)
    requires Chained(g, before, after, chain, V)
    requires g.InBounds(chain[0]) && At(before, chain[0]).parent == None
    ensures RootedWithin(after, chain[|chain| - 1], |chain| - 1)
    ensures var p := Tokens(after, chain[|chain| - 1], |chain| - 1, suffix, true);
      |p| == |chain| - 1 && Walk(chain[0], p) == chain[|chain| - 1] && Route(g, false, chain[0], p)
  {
    var D := Depths(chain);
    var S := ToSet(chain);
    var root := chain[0];
    assert D[root] == 0;
    forall k | 0 <= k < |chain| - 1 ensures chain[1..][k] != root {
      assert chain[1..][k] == chain[k + 1];
    }
    forall c | c in S ensures g.InBounds(c) {
      var i :| 0 <= i < |chain| && chain[i] == c;
      if i > 0 {
        assert Edge(g, false, chain[i - 1], chain[i]);
      }
    }
    forall c | c in S && c != root ensures Linked(g, after, false, S, D, c) {
      var i :| 0 <= i < |chain| && chain[i] == c;
      assert i > 0;
      assert D[c] == i && D[chain[i - 1]] == i - 1;
      assert Edge(g, false, chain[i - 1], chain[i]);
    }
    assert Tree(g, after, false, root, S, D);
    var last := chain[|chain| - 1];
    assert D[last] == |chain| - 1;
    TreeTrace(g, after, false, root, S, D, last, suffix);
  }

  /**
   * Every depth below `d` failed with the visited set holding only
   * `start`: a goal found within `k <= d` moves is at least as near as any
   * goal a walk from `start` reaches.
   */
  lemma Shortest(g: Grid, goals: seq<Pos>, start: Pos, d: int, k: int)
    requires 0 <= k <= d
    requires d > 0 ==> NoGoalWithin(g, goals, start, d - 1, {start})
    ensures forall w :: IsWalk(g, false, w) && w[0] == start && w[|w| - 1] in goals ==> k <= |w| - 1
  {
    forall w | IsWalk(g, false, w) && w[0] == start && w[|w| - 1] in goals ensures k <= |w| - 1 {
      var v := ShortenWalk(g, false, w);
    }
  }

  /** A search of depth at least the number of unblocked cells that fails: no goal is reachable from `root`. */
  lemma Unreachable(g: Grid, goals: seq<Pos>, root: Pos, d: int)
    requires NoGoalWithin(g, goals, root, d, {root}) && d >= |g.FreeCells()|
    ensures forall q :: q in goals ==> !Reachable(g, false, root, q)
  {
    forall q | q in goals ensures !Reachable(g, false, root, q) {
      if Reachable(g, false, root, q) {
        var w :| IsWalk(g, false, w) && w[0] == root && w[|w| - 1] == q;
        var v := ShortenWalk(g, false, w);
        SimpleWalkBound(g, false, v);
      }
    }
  }

  /**
   * What `search(agent, limit)` promises: a goal with a legal route to it,
   * or the count; the count stays within the limit, and unless the limit
   * was reached the route is a shortest one to any goal, and a bare count
   * means no goal is reachable.
   */
  ghost predicate IdOne(g: Grid, start: Pos, goals: seq<Pos>, limit: int, r: Outcome)
  {
    && (r.Goal? || r.Count?)
    && r.count >= 1
    && (limit >= 1 ==> r.count <= limit)
    && (r.Goal? ==>
          && r.goal in goals
          && Route(g, false, start, r.path) && Walk(start, r.path) == r.goal
          && (r.count < limit ==>
                forall w :: IsWalk(g, false, w) && w[0] == start && w[|w| - 1] in goals ==> |r.path| <= |w| - 1))
    && (r.Count? && r.count < limit ==> forall q :: q in goals ==> !Reachable(g, false, start, q))
  }

  /**
   * What `search_all(agent, limit)` promises: the answer of `AllFound` when
   * every goal is reached; otherwise the count, within the limit, with the
   * goals left still in the agent's list, and, unless the limit was
   * reached, none of them reachable (from an unblocked start).
   */
  ghost predicate IdAll(g: Grid, start: Pos, targets: seq<Pos>, left: seq<Pos>, limit: int, r: Outcome)
  {
    && (r.Goals? || r.Count?)
    && r.count >= 1
    && (limit >= 1 ==> r.count <= limit)
    && (r.Goals? ==> AllFound(g, start, targets, left, r))
    && (r.Count? ==>
          && multiset(left) <= multiset(targets)
          && (targets != [] ==> left != [])
          && (r.count < limit && !g.Blocked(start) ==> forall q :: q in left ==> !Reachable(g, false, start, q)))
  }

  /** The found goal closes a round: its trace extends the path and the search is ready to restart at it. */
  lemma IdFound(g: Grid, start: Pos, targets: seq<Pos>, before: seq<seq<Cell>>, after: seq<seq<Cell>>,
                root: Pos, count: int, path: seq<Token>, goals: seq<Pos>, found: seq<Pos>,
                chain: seq<Pos>, count': int, suffix: bool)
    requires Restarted(g, start, targets, before, root, count, path, goals, found)
    requires Chained(g, before, after, chain, {root}) && chain[0] == root
    requires chain[|chain| - 1] in goals && count' >= count
    ensures RootedWithin(after, chain[|chain| - 1], |chain| - 1)
    ensures var c := chain[|chain| - 1];
      Restarted(g, start, targets, Put(after, c, At(after, c).(parent := None)), c, count',
                path + Tokens(after, c, |chain| - 1, suffix, true), Seqs.RemoveFirst(goals, c), found + [c])
  {
    var c := chain[|chain| - 1];
    ChainTrace(g, before, after, chain, {root}, suffix);
    if |chain| > 1 {
      assert Edge(g, false, chain[|chain| - 2], c);
    }
    Reached(g, start, targets, after, root, count', path, goals, found, {}, c, Tokens(after, c, |chain| - 1, suffix, true));
  }

  /** A round in which no depth found a goal, below the limit: the goals left are out of reach. */
  lemma IdExhausted(g: Grid, start: Pos, targets: seq<Pos>, cells: seq<seq<Cell>>,
                    root: Pos, count0: int, path: seq<Token>, goals: seq<Pos>, found: seq<Pos>,
                    d: int, count: int, limit: int)
    requires Restarted(g, start, targets, cells, root, count0, path, goals, found)
    requires count < limit ==> NoGoalWithin(g, goals, root, d, {root})
    requires d >= |g.FreeCells()| && goals != []
    requires count >= 1 && (limit >= 1 ==> count <= limit)
    ensures IdAll(g, start, targets, goals, limit, Count(count))
  {
    if count < limit {
      Unreachable(g, goals, root, d);
      if !g.Blocked(start) {
        Backtrack(g, false, start, root);
        forall q | q in goals ensures !Reachable(g, false, start, q) {
          if Reachable(g, false, start, q) {
            JoinReach(g, false, root, start, q);
          }
        }
      }
    }
  }

  /** The round loop stops with goals left only at the limit, so nothing is claimed beyond the bookkeeping. */
  lemma IdStopped(g: Grid, start: Pos, targets: seq<Pos>, cells: seq<seq<Cell>>,
                  root: Pos, count: int, path: seq<Token>, goals: seq<Pos>, found: seq<Pos>, limit: int)
    requires Restarted(g, start, targets, cells, root, count, path, goals, found)
    requires targets != [] ==> goals != []
    requires goals == [] || count >= limit
    requires limit >= 1 ==> count <= limit
    ensures IdAll(g, start, targets, goals, limit, Count(count))
  {
  }
}

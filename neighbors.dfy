/**
 * What `get_neighbors` returns, stated without its loops: with unit steps the
 * in-bounds cells at Manhattan distance 1, with jumps every in-bounds cell in
 * line with the origin; always grouped by direction in declaration order and
 * without repetitions.
 */
module Neighborhoods {
  import opened Wrappers
  import opened Directions
  import opened Cells
  import opened Grids

  /** Ray element `i` is the cell `k + i` steps away, and it is inside the grid. */
  lemma {:induction false} RayShape(g: Grid, p: Pos, d: Direction, k: int, canJump: bool)
    ensures forall i :: 0 <= i < |g.Ray(p, d, k, canJump)| ==>
              g.Ray(p, d, k, canJump)[i] == Offset(p, d, k + i) && g.InBounds(Offset(p, d, k + i))
    ensures !canJump ==> |g.Ray(p, d, k, canJump)| <= 1
    decreases g.Reach(p) - k
  {
    var r := g.Ray(p, d, k, canJump);
    if g.GetNeighbor(p, d, k).Some? {
      g.InsideRay(p, d, k);
      if canJump {
        RayShape(g, p, d, k + 1, canJump);
        assert r == [Offset(p, d, k)] + g.Ray(p, d, k + 1, canJump);
        forall i | 0 <= i < |r|
          ensures r[i] == Offset(p, d, k + i) && g.InBounds(Offset(p, d, k + i))
        {
          if i > 0 {
            assert r[i] == g.Ray(p, d, k + 1, canJump)[i - 1];
          }
        }
      }
    }
  }

  /** Between an in-bounds cell and an in-bounds cell `j` steps away, every cell is in bounds. */
  lemma Between(g: Grid, p: Pos, d: Direction, k: int, j: int)
    requires g.InBounds(p) && g.InBounds(Offset(p, d, j)) && 0 <= k <= j
    ensures g.InBounds(Offset(p, d, k))
  {
  }

  /** A jumping ray from distance `k` reaches every in-bounds cell at distance `j >= k`. */
  lemma {:induction false} RayComplete(g: Grid, p: Pos, d: Direction, k: int, j: int)
    requires g.InBounds(p) && 0 <= k <= j && g.InBounds(Offset(p, d, j))
    ensures Offset(p, d, j) in g.Ray(p, d, k, true)
    decreases j - k
  {
    Between(g, p, d, k, j);
    g.InsideRay(p, d, k);
    assert g.Ray(p, d, k, true) == [Offset(p, d, k)] + g.Ray(p, d, k + 1, true);
    if k < j {
      RayComplete(g, p, d, k + 1, j);
    }
  }

  /** Membership in the first `n` rays. */
  lemma {:induction false} InRays(g: Grid, p: Pos, canJump: bool, n: nat, q: Pos)
    requires n <= |Members|
    ensures q in g.Rays(p, canJump, n) <==> exists i :: 0 <= i < n && q in g.Ray(p, Members[i], 1, canJump)
  {
    if n > 0 {
      InRays(g, p, canJump, n - 1, q);
    }
  }

  /** Every neighbour is inside the grid, in line with `p` and different from it. */
  lemma NeighborsInLine(g: Grid, p: Pos, canJump: bool, q: Pos)
    requires q in g.Neighbors(p, canJump)
    ensures g.InBounds(q) && q != p && Aligned(p, q)
    ensures !canJump ==> Manhattan(p, q) == 1
  {
    InRays(g, p, canJump, |Members|, q);
    var i :| 0 <= i < |Members| && q in g.Ray(p, Members[i], 1, canJump);
    RayShape(g, p, Members[i], 1, canJump);
    var j :| 0 <= j < |g.Ray(p, Members[i], 1, canJump)| && g.Ray(p, Members[i], 1, canJump)[j] == q;
    SubOfOffset(p, Members[i], 1 + j);
  }

  /** Without jumping, the neighbours are exactly the in-bounds cells at Manhattan distance 1. */
  lemma UnitNeighbors(g: Grid, p: Pos, q: Pos)
    ensures q in g.Neighbors(p, false) <==> g.InBounds(q) && Manhattan(p, q) == 1
    ensures |g.Neighbors(p, false)| <= 4
  {
    if g.InBounds(q) && Manhattan(p, q) == 1 {
      UnitIsAligned(p, q);
      OffsetOfSub(p, q);
      var d := Sub(p, q);
      assert g.Ray(p, d, 1, false) == [q];
      InRays(g, p, false, |Members|, q);
      assert q in g.Ray(p, Members[Index(d)], 1, false);
    }
    if q in g.Neighbors(p, false) {
      NeighborsInLine(g, p, false, q);
    }
    RaysCount(g, p, |Members|);
  }

  lemma {:induction false} RaysCount(g: Grid, p: Pos, n: nat)
    requires n <= |Members|
    ensures |g.Rays(p, false, n)| <= n
  {
    if n > 0 {
      RaysCount(g, p, n - 1);
      RayShape(g, p, Members[n - 1], 1, false);
    }
  }

  /** With jumping, the neighbours of an in-bounds cell are all other in-bounds cells in its row or column. */
  lemma JumpNeighbors(g: Grid, p: Pos, q: Pos)
    requires g.InBounds(p)
    ensures q in g.Neighbors(p, true) <==> g.InBounds(q) && q != p && Aligned(p, q)
  {
    if g.InBounds(q) && q != p && Aligned(p, q) {
      OffsetOfSub(p, q);
      var d := Sub(p, q);
      RayComplete(g, p, d, 1, Manhattan(p, q));
      InRays(g, p, true, |Members|, q);
      assert q in g.Ray(p, Members[Index(d)], 1, true);
    }
    if q in g.Neighbors(p, true) {
      NeighborsInLine(g, p, true, q);
    }
  }

  /** Earlier entries lie in an earlier direction, or in the same direction and closer. */
  predicate DirectionOrdered(p: Pos, ns: seq<Pos>)
  {
    forall i, j :: 0 <= i < j < |ns| ==>
      Index(Sub(p, ns[i])) < Index(Sub(p, ns[j])) ||
      (Sub(p, ns[i]) == Sub(p, ns[j]) && Manhattan(p, ns[i]) < Manhattan(p, ns[j]))
  }

  lemma {:induction false} RaysOrdered(g: Grid, p: Pos, canJump: bool, n: nat)
    requires n <= |Members|
    ensures DirectionOrdered(p, g.Rays(p, canJump, n))
    ensures forall q :: q in g.Rays(p, canJump, n) ==> Index(Sub(p, q)) < n
  {
    if n > 0 {
      RaysOrdered(g, p, canJump, n - 1);
      var d := Members[n - 1];
      var a := g.Rays(p, canJump, n - 1);
      var r := g.Ray(p, d, 1, canJump);
      RayShape(g, p, d, 1, canJump);
      forall i | 0 <= i < |r|
        ensures Sub(p, r[i]) == d && Manhattan(p, r[i]) == 1 + i
      {
        SubOfOffset(p, d, 1 + i);
      }
      MembersExactlyFour();
      assert Index(d) == n - 1;
      var ns := a + r;
      forall q | q in ns ensures Index(Sub(p, q)) < n {
        if q !in a {
          var i :| 0 <= i < |r| && r[i] == q;
        }
      }
      forall i, j | 0 <= i < j < |ns|
        ensures Index(Sub(p, ns[i])) < Index(Sub(p, ns[j])) ||
                (Sub(p, ns[i]) == Sub(p, ns[j]) && Manhattan(p, ns[i]) < Manhattan(p, ns[j]))
      {
        if j < |a| {
        } else if i < |a| {
          assert ns[i] in a;
          assert ns[j] == r[j - |a|];
        } else {
          assert ns[i] == r[i - |a|] && ns[j] == r[j - |a|];
        }
      }
    }
  }

  /** The neighbour list is grouped by direction, increasing in distance, and free of repetitions. */
  lemma NeighborsOrdered(g: Grid, p: Pos, canJump: bool)
    ensures DirectionOrdered(p, g.Neighbors(p, canJump))
    ensures forall i, j :: 0 <= i < j < |g.Neighbors(p, canJump)| ==> g.Neighbors(p, canJump)[i] != g.Neighbors(p, canJump)[j]
  {
    RaysOrdered(g, p, canJump, |Members|);
  }
}

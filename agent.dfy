/**
 * The agent: its start cell, its goal list and whether it may jump, plus
 * `trace_path`, which turns a chain of parent links into a list of moves,
 * and `get_nearest_goal`.
 */
module Agents {
  import opened Wrappers
  import opened Directions
  import opened Cells
  import opened Grids
  import Seqs

  /**
   * One entry of a traced path: a direction, with the distance suffix
   * (`"up_3"`) when the agent can jump and without it (`"up"`) otherwise.
   */
  datatype Token =
    | Step(dir: Direction, dist: Option<nat>)
      /** The join of bidirectional search: the `Direction` member itself rather than its name. */
    | Raw(dir: Direction)

  /** Where a token leads: a suffixed token moves `dist` cells, any other a single cell. */
  function Move(p: Pos, t: Token): Pos
  {
    match t
    case Step(d, None) => Offset(p, d, 1)
    case Step(d, Some(k)) => Offset(p, d, k)
    case Raw(d) => Offset(p, d, 1)
  }

  /** Follow a list of tokens from `p`. */
  function Walk(p: Pos, ts: seq<Token>): Pos
    decreases |ts|
  {
    if ts == [] then p else Walk(Move(p, ts[0]), ts[1..])
  }

  lemma {:induction false} WalkAppend(p: Pos, a: seq<Token>, b: seq<Token>)
    ensures Walk(p, a + b) == Walk(Walk(p, a), b)
    decreases |a|
  {
    if a == [] {
      assert a + b == b;
    } else {
      assert (a + b)[0] == a[0] && (a + b)[1..] == a[1..] + b;
      WalkAppend(Move(p, a[0]), a[1..], b);
    }
  }

  /** Following the parent links from `p` ends at a root after at most `n` links. */
  predicate RootedWithin(cells: seq<seq<Cell>>, p: Pos, n: nat)
    decreases n
  {
    match At(cells, p).parent
    case None => true
    case Some(q) => n > 0 && RootedWithin(cells, q, n - 1)
  }

  /** The cells visited from `p` along parent links, `p` first and the root last. */
  function Chain(cells: seq<seq<Cell>>, p: Pos, n: nat): seq<Pos>
    decreases n
  {
    match At(cells, p).parent
    case None => [p]
    case Some(q) => if n == 0 then [p] else [p] + Chain(cells, q, n - 1)
  }

  /** The token for the link from `child` to its `parent`, read in either direction. */
  function LinkToken(child: Pos, parent: Pos, canJump: bool, backward: bool): Token
  {
    Step(if backward then Sub(parent, child) else Sub(child, parent),
         if canJump then Some(Manhattan(child, parent)) else None)
  }

  /** What `trace_path(p, backward)` returns for a cell whose chain has at most `n` links. */
  function Tokens(cells: seq<seq<Cell>>, p: Pos, n: nat, canJump: bool, backward: bool): seq<Token>
    decreases n
  {
    match At(cells, p).parent
    case None => []
    case Some(q) =>
      if n == 0 then []
      else if backward then Tokens(cells, q, n - 1, canJump, true) + [LinkToken(p, q, canJump, true)]
      else [LinkToken(p, q, canJump, false)] + Tokens(cells, q, n - 1, canJump, false)
  }

  /** Any sufficient bound gives the same trace. */
  lemma {:induction false} TokensBoundIrrelevant(cells: seq<seq<Cell>>, p: Pos, n: nat, m: nat, canJump: bool, backward: bool)
    requires RootedWithin(cells, p, n) && RootedWithin(cells, p, m)
    ensures Tokens(cells, p, n, canJump, backward) == Tokens(cells, p, m, canJump, backward)
    ensures Chain(cells, p, n) == Chain(cells, p, m)
    decreases n
  {
    if At(cells, p).parent.Some? {
      TokensBoundIrrelevant(cells, At(cells, p).parent.value, n - 1, m - 1, canJump, backward);
    }
  }

  /**
   * One token per parent link: read forward (`backward = false`) token `i`
   * leads from chain cell `i` to its parent; read backward the same links
   * appear root first.
   */
  lemma {:induction false} TokensAlongChain(cells: seq<seq<Cell>>, p: Pos, n: nat, canJump: bool)
    requires RootedWithin(cells, p, n)
    ensures var ch := Chain(cells, p, n); var l := |ch| - 1;
      && |ch| >= 1 && ch[0] == p
      && |Tokens(cells, p, n, canJump, false)| == l
      && |Tokens(cells, p, n, canJump, true)| == l
      && (forall i :: 0 <= i < l ==> At(cells, ch[i]).parent == Some(ch[i + 1]))
      && At(cells, ch[l]).parent == None
      && (forall i :: 0 <= i < l ==> Tokens(cells, p, n, canJump, false)[i] == LinkToken(ch[i], ch[i + 1], canJump, false))
      && (forall i :: 0 <= i < l ==> Tokens(cells, p, n, canJump, true)[i] == LinkToken(ch[l - 1 - i], ch[l - i], canJump, true))
    decreases n
  {
    match At(cells, p).parent
    case None =>
    case Some(q) =>
      TokensAlongChain(cells, q, n - 1, canJump);
      var ch := Chain(cells, p, n);
      var rest := Chain(cells, q, n - 1);
      assert ch == [p] + rest;
      var l := |ch| - 1;
      var f := Tokens(cells, p, n, canJump, false);
      var b := Tokens(cells, p, n, canJump, true);
      assert f == [LinkToken(p, q, canJump, false)] + Tokens(cells, q, n - 1, canJump, false);
      assert b == Tokens(cells, q, n - 1, canJump, true) + [LinkToken(p, q, canJump, true)];
      forall i | 0 <= i < l
        ensures b[i] == LinkToken(ch[l - 1 - i], ch[l - i], canJump, true)
      {
        if i < l - 1 {
          assert b[i] == Tokens(cells, q, n - 1, canJump, true)[i];
        }
      }
  }

  /** A link a token can replay: distinct, in line, and one cell long unless the token carries its distance. */
  predicate Replayable(child: Pos, parent: Pos, canJump: bool)
  {
    child != parent && Aligned(child, parent) && (canJump || Manhattan(child, parent) == 1)
  }

  lemma MoveLink(child: Pos, parent: Pos, canJump: bool)
    requires Replayable(child, parent, canJump)
    ensures Move(child, LinkToken(child, parent, canJump, false)) == parent
    ensures Move(parent, LinkToken(child, parent, canJump, true)) == child
    ensures LinkToken(child, parent, canJump, true).dir == Opposite(LinkToken(child, parent, canJump, false).dir)
  {
    OffsetOfSub(child, parent);
    ManhattanMetric(child, parent, parent);
    OffsetOfSub(parent, child);
    SubAntisymmetric(child, parent);
  }

  /** Every link on the chain from `p` is replayable. */
  predicate ChainReplayable(cells: seq<seq<Cell>>, p: Pos, n: nat, canJump: bool)
  {
    var ch := Chain(cells, p, n);
    forall i :: 0 <= i < |ch| - 1 ==> Replayable(ch[i], ch[i + 1], canJump)
  }

  lemma WalkSnoc(p: Pos, ts: seq<Token>, i: nat)
    requires i < |ts|
    ensures Walk(p, ts[..i + 1]) == Move(Walk(p, ts[..i]), ts[i])
  {
    assert ts[..i + 1] == ts[..i] + [ts[i]];
    WalkAppend(p, ts[..i], [ts[i]]);
  }

  /** Forward tokens built from consecutive replayable links lead along the cells. */
  lemma ReplayForward(f: seq<Token>, ch: seq<Pos>, canJump: bool)
    requires |ch| == |f| + 1
    requires forall i :: 0 <= i < |f| ==> f[i] == LinkToken(ch[i], ch[i + 1], canJump, false) && Replayable(ch[i], ch[i + 1], canJump)
    ensures forall i :: 0 <= i <= |f| ==> Walk(ch[0], f[..i]) == ch[i]
  {
    var i := 0;
    while i < |f|
      invariant 0 <= i <= |f|
      invariant forall j :: 0 <= j <= i ==> Walk(ch[0], f[..j]) == ch[j]
    {
      WalkSnoc(ch[0], f, i);
      MoveLink(ch[i], ch[i + 1], canJump);
      i := i + 1;
    }
  }

  /** Backward tokens built from the same links, root first, lead back along the cells. */
  lemma ReplayBackward(b: seq<Token>, ch: seq<Pos>, canJump: bool)
    requires |ch| == |b| + 1
    requires forall i :: 0 <= i < |b| ==> Replayable(ch[i], ch[i + 1], canJump)
    requires forall i :: 0 <= i < |b| ==> b[i] == LinkToken(ch[|b| - 1 - i], ch[|b| - i], canJump, true)
    ensures forall i :: 0 <= i <= |b| ==> Walk(ch[|b|], b[..i]) == ch[|b| - i]
  {
    var l := |b|;
    var i := 0;
    while i < l
      invariant 0 <= i <= l
      invariant forall j :: 0 <= j <= i ==> Walk(ch[l], b[..j]) == ch[l - j]
    {
      WalkSnoc(ch[l], b, i);
      MoveLink(ch[l - 1 - i], ch[l - i], canJump);
      i := i + 1;
    }
  }

  /**
   * Replaying the trace: the forward trace leads from `p` through its
   * ancestors to the root, and the backward trace from the root through the
   * same cells in reverse to `p`. The backward trace is the forward one
   * reversed with every direction turned round.
   */
  lemma TraceReplays(cells: seq<seq<Cell>>, p: Pos, n: nat, canJump: bool)
    requires RootedWithin(cells, p, n) && ChainReplayable(cells, p, n, canJump)
    ensures var ch := Chain(cells, p, n); var l := |ch| - 1;
      var f := Tokens(cells, p, n, canJump, false);
      var b := Tokens(cells, p, n, canJump, true);
      && |f| == l && |b| == l
      && (forall i :: 0 <= i <= l ==> Walk(p, f[..i]) == ch[i])
      && (forall i :: 0 <= i <= l ==> Walk(ch[l], b[..i]) == ch[l - i])
      && Walk(p, f) == ch[l] && Walk(ch[l], b) == p
      && (forall i :: 0 <= i < l ==> b[i].Step? && f[l - 1 - i].Step? && b[i].dir == Opposite(f[l - 1 - i].dir) && b[i].dist == f[l - 1 - i].dist)
  {
    TokensAlongChain(cells, p, n, canJump);
    var ch := Chain(cells, p, n);
    var l := |ch| - 1;
    var f := Tokens(cells, p, n, canJump, false);
    var b := Tokens(cells, p, n, canJump, true);
    ReplayForward(f, ch, canJump);
    ReplayBackward(b, ch, canJump);
    assert f[..l] == f && b[..l] == b;
    Mirrored(f, b, ch, canJump);
  }

  /** Tokens for the links of `ch` read forward and backward: the backward ones are the forward ones reversed and turned round. */
  lemma Mirrored(f: seq<Token>, b: seq<Token>, ch: seq<Pos>, canJump: bool)
    requires |ch| == |f| + 1 && |b| == |f|
    requires forall i :: 0 <= i < |f| ==> f[i] == LinkToken(ch[i], ch[i + 1], canJump, false) && Replayable(ch[i], ch[i + 1], canJump)
    requires forall i :: 0 <= i < |b| ==> b[i] == LinkToken(ch[|b| - 1 - i], ch[|b| - i], canJump, true)
    ensures forall i :: 0 <= i < |b| ==>
      b[i].Step? && f[|b| - 1 - i].Step? && b[i].dir == Opposite(f[|b| - 1 - i].dir) && b[i].dist == f[|b| - 1 - i].dist
  {
    var l := |b|;
    forall i | 0 <= i < l
      ensures b[i].Step? && f[l - 1 - i].Step? && b[i].dir == Opposite(f[l - 1 - i].dir) && b[i].dist == f[l - 1 - i].dist
    {
      MoveLink(ch[l - 1 - i], ch[l - i], canJump);
      ManhattanMetric(ch[l - 1 - i], ch[l - i], ch[l - i]);
    }
  }

  /** Index of the first goal nearest to `p`, as `min(goals, key=...)` picks it. */
  function FirstNearest(p: Pos, gs: seq<Pos>): (i: nat)
    requires |gs| > 0
    ensures i < |gs|
    ensures forall j :: 0 <= j < |gs| ==> Manhattan(p, gs[i]) <= Manhattan(p, gs[j])
    ensures forall j :: 0 <= j < i ==> Manhattan(p, gs[j]) > Manhattan(p, gs[i])
  {
    if |gs| == 1 then 0
    else
      var i := FirstNearest(p, gs[..|gs| - 1]);
      if Manhattan(p, gs[|gs| - 1]) < Manhattan(p, gs[i]) then |gs| - 1 else i
  }

  class Agent {
    const grid: Grid
    /** The agent's cell: where searches start; A*'s `search_all` moves it to each goal it reaches. */
    var cell: Pos
    /** The goal cells still to reach; `search_all` removes them as they are found. */
    var goals: seq<Pos>
    const canJump: bool

    ghost predicate Valid()
      reads this, grid
    {
      grid.Valid() && grid.InBounds(cell) && forall i :: 0 <= i < |goals| ==> grid.InBounds(goals[i])
    }

    /** `__init__`: the start and the goals become the grid's cells at those locations. */
    constructor (grid: Grid, location: Pos, goalLocations: seq<Pos>, canJump: bool)
      requires grid.Valid() && grid.Indexable(location)
      requires forall i :: 0 <= i < |goalLocations| ==> grid.Indexable(goalLocations[i])
      ensures this.grid == grid && cell == grid.Wrapped(location) && this.canJump == canJump
      ensures |goals| == |goalLocations| && forall i :: 0 <= i < |goals| ==> goals[i] == grid.Wrapped(goalLocations[i])
      ensures grid.InBounds(location) ==> cell == location
      ensures (forall i :: 0 <= i < |goalLocations| ==> grid.InBounds(goalLocations[i])) ==> goals == goalLocations
      ensures Valid()
    {
      this.grid := grid;
      cell := grid.GetCell(location).Location();
      var gs := [];
      for i := 0 to |goalLocations|
        invariant |gs| == i && forall j :: 0 <= j < i ==> gs[j] == grid.Wrapped(goalLocations[j])
      {
        var c := grid.GetCell(goalLocations[i]);
        gs := gs + [c.Location()];
      }
      goals := gs;
      this.canJump := canJump;
    }

    /** `goals.remove(c)`: the first occurrence of a goal that is in the list is dropped. */
    method RemoveGoal(c: Pos)
      requires Valid() && c in goals
      modifies this
      ensures Valid()
      ensures goals == Seqs.RemoveFirst(old(goals), c) && cell == old(cell)
      ensures multiset(goals) == multiset(old(goals)) - multiset{c}
    {
      Seqs.RemoveFirstMultiset(goals, c);
      ghost var gs := goals;
      goals := Seqs.RemoveFirst(goals, c);
      forall i | 0 <= i < |goals| ensures grid.InBounds(goals[i]) {
        assert goals[i] in multiset(goals) && goals[i] in multiset(gs);
        var j :| 0 <= j < |gs| && gs[j] == goals[i];
      }
    }

    /** `agent.cell = c`: the agent moves to the grid cell `c`. */
    method MoveTo(c: Pos)
      requires Valid() && grid.InBounds(c)
      modifies this
      ensures Valid() && cell == c && goals == old(goals)
    {
      cell := c;
    }

    /**
     * `trace_path`: follow parent links from `c`, emitting one token per
     * link; `n` bounds the length of the parent chain (any bound gives the
     * same tokens, see `TokensBoundIrrelevant`).
     */
    method TracePath(c: Pos, backward: bool, ghost n: nat) returns (path: seq<Token>)
      requires grid.Valid() && grid.InBounds(c)
      requires RootedWithin(grid.cells, c, n)
      ensures path == Tokens(grid.cells, c, n, canJump, backward)
    {
      ghost var m: nat := n;
      var cur := c;
      path := [];
      while grid.GetCell(cur).parent.Some?
        invariant grid.InBounds(cur) && RootedWithin(grid.cells, cur, m)
        invariant backward ==> Tokens(grid.cells, c, n, canJump, true) == Tokens(grid.cells, cur, m, canJump, true) + path
        invariant !backward ==> Tokens(grid.cells, c, n, canJump, false) == path + Tokens(grid.cells, cur, m, canJump, false)
        decreases m
      {
        var parent := grid.GetCell(cur).parent.value;
        var distance := Manhattan(cur, parent);
        var dist := if canJump then Some(distance) else None;
        ghost var t := LinkToken(cur, parent, canJump, backward);
        assert Step(if backward then Sub(parent, cur) else Sub(cur, parent), dist) == t;
        if backward {
          assert Tokens(grid.cells, cur, m, canJump, true) == Tokens(grid.cells, parent, m - 1, canJump, true) + [t];
          Seqs.Assoc(Tokens(grid.cells, parent, m - 1, canJump, true), [t], path);
          path := [Step(Sub(parent, cur), dist)] + path;
        } else {
          assert Tokens(grid.cells, cur, m, canJump, false) == [t] + Tokens(grid.cells, parent, m - 1, canJump, false);
          Seqs.Assoc(path, [t], Tokens(grid.cells, parent, m - 1, canJump, false));
          path := path + [Step(Sub(cur, parent), dist)];
        }
        cur := parent;
        m := m - 1;
      }
    }

    /** `get_nearest_goal`: the first goal of least Manhattan distance from the agent's cell. */
    function NearestGoal(): (g: Pos)
      reads this
      requires |goals| > 0
      ensures g in goals
      ensures forall h :: h in goals ==> Manhattan(cell, g) <= Manhattan(cell, h)
      ensures exists i :: 0 <= i < |goals| && goals[i] == g && forall j :: 0 <= j < i ==> Manhattan(cell, goals[j]) > Manhattan(cell, g)
    {
      goals[FirstNearest(cell, goals)]
    }
  }
}

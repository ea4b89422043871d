/**
 * A grid cell: integer coordinates plus the mutable search annotations
 * `parent`, `g`, `h` and the `blocked` flag. Two cells are equal exactly when
 * their coordinates are, so a cell is identified by its `Pos`.
 */
module Cells {
  import opened Wrappers
  import opened Directions

  datatype Pos = Pos(x: int, y: int)

  datatype Cell = Cell(x: int, y: int, parent: Option<Pos>, g: int, h: int, blocked: bool)
  {
    /** The `location` property. */
    function Location(): Pos
    {
      Pos(x, y)
    }

    /** The `f` property: total estimated cost. */
    function F(): int
    {
      g + h
    }
  }

  /** A fresh cell, as `Cell(x, y)` builds it. */
  function NewCell(x: int, y: int): Cell
  {
    Cell(x, y, None, 0, 0, false)
  }

  /** `__eq__`: equality on coordinates only. */
  predicate SameCell(a: Cell, b: Cell)
  {
    a.x == b.x && a.y == b.y
  }

  /** `__lt__`: the heap order compares `f` only. */
  predicate Less(a: Cell, b: Cell)
  {
    a.F() < b.F()
  }

  /** `reset`: clears the search annotations. */
  function Reset(c: Cell): Cell
  {
    c.(g := 0, h := 0, parent := None)
  }

  function Abs(n: int): nat
  {
    if n < 0 then -n else n
  }

  /** `manhattan_distance`. */
  function Manhattan(a: Pos, b: Pos): (r: nat)
    ensures r == 0 <==> a == b
  {
    Abs(a.x - b.x) + Abs(a.y - b.y)
  }

  /**
   * `a - b`: the direction of the step from `a` towards `b`. A vertical
   * direction is chosen when the x coordinates agree (DOWN also for `a == b`),
   * otherwise a horizontal one.
   */
  function Sub(a: Pos, b: Pos): Direction
  {
    var dx, dy := b.x - a.x, b.y - a.y;
    if dx == 0 then (if dy < 0 then Up else Down)
    else (if dx < 0 then Left else Right)
  }

  /** The position `k` cells away from `p` in direction `d` (as `get_neighbor` computes it). */
  function Offset(p: Pos, d: Direction, k: int): Pos
  {
    match d
    case Up => Pos(p.x, p.y - k)
    case Left => Pos(p.x - k, p.y)
    case Down => Pos(p.x, p.y + k)
    case Right => Pos(p.x + k, p.y)
  }

  /** Same row or same column. */
  predicate Aligned(a: Pos, b: Pos)
  {
    a.x == b.x || a.y == b.y
  }

  /** Manhattan distance is symmetric and obeys the triangle inequality. */
  lemma ManhattanMetric(a: Pos, b: Pos, c: Pos)
    ensures Manhattan(a, b) == Manhattan(b, a)
    ensures Manhattan(a, c) <= Manhattan(a, b) + Manhattan(b, c)
  {
  }

  /** Each direction is what subtraction returns for a step of `k > 0` cells that way. */
  lemma SubOfOffset(p: Pos, d: Direction, k: int)
    requires k > 0
    ensures Sub(p, Offset(p, d, k)) == d
    ensures Manhattan(p, Offset(p, d, k)) == k
    ensures Aligned(p, Offset(p, d, k))
  {
  }

  /**
   * Round trip: stepping from `a` in direction `a - b` by the distance
   * between them lands on `b`, for distinct cells in one row or column.
   */
  lemma OffsetOfSub(a: Pos, b: Pos)
    requires a != b && Aligned(a, b)
    ensures Offset(a, Sub(a, b), Manhattan(a, b)) == b
  {
  }

  /** For distinct cells in one row or column, `a - b` and `b - a` are opposite. */
  lemma SubAntisymmetric(a: Pos, b: Pos)
    requires a != b && Aligned(a, b)
    ensures Sub(b, a) == Opposite(Sub(a, b))
  {
  }

  /** A cell at distance 1 lies in the same row or column. */
  lemma UnitIsAligned(a: Pos, b: Pos)
    requires Manhattan(a, b) == 1
    ensures Aligned(a, b)
  {
  }
}

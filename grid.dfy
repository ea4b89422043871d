/**
 * The grid: a height x width table of cells stored row-major (`cells[y][x]`),
 * with the cells covered by wall rectangles marked blocked at construction.
 */
module Grids {
  import opened Wrappers
  import opened Directions
  import opened Cells

  /** A wall rectangle `(x, y, width, height)`. */
  datatype Wall = Wall(x: int, y: int, width: int, height: int)

  /** Python's index `i` into a list of length `n`: a negative index counts from the end. */
  function PyIndex(i: int, n: int): (r: int)
    requires -n <= i < n
    ensures 0 <= r < n && (r == i || r == i + n)
  {
    if i < 0 then i + n else i
  }

  /**
   * Some index of `range(start, start + len)` names element `i` of a list of
   * length `n`: the index `i` itself or, counted from the end, `i - n`.
   */
  predicate InSpan(start: int, len: int, n: int, i: int)
  {
    start <= i < start + len || start <= i - n < start + len
  }

  /** For an in-range list index, `InSpan` holds exactly when some index of the range reaches `i` the way Python indexes. */
  lemma InSpanIndex(start: int, len: int, n: int, i: int)
    requires 0 <= i < n && -n <= start && start + len <= n
    ensures InSpan(start, len, n, i) <==> exists r :: start <= r < start + len && PyIndex(r, n) == i
  {
    if InSpan(start, len, n, i) {
      var r := if start <= i < start + len then i else i - n;
      assert PyIndex(r, n) == i;
    }
  }

  /** The wall's rows and columns, indexed as `grid[row][col]` does, cover the in-bounds cell `p`. */
  predicate InWall(w: Wall, height: int, width: int, p: Pos)
  {
    InSpan(w.y, w.height, height, p.y) && InSpan(w.x, w.width, width, p.x)
  }

  /** Some wall covers `p`: the last one, or one of those before it. */
  predicate CoveredBy(walls: seq<Wall>, height: int, width: int, p: Pos)
  {
    |walls| > 0 &&
    (CoveredBy(walls[..|walls| - 1], height, width, p) || InWall(walls[|walls| - 1], height, width, p))
  }

  /** `CoveredBy` holds exactly when one of the walls covers `p`. */
  lemma {:induction false} CoveredByAny(walls: seq<Wall>, height: int, width: int, p: Pos)
    ensures CoveredBy(walls, height, width, p) <==> exists i :: 0 <= i < |walls| && InWall(walls[i], height, width, p)
  {
    if |walls| > 0 {
      var n := |walls| - 1;
      var fore := walls[..n];
      CoveredByAny(fore, height, width, p);
      if CoveredBy(fore, height, width, p) {
        var j :| 0 <= j < n && InWall(fore[j], height, width, p);
        assert walls[j] == fore[j];
      }
      if exists i :: 0 <= i < |walls| && InWall(walls[i], height, width, p) {
        var j :| 0 <= j < |walls| && InWall(walls[j], height, width, p);
        if j < n {
          assert fore[j] == walls[j];
        }
      }
    }
  }

  /**
   * Every index of a non-empty wall is a valid Python index into the table,
   * negative ones counting from the far edge; any other index would raise
   * `IndexError` in the constructor.
   */
  predicate WallFits(w: Wall, height: int, width: int)
  {
    w.width <= 0 || w.height <= 0 ||
    (-width <= w.x && w.x + w.width <= width && -height <= w.y && w.y + w.height <= height)
  }

  /**
   * For a wall that fits, an in-bounds cell is inside it exactly when some
   * `(row, col)` of the wall's two ranges names that cell as `grid[row][col]`.
   */
  lemma InWallIndex(w: Wall, height: int, width: int, p: Pos)
    requires WallFits(w, height, width) && 0 <= p.x < width && 0 <= p.y < height
    ensures InWall(w, height, width, p) <==>
      exists row, col :: w.y <= row < w.y + w.height && w.x <= col < w.x + w.width &&
                         PyIndex(row, height) == p.y && PyIndex(col, width) == p.x
  {
    if w.width > 0 && w.height > 0 {
      InSpanIndex(w.y, w.height, height, p.y);
      InSpanIndex(w.x, w.width, width, p.x);
    }
  }

  // ---------------------------------------------------------------------
  // The cell table as a value

  predicate InTable(cells: seq<seq<Cell>>, p: Pos)
  {
    0 <= p.y < |cells| && 0 <= p.x < |cells[p.y]|
  }

  /** `grid[y][x]`; a position outside the table reads as a fresh cell. */
  function At(cells: seq<seq<Cell>>, p: Pos): Cell
  {
    if InTable(cells, p) then cells[p.y][p.x] else NewCell(p.x, p.y)
  }

  /** Overwrite the cell at `p` (the in-place field updates on a cell object). */
  function Put(cells: seq<seq<Cell>>, p: Pos, c: Cell): (r: seq<seq<Cell>>)
    ensures |r| == |cells| && forall y :: 0 <= y < |cells| ==> |r[y]| == |cells[y]|
    ensures forall q :: At(r, q) == if q == p && InTable(cells, p) then c else At(cells, q)
  {
    if InTable(cells, p) then cells[p.y := cells[p.y][p.x := c]] else cells
  }

  /** The shape every grid keeps: dimensions, coordinates, in-bounds parents and walls. */
  ghost predicate WellFormed(cells: seq<seq<Cell>>, height: int, width: int, walls: seq<Wall>)
  {
    && |cells| == height
    && (forall y :: 0 <= y < height ==> |cells[y]| == width)
    && (forall p: Pos :: 0 <= p.x < width && 0 <= p.y < height ==>
          && At(cells, p).Location() == p
          && At(cells, p).blocked == CoveredBy(walls, height, width, p)
          && (At(cells, p).parent.Some? ==>
               0 <= At(cells, p).parent.value.x < width && 0 <= At(cells, p).parent.value.y < height))
  }

  /** A cell update that keeps coordinates and `blocked` and links only to in-bounds cells keeps the shape. */
  lemma PutWellFormed(cells: seq<seq<Cell>>, height: int, width: int, walls: seq<Wall>, p: Pos, c: Cell)
    requires WellFormed(cells, height, width, walls)
    requires 0 <= p.x < width && 0 <= p.y < height
    requires c.Location() == p && c.blocked == At(cells, p).blocked
    requires c.parent.Some? ==> 0 <= c.parent.value.x < width && 0 <= c.parent.value.y < height
    ensures WellFormed(Put(cells, p, c), height, width, walls)
  {
  }

  function CountBlockedRow(row: seq<Cell>): (n: nat)
    ensures n <= |row|
  {
    if row == [] then 0
    else CountBlockedRow(row[..|row| - 1]) + (if row[|row| - 1].blocked then 1 else 0)
  }

  function CountBlocked(cells: seq<seq<Cell>>): nat
  {
    if cells == [] then 0
    else CountBlocked(cells[..|cells| - 1]) + CountBlockedRow(cells[|cells| - 1])
  }

  function CountFreeRow(row: seq<Cell>): nat
  {
    if row == [] then 0
    else CountFreeRow(row[..|row| - 1]) + (if row[|row| - 1].blocked then 0 else 1)
  }

  /** The number of unblocked cells. */
  function CountFree(cells: seq<seq<Cell>>): nat
  {
    if cells == [] then 0
    else CountFree(cells[..|cells| - 1]) + CountFreeRow(cells[|cells| - 1])
  }

  lemma {:induction false} RowSplit(row: seq<Cell>)
    ensures CountBlockedRow(row) + CountFreeRow(row) == |row|
  {
    if row != [] {
      RowSplit(row[..|row| - 1]);
    }
  }

  lemma {:induction false} TableSplit(cells: seq<seq<Cell>>, width: int)
    requires forall y :: 0 <= y < |cells| ==> |cells[y]| == width
    ensures CountBlocked(cells) + CountFree(cells) == |cells| * width
  {
    if cells != [] {
      var n := |cells| - 1;
      TableSplit(cells[..n], width);
      RowSplit(cells[n]);
      assert (n + 1) * width == n * width + width;
    }
  }

  /** The positions of the unblocked cells among the first `k` of row `y`. */
  ghost function FreeRowSet(row: seq<Cell>, y: int, k: nat): set<Pos>
    requires k <= |row|
  {
    set x | 0 <= x < k && !row[x].blocked :: Pos(x, y)
  }

  lemma {:induction false} FreeRowCount(row: seq<Cell>, y: int, k: nat)
    requires k <= |row|
    ensures |FreeRowSet(row, y, k)| == CountFreeRow(row[..k])
  {
    if k == 0 {
      assert FreeRowSet(row, y, 0) == {};
    } else {
      FreeRowCount(row, y, k - 1);
      assert row[..k][..k - 1] == row[..k - 1];
      if row[k - 1].blocked {
        assert FreeRowSet(row, y, k) == FreeRowSet(row, y, k - 1);
      } else {
        assert FreeRowSet(row, y, k) == FreeRowSet(row, y, k - 1) + {Pos(k - 1, y)};
      }
    }
  }

  /** The positions of the unblocked cells in the first `n` rows of a table. */
  ghost function FreeTableSet(cells: seq<seq<Cell>>, n: nat): set<Pos>
    requires n <= |cells|
  {
    set y, x | 0 <= y < n && 0 <= x < |cells[y]| && !cells[y][x].blocked :: Pos(x, y)
  }

  lemma {:induction false} FreeTableCount(cells: seq<seq<Cell>>, n: nat)
    requires n <= |cells|
    ensures |FreeTableSet(cells, n)| == CountFree(cells[..n])
  {
    if n == 0 {
      assert FreeTableSet(cells, 0) == {};
    } else {
      var row := cells[n - 1];
      FreeTableCount(cells, n - 1);
      FreeRowCount(row, n - 1, |row|);
      assert cells[..n][..n - 1] == cells[..n - 1];
      assert row[..|row|] == row;
      assert FreeTableSet(cells, n) == FreeTableSet(cells, n - 1) + FreeRowSet(row, n - 1, |row|);
      assert FreeTableSet(cells, n - 1) * FreeRowSet(row, n - 1, |row|) == {};
    }
  }

  class Grid {
    const height: nat
    const width: nat
    /** `grid`: row `y` holds the cells `(0, y)` .. `(width - 1, y)`. */
    var cells: seq<seq<Cell>>
    /** The wall rectangles the grid was built from. */
    ghost const walls: seq<Wall>

    ghost predicate Valid()
      reads this
    {
      WellFormed(cells, height, width, walls)
    }

    /** `is_valid`. */
    predicate IsValid(x: int, y: int)
    {
      0 <= x < width && 0 <= y < height
    }

    predicate InBounds(p: Pos)
    {
      IsValid(p.x, p.y)
    }

    /** The cell at `p` is blocked; fixed at construction. */
    ghost predicate Blocked(p: Pos)
    {
      CoveredBy(walls, height, width, p)
    }

    /** `__init__`: fresh cells, then every cell inside a wall rectangle is blocked. */
    constructor (height: nat, width: nat, walls: seq<Wall>)
      requires forall i :: 0 <= i < |walls| ==> WallFits(walls[i], height, width)
      ensures this.height == height && this.width == width && this.walls == walls
      ensures Valid()
      ensures forall p: Pos :: IsValid(p.x, p.y) ==>
                At(cells, p) == Cell(p.x, p.y, None, 0, 0, CoveredBy(walls, height, width, p))
    {
      this.height := height;
      this.width := width;
      this.walls := walls;
      var cs := seq(height, y => seq(width, x => NewCell(x, y)));
      assert Marked(cs, height, width, walls[..0], Wall(0, 0, 0, 0), 0, 0);
      var i := 0;
      while i < |walls|
        invariant 0 <= i <= |walls|
        invariant Marked(cs, height, width, walls[..i], Wall(0, 0, 0, 0), 0, 0)
      {
        cs := BlockWall(cs, height, width, walls, i);
        i := i + 1;
      }
      assert walls[..|walls|] == walls;
      MarkedWellFormed(cs, height, width, walls);
      cells := cs;
    }

    /** Coordinates `grid[y][x]` can index: each in range or, negative, counting back from the far edge. */
    predicate Indexable(p: Pos)
    {
      -(width as int) <= p.x < width && -(height as int) <= p.y < height
    }

    /** The cell `grid[p.y][p.x]` names: an in-bounds position is itself, a negative coordinate wraps to the far edge. */
    function Wrapped(p: Pos): (q: Pos)
      requires Indexable(p)
      ensures InBounds(q) && (InBounds(p) ==> q == p)
      ensures (q.x == p.x || q.x == p.x + width) && (q.y == p.y || q.y == p.y + height)
    {
      Pos(PyIndex(p.x, width), PyIndex(p.y, height))
    }

    /** `get_cell`: the table is indexed row first, with Python's negative indexes. */
    function GetCell(p: Pos): (c: Cell)
      reads this
      requires Valid() && Indexable(p)
      ensures c.Location() == Wrapped(p) && c == At(cells, Wrapped(p))
      ensures InBounds(p) ==> c == cells[p.y][p.x]
    {
      cells[PyIndex(p.y, height)][PyIndex(p.x, width)]
    }

    /** `get_neighbor`: the cell `k` steps away in direction `d`, if it is inside the grid. */
    function GetNeighbor(p: Pos, d: Direction, k: int): Option<Pos>
    {
      var q := Offset(p, d, k);
      if IsValid(q.x, q.y) then Some(q) else None
    }

    /** Bounds how far a ray from `p` can stay inside the grid. */
    function Reach(p: Pos): nat
    {
      height + width + Abs(p.x) + Abs(p.y) + 2
    }

    lemma InsideRay(p: Pos, d: Direction, k: int)
      requires InBounds(Offset(p, d, k))
      ensures k + 2 <= Reach(p)
    {
    }

    /**
     * The cells the inner `while` of `get_neighbors` emits for one direction,
     * starting at distance `k`: at most one without jumping, otherwise every
     * distance until the first step outside the grid.
     */
    function Ray(p: Pos, d: Direction, k: int, canJump: bool): seq<Pos>
      decreases Reach(p) - k
    {
      match GetNeighbor(p, d, k)
      case None => []
      case Some(q) =>
        InsideRay(p, d, k);
        [q] + (if canJump then Ray(p, d, k + 1, canJump) else [])
    }

    /** The rays of the first `n` directions in declaration order. */
    function Rays(p: Pos, canJump: bool, n: nat): seq<Pos>
      requires n <= |Members|
    {
      if n == 0 then [] else Rays(p, canJump, n - 1) + Ray(p, Members[n - 1], 1, canJump)
    }

    /** What `get_neighbors(p, can_jump)` returns. */
    function Neighbors(p: Pos, canJump: bool): seq<Pos>
    {
      Rays(p, canJump, |Members|)
    }

    /** `get_neighbors`: rays up, left, down, right, in that order; blocked cells are not filtered. */
    method GetNeighbors(p: Pos, canJump: bool) returns (ns: seq<Pos>)
      ensures ns == Neighbors(p, canJump)
    {
      ns := [];
      for i := 0 to |Members|
        invariant ns == Rays(p, canJump, i)
      {
        var d := Members[i];
        var k := 1;
        var nb := GetNeighbor(p, d, k);
        ghost var before := ns;
        while nb.Some?
          invariant 1 <= k
          invariant nb == GetNeighbor(p, d, k)
          invariant before + Ray(p, d, 1, canJump) == ns + Ray(p, d, k, canJump)
          decreases Reach(p) - k
        {
          InsideRay(p, d, k);
          var q := nb.value;
          assert Ray(p, d, k, canJump) == [q] + (if canJump then Ray(p, d, k + 1, canJump) else []);
          assert ns + Ray(p, d, k, canJump) == (ns + [q]) + (if canJump then Ray(p, d, k + 1, canJump) else []);
          ns := ns + [q];
          if !canJump {
            assert ns == before + Ray(p, d, 1, canJump);
            break;
          }
          k := k + 1;
          nb := GetNeighbor(p, d, k);
        }
        assert ns == before + Ray(p, d, 1, canJump);
      }
    }

    /** `cell.parent = None` for the cell at `p`: it becomes a root, and nothing else changes. */
    method Detach(p: Pos)
      requires Valid() && InBounds(p)
      modifies this
      ensures Valid()
      ensures cells == Put(old(cells), p, At(old(cells), p).(parent := None))
    {
      PutWellFormed(cells, height, width, walls, p, At(cells, p).(parent := None));
      cells := Put(cells, p, At(cells, p).(parent := None));
    }

    /** `child.parent = parent`, for two grid cells; nothing else changes. */
    method Link(child: Pos, parent: Pos)
      requires Valid() && InBounds(child) && InBounds(parent)
      modifies this
      ensures Valid()
      ensures cells == Put(old(cells), child, At(old(cells), child).(parent := Some(parent)))
    {
      PutWellFormed(cells, height, width, walls, child, At(cells, child).(parent := Some(parent)));
      cells := Put(cells, child, At(cells, child).(parent := Some(parent)));
    }

    /** `cell.g, cell.h, cell.parent = g, h, parent` for the cell at `p`, as the informed searches annotate a cell; nothing else changes. */
    method Annotate(p: Pos, g: int, h: int, parent: Option<Pos>)
      requires Valid() && InBounds(p) && (parent.Some? ==> InBounds(parent.value))
      modifies this
      ensures Valid()
      ensures cells == Put(old(cells), p, At(old(cells), p).(g := g, h := h, parent := parent))
    {
      PutWellFormed(cells, height, width, walls, p, At(cells, p).(g := g, h := h, parent := parent));
      cells := Put(cells, p, At(cells, p).(g := g, h := h, parent := parent));
    }

    /** `reset`: clear `g`, `h` and `parent` of every cell, row by row. */
    method Reset()
      requires Valid()
      modifies this
      ensures Valid()
      ensures forall p :: InBounds(p) ==>
                && At(cells, p).g == 0 && At(cells, p).h == 0 && At(cells, p).parent == None
                && At(cells, p).blocked == At(old(cells), p).blocked
    {
      var y := 0;
      while y < height
        invariant 0 <= y <= height
        invariant Valid()
        invariant forall p :: InBounds(p) ==>
                    At(cells, p) == if p.y < y then Cells.Reset(At(old(cells), p)) else At(old(cells), p)
      {
        var x := 0;
        while x < width
          invariant 0 <= x <= width
          invariant Valid()
          invariant forall p :: InBounds(p) ==>
                      At(cells, p) == if p.y < y || (p.y == y && p.x < x) then Cells.Reset(At(old(cells), p)) else At(old(cells), p)
        {
          var c := Pos(x, y);
          PutWellFormed(cells, height, width, walls, c, Cells.Reset(At(cells, c)));
          cells := Put(cells, c, Cells.Reset(At(cells, c)));
          x := x + 1;
        }
        y := y + 1;
      }
    }

    /** `net_area`: all cells minus the blocked ones. */
    function NetArea(): int
      reads this
      requires Valid()
    {
      height * width - CountBlocked(cells)
    }

    /** The net area is the number of unblocked cells, hence between 0 and height * width. */
    lemma NetAreaIsFreeCount()
      requires Valid()
      ensures NetArea() == CountFree(cells)
      ensures 0 <= NetArea() <= height * width
    {
      TableSplit(cells, width);
    }

    /** The unblocked cells of the grid. */
    ghost function FreeCells(): set<Pos>
    {
      set x, y | 0 <= x < width && 0 <= y < height && !Blocked(Pos(x, y)) :: Pos(x, y)
    }

    /** `net_area` is the number of unblocked cells. */
    lemma NetAreaIsFreeCells()
      requires Valid()
      ensures NetArea() == |FreeCells()|
    {
      NetAreaIsFreeCount();
      FreeTableCount(cells, |cells|);
      assert cells[..|cells|] == cells;
      assert FreeCells() == FreeTableSet(cells, |cells|) by {
        forall p | p in FreeTableSet(cells, |cells|) ensures p in FreeCells() {
          assert At(cells, p) == cells[p.y][p.x];
        }
        forall p | p in FreeCells() ensures p in FreeTableSet(cells, |cells|) {
          assert At(cells, p) == cells[p.y][p.x];
        }
      }
    }
  }

  /** The two inner loops of `__init__`: every cell inside the wall `walls[i]` becomes blocked. */
  method BlockWall(cs: seq<seq<Cell>>, height: int, width: int, walls: seq<Wall>, i: nat) returns (cs': seq<seq<Cell>>)
    requires i < |walls| && WallFits(walls[i], height, width)
    requires Marked(cs, height, width, walls[..i], Wall(0, 0, 0, 0), 0, 0)
    ensures Marked(cs', height, width, walls[..i + 1], Wall(0, 0, 0, 0), 0, 0)
  {
    var w := walls[i];
    cs' := cs;
    MarkedStart(cs', height, width, walls[..i], w);
    if w.width > 0 && w.height > 0 {
      var row := w.y;
      while row < w.y + w.height
        invariant w.y <= row <= w.y + w.height
        invariant Marked(cs', height, width, walls[..i], w, row, w.x)
      {
        var col := w.x;
        while col < w.x + w.width
          invariant w.x <= col <= w.x + w.width
          invariant Marked(cs', height, width, walls[..i], w, row, col)
        {
          MarkStep(cs', height, width, walls[..i], w, row, col);
          var q := Pos(PyIndex(col, width), PyIndex(row, height));
          cs' := Put(cs', q, At(cs', q).(blocked := true));
          col := col + 1;
        }
        MarkRow(cs', height, width, walls[..i], w, row);
        row := row + 1;
      }
    }
    MarkWall(cs', height, width, walls, i, if w.width > 0 && w.height > 0 then w.y + w.height else w.y);
  }

  /** Once every wall is marked, the table is a well-formed grid of fresh cells blocked exactly inside the walls. */
  lemma MarkedWellFormed(cs: seq<seq<Cell>>, height: int, width: int, walls: seq<Wall>)
    requires Marked(cs, height, width, walls, Wall(0, 0, 0, 0), 0, 0)
    ensures WellFormed(cs, height, width, walls)
    ensures forall p: Pos :: 0 <= p.x < width && 0 <= p.y < height ==> At(cs, p) == Cell(p.x, p.y, None, 0, 0, CoveredBy(walls, height, width, p))
  {
  }

  /**
   * Building the table: fresh cells everywhere, blocked where an earlier wall
   * covers them, and blocked in the part of wall `w` marked so far (the rows
   * above `row`, then row `row` up to column `col`).
   */
  ghost predicate Marked(cs: seq<seq<Cell>>, height: int, width: int, done: seq<Wall>, w: Wall, row: int, col: int)
  {
    && |cs| == height && (forall y :: 0 <= y < height ==> |cs[y]| == width)
    && forall p: Pos :: 0 <= p.x < width && 0 <= p.y < height ==>
         At(cs, p) == Cell(p.x, p.y, None, 0, 0,
                           CoveredBy(done, height, width, p)
                           || (InSpan(w.y, row - w.y, height, p.y) && InSpan(w.x, w.width, width, p.x))
                           || ((p.y == row || p.y == row + height) && InSpan(w.x, col - w.x, width, p.x)))
  }

  lemma MarkedStart(cs: seq<seq<Cell>>, height: int, width: int, done: seq<Wall>, w: Wall)
    requires Marked(cs, height, width, done, Wall(0, 0, 0, 0), 0, 0)
    ensures Marked(cs, height, width, done, w, w.y, w.x)
  {
  }

  lemma MarkStep(cs: seq<seq<Cell>>, height: int, width: int, done: seq<Wall>, w: Wall, row: int, col: int)
    requires Marked(cs, height, width, done, w, row, col)
    requires -width <= col < width && -height <= row < height && w.x <= col
    ensures var q := Pos(PyIndex(col, width), PyIndex(row, height));
      Marked(Put(cs, q, At(cs, q).(blocked := true)), height, width, done, w, row, col + 1)
  {
  }

  lemma MarkRow(cs: seq<seq<Cell>>, height: int, width: int, done: seq<Wall>, w: Wall, row: int)
    requires Marked(cs, height, width, done, w, row, w.x + w.width) && w.y <= row
    ensures Marked(cs, height, width, done, w, row + 1, w.x)
  {
  }

  lemma MarkWall(cs: seq<seq<Cell>>, height: int, width: int, walls: seq<Wall>, i: nat, row: int)
    requires i < |walls|
    requires Marked(cs, height, width, walls[..i], walls[i], row, walls[i].x)
    requires walls[i].width > 0 && walls[i].height > 0 ==> row == walls[i].y + walls[i].height
    requires !(walls[i].width > 0 && walls[i].height > 0) ==> row == walls[i].y
    ensures Marked(cs, height, width, walls[..i + 1], Wall(0, 0, 0, 0), 0, 0)
  {
    forall p: Pos | 0 <= p.x < width && 0 <= p.y < height
      ensures CoveredBy(walls[..i + 1], height, width, p) == (CoveredBy(walls[..i], height, width, p) || InWall(walls[i], height, width, p))
    {
      CoveredBySnoc(walls, height, width, i, p);
    }
  }

  lemma CoveredBySnoc(walls: seq<Wall>, height: int, width: int, i: nat, p: Pos)
    requires i < |walls|
    ensures CoveredBy(walls[..i + 1], height, width, p) == (CoveredBy(walls[..i], height, width, p) || InWall(walls[i], height, width, p))
  {
    assert walls[..i + 1][..i] == walls[..i];
  }
}

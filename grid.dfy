/** The occupancy grid as the ray caster sees it: `width` columns, `height`
    rows, stored column-major with pitch `height`, so that cell (x, y) lives at
    index x * height + y; a cell is an obstacle when it holds `obstacle`. */
module GridMap {

  /** A grid cell (column x, row y). */
  datatype Cell = Cell(x: int, y: int)

  /** Read-only value view of the caller's map buffer. */
  datatype Grid = Grid(width: int, height: int, cells: seq<int>, obstacle: int)

  /** Dimensions are positive and the buffer holds exactly width * height cells. */
  predicate Valid(g: Grid)
  {
    1 <= g.width && 1 <= g.height && |g.cells| == g.width * g.height
  }

  predicate InBounds(g: Grid, c: Cell)
  {
    0 <= c.x < g.width && 0 <= c.y < g.height
  }

  /** Column-major position of an in-bounds cell (the source's x * pitch + y). */
  function Index(g: Grid, c: Cell): (i: nat)
    requires Valid(g) && InBounds(g, c)
    ensures i < |g.cells|
  {
    IndexLayout(c.x, c.y, g.width, g.height);
    c.x * g.height + c.y
  }

  /** An in-bounds cell that is not an obstacle. */
  predicate Open(g: Grid, c: Cell)
  {
    Valid(g) && InBounds(g, c) && g.cells[Index(g, c)] != g.obstacle
  }

  /** An in-bounds cell that holds the obstacle value. */
  predicate Blocked(g: Grid, c: Cell)
  {
    Valid(g) && InBounds(g, c) && g.cells[Index(g, c)] == g.obstacle
  }

  /** Squared Euclidean distance between two cells. */
  function Dist2(a: Cell, b: Cell): (d: nat)
    ensures d == 0 <==> a == b
  {
    var dx := a.x - b.x;
    var dy := a.y - b.y;
    SquareSumZero(dx, dy);
    dx * dx + dy * dy
  }

  /** Every in-bounds cell is open or blocked, never both. */
  lemma OpenOrBlocked(g: Grid, c: Cell)
    requires Valid(g) && InBounds(g, c)
    ensures Open(g, c) != Blocked(g, c)
  {
  }

  /** Column-major addressing is a bijection between in-bounds cells and
      buffer positions: the position is in the buffer, and column and row are
      recovered from it by division and remainder by the pitch. */
  lemma IndexLayout(x: int, y: int, w: int, h: int)
    requires 0 <= x < w && 0 <= y < h
    ensures 0 <= x * h + y < w * h
    ensures (x * h + y) / h == x && (x * h + y) % h == y
  {
    var i := x * h + y;
    assert x * h + y < (x + 1) * h by {
      assert (x + 1) * h == x * h + h;
    }
    assert (x + 1) * h <= w * h by {
      MulMonotone(x + 1, w, h);
    }
    var q, r := i / h, i % h;
    assert i == q * h + r && 0 <= r < h;
    assert (q - x) * h == y - r by {
      assert (q - x) * h == q * h - x * h;
    }
    if q > x {
      MulMonotone(1, q - x, h);
    } else if q < x {
      MulMonotone(1, x - q, h);
    }
  }

  lemma MulMonotone(a: int, b: int, h: int)
    requires a <= b && 0 <= h
    ensures a * h <= b * h
  {
    assert b * h - a * h == (b - a) * h;
  }

  lemma SquareSumZero(dx: int, dy: int)
    ensures dx * dx + dy * dy >= 0
    ensures dx * dx + dy * dy == 0 <==> dx == 0 && dy == 0
  {
    if dx != 0 {
      assert dx * dx > 0;
    }
    if dy != 0 {
      assert dy * dy > 0;
    }
  }
}

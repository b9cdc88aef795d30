/** Single rays on small concrete grids, worked out by the verifier. */
module Scenarios {
  import opened GridMap
  import opened Bresenham
  import opened RayWalk
  import opened Detector

  /** A ray from a free cell to itself is clear: the walk visits the one
      cell, steps past it and finds the end reached. */
  lemma DegenerateRayClear()
    ensures CastRay(Grid(3, 3, seq(9, _ => 0), 1), Ray(1, 1, 1, 1)) == RayResult(false, None)
  {
    var g := Grid(3, 3, seq(9, _ => 0), 1);
    var f := FrameOf(Ray(1, 1, 1, 1));
    assert Open(g, Cell(1, 1));
    assert Walk(g, f) == Outcome(Exhausted, 1);
  }

  /** An obstacle at (2, 0) on the way from (0, 0) to (4, 0): a hit, and the
      range is measured to the last free cell (1, 0), so its square is 1. */
  lemma ObstacleOnRow()
    ensures var g := Grid(5, 5, seq(25, i => if i == 10 then 1 else 0), 1);
            CastRay(g, Ray(0, 0, 4, 0)) == RayResult(true, Some(1))
  {
    var g := Grid(5, 5, seq(25, i => if i == 10 then 1 else 0), 1);
    var f := FrameOf(Ray(0, 0, 4, 0));
    assert f == Frame(Octant(true, true, true), 0, 0, 4, 0);
    assert Trace(4, 0, 1) == Stepper(0, 2);
    assert Trace(4, 0, 2) == Stepper(0, 2);
    assert Open(g, Cell(0, 0)) && Open(g, Cell(1, 0)) && Blocked(g, Cell(2, 0));
    assert ScanFrom(g, f, 1) == Outcome(Obstacle, 2);
  }

  /** An end point beyond the right edge of a free 5 x 5 grid: the walk runs
      to the edge and the ray is reported as a hit at the edge cell (4, 0),
      squared range 16. */
  lemma EndBeyondEdge()
    ensures CastRay(Grid(5, 5, seq(25, _ => 0), 1), Ray(0, 0, 10, 0)) == RayResult(true, Some(16))
  {
    var g := Grid(5, 5, seq(25, _ => 0), 1);
    var f := FrameOf(Ray(0, 0, 10, 0));
    assert f == Frame(Octant(true, true, true), 0, 0, 10, 0);
    assert Span(g, f) == 5;
    assert Trace(10, 0, 1) == Stepper(0, 5);
    assert Trace(10, 0, 2) == Stepper(0, 5);
    assert Trace(10, 0, 3) == Stepper(0, 5);
    assert Trace(10, 0, 4) == Stepper(0, 5);
    assert Trace(10, 0, 5) == Stepper(0, 5);
    assert LineCell(f, 0) == Cell(0, 0) && LineCell(f, 1) == Cell(1, 0) && LineCell(f, 2) == Cell(2, 0);
    assert LineCell(f, 3) == Cell(3, 0) && LineCell(f, 4) == Cell(4, 0);
    assert Open(g, Cell(0, 0)) && Open(g, Cell(1, 0)) && Open(g, Cell(2, 0));
    assert Open(g, Cell(3, 0)) && Open(g, Cell(4, 0));
    assert ScanFrom(g, f, 4) == Outcome(Exhausted, 5);
    assert ScanFrom(g, f, 3) == Outcome(Exhausted, 5);
    assert ScanFrom(g, f, 2) == Outcome(Exhausted, 5);
    assert ScanFrom(g, f, 1) == Outcome(Exhausted, 5);
    assert Walk(g, f) == Outcome(Exhausted, 5);
  }

  /** The diagonal of a free 2 x 2 grid reaches its end cell free, yet the
      source reports a hit at squared range 2: after the end cell the error
      term asks for one more secondary step, which leaves the grid. The
      intended verdict reports the ray clear. */
  lemma PhantomStep()
    ensures CastRay(Grid(2, 2, seq(4, _ => 0), 1), Ray(0, 0, 1, 1)) == RayResult(true, Some(2))
    ensures CastRayIntended(Grid(2, 2, seq(4, _ => 0), 1), Ray(0, 0, 1, 1)) == RayResult(false, None)
  {
    var g := Grid(2, 2, seq(4, _ => 0), 1);
    var f := FrameOf(Ray(0, 0, 1, 1));
    assert f == Frame(Octant(true, true, true), 0, 0, 1, 1);
    assert Trace(1, 1, 1) == Stepper(1, 0);
    assert Trace(1, 1, 2) == Stepper(2, 0);
    assert Open(g, Cell(1, 1)) && ScanFrom(g, f, 1) == Outcome(Border, 2);
    assert Open(g, Cell(0, 0));
  }

  /** A free 3 x 1 map (three columns, one row) and two rays: ray 0 starts
      off the map at (-1, 0) with end (5, 0), ray 1 runs from (0, 0) to (2, 0).
      As written ray 1 is walked towards ray 0's end (5, 0) and reported hit
      at squared range 4; intended, it reaches (2, 0) and is clear. */
  lemma EndCursorLags()
    ensures var g := Grid(3, 1, seq(3, _ => 0), 1);
            var starts, ends := [-1, 0, 0, 0], [5, 2, 0, 0];
            AsWritten(g, starts, ends, 2, 1) == RayResult(true, Some(4)) &&
            Intended(g, starts, ends, 2, 1) == RayResult(false, None)
  {
    var g := Grid(3, 1, seq(3, _ => 0), 1);
    var starts, ends := [-1, 0, 0, 0], [5, 2, 0, 0];
    assert !Open(g, TablePoint(starts, 2, 0));
    assert PairedEnd(g, starts, 2, 1) == 0;
    assert TablePoint(starts, 2, 1) == Cell(0, 0);
    assert TablePoint(ends, 2, 0) == Cell(5, 0) && TablePoint(ends, 2, 1) == Cell(2, 0);
    RowToFive();
    RowToTwo();
  }

  /** On the free 3 x 1 map the ray (0, 0) -> (5, 0) runs off the right edge
      after (2, 0) and is reported hit there. */
  lemma RowToFive()
    ensures CastRay(Grid(3, 1, seq(3, _ => 0), 1), Ray(0, 0, 5, 0)) == RayResult(true, Some(4))
  {
    var g := Grid(3, 1, seq(3, _ => 0), 1);
    var f := FrameOf(Ray(0, 0, 5, 0));
    assert f == Frame(Octant(true, true, true), 0, 0, 5, 0);
    assert Span(g, f) == 3;
    assert Trace(5, 0, 1) == Stepper(0, 2);
    assert Trace(5, 0, 2) == Stepper(0, 2);
    assert Trace(5, 0, 3) == Stepper(0, 2);
    assert LineCell(f, 0) == Cell(0, 0) && LineCell(f, 1) == Cell(1, 0) && LineCell(f, 2) == Cell(2, 0);
    assert Open(g, Cell(0, 0)) && Open(g, Cell(1, 0)) && Open(g, Cell(2, 0));
    assert ScanFrom(g, f, 2) == Outcome(Exhausted, 3);
    assert ScanFrom(g, f, 1) == Outcome(Exhausted, 3);
    assert Walk(g, f) == Outcome(Exhausted, 3);
  }

  /** On the free 3 x 1 map the ray (0, 0) -> (2, 0) reaches its end and is
      clear. */
  lemma RowToTwo()
    ensures CastRay(Grid(3, 1, seq(3, _ => 0), 1), Ray(0, 0, 2, 0)) == RayResult(false, None)
  {
    var g := Grid(3, 1, seq(3, _ => 0), 1);
    var f := FrameOf(Ray(0, 0, 2, 0));
    assert f == Frame(Octant(true, true, true), 0, 0, 2, 0);
    assert Span(g, f) == 3;
    assert Trace(2, 0, 1) == Stepper(0, 1);
    assert Trace(2, 0, 2) == Stepper(0, 1);
    assert Trace(2, 0, 3) == Stepper(0, 1);
    assert LineCell(f, 0) == Cell(0, 0) && LineCell(f, 1) == Cell(1, 0) && LineCell(f, 2) == Cell(2, 0);
    assert Open(g, Cell(0, 0)) && Open(g, Cell(1, 0)) && Open(g, Cell(2, 0));
    assert ScanFrom(g, f, 2) == Outcome(Exhausted, 3);
    assert ScanFrom(g, f, 1) == Outcome(Exhausted, 3);
    assert Walk(g, f) == Outcome(Exhausted, 3);
  }
}

/** The batch front end: an IntersectionDetector holds the map's
    dimensions and two cursors into the caller's ray tables, and one call runs
    every ray of the batch, writing the intersection flags and, on request,
    the ranges into fresh output arrays. Ray tables are count x 2 column-major
    matrices: the x coordinates of all rays first, then the y coordinates. */
module Detector {
  import opened GridMap
  import opened RayWalk

  /** The point of ray i in a count x 2 column-major table: row i of the
      x column (the first count entries) and of the y column (the rest). */
  function TablePoint(table: seq<int>, count: nat, i: nat): (c: Cell)
    requires |table| == 2 * count && i < count
    ensures c.x == table[..count][i] && c.y == table[count..][i]
  {
    Cell(table[i], table[count + i])
  }

  /** Where the end cursor stands when ray i is read: it advances only past
      rays whose start cell is open, so it counts those among rays 0 .. i-1. */
  function PairedEnd(g: Grid, starts: seq<int>, count: nat, i: nat): (n: nat)
    requires |starts| == 2 * count && i <= count
    ensures n <= i
  {
    if i == 0 then 0
    else PairedEnd(g, starts, count, i - 1) + (if Open(g, TablePoint(starts, count, i - 1)) then 1 else 0)
  }

  /** The result for ray i as the batch computes it: start from row i of the
      start table, end from the row the end cursor has reached. A trivial
      start gives (true, 0) whatever the end table holds, and a range is
      reported exactly with a hit. */
  function AsWritten(g: Grid, starts: seq<int>, ends: seq<int>, count: nat, i: nat): (r: RayResult)
    requires Valid(g) && |starts| == 2 * count && |ends| == 2 * count && i < count
    ensures !Open(g, TablePoint(starts, count, i)) ==> r == RayResult(true, Some(0))
    ensures r.isect <==> r.range.Some?
  {
    var s := TablePoint(starts, count, i);
    var e := TablePoint(ends, count, PairedEnd(g, starts, count, i));
    CastRay(g, Ray(s.x, s.y, e.x, e.y))
  }

  /** The result for ray i as evidently intended: start and end from row i.
      A trivial start gives (true, 0) here too, and a range is reported
      exactly with a hit. */
  function Intended(g: Grid, starts: seq<int>, ends: seq<int>, count: nat, i: nat): (r: RayResult)
    requires Valid(g) && |starts| == 2 * count && |ends| == 2 * count && i < count
    ensures !Open(g, TablePoint(starts, count, i)) ==> r == RayResult(true, Some(0))
    ensures r.isect <==> r.range.Some?
  {
    var s := TablePoint(starts, count, i);
    var e := TablePoint(ends, count, i);
    CastRay(g, Ray(s.x, s.y, e.x, e.y))
  }

  /** The end cursor keeps pace with the ray index exactly as long as every
      start cell so far is open; one trivial start puts it behind for good. */
  lemma {:induction false} PairedEndInStep(g: Grid, starts: seq<int>, count: nat, i: nat)
    requires |starts| == 2 * count && i <= count
    ensures PairedEnd(g, starts, count, i) == i <==>
              forall j :: 0 <= j < i ==> Open(g, TablePoint(starts, count, j))
  {
    if i > 0 {
      PairedEndInStep(g, starts, count, i - 1);
    }
  }

  /** When every start up to ray i is open, the batch gives ray i the result
      intended for it. */
  lemma AgreesWhileStartsOpen(g: Grid, starts: seq<int>, ends: seq<int>, count: nat, i: nat)
    requires Valid(g) && |starts| == 2 * count && |ends| == 2 * count && i < count
    requires forall j :: 0 <= j < i ==> Open(g, TablePoint(starts, count, j))
    ensures AsWritten(g, starts, ends, count, i) == Intended(g, starts, ends, count, i)
  {
    PairedEndInStep(g, starts, count, i);
  }

  /** Output entries 0 .. n-1 hold the batch's results for rays 0 .. n-1;
      the range entries only when a range array exists. */
  predicate Filled(isects: array<bool>, ranges: array?<Option<nat>>, g: Grid,
                   starts: seq<int>, ends: seq<int>, count: nat, n: nat)
    reads isects, ranges
    requires Valid(g) && |starts| == 2 * count && |ends| == 2 * count && n <= count
  {
    isects.Length == count && (ranges != null ==> ranges.Length == count) &&
    (forall j :: 0 <= j < n ==> isects[j] == AsWritten(g, starts, ends, count, j).isect) &&
    (ranges != null ==> forall j :: 0 <= j < n ==> ranges[j] == AsWritten(g, starts, ends, count, j).range)
  }

  /** Writes ray n's result into the outputs (the source's *pISect++ and,
      when ranges are requested, *pRange++). */
  method Record(isects: array<bool>, ranges: array?<Option<nat>>, ghost g: Grid,
                ghost starts: seq<int>, ghost ends: seq<int>, count: nat, n: nat, res: RayResult)
    requires Valid(g) && |starts| == 2 * count && |ends| == 2 * count && n < count
    requires Filled(isects, ranges, g, starts, ends, count, n)
    requires res == AsWritten(g, starts, ends, count, n)
    modifies isects, ranges
    ensures Filled(isects, ranges, g, starts, ends, count, n + 1)
  {
    isects[n] := res.isect;
    if ranges != null {
      ranges[n] := res.range;
    }
  }

  class IntersectionDetector {
    const width: int
    const height: int
    const pitch: int
    const count: nat
    /** The caller's start and end tables (count x 2, column-major). */
    const rayStart: array<int>
    const rayEnd: array<int>
    /** Row the start and the end cursor point at (rayStart.pX, rayEnd.pX;
        the y cursors are always count entries further on). */
    var startCursor: nat
    var endCursor: nat
    /** The owned output arrays; null when not created or moved out. */
    var isectOut: array?<bool>
    var rangeOut: array?<Option<nat>>

    predicate Valid()
      reads this
    {
      1 <= width && 1 <= height && pitch == height &&
      rayStart.Length == 2 * count && rayEnd.Length == 2 * count &&
      endCursor <= startCursor <= count
    }

    /** The map as the batch reads it. */
    function MapOf(cells: array<int>, obstacleValue: int): Grid
      reads this, cells
    {
      Grid(width, height, cells[..], obstacleValue)
    }

    /** Records the map's column count as width and its row count as height
        (the pitch of the column-major layout), the number of rays, and
        cursors at the first row of each ray table. */
    constructor(mapRows: int, mapCols: int, starts: array<int>, ends: array<int>, rays: nat)
      requires 1 <= mapRows && 1 <= mapCols
      requires starts.Length == 2 * rays && ends.Length == 2 * rays
      ensures Valid()
      ensures width == mapCols && height == mapRows && pitch == mapRows && count == rays
      ensures rayStart == starts && rayEnd == ends
      ensures startCursor == 0 && endCursor == 0 && isectOut == null && rangeOut == null
    {
      width := mapCols;
      height := mapRows;
      pitch := mapRows;
      count := rays;
      rayStart := starts;
      rayEnd := ends;
      startCursor := 0;
      endCursor := 0;
      isectOut := null;
      rangeOut := null;
    }

    /** Runs every ray of the batch against the map: fresh output arrays of
        count entries, entry i holding ray i's result as the batch computes
        it; the range array exists exactly when ranges are requested. The
        start cursor ends past the last row, the end cursor past the rows
        paired with an open start. */
    method Run(cells: array<int>, obstacleValue: int, generateRange: bool)
      requires Valid() && startCursor == 0 && endCursor == 0
      requires cells.Length == width * height
      modifies this
      ensures Valid()
      ensures startCursor == count && endCursor == PairedEnd(MapOf(cells, obstacleValue), rayStart[..], count, count)
      ensures isectOut != null && fresh(isectOut) && isectOut.Length == count
      ensures (rangeOut != null) == generateRange
      ensures rangeOut != null ==> fresh(rangeOut) && rangeOut.Length == count
      ensures forall i :: 0 <= i < count ==>
                isectOut[i] == AsWritten(MapOf(cells, obstacleValue), rayStart[..], rayEnd[..], count, i).isect
      ensures rangeOut != null ==> forall i :: 0 <= i < count ==>
                rangeOut[i] == AsWritten(MapOf(cells, obstacleValue), rayStart[..], rayEnd[..], count, i).range
    {
      ghost var g := MapOf(cells, obstacleValue);
      ghost var starts, ends := rayStart[..], rayEnd[..];
      var isects := new bool[count];
      var ranges: array?<Option<nat>> := null;
      if generateRange {
        ranges := new Option<nat>[count](_ => None);
      }
      isectOut, rangeOut := isects, ranges;
      var i := 0;
      while i < count
        invariant Valid() && 0 <= i <= count
        invariant g == MapOf(cells, obstacleValue) && starts == rayStart[..] && ends == rayEnd[..]
        invariant startCursor == i && endCursor == PairedEnd(g, starts, count, i)
        invariant isectOut == isects && rangeOut == ranges
        invariant Filled(isects, ranges, g, starts, ends, count, i)
      {
        var res := NextRay(cells, obstacleValue);
        Record(isects, ranges, g, starts, ends, count, i, res);
        i := i + 1;
      }
    }

    /** One iteration of the batch: read the start at the start cursor and
        advance it; a start off the map or on an obstacle gives (true, 0);
        otherwise read the end at the end cursor, advance that cursor too,
        walk the ray and report the flag and, for a hit, the squared distance
        from the start to the last free cell. */
    method NextRay(cells: array<int>, obstacleValue: int) returns (res: RayResult)
      requires Valid() && startCursor < count
      requires cells.Length == width * height
      modifies this
      ensures Valid() && isectOut == old(isectOut) && rangeOut == old(rangeOut)
      ensures var g := MapOf(cells, obstacleValue);
              var s := TablePoint(rayStart[..], count, old(startCursor));
              var e := TablePoint(rayEnd[..], count, old(endCursor));
              startCursor == old(startCursor) + 1 &&
              endCursor == old(endCursor) + (if Open(g, s) then 1 else 0) &&
              res == CastRay(g, Ray(s.x, s.y, e.x, e.y))
    {
      ghost var g := MapOf(cells, obstacleValue);
      var xs := rayStart[startCursor];
      var ys := rayStart[count + startCursor];
      startCursor := startCursor + 1;
      var open := false;
      if 0 <= xs && 0 <= ys && xs < width && ys < height {
        IndexLayout(xs, ys, width, height);
        open := cells[xs * pitch + ys] != obstacleValue;
      }
      assert open == Open(g, Cell(xs, ys));
      if open {
        var xe := rayEnd[endCursor];
        var ye := rayEnd[count + endCursor];
        endCursor := endCursor + 1;
        var isect, prevX, prevY := TraceRay(cells, width, height, obstacleValue, xs, ys, xe, ye);
        res := RayResult(isect, if isect then Some(Dist2(Cell(prevX, prevY), Cell(xs, ys))) else None);
      } else {
        res := RayResult(true, Some(0));
      }
    }

    /** Hands the flag array over to the caller, leaving none behind. */
    method TakeISect() returns (a: array?<bool>)
      requires Valid()
      modifies this
      ensures Valid()
      ensures a == old(isectOut) && isectOut == null
      ensures rangeOut == old(rangeOut) && startCursor == old(startCursor) && endCursor == old(endCursor)
    {
      a := isectOut;
      isectOut := null;
    }

    /** Hands the range array over to the caller, leaving none behind. */
    method TakeRange() returns (a: array?<Option<nat>>)
      requires Valid()
      modifies this
      ensures Valid()
      ensures a == old(rangeOut) && rangeOut == null
      ensures isectOut == old(isectOut) && startCursor == old(startCursor) && endCursor == old(endCursor)
    {
      a := rangeOut;
      rangeOut := null;
    }
  }
}

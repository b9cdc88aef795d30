/** One ray against the grid: the cells the integer line walk visits, the
    reason it stops, the intersection flag and the contact cell derived from
    it, and the walk itself as one loop parameterised by the octant (the
    source writes it out eight times, one loop per octant). */
module RayWalk {
  import opened GridMap
  import opened Bresenham

  datatype Option<T> = None | Some(value: T)

  /** Integer start and end cells of a ray. */
  datatype Ray = Ray(xs: int, ys: int, xe: int, ye: int)

  function Start(r: Ray): Cell
  {
    Cell(r.xs, r.ys)
  }

  function End(r: Ray): Cell
  {
    Cell(r.xe, r.ye)
  }

  /** A ray in octant terms: its octant, the primary and the secondary
      coordinate of its start cell, and its sign-normalised primary and
      secondary deltas. */
  datatype Frame = Frame(o: Octant, ps: int, ss: int, dP: nat, dS: nat)

  /** The cell with the given primary and secondary coordinate. */
  function ToCell(o: Octant, p: int, s: int): Cell
  {
    if o.xMajor then Cell(p, s) else Cell(s, p)
  }

  /** The unclipped end coordinate along the primary axis (xe or ye). */
  function PrimaryEnd(f: Frame): int
  {
    Move(f.ps, f.o.pInc, f.dP)
  }

  function FrameStart(f: Frame): Cell
  {
    ToCell(f.o, f.ps, f.ss)
  }

  function FrameEnd(f: Frame): Cell
  {
    ToCell(f.o, PrimaryEnd(f), Move(f.ss, f.o.sInc, f.dS))
  }

  /** The octant dispatch of a ray: the frame starts at the ray's start,
      ends at its end, and has dS <= dP. */
  function FrameOf(r: Ray): (f: Frame)
    ensures f.dS <= f.dP
    ensures FrameStart(f) == Start(r) && FrameEnd(f) == End(r)
  {
    var dx, dy := r.xe - r.xs, r.ye - r.ys;
    var o := SelectOctant(dx, dy);
    OctantDeltas(r.xs, r.ys, r.xe, r.ye);
    Frame(o, Major(o, r.xs, r.ys), Minor(o, r.xs, r.ys), Abs(Major(o, dx, dy)), Abs(Minor(o, dx, dy)))
  }

  /** Grid extent along the frame's primary and secondary axis. */
  function MajorDim(g: Grid, f: Frame): int
  {
    Major(f.o, g.width, g.height)
  }

  function MinorDim(g: Grid, f: Frame): int
  {
    Minor(f.o, g.width, g.height)
  }

  /** Primary and secondary coordinate of the k-th cell of the line. */
  function MajorAt(f: Frame, k: int): int
  {
    Move(f.ps, f.o.pInc, k)
  }

  function MinorAt(f: Frame, k: nat): int
  {
    Move(f.ss, f.o.sInc, Trace(f.dP, f.dS, k).minor)
  }

  /** The k-th cell of the rasterised line (k = 0 is the start cell). */
  function LineCell(f: Frame, k: nat): Cell
  {
    ToCell(f.o, MajorAt(f, k), MinorAt(f, k))
  }

  /** The secondary coordinate of the k-th cell lies inside the grid. */
  predicate MinorInside(g: Grid, f: Frame, k: nat)
  {
    0 <= MinorAt(f, k) < MinorDim(g, f)
  }

  /** The end coordinate along the primary axis, clipped to the grid before
      the walk starts (the source's xe_ and ye_): an end inside the grid's
      primary extent is kept, and otherwise the end is pulled back onto the
      last coordinate of the grid on the side the ray moves towards. */
  function ClippedEnd(g: Grid, f: Frame): (c: int)
    ensures 0 <= PrimaryEnd(f) < MajorDim(g, f) ==> c == PrimaryEnd(f)
    ensures f.o.pInc ==> c <= PrimaryEnd(f) && c < MajorDim(g, f)
    ensures !f.o.pInc ==> PrimaryEnd(f) <= c && 0 <= c
    ensures f.o.pInc && MajorDim(g, f) <= PrimaryEnd(f) ==> c == MajorDim(g, f) - 1
    ensures !f.o.pInc && PrimaryEnd(f) < 0 ==> c == 0
  {
    var pe := PrimaryEnd(f);
    if f.o.pInc then (if pe < MajorDim(g, f) then pe else MajorDim(g, f) - 1)
    else (if pe < 0 then 0 else pe)
  }

  /** Number of cells the walk may visit: the clipped primary range, from
      the start coordinate to the clipped end coordinate inclusive. */
  function Span(g: Grid, f: Frame): (n: nat)
    requires Valid(g) && InBounds(g, FrameStart(f))
    ensures 1 <= n
  {
    (if f.o.pInc then ClippedEnd(g, f) - f.ps else f.ps - ClippedEnd(g, f)) + 1
  }

  /** The walk terminates within dP + 1 cells and within the grid's extent
      along the primary axis, and it has the full dP + 1 cells exactly when
      the unclipped end lies inside the grid along the primary axis. An end
      beyond the grid is walked up to the grid's edge cell. */
  lemma SpanBounds(g: Grid, f: Frame)
    requires Valid(g) && InBounds(g, FrameStart(f))
    ensures Span(g, f) <= f.dP + 1 && Span(g, f) <= MajorDim(g, f)
    ensures Span(g, f) == f.dP + 1 <==> 0 <= PrimaryEnd(f) < MajorDim(g, f)
    ensures f.o.pInc && MajorDim(g, f) <= PrimaryEnd(f) ==> Span(g, f) == MajorDim(g, f) - f.ps
    ensures !f.o.pInc && PrimaryEnd(f) < 0 ==> Span(g, f) == f.ps + 1
  {
  }

  /** Cells of the clipped range whose secondary coordinate is inside the
      grid are inside the grid, and conversely an in-bounds line cell has its
      secondary coordinate inside. */
  lemma LineCellInBounds(g: Grid, f: Frame, k: nat)
    requires Valid(g) && InBounds(g, FrameStart(f))
    ensures k < Span(g, f) && MinorInside(g, f, k) ==> InBounds(g, LineCell(f, k))
    ensures InBounds(g, LineCell(f, k)) ==> MinorInside(g, f, k)
  {
  }

  /** Why the walk stopped: an obstacle cell, the secondary coordinate
      stepping off the grid, or the clipped primary range running out. */
  datatype Stop = Obstacle | Border | Exhausted

  /** How a walk ended: the reason, and the number of cells it confirmed
      free (cells 0 .. steps-1 of the line). */
  datatype Outcome = Outcome(stop: Stop, steps: nat)

  /** `out` is the first stop of a walk resumed at cell k: every cell from k
      up to `steps` is open, and at `steps` the walk meets an obstacle inside
      the clipped range, or a secondary coordinate outside the grid, or the
      end of the clipped range with the secondary coordinate still inside. */
  predicate StopsAfter(g: Grid, f: Frame, k: nat, out: Outcome)
    requires Valid(g) && InBounds(g, FrameStart(f))
  {
    k <= out.steps <= Span(g, f) &&
    (forall j: nat :: k <= j < out.steps ==> Open(g, LineCell(f, j))) &&
    match out.stop
    case Obstacle => out.steps < Span(g, f) && Blocked(g, LineCell(f, out.steps))
    case Border => k < out.steps && !MinorInside(g, f, out.steps)
    case Exhausted => out.steps == Span(g, f) && MinorInside(g, f, out.steps)
  }

  /** The walk from cell k on, as the loop runs it: test the cell, record it
      as free, take the secondary step if the error term asks for one (and
      stop if that leaves the grid), then take the primary step. It stops
      within the clipped range, and only an obstacle can stop it at the very
      cell it resumes from. */
  function ScanFrom(g: Grid, f: Frame, k: nat): (out: Outcome)
    requires Valid(g) && InBounds(g, FrameStart(f))
    requires k < Span(g, f) && MinorInside(g, f, k)
    ensures k <= out.steps <= Span(g, f)
    ensures out.stop != Obstacle ==> k < out.steps
    decreases Span(g, f) - k
  {
    if Blocked(g, LineCell(f, k)) then Outcome(Obstacle, k)
    else if !MinorInside(g, f, k + 1) then Outcome(Border, k + 1)
    else if k + 1 == Span(g, f) then Outcome(Exhausted, k + 1)
    else ScanFrom(g, f, k + 1)
  }

  /** The whole walk from a start cell inside the grid. It confirms at most
      the clipped range free, and it stops before confirming the start cell
      only on an obstacle there (ScanStops and StopUnique characterise it). */
  function Walk(g: Grid, f: Frame): (out: Outcome)
    requires Valid(g) && InBounds(g, FrameStart(f))
    ensures out.steps <= Span(g, f)
    ensures out.steps == 0 <==> out.stop == Obstacle && Blocked(g, FrameStart(f))
  {
    ScanFrom(g, f, 0)
  }

  /** The scan stops where StopsAfter says: every cell it passes is open, and
      it ends at an obstacle, a border crossing of the secondary coordinate,
      or the end of the clipped range. */
  lemma {:induction false} ScanStops(g: Grid, f: Frame, k: nat)
    requires Valid(g) && InBounds(g, FrameStart(f))
    requires k < Span(g, f) && MinorInside(g, f, k)
    ensures StopsAfter(g, f, k, ScanFrom(g, f, k))
    decreases Span(g, f) - k
  {
    LineCellInBounds(g, f, k);
    if !Blocked(g, LineCell(f, k)) && MinorInside(g, f, k + 1) && k + 1 < Span(g, f) {
      ScanStops(g, f, k + 1);
    }
  }

  /** The stop described by StopsAfter is unique, so it characterises the
      walk completely: the walk halts at the first line cell that is an
      obstacle, or whose secondary coordinate is off the grid, or at the end
      of the clipped range. */
  lemma StopUnique(g: Grid, f: Frame, a: Outcome, b: Outcome)
    requires Valid(g) && InBounds(g, FrameStart(f))
    requires StopsAfter(g, f, 0, a) && StopsAfter(g, f, 0, b)
    ensures a == b
  {
    var first := if a.steps <= b.steps then a else b;
    LineCellInBounds(g, f, first.steps);
  }

  /** Primary offset of the cell the loop was at when it ended: an obstacle
      or border stop leaves it at the last tested cell, an exhausted range
      one past the clipped end. */
  function LastIndex(out: Outcome): int
  {
    match out.stop
    case Border => out.steps - 1
    case _ => out.steps
  }

  /** The intersection flag as the source computes it: the final primary
      coordinate has not gone past the unclipped end coordinate, that is,
      the loop ended no more than dP primary steps from the start. */
  function Hit(f: Frame, out: Outcome): (h: bool)
    ensures h <==> LastIndex(out) <= f.dP
  {
    var p := MajorAt(f, LastIndex(out));
    if f.o.pInc then p <= PrimaryEnd(f) else p >= PrimaryEnd(f)
  }

  /** The last cell recorded free (prevX, prevY): the start cell until a
      cell has been tested free. It always lies on the line: cell steps-1,
      or cell 0 when no cell was confirmed. */
  function Contact(f: Frame, out: Outcome): (c: Cell)
    ensures c == LineCell(f, if out.steps == 0 then 0 else out.steps - 1)
  {
    if out.steps == 0 then FrameStart(f) else LineCell(f, out.steps - 1)
  }

  /** Result for one ray: the intersection flag and, standing for the
      source's range, the squared distance from the start cell to the contact
      cell; None stands for the NaN reported when there is no intersection. */
  datatype RayResult = RayResult(isect: bool, range: Option<nat>)

  /** Which intersection flag a ray is reported with: the source's (Hit) or
      the evidently intended one (HitIntended, see below). */
  datatype Verdict = SourceVerdict | IntendedVerdict

  /** One ray with the given verdict. A start off the grid or on an obstacle
      is an immediate hit at distance zero; otherwise the walk decides, and a
      range is reported exactly for the rays that hit, measured from the
      start to the contact cell. */
  function Cast(g: Grid, r: Ray, v: Verdict): (res: RayResult)
    requires Valid(g)
    ensures !Open(g, Start(r)) ==> res == RayResult(true, Some(0))
    ensures res.isect <==> res.range.Some?
    ensures Open(g, Start(r)) && res.isect ==>
              res.range.value == Dist2(Contact(FrameOf(r), Walk(g, FrameOf(r))), Start(r))
  {
    if !Open(g, Start(r)) then RayResult(true, Some(0))
    else
      var f := FrameOf(r);
      var out := Walk(g, f);
      var hit := match v case SourceVerdict => Hit(f, out) case IntendedVerdict => HitIntended(f, out);
      RayResult(hit, if hit then Some(Dist2(Contact(f, out), Start(r))) else None)
  }

  /** One ray as the source handles it. */
  function CastRay(g: Grid, r: Ray): RayResult
    requires Valid(g)
  {
    Cast(g, r, SourceVerdict)
  }

  /** The first and the last cell of the line are the start and the end
      cell: after dP primary steps the walk is exactly on the end. */
  lemma LineEndpoints(f: Frame)
    requires f.dS <= f.dP
    ensures LineCell(f, 0) == FrameStart(f)
    ensures LineCell(f, f.dP) == FrameEnd(f)
  {
    TraceReachesEnd(f.dP, f.dS);
  }

  /** Consecutive line cells are 8-connected: the primary coordinate moves
      by exactly one cell and the secondary by at most one. */
  lemma LineEightConnected(f: Frame, k: nat)
    ensures Abs(MajorAt(f, k + 1) - MajorAt(f, k)) == 1
    ensures Abs(MinorAt(f, k + 1) - MinorAt(f, k)) <= 1
    ensures Abs(LineCell(f, k + 1).x - LineCell(f, k).x) <= 1
    ensures Abs(LineCell(f, k + 1).y - LineCell(f, k).y) <= 1
  {
    assert Trace(f.dP, f.dS, k + 1) == Advance(Trace(f.dP, f.dS, k), f.dP, f.dS);
  }

  /** The range is measured to an open cell; after an obstacle stop that
      contact cell is the line cell just before the obstacle, 8-adjacent to
      it. */
  lemma ContactOpen(g: Grid, f: Frame)
    requires Open(g, FrameStart(f))
    ensures Open(g, Contact(f, Walk(g, f)))
    ensures var out := Walk(g, f);
            out.stop == Obstacle ==>
              0 < out.steps &&
              Contact(f, out) == LineCell(f, out.steps - 1) &&
              Blocked(g, LineCell(f, out.steps)) &&
              Abs(LineCell(f, out.steps).x - Contact(f, out).x) <= 1 &&
              Abs(LineCell(f, out.steps).y - Contact(f, out).y) <= 1
  {
    var out := Walk(g, f);
    ScanStops(g, f, 0);
    assert LineCell(f, 0) == FrameStart(f);
    if out.steps > 0 {
      assert Open(g, LineCell(f, out.steps - 1));
      LineEightConnected(f, out.steps - 1);
    }
  }

  /** A line cell no further than the end cell is no further from the start
      than the end cell is. */
  lemma LineCellWithinRay(f: Frame, j: nat)
    requires f.dS <= f.dP && j <= f.dP
    ensures Dist2(LineCell(f, j), FrameStart(f)) <= Dist2(FrameEnd(f), FrameStart(f))
  {
    var m := Trace(f.dP, f.dS, j).minor;
    TraceMonotone(f.dP, f.dS, j, f.dP);
    TraceReachesEnd(f.dP, f.dS);
    OffsetSquare(f.ps, f.o.pInc, j);
    OffsetSquare(f.ss, f.o.sInc, m);
    OffsetSquare(f.ps, f.o.pInc, f.dP);
    OffsetSquare(f.ss, f.o.sInc, f.dS);
    assert Dist2(LineCell(f, j), FrameStart(f)) == j * j + m * m;
    assert Dist2(FrameEnd(f), FrameStart(f)) == f.dP * f.dP + f.dS * f.dS;
    SquaresMonotone(j, f.dP, m, f.dS);
  }

  lemma OffsetSquare(a: int, inc: bool, k: int)
    ensures (Move(a, inc, k) - a) * (Move(a, inc, k) - a) == k * k
  {
  }

  lemma SquaresMonotone(a: nat, b: nat, c: nat, d: nat)
    requires a <= b && c <= d
    ensures a * a + c * c <= b * b + d * d
  {
    MulMonotone(a, b, a);
    MulMonotone(a, b, b);
    MulMonotone(c, d, c);
    MulMonotone(c, d, d);
  }

  /** A reported range never exceeds the length of the ray: the contact cell
      is the start or a line cell no further than the end. */
  lemma RangeWithinRay(g: Grid, r: Ray)
    requires Valid(g)
    ensures CastRay(g, r).range.Some? ==> CastRay(g, r).range.value <= Dist2(End(r), Start(r))
  {
    if Open(g, Start(r)) {
      var f := FrameOf(r);
      var out := Walk(g, f);
      if Hit(f, out) && out.steps > 0 {
        LineCellWithinRay(f, out.steps - 1);
      }
    }
  }

  /** The source's verdict: a ray with an open start is reported clear
      exactly when every cell of its line from start to end is open AND the
      secondary coordinate one primary step past the end is still inside the
      grid. The second conjunct is the phantom step of the finding below. */
  lemma ClearAsWritten(g: Grid, r: Ray)
    requires Open(g, Start(r))
    ensures var f := FrameOf(r);
            !CastRay(g, r).isect <==>
              (forall j: nat :: j <= f.dP ==> Open(g, LineCell(f, j))) &&
              MinorInside(g, f, f.dP + 1)
  {
    var f := FrameOf(r);
    var out := Walk(g, f);
    ScanStops(g, f, 0);
    SpanBounds(g, f);
    if (forall j: nat :: j <= f.dP ==> Open(g, LineCell(f, j))) && MinorInside(g, f, f.dP + 1) {
      LineEndpoints(f);
      assert Open(g, FrameEnd(f));
      assert Span(g, f) == f.dP + 1;
      LineCellInBounds(g, f, out.steps);
    }
  }

  /** The evidently intended verdict: a hit unless the walk confirmed the end
      cell (line cell dP) free. It only ever withdraws hits of the source's
      flag, and only the phantom one: a border stop one step past the end. */
  function HitIntended(f: Frame, out: Outcome): (h: bool)
    ensures h ==> Hit(f, out)
    ensures Hit(f, out) && !h ==> out.stop == Border && out.steps == f.dP + 1
  {
    out.steps <= f.dP
  }

  /** One ray with the intended verdict; everything else as in CastRay, so
      every hit it reports is the source's hit with the source's range. */
  function CastRayIntended(g: Grid, r: Ray): (res: RayResult)
    requires Valid(g)
    ensures res.isect ==> res == CastRay(g, r)
  {
    Cast(g, r, IntendedVerdict)
  }

  /** With the intended verdict a ray with an open start is clear exactly
      when every cell of its line from start to end is open. */
  lemma ClearIntended(g: Grid, r: Ray)
    requires Open(g, Start(r))
    ensures var f := FrameOf(r);
            !CastRayIntended(g, r).isect <==>
              forall j: nat :: j <= f.dP ==> Open(g, LineCell(f, j))
  {
    var f := FrameOf(r);
    var out := Walk(g, f);
    ScanStops(g, f, 0);
    SpanBounds(g, f);
    if forall j: nat :: j <= f.dP ==> Open(g, LineCell(f, j)) {
      LineEndpoints(f);
      assert Open(g, FrameEnd(f));
      assert Span(g, f) == f.dP + 1;
      LineCellInBounds(g, f, out.steps);
    }
  }

  /** One iteration of the walk in terms of the line: the error term and the
      coordinates of the next cell, and the current cell is in the grid. */
  lemma ScanStep(g: Grid, f: Frame, k: nat)
    requires Valid(g) && InBounds(g, FrameStart(f))
    requires k < Span(g, f) && MinorInside(g, f, k)
    ensures var e := Trace(f.dP, f.dS, k).error - f.dS;
            Trace(f.dP, f.dS, k + 1).error == (if e < 0 then e + f.dP else e) &&
            MajorAt(f, k + 1) == Move(MajorAt(f, k), f.o.pInc, 1) &&
            MinorAt(f, k + 1) == (if e < 0 then Move(MinorAt(f, k), f.o.sInc, 1) else MinorAt(f, k)) &&
            InBounds(g, LineCell(f, k))
  {
    LineCellInBounds(g, f, k);
  }

  /** The loop's state at line cell k: the coordinates and the error term
      are those of cell k, prev is the last cell recorded free, and the walk
      from cell k on is the whole walk. */
  predicate WalkAt(g: Grid, f: Frame, k: nat, p: int, s: int, error: int, prevX: int, prevY: int)
    requires Valid(g) && InBounds(g, FrameStart(f))
  {
    k <= Span(g, f) && p == MajorAt(f, k) && s == MinorAt(f, k) && MinorInside(g, f, k) &&
    error == Trace(f.dP, f.dS, k).error &&
    Cell(prevX, prevY) == Contact(f, Outcome(Obstacle, k)) &&
    (k < Span(g, f) ==> Walk(g, f) == ScanFrom(g, f, k)) &&
    (k == Span(g, f) ==> Walk(g, f) == Outcome(Exhausted, k))
  }

  /** The body of the walk loop at line cell k: read the cell at
      x * height + y and stop on an obstacle; otherwise record it as the last
      free cell, decrease the error by dS and, when it goes negative, step the
      secondary coordinate, stopping if that leaves the grid, and restore the
      error by dP; then step the primary coordinate. When it stops, p' and
      prev' are the final primary coordinate and contact cell of the whole
      walk; otherwise the loop state has moved on to cell k + 1. */
  method CellStep(cells: array<int>, width: int, height: int, obstacle: int, f: Frame,
                  p: int, s: int, error: int, prevX: int, prevY: int, ghost k: nat)
    returns (stop: bool, p': int, s': int, error': int, prevX': int, prevY': int)
    requires 1 <= width && 1 <= height && cells.Length == width * height
    requires InBounds(Grid(width, height, cells[..], obstacle), FrameStart(f))
    requires k < Span(Grid(width, height, cells[..], obstacle), f)
    requires WalkAt(Grid(width, height, cells[..], obstacle), f, k, p, s, error, prevX, prevY)
    ensures var g := Grid(width, height, cells[..], obstacle);
            if stop then p' == MajorAt(f, LastIndex(Walk(g, f))) && Cell(prevX', prevY') == Contact(f, Walk(g, f))
            else WalkAt(g, f, k + 1, p', s', error', prevX', prevY')
  {
    ghost var g := Grid(width, height, cells[..], obstacle);
    var x, y := if f.o.xMajor then p else s, if f.o.xMajor then s else p;
    ScanStep(g, f, k);
    ghost var c := LineCell(f, k);
    assert c == Cell(x, y);
    var i := x * height + y;
    assert i == Index(g, c);
    stop, p', s', error', prevX', prevY' := true, p, s, error, prevX, prevY;
    if cells[i] == obstacle {
      return;
    }
    prevX', prevY' := x, y;
    error' := error - f.dS;
    if error' < 0 {
      s' := if f.o.sInc then s + 1 else s - 1;
      var offGrid := if f.o.sInc then s' >= Minor(f.o, width, height) else s' < 0;
      if offGrid {
        return;
      }
      error' := error' + f.dP;
    }
    p' := if f.o.pInc then p + 1 else p - 1;
    stop := false;
  }

  /** The loop every octant of the source runs, parameterised by the frame:
      the primary coordinate steps every iteration up to the end clipped to
      the grid; the error term starts at dP >> 1 and, when it goes negative,
      the secondary coordinate steps, the walk breaking if that leaves the
      grid; a cell holding the obstacle value breaks the walk before it is
      recorded. Returns the final primary coordinate and the last cell
      recorded free. The map is column-major with pitch `height`. */
  method WalkOctant(cells: array<int>, width: int, height: int, obstacle: int, f: Frame)
    returns (p: int, prevX: int, prevY: int)
    requires 1 <= width && 1 <= height && cells.Length == width * height
    requires f.dS <= f.dP
    requires InBounds(Grid(width, height, cells[..], obstacle), FrameStart(f))
    ensures var out := Walk(Grid(width, height, cells[..], obstacle), f);
            p == MajorAt(f, LastIndex(out)) && Cell(prevX, prevY) == Contact(f, out)
  {
    ghost var g := Grid(width, height, cells[..], obstacle);
    var pDim := Major(f.o, width, height);
    var pe := PrimaryEnd(f);
    var peClip := if f.o.pInc then (if pe < pDim then pe else pDim - 1)
                  else (if pe < 0 then 0 else pe);
    var s := f.ss;
    var error: int := f.dP / 2;
    p, prevX, prevY := f.ps, FrameStart(f).x, FrameStart(f).y;
    ghost var k: nat := 0;
    while if f.o.pInc then p <= peClip else p >= peClip
      invariant WalkAt(g, f, k, p, s, error, prevX, prevY)
      invariant (if f.o.pInc then p <= peClip else p >= peClip) <==> k < Span(g, f)
      decreases Span(g, f) - k
    {
      var stop;
      stop, p, s, error, prevX, prevY := CellStep(cells, width, height, obstacle, f, p, s, error, prevX, prevY, k);
      if stop {
        return;
      }
      k := k + 1;
    }
  }

  /** One ray with an open start cell, as the source runs it: dispatch on
      the octant, walk, and compare the final primary coordinate with the
      unclipped end coordinate. Returns the flag and the contact cell
      (prevX, prevY), which is always an open cell. */
  method TraceRay(cells: array<int>, width: int, height: int, obstacle: int,
                  xs: int, ys: int, xe: int, ye: int)
    returns (isect: bool, prevX: int, prevY: int)
    requires 1 <= width && 1 <= height && cells.Length == width * height
    requires Open(Grid(width, height, cells[..], obstacle), Cell(xs, ys))
    ensures var g := Grid(width, height, cells[..], obstacle);
            var f := FrameOf(Ray(xs, ys, xe, ye));
            isect == Hit(f, Walk(g, f)) && Cell(prevX, prevY) == Contact(f, Walk(g, f))
    ensures Open(Grid(width, height, cells[..], obstacle), Cell(prevX, prevY))
  {
    var dx := xe - xs;
    var dy := ye - ys;
    var o := SelectOctant(dx, dy);
    var f := Frame(o, Major(o, xs, ys), Minor(o, xs, ys), Abs(Major(o, dx, dy)), Abs(Minor(o, dx, dy)));
    assert f == FrameOf(Ray(xs, ys, xe, ye));
    var p;
    p, prevX, prevY := WalkOctant(cells, width, height, obstacle, f);
    var pe := Major(o, xe, ye);
    isect := if o.pInc then p <= pe else p >= pe;
    ContactOpen(Grid(width, height, cells[..], obstacle), f);
  }
}

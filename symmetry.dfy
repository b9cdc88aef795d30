/** Mirror symmetry of the ray caster: reflecting the grid, the start and
    the end across either axis leaves the intersection flag and the range
    unchanged. */
module Symmetry {
  import opened GridMap
  import opened Bresenham
  import opened RayWalk

  /** Reflection of a cell across the vertical (alongX) or the horizontal
      centre line of the grid. */
  function MirrorCell(g: Grid, c: Cell, alongX: bool): Cell
  {
    if alongX then Cell(g.width - 1 - c.x, c.y) else Cell(c.x, g.height - 1 - c.y)
  }

  function MirrorRay(g: Grid, r: Ray, alongX: bool): Ray
  {
    var s := MirrorCell(g, Start(r), alongX);
    var e := MirrorCell(g, End(r), alongX);
    Ray(s.x, s.y, e.x, e.y)
  }

  /** g' is g reflected: same dimensions, and a cell of g' is open exactly
      when its mirror image in g is. */
  ghost predicate Mirrored(g: Grid, g': Grid, alongX: bool)
  {
    Valid(g) && Valid(g') && g'.width == g.width && g'.height == g.height &&
    forall c :: InBounds(g, c) ==> (Open(g', MirrorCell(g, c, alongX)) <==> Open(g, c))
  }

  /** Reflection is an involution that keeps cells in bounds and distances. */
  lemma MirrorCellFacts(g: Grid, a: Cell, b: Cell, alongX: bool)
    ensures MirrorCell(g, MirrorCell(g, a, alongX), alongX) == a
    ensures InBounds(g, MirrorCell(g, a, alongX)) <==> InBounds(g, a)
    ensures Dist2(MirrorCell(g, a, alongX), MirrorCell(g, b, alongX)) == Dist2(a, b)
  {
    var dx, dy := a.x - b.x, a.y - b.y;
    assert (-dx) * (-dx) == dx * dx && (-dy) * (-dy) == dy * dy;
  }

  /** With no secondary delta the secondary coordinate never moves. */
  lemma {:induction false} TraceFlat(dP: nat, k: nat)
    ensures Trace(dP, 0, k).minor == 0
  {
    if k > 0 {
      TraceFlat(dP, k - 1);
    }
  }

  /** f' is the frame of the mirror image of f's ray: the same deltas and
      primary axis; the reflected axis has its start coordinate reflected
      and its direction reversed (unless its delta is zero), the other axis
      is untouched. */
  predicate FramesMirror(g: Grid, f: Frame, f': Frame, alongX: bool)
  {
    var n := if alongX then g.width else g.height;
    f'.dP == f.dP && f'.dS == f.dS && f'.o.xMajor == f.o.xMajor &&
    if alongX == f.o.xMajor then
      f'.ps == n - 1 - f.ps && (f.dP > 0 ==> f'.o.pInc == !f.o.pInc) &&
      f'.ss == f.ss && f'.o.sInc == f.o.sInc
    else
      f'.ps == f.ps && f'.o.pInc == f.o.pInc &&
      f'.ss == n - 1 - f.ss && (f.dS > 0 ==> f'.o.sInc == !f.o.sInc)
  }

  /** The octant dispatch commutes with reflection. */
  lemma FrameMirror(g: Grid, r: Ray, alongX: bool)
    ensures FramesMirror(g, FrameOf(r), FrameOf(MirrorRay(g, r, alongX)), alongX)
  {
  }

  /** The mirrored frame's line cells are the mirror images of the
      original's (except past the start of a single-cell ray), and its
      secondary coordinate is inside the grid exactly when the original's
      is. */
  lemma LineMirror(g: Grid, f: Frame, f': Frame, alongX: bool, k: nat)
    requires FramesMirror(g, f, f', alongX)
    ensures MinorInside(g, f', k) <==> MinorInside(g, f, k)
    ensures (k == 0 || f.dP > 0) ==> LineCell(f', k) == MirrorCell(g, LineCell(f, k), alongX)
  {
    if f.dS == 0 {
      TraceFlat(f.dP, k);
    }
  }

  /** The mirrored walk starts inside the grid and covers the same number of
      cells. */
  lemma SpanMirror(g: Grid, g': Grid, f: Frame, f': Frame, alongX: bool)
    requires FramesMirror(g, f, f', alongX)
    requires Mirrored(g, g', alongX) && InBounds(g, FrameStart(f))
    ensures InBounds(g', FrameStart(f')) && Span(g', f') == Span(g, f)
  {
  }

  /** Two frames whose walks mirror each other step by step: the same
      delta and span, line cells that are mirror images over the span, and
      secondary coordinates inside the grid at the same steps. */
  ghost predicate Corresponding(g: Grid, f: Frame, g': Grid, f': Frame, alongX: bool)
  {
    Mirrored(g, g', alongX) && InBounds(g, FrameStart(f)) && InBounds(g', FrameStart(f')) &&
    f'.dP == f.dP && Span(g', f') == Span(g, f) &&
    (forall k: nat :: MinorInside(g', f', k) <==> MinorInside(g, f, k)) &&
    (forall k: nat :: k < Span(g, f) ==> LineCell(f', k) == MirrorCell(g, LineCell(f, k), alongX))
  }

  /** A ray and its mirror image have corresponding frames. */
  lemma MirrorCorresponds(g: Grid, g': Grid, r: Ray, alongX: bool)
    requires Mirrored(g, g', alongX) && InBounds(g, Start(r))
    ensures Corresponding(g, FrameOf(r), g', FrameOf(MirrorRay(g, r, alongX)), alongX)
  {
    var f, f' := FrameOf(r), FrameOf(MirrorRay(g, r, alongX));
    FrameMirror(g, r, alongX);
    SpanMirror(g, g', f, f', alongX);
    SpanBounds(g, f);
    forall k: nat
      ensures MinorInside(g', f', k) <==> MinorInside(g, f, k)
    {
      LineMirror(g, f, f', alongX, k);
    }
    forall k: nat | k < Span(g, f)
      ensures LineCell(f', k) == MirrorCell(g, LineCell(f, k), alongX)
    {
      LineMirror(g, f, f', alongX, k);
    }
  }

  /** Walks over corresponding frames end the same way, from any cell k on. */
  lemma {:induction false} ScanMirror(g: Grid, f: Frame, g': Grid, f': Frame, alongX: bool, k: nat)
    requires Corresponding(g, f, g', f', alongX)
    requires k < Span(g, f) && MinorInside(g, f, k)
    ensures k < Span(g', f') && MinorInside(g', f', k) && ScanFrom(g', f', k) == ScanFrom(g, f, k)
    decreases Span(g, f) - k
  {
    var c := LineCell(f, k);
    assert LineCell(f', k) == MirrorCell(g, c, alongX);
    assert MinorInside(g', f', k + 1) <==> MinorInside(g, f, k + 1);
    LineCellInBounds(g, f, k);
    MirrorCellFacts(g, c, c, alongX);
    OpenOrBlocked(g, c);
    OpenOrBlocked(g', MirrorCell(g, c, alongX));
    if !Blocked(g, c) && MinorInside(g, f, k + 1) && k + 1 < Span(g, f) {
      ScanMirror(g, f, g', f', alongX, k + 1);
    }
  }

  /** Mirror symmetry: reflecting the grid, the start and the end across
      either axis gives the same intersection flag and the same range. */
  lemma MirrorInvariance(g: Grid, g': Grid, r: Ray, alongX: bool)
    requires Mirrored(g, g', alongX)
    ensures CastRay(g', MirrorRay(g, r, alongX)) == CastRay(g, r)
  {
    var r' := MirrorRay(g, r, alongX);
    MirrorCellFacts(g, Start(r), Start(r), alongX);
    if Open(g, Start(r)) {
      var f, f' := FrameOf(r), FrameOf(r');
      MirrorCorresponds(g, g', r, alongX);
      ScanMirror(g, f, g', f', alongX, 0);
      var out := Walk(g, f);
      assert Walk(g', f') == out;
      if out.steps > 0 {
        ScanStops(g, f, 0);
        assert LineCell(f', out.steps - 1) == MirrorCell(g, LineCell(f, out.steps - 1), alongX);
      } else {
        assert LineCell(f', 0) == MirrorCell(g, LineCell(f, 0), alongX);
      }
      MirrorCellFacts(g, Contact(f, out), Start(r), alongX);
    }
  }
}

# Grid-map ray intersection, modelled in Dafny

`mex_isect_gridmap_rays` takes an occupancy grid and a batch of rays, each
given by an integer start and end cell. It walks each ray through the grid
cell by cell with an integer line-stepping (Bresenham) scheme and reports
two things per ray:

- `isect`: as written, whether the walk ended no further along the primary
  axis than the end cell. That is meant as "the ray is stopped before it
  reaches its end cell", but it also reports some rays whose every cell is
  free (row 1 of "## Findings");
- `range`: the distance from the start to the last free cell it visited.

The grid is stored column-major with pitch `height`, so cell `(x, y)` is at
index `x * height + y`. A cell is an obstacle when it holds the obstacle
value. A ray whose start is off the grid or on an obstacle is a hit at
distance 0 with no walk at all.

The model is six modules:

- `GridMap` (grid.dfy): the grid, its column-major addressing, and open and
  blocked cells.
- `Bresenham` (bresenham.dfy): octant selection and the error term that
  decides when the secondary coordinate steps, as pure functions, with
  lemmas about the line they trace.
- `RayWalk` (raywalk.dfy): one ray against the grid.
  - `ScanFrom`/`Walk`, `Hit`, `Contact` and `Cast` are the specification:
    which cell the walk stops at and why, the flag and the contact cell.
    `Cast` takes the verdict as a parameter: `CastRay` is the source's,
    `CastRayIntended` the corrected one (row 1 of "## Findings").
  - `CellStep`, `WalkOctant` and `TraceRay` are the imperative loop the
    source runs in each of its eight octants, written once over a frame
    (octant, start, deltas) and proved against that specification.
- `Detector` (detector.dfy): the `IntersectionDetector` class.
  - It holds the map dimensions, the two ray tables and their read cursors.
  - It has the batch method `Run` (the source's `operator()`), which fills
    fresh output arrays, and the two accessors that move the outputs out.
- `Symmetry` (symmetry.dfy): mirror symmetry of a single ray.
- `Scenarios` (scenarios.dfy): concrete rays on small grids, computed by the
  verifier.

Ranges are reported as squared integer distances (`Some(d2)`). `None`
stands for the NaN that the source writes for a ray that does not hit. The
range is measured to the last free cell, not to the obstacle: for an
obstacle at (2, 0) on the ray (0, 0) to (4, 0) the squared range is 1
(`Scenarios.ObstacleOnRow`).

## Model

| member | source | states |
|---|---|---|
| GridMap.Index | blocks/mex_isect_gridmap_rays.cpp:84 | the column-major position x * height + y of an in-bounds cell is inside the map buffer (the read in the walk never leaves the map) |
| GridMap.IndexLayout | blocks/mex_isect_gridmap_rays.cpp:74 | column-major addressing is a bijection: the position is below width * height, and division and remainder by the pitch give back column and row |
| GridMap.Dist2 | blocks/mex_isect_gridmap_rays.cpp:205 | the squared distance under the source's square root is zero exactly when the two cells coincide |
| Bresenham.SelectOctant | blocks/mex_isect_gridmap_rays.cpp:89-200 | the nested sign and magnitude tests pick x as primary axis exactly when abs(dx) >= abs(dy), each axis moving in its delta's direction and a zero delta counting as non-negative |
| Bresenham.OctantDeltas | blocks/mex_isect_gridmap_rays.cpp:78-79 | after the sign flips the deltas satisfy 0 <= dS <= dP, and dP primary steps and dS secondary steps from the start land on the end |
| Bresenham.Advance | blocks/mex_isect_gridmap_rays.cpp:96-100 | one primary step of the error scheme: at most one secondary step, the error changes by -dS plus dP per secondary step, and with dS <= dP it stays within [0, dP] |
| Bresenham.Trace | blocks/mex_isect_gridmap_rays.cpp:92-101 | the error term starting at dP >> 1 stays within [0, dP] at each loop head, with at most one secondary step per primary step |
| Bresenham.TraceResidue | blocks/mex_isect_gridmap_rays.cpp:92-101 | the error term equals dP/2 - k*dS + minor*dP, the rounding residue of the ideal line, and stays below dP |
| Bresenham.TraceReachesEnd | blocks/mex_isect_gridmap_rays.cpp:92-101 | after dP primary steps exactly dS secondary steps have been taken |
| Bresenham.TraceNearLine | blocks/mex_isect_gridmap_rays.cpp:92-101 | the chosen secondary offset is within half a cell of the ideal line k*dS/dP |
| Bresenham.TraceMonotone | blocks/mex_isect_gridmap_rays.cpp:97-100 | the secondary offset never decreases along the walk |
| RayWalk.FrameOf | blocks/mex_isect_gridmap_rays.cpp:78-200 | the octant frame of a ray has dS <= dP and starts and ends at the ray's start and end cells |
| RayWalk.ClippedEnd | blocks/mex_isect_gridmap_rays.cpp:93 | the clipped end (xe_ here; ye_ at lines 105, 132, 161, 188 and xe_ at 120, 149, 176 likewise) keeps an end inside the grid's primary extent; an end beyond the grid going up becomes the last grid coordinate (width - 1 or height - 1), one beyond it going down becomes 0 |
| RayWalk.Span | blocks/mex_isect_gridmap_rays.cpp:93-94 | the clipped primary range holds at least one cell |
| RayWalk.SpanBounds | blocks/mex_isect_gridmap_rays.cpp:93-94 | the loop runs at most dP + 1 and at most grid-extent iterations, and exactly dP + 1 when the unclipped end lies inside the grid on the primary axis; for an end beyond the grid it runs from the start to the grid's edge cell (MajorDim - ps cells going up, ps + 1 going down) |
| RayWalk.LineCellInBounds | blocks/mex_isect_gridmap_rays.cpp:93-98 | a cell of the clipped range whose secondary coordinate passed the border test is inside the grid, and conversely |
| RayWalk.ScanFrom | blocks/mex_isect_gridmap_rays.cpp:94-101 | the loop resumed at cell k stops within the clipped range, and only an obstacle stops it at cell k itself |
| RayWalk.Walk | blocks/mex_isect_gridmap_rays.cpp:94-101 | the whole loop confirms at most the clipped range free, and confirms no cell exactly when the start cell is an obstacle |
| RayWalk.ScanStops | blocks/mex_isect_gridmap_rays.cpp:94-101 | the walk passes only open cells and ends at an obstacle, at a secondary step off the grid, or at the end of the clipped range |
| RayWalk.StopUnique | blocks/mex_isect_gridmap_rays.cpp:94-101 | that description of the stop is unique, so it fully characterises the walk |
| RayWalk.Hit | blocks/mex_isect_gridmap_rays.cpp:102 | the flag (x <= xe here, and its seven copies at lines 114, 129, 141, 158, 170, 185, 197) holds exactly when the loop ended no more than dP primary steps from the start |
| RayWalk.Contact | blocks/mex_isect_gridmap_rays.cpp:85-94 | prevX/prevY, set to the start and then to each cell found free, is always a cell of the traced line: cell steps-1, or the start when none was confirmed |
| RayWalk.Cast | blocks/mex_isect_gridmap_rays.cpp:73-214 | one ray, with the source's or the intended verdict: a start off the grid or on an obstacle gives (true, 0) without a walk; otherwise a range is reported exactly for rays that hit, and it is the squared distance from the start to the contact cell of the walk (CastRay is the source's instance) |
| RayWalk.LineEndpoints | blocks/mex_isect_gridmap_rays.cpp:94-101 | the traced line starts at the start cell and its cell dP is the end cell |
| RayWalk.LineEightConnected | blocks/mex_isect_gridmap_rays.cpp:94-101 | consecutive cells are 8-connected: the primary coordinate moves by one, the secondary by at most one |
| RayWalk.ContactOpen | blocks/mex_isect_gridmap_rays.cpp:83-87 | the cell the range is measured to is open; after an obstacle it is the line cell just before the obstacle, 8-adjacent to it |
| RayWalk.LineCellWithinRay | blocks/mex_isect_gridmap_rays.cpp:94-101 | a line cell no further than the end cell is no further from the start than the end cell |
| RayWalk.RangeWithinRay | blocks/mex_isect_gridmap_rays.cpp:203-206 | a reported range never exceeds the length of the ray |
| RayWalk.ClearAsWritten | blocks/mex_isect_gridmap_rays.cpp:94-102 | as written, a ray is reported clear exactly when every cell from start to end is open and the secondary coordinate one step past the end is still on the grid |
| RayWalk.HitIntended | blocks/mex_isect_gridmap_rays.cpp:102 | corrected flag: it implies the source's flag and differs from it only on a border stop one step past the end cell (the phantom step) |
| RayWalk.CastRayIntended | blocks/mex_isect_gridmap_rays.cpp:102 | corrected verdict: every hit it reports is the source's hit, with the source's range |
| RayWalk.ClearIntended | blocks/mex_isect_gridmap_rays.cpp:102 | corrected verdict: a ray is clear exactly when every cell from start to end is open |
| RayWalk.ScanStep | blocks/mex_isect_gridmap_rays.cpp:96-100 | one iteration in line terms: the error update and the next cell's coordinates, the current cell being on the grid |
| RayWalk.CellStep | blocks/mex_isect_gridmap_rays.cpp:94-101 | one loop body: every map read is in bounds; a break leaves the final coordinate and the contact cell of the whole walk, otherwise the loop state moves to the next line cell |
| RayWalk.WalkOctant | blocks/mex_isect_gridmap_rays.cpp:92-101 | the loop ends with the final primary coordinate and the last free cell of the specified walk |
| RayWalk.TraceRay | blocks/mex_isect_gridmap_rays.cpp:78-200 | the dispatched octant loop returns the specified flag and contact cell, and the contact cell is open |
| Detector.TablePoint | blocks/mex_isect_gridmap_rays.cpp:54-57 | ray i of a count x 2 column-major table: row i of the x column (the first count entries) and of the y column (the next count) |
| Detector.PairedEnd | blocks/mex_isect_gridmap_rays.cpp:75-76 | the end cursor never runs ahead of the ray index |
| Detector.AsWritten | blocks/mex_isect_gridmap_rays.cpp:70-76 | ray i as the batch pairs it (start row i, end row at the end cursor): a trivial start gives (true, 0) whatever the end table holds, and a range comes exactly with a hit |
| Detector.Intended | blocks/mex_isect_gridmap_rays.cpp:70-76 | corrected pairing (start and end row i): a trivial start gives (true, 0), and a range comes exactly with a hit |
| Detector.PairedEndInStep | blocks/mex_isect_gridmap_rays.cpp:71-76 | the end cursor equals the ray index exactly when every start so far was open |
| Detector.AgreesWhileStartsOpen | blocks/mex_isect_gridmap_rays.cpp:71-76 | while all starts are open, each ray is walked to its own end |
| Detector.Record | blocks/mex_isect_gridmap_rays.cpp:203-206 | writing ray n's result extends the filled prefix of the outputs |
| Detector.IntersectionDetector.constructor | blocks/mex_isect_gridmap_rays.cpp:49-58 | width is the column count, height and pitch the row count, and both cursors start at row 0 |
| Detector.IntersectionDetector.Run | blocks/mex_isect_gridmap_rays.cpp:60-216 | fresh outputs of count entries, entry i the batch's result for ray i; the range array exists exactly when requested; final cursor positions |
| Detector.IntersectionDetector.NextRay | blocks/mex_isect_gridmap_rays.cpp:71-214 | one iteration: the start cursor always advances, the end cursor only past an open start, and the result is that of the ray they point at |
| Detector.IntersectionDetector.TakeISect | blocks/mex_isect_gridmap_rays.cpp:218-220 | the flag array is handed over and no longer held |
| Detector.IntersectionDetector.TakeRange | blocks/mex_isect_gridmap_rays.cpp:221-223 | the range array is handed over and no longer held |
| Symmetry.MirrorCellFacts | blocks/mex_isect_gridmap_rays.cpp:205 | reflection is an involution that keeps cells on the grid and preserves distances |
| Symmetry.TraceFlat | blocks/mex_isect_gridmap_rays.cpp:96-100 | with no secondary delta the secondary coordinate never moves |
| Symmetry.FrameMirror | blocks/mex_isect_gridmap_rays.cpp:89-200 | octant dispatch commutes with reflection: the same deltas, the reflected axis reversed |
| Symmetry.LineMirror | blocks/mex_isect_gridmap_rays.cpp:94-101 | the mirrored line is the mirror image of the line, and passes the border tests at the same steps |
| Symmetry.SpanMirror | blocks/mex_isect_gridmap_rays.cpp:93-94 | the clipped range of the mirrored ray has the same length |
| Symmetry.MirrorCorresponds | blocks/mex_isect_gridmap_rays.cpp:89-200 | a ray and its mirror image walk in lockstep |
| Symmetry.ScanMirror | blocks/mex_isect_gridmap_rays.cpp:94-101 | walks in lockstep end the same way |
| Symmetry.MirrorInvariance | blocks/mex_isect_gridmap_rays.cpp:60-216 | reflecting the grid, start and end across either axis gives the same flag and range |
| Scenarios.DegenerateRayClear | blocks/mex_isect_gridmap_rays.cpp:94-102 | a ray from a free cell to itself is clear |
| Scenarios.ObstacleOnRow | blocks/mex_isect_gridmap_rays.cpp:83-87 | an obstacle at (2, 0) on the way from (0, 0) to (4, 0): a hit, measured to the last free cell (1, 0) |
| Scenarios.EndBeyondEdge | blocks/mex_isect_gridmap_rays.cpp:93 | an end beyond the right edge: a hit at the edge cell, squared range 16 |
| Scenarios.PhantomStep | blocks/mex_isect_gridmap_rays.cpp:97-102 | counterexample: the free 2 x 2 diagonal is a hit as written, clear as intended |
| Scenarios.RowToFive | blocks/mex_isect_gridmap_rays.cpp:93-102 | on a free 3 x 1 map, (0, 0) to (5, 0) is a hit at (2, 0) |
| Scenarios.RowToTwo | blocks/mex_isect_gridmap_rays.cpp:93-102 | on a free 3 x 1 map, (0, 0) to (2, 0) is clear |
| Scenarios.EndCursorLags | blocks/mex_isect_gridmap_rays.cpp:71-76 | counterexample: after an off-map start, the next ray is walked to the previous ray's end |

## Left out

- Coordinates are taken as integers. The source's `double` to `int` casts of the ray tables (lines 71-72 and 75-76) are not modelled. The comment at line 71 mentions rounding and the Matlab 1-offset, but the code does neither.
- Ranges are squared integer distances. The `sqrt` and the signalling NaN (lines 205-206) are floating point and are not modelled.
- 32-bit `int` overflow of coordinates, deltas, `x * pitch + y` and the squared distance is not modelled. Integers are unbounded here.
- The `CellType` template parameter: map cells and the obstacle value are `int`. The uint8/logical dispatch and the conversion of the obstacle value happen in `mexFunction`, which is not part of this model. Neither is its argument validation.
- `mxArray` allocation and ownership are not modelled. Output arrays are fresh Dafny arrays, and the move-out accessors null the field.
- Detector.IntersectionDetector.Run: requires both cursors at row 0. The source never resets them, so a second call on the same detector would read past the ray tables; only the single call the source makes is modelled.
- `RayWalk.WalkOctant` is one loop parameterised by octant instead of the eight copies in the source. No member states that the dispatch picks the same loop as the source's nested tests. That correspondence rests on reading: the body of `Bresenham.SelectOctant` (bresenham.dfy:33-46) repeats the nested sign and magnitude tests. The secondary border test in `RayWalk.CellStep` (raywalk.dfy:502-504) and the clip and loop guard in `RayWalk.WalkOctant` (raywalk.dfy:531-532, 537) take the form the chosen octant's copy has.

## Findings

| source | as written | input that shows it | evidently intended | confidence | as-written member | corrected member |
|---|---|---|---|---|---|---|
| blocks/mex_isect_gridmap_rays.cpp:97-102 | after the end cell is confirmed free the loop still takes its secondary step, which breaks if it leaves the grid, and the flag `x <= xe` then reports a hit | free 2 x 2 grid, ray (0, 0) to (1, 1): reported (true, squared range 2) | a ray whose every cell up to the end is free is clear | not executed | RayWalk.ClearAsWritten, Scenarios.PhantomStep | RayWalk.HitIntended, RayWalk.ClearIntended, RayWalk.CastRayIntended |
| blocks/mex_isect_gridmap_rays.cpp:71-76 | the end cursors advance only for rays with an open start, so after a trivial start every later ray is paired with an earlier ray's end | free 3 x 1 map, ray 0 from (-1, 0) to (5, 0), ray 1 from (0, 0) to (2, 0): ray 1 is reported (true, squared range 4) | ray i is walked from start i to end i | not executed | Detector.AsWritten, Scenarios.EndCursorLags | Detector.Intended, Detector.AgreesWhileStartsOpen |

/** The integer line-stepping scheme shared by the eight octant loops of the
    ray caster: octant selection from the ray's deltas, and the error term
    that decides when the secondary coordinate steps. Everything here is in
    "octant frame" terms: a primary delta dP and a secondary delta dS, both
    already made non-negative, with dS <= dP. */
module Bresenham {

  /** Direction class of a ray: whether x is the primary axis (stepped every
      iteration), and whether the primary and the secondary coordinate
      increase (true) or decrease (false) as the walk proceeds. */
  datatype Octant = Octant(xMajor: bool, pInc: bool, sInc: bool)

  function Abs(d: int): nat
  {
    if d >= 0 then d else -d
  }

  /** The coordinate reached after k unit steps from a in the given direction. */
  function Move(a: int, inc: bool, k: int): int
  {
    if inc then a + k else a - k
  }

  /** Octant dispatch on dx = xe - xs and dy = ye - ys, branch for branch as
      the source nests its tests; a zero delta counts as non-negative. The
      primary axis is x exactly when |dx| >= |dy|, and each axis moves in the
      direction of its delta's sign. */
  function SelectOctant(dx: int, dy: int): (o: Octant)
    ensures o.xMajor <==> Abs(dx) >= Abs(dy)
    ensures o.xMajor ==> o.pInc == (dx >= 0) && o.sInc == (dy >= 0)
    ensures !o.xMajor ==> o.pInc == (dy >= 0) && o.sInc == (dx >= 0)
  {
    if dx >= 0 then
      if dy >= 0 then
        if dx >= dy then Octant(true, true, true)        // octant 1
        else Octant(false, true, true)                   // octant 2
      else
        if dx >= -dy then Octant(true, true, false)      // octant 8
        else Octant(false, false, true)                  // octant 7
    else
      if dy >= 0 then
        if -dx >= dy then Octant(true, false, true)      // octant 4
        else Octant(false, true, false)                  // octant 3
      else
        if -dx >= -dy then Octant(true, false, false)    // octant 5
        else Octant(false, false, false)                 // octant 6
  }

  /** The primary and the secondary component of a pair of per-axis values. */
  function Major(o: Octant, x: int, y: int): int
  {
    if o.xMajor then x else y
  }

  function Minor(o: Octant, x: int, y: int): int
  {
    if o.xMajor then y else x
  }

  /** After sign normalisation the deltas of the selected octant satisfy
      0 <= dS <= dP, and stepping dP along the primary axis and dS along the
      secondary axis from the start, in the octant's directions, lands on the
      end point. */
  lemma OctantDeltas(xs: int, ys: int, xe: int, ye: int)
    ensures var o := SelectOctant(xe - xs, ye - ys);
            var dP := Abs(Major(o, xe - xs, ye - ys));
            var dS := Abs(Minor(o, xe - xs, ye - ys));
            dS <= dP &&
            Move(Major(o, xs, ys), o.pInc, dP) == Major(o, xe, ye) &&
            Move(Minor(o, xs, ys), o.sInc, dS) == Minor(o, xe, ye)
  {
  }

  /** State of the stepping scheme at a cell: how many secondary steps have
      been taken so far, and the error term. */
  datatype Stepper = Stepper(minor: nat, error: int)

  /** One primary step: the error drops by dS; when it goes negative the
      secondary coordinate steps and the error is restored by dP. At most
      one secondary step is taken, the error changes by exactly -dS plus dP
      per secondary step, and with dS <= dP it stays within [0, dP]. */
  function Advance(b: Stepper, dP: nat, dS: nat): (b': Stepper)
    ensures b'.minor == b.minor || b'.minor == b.minor + 1
    ensures b'.error == b.error - dS + (b'.minor - b.minor) * dP
    ensures dS <= dP && 0 <= b.error <= dP ==> 0 <= b'.error <= dP
  {
    var e := b.error - dS;
    if e < 0 then Stepper(b.minor + 1, e + dP) else Stepper(b.minor, e)
  }

  /** The stepper at the k-th cell of the walk; the error starts at
      dP >> 1. At most one secondary step is taken per primary step, and the
      error term stays within [0, dP]. */
  function Trace(dP: nat, dS: nat, k: nat): (b: Stepper)
    ensures b.minor <= k
    ensures dS <= dP ==> 0 <= b.error <= dP
  {
    if k == 0 then Stepper(0, dP / 2) else Advance(Trace(dP, dS, k - 1), dP, dS)
  }

  /** The error term is the rounding residue of the ideal line: after k
      primary steps it equals dP/2 - k*dS + minor*dP, and it is strictly
      below dP whenever dP > 0. */
  lemma {:induction false} TraceResidue(dP: nat, dS: nat, k: nat)
    requires dS <= dP
    ensures Trace(dP, dS, k).error == dP / 2 - k * dS + Trace(dP, dS, k).minor * dP
    ensures dP > 0 ==> Trace(dP, dS, k).error < dP
  {
    if k > 0 {
      TraceResidue(dP, dS, k - 1);
      var b := Trace(dP, dS, k - 1);
      MulSucc(k - 1, dS);
      MulSucc(b.minor, dP);
    }
  }

  lemma MulDiff(a: int, b: int, c: int)
    ensures (a - b) * c == a * c - c * b
  {
  }

  lemma MulSucc(a: int, b: int)
    ensures (a + 1) * b == a * b + b
  {
  }

  /** The walk reaches the end point exactly: after dP primary steps exactly
      dS secondary steps have been taken. */
  lemma TraceReachesEnd(dP: nat, dS: nat)
    requires dS <= dP
    ensures Trace(dP, dS, dP).minor == dS
  {
    var b := Trace(dP, dS, dP);
    if dP > 0 {
      TraceResidue(dP, dS, dP);
      var t := b.minor - dS;
      MulDiff(b.minor, dS, dP);
      ZeroFactor(t, dP);
    }
  }

  /** The chosen cell is the nearest one to the ideal line: the secondary
      offset after k primary steps differs from k*dS/dP by at most one half. */
  lemma TraceNearLine(dP: nat, dS: nat, k: nat)
    requires dS <= dP
    ensures -(dP as int) <= 2 * (Trace(dP, dS, k).minor * dP - k * dS) <= dP
  {
    TraceResidue(dP, dS, k);
  }

  /** The secondary offset never decreases along the walk. */
  lemma {:induction false} TraceMonotone(dP: nat, dS: nat, j: nat, k: nat)
    requires j <= k
    ensures Trace(dP, dS, j).minor <= Trace(dP, dS, k).minor
    decreases k - j
  {
    if j < k {
      TraceMonotone(dP, dS, j, k - 1);
    }
  }

  /** A multiple of d strictly between -d and d is zero. */
  lemma ZeroFactor(t: int, d: int)
    requires d > 0 && -d < t * d < d
    ensures t == 0
  {
  }
}

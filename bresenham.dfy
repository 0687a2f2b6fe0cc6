/**
 * `bresenhamLine`: the grid points of the line from (x0, y0) to (x1, y1),
 * as the line tool previews it. Each step moves one unit along x, along y or
 * both, always towards the end point.
 */
module Bresenham {

  function Abs(n: int): nat {
    if n < 0 then -n else n
  }

  /** `x0 < x1 ? 1 : -1`. */
  function Sign(a: int, b: int): int {
    if a < b then 1 else -1
  }

  /** From p to q is one step: by 0 or sx along x, by 0 or sy along y, and not by nothing. */
  predicate UnitStep(p: (int, int), q: (int, int), sx: int, sy: int) {
    && (q.0 == p.0 || q.0 == p.0 + sx)
    && (q.1 == p.1 || q.1 == p.1 + sy)
    && q != p
  }

  /** The length of the major axis of a line with extents dx and dy. */
  function Major(dx: nat, dy: nat): nat {
    if dx < dy then dy else dx
  }

  /**
   * Point p is within half a cell of the ideal line from (x0, y0) to (x1, y1):
   * at p's coordinate along the major axis, its offset along the minor axis
   * from the line is at most one half. Scaled by the major extent, that is
   * |2 (j dx - i dy)| <= max(dx, dy) for the steps i, j from the start.
   */
  predicate NearLine(x0: int, y0: int, x1: int, y1: int, p: (int, int)) {
    var dx, dy := Abs(x1 - x0), Abs(y1 - y0);
    -(Major(dx, dy) as int) <= 2 * (Abs(p.1 - y0) * dx - Abs(p.0 - x0) * dy) <= Major(dx, dy)
  }

  /** v lies between a and b, inclusive, in either order. */
  predicate Between(a: int, b: int, v: int) {
    (a <= v <= b) || (b <= v <= a)
  }

  /** With the x axis exhausted (i = dx) and y not (j < dy), the error term rules out an x step and forces a y step. */
  lemma XExhausted(dx: nat, dy: nat, j: nat)
    requires j < dy
    ensures 2 * (dx - dy + j * dx - dx * dy) <= -2 * dy
  {
    var d: int := j - dy;
    assert j * dx - dx * dy == d * dx;
    MulLe(d, -1, dx);
  }

  /** With the y axis exhausted (j = dy) and x not (i < dx), the error term rules out a y step and forces an x step. */
  lemma YExhausted(dx: nat, dy: nat, i: nat)
    requires i < dx
    ensures 2 * (dx - dy + dy * dx - i * dy) >= 2 * dx
  {
    var d: int := dx - i;
    assert dy * dx - i * dy == d * dy;
    MulLe(1, d, dy);
  }

  lemma MulSucc(a: nat, b: nat)
    ensures (a + 1) * b == a * b + b
  {
  }

  lemma MulLe(a: int, b: int, k: nat)
    requires a <= b
    ensures a * k <= b * k
  {
  }

  /**
   * One step of the loop, from a point that is not the end point: the error
   * term moves x, y or both by one unit towards the end, never past it,
   * and the new point stays within half a cell of the ideal line.
   */
  method Advance(dx: nat, dy: nat, sx: int, sy: int, err: int, cx: int, cy: int, ghost i: nat, ghost j: nat)
    returns (err': int, cx': int, cy': int, ghost i': nat, ghost j': nat)
    requires i <= dx && j <= dy && (i < dx || j < dy)
    requires err == dx - dy + j * dx - i * dy
    requires -(Major(dx, dy) as int) <= 2 * (err - dx + dy) <= Major(dx, dy)
    ensures i' <= dx && j' <= dy && i + j < i' + j'
    ensures (i' == i && cx' == cx) || (i' == i + 1 && cx' == cx + sx)
    ensures (j' == j && cy' == cy) || (j' == j + 1 && cy' == cy + sy)
    ensures err' == dx - dy + j' * dx - i' * dy
    ensures -(Major(dx, dy) as int) <= 2 * (err' - dx + dy) <= Major(dx, dy)
  {
    err', cx', cy', i', j' := err, cx, cy, i, j;
    var e2: int := 2 * err;
    if i == dx {
      XExhausted(dx, dy, j);
    }
    if j == dy {
      YExhausted(dx, dy, i);
    }
    if e2 > -(dy as int) {
      MulSucc(i, dy);
      err' := err' - dy;
      cx' := cx' + sx;
      i' := i' + 1;
    }
    if e2 < dx {
      MulSucc(j, dx);
      err' := err' + dx;
      cy' := cy' + sy;
      j' := j' + 1;
    }
  }

  /** The loop's current point is near the line when its error term is in range. */
  lemma NearCurrent(x0: int, y0: int, x1: int, y1: int, cx: int, cy: int, i: nat, j: nat, err: int)
    requires Abs(cx - x0) == i && Abs(cy - y0) == j
    requires err == Abs(x1 - x0) - Abs(y1 - y0) + j * Abs(x1 - x0) - i * Abs(y1 - y0)
    requires -(Major(Abs(x1 - x0), Abs(y1 - y0)) as int) <= 2 * (err - Abs(x1 - x0) + Abs(y1 - y0)) <= Major(Abs(x1 - x0), Abs(y1 - y0))
    ensures NearLine(x0, y0, x1, y1, (cx, cy))
  {
  }

  /** A step of one unit in the direction s, away from the origin a, adds one to the distance from it. */
  lemma AwayStep(a: int, c: int, s: int, i: nat)
    requires s == 1 || s == -1
    requires c == a + s * i
    ensures Abs(c - a) == i && Abs(c + s - a) == i + 1
  {
  }

  /**
   * The points start at (x0, y0) and end at (x1, y1), which occurs only at
   * the end; each step is a unit step towards the end; every point lies in
   * the box of the end points and within half a cell of the ideal line.
   */
  method BresenhamLine(x0: int, y0: int, x1: int, y1: int) returns (points: seq<(int, int)>)
    ensures |points| >= 1 && points[0] == (x0, y0) && points[|points| - 1] == (x1, y1)
    ensures forall k :: 0 < k < |points| ==> UnitStep(points[k - 1], points[k], Sign(x0, x1), Sign(y0, y1))
    ensures forall k :: 0 <= k < |points| ==> Between(x0, x1, points[k].0) && Between(y0, y1, points[k].1)
    ensures forall k :: 0 <= k < |points| - 1 ==> points[k] != (x1, y1)
    ensures forall k :: 0 <= k < |points| ==> NearLine(x0, y0, x1, y1, points[k])
  {
    var dx, dy := Abs(x1 - x0), Abs(y1 - y0);
    var sx := if x0 < x1 then 1 else -1;
    var sy := if y0 < y1 then 1 else -1;
    var err := dx - dy;
    var cx, cy := x0, y0;
    ghost var i: nat, j: nat := 0, 0;
    points := [];
    while true
      invariant i <= dx && j <= dy
      invariant cx == x0 + sx * i && cy == y0 + sy * j
      invariant err == dx - dy + j * dx - i * dy
      invariant Abs(cx - x0) == i && Abs(cy - y0) == j
      invariant -(Major(dx, dy) as int) <= 2 * (err - dx + dy) <= Major(dx, dy)
      invariant forall k :: 0 <= k < |points| ==> NearLine(x0, y0, x1, y1, points[k])
      invariant points == [] ==> (cx, cy) == (x0, y0)
      invariant points != [] ==> points[0] == (x0, y0) && UnitStep(points[|points| - 1], (cx, cy), sx, sy)
      invariant forall k :: 0 < k < |points| ==> UnitStep(points[k - 1], points[k], sx, sy)
      invariant forall k :: 0 <= k < |points| ==> Between(x0, x1, points[k].0) && Between(y0, y1, points[k].1)
      invariant forall k :: 0 <= k < |points| ==> points[k] != (x1, y1)
      decreases (dx - i) + (dy - j)
    {
      NearCurrent(x0, y0, x1, y1, cx, cy, i, j, err);
      points := points + [(cx, cy)];
      if cx == x1 && cy == y1 {
        break;
      }
      err, cx, cy, i, j := Advance(dx, dy, sx, sy, err, cx, cy, i, j);
      AwayStep(x0, cx, sx, i);
      AwayStep(y0, cy, sy, j);
    }
  }
}

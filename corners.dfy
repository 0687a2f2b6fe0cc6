/**
 * Corner extraction and radius resolution in `generateSVGPathData`: a corner
 * sits wherever two consecutive edges of a contour (cyclically) change
 * direction; its rounding radius comes from the global settings or from a
 * per-cell lookup, clamped to [0, 0.5].
 */
module Corners {
  import opened Wrappers
  import opened Grids
  import opened Boundary
  import opened Contours

  /** A change of direction at `vertex`, with the cells of the edges entering and leaving it. */
  datatype Corner = Corner(vertex: Point, incoming: Vec, outgoing: Vec, isConvex: bool, cell: Cell, cell2: Cell)

  /** The corner at position i of the contour, entered from the previous edge (cyclically), if any. */
  function CornerAt(contour: seq<Edge>, i: nat): (o: Option<Corner>)
    requires i < |contour|
    ensures o.Some? <==> contour[Prev(|contour|, i)].dir != contour[i].dir
    ensures o.Some? ==> o.value.vertex == contour[i].start
  {
    var prev := contour[Prev(|contour|, i)];
    var cur := contour[i];
    if prev.dir == cur.dir then None
    else Some(Corner(cur.start, prev.dir, cur.dir, TurnPriority(prev.dir, cur.dir) == 0, prev.cell, cur.cell))
  }

  /** The corners at positions [0, i) of the contour, in order. */
  function CornersBefore(contour: seq<Edge>, i: nat): seq<Corner>
    requires i <= |contour|
  {
    if i == 0 then []
    else
      var o := CornerAt(contour, i - 1);
      CornersBefore(contour, i - 1) + (if o.Some? then [o.value] else [])
  }

  function CornersOf(contour: seq<Edge>): seq<Corner> {
    CornersBefore(contour, |contour|)
  }

  /** The corner loop of `generateSVGPathData`. */
  method ExtractCorners(contour: seq<Edge>) returns (corners: seq<Corner>)
    ensures corners == CornersOf(contour)
  {
    var n := |contour|;
    corners := [];
    for i := 0 to n
      invariant corners == CornersBefore(contour, i)
    {
      PrevMod(n, i);
      var prevEdge := contour[(i - 1 + n) % n];
      var curEdge := contour[i];
      var incoming, outgoing := prevEdge.dir, curEdge.dir;
      if incoming.dx == outgoing.dx && incoming.dy == outgoing.dy {
        continue;
      }
      corners := corners + [Corner(curEdge.start, incoming, outgoing, TurnPriority(incoming, outgoing) == 0, prevEdge.cell, curEdge.cell)];
    }
  }

  /** The index of the previous edge, cyclically. */
  function Prev(n: nat, i: nat): nat
    requires i < n
  {
    if i == 0 then n - 1 else i - 1
  }

  /** The source's cyclic predecessor `(i - 1 + n) % n`. */
  lemma PrevMod(n: nat, i: nat)
    requires i < n
    ensures (i - 1 + n) % n == Prev(n, i)
  {
    if i > 0 {
      assert i - 1 + n == (i - 1) + n;
    }
  }

  /** The positions in [0, i) that yield a corner, in order. */
  ghost function TurnPositions(contour: seq<Edge>, i: nat): seq<nat>
    requires i <= |contour|
  {
    if i == 0 then []
    else TurnPositions(contour, i - 1) + (if CornerAt(contour, i - 1).Some? then [i - 1] else [])
  }

  /** The listed corners are, in order, the corners at the turn positions. */
  lemma {:induction false} CornersBeforePositions(contour: seq<Edge>, i: nat)
    requires i <= |contour|
    ensures var ps, cs := TurnPositions(contour, i), CornersBefore(contour, i);
      && |cs| == |ps|
      && (forall k :: 0 <= k < |ps| ==> ps[k] < i && CornerAt(contour, ps[k]) == Some(cs[k]))
      && (forall k, l :: 0 <= k < l < |ps| ==> ps[k] < ps[l])
      && (forall j :: 0 <= j < i ==> (j in ps <==> CornerAt(contour, j).Some?))
  {
    if i > 0 {
      CornersBeforePositions(contour, i - 1);
      var ps, cs := TurnPositions(contour, i - 1), CornersBefore(contour, i - 1);
      var o := CornerAt(contour, i - 1);
      if o.Some? {
        assert TurnPositions(contour, i) == ps + [i - 1];
        assert CornersBefore(contour, i) == cs + [o.value];
      } else {
        assert TurnPositions(contour, i) == ps;
        assert CornersBefore(contour, i) == cs;
      }
    }
  }

  /**
   * There is a corner at position j exactly when the direction changes there
   * (cyclically); it sits at the start of edge j, is convex exactly for a right
   * turn, and records the cells of the edges entering and leaving it.
   */
  lemma CornerAtSpec(contour: seq<Edge>, j: nat)
    requires j < |contour|
    ensures CornerAt(contour, j).Some? <==> contour[Prev(|contour|, j)].dir != contour[j].dir
    ensures CornerAt(contour, j).Some? ==> IsCornerOf(contour, j, CornerAt(contour, j).value)
  {
  }

  /**
   * The corners of a contour correspond, in order, to the positions where the
   * edge direction changes (cyclically), each as `IsCornerOf` describes.
   */
  lemma CornersSpec(contour: seq<Edge>)
    ensures var ps, cs := TurnPositions(contour, |contour|), CornersOf(contour);
      && |cs| == |ps| <= |contour|
      && (forall k :: 0 <= k < |ps| ==> ps[k] < |contour| && IsCornerOf(contour, ps[k], cs[k]))
      && (forall k, l :: 0 <= k < l < |ps| ==> ps[k] < ps[l])
      && (forall j :: 0 <= j < |contour| ==> (j in ps <==> contour[Prev(|contour|, j)].dir != contour[j].dir))
  {
    var ps := TurnPositions(contour, |contour|);
    CornersBeforePositions(contour, |contour|);
    forall j | 0 <= j < |contour| {
      CornerAtSpec(contour, j);
    }
    PositionsBound(ps, |contour|);
  }

  /** A strictly increasing sequence of positions below n has at most n elements. */
  lemma {:induction false} PositionsBound(ps: seq<nat>, n: nat)
    requires forall k :: 0 <= k < |ps| ==> ps[k] < n
    requires forall k, l :: 0 <= k < l < |ps| ==> ps[k] < ps[l]
    ensures |ps| <= n
  {
    if ps != [] {
      var m := |ps| - 1;
      PositionsBound(ps[..m], ps[m]);
    }
  }

  /** `k` is the corner at position j: the previous edge's direction differs from edge j's. */
  ghost predicate IsCornerOf(contour: seq<Edge>, j: nat, k: Corner)
    requires j < |contour|
  {
    var prev := contour[Prev(|contour|, j)];
    var cur := contour[j];
    && prev.dir != cur.dir
    && k.vertex == cur.start
    && k.incoming == prev.dir && k.outgoing == cur.dir
    && (k.isConvex <==> TurnPriority(prev.dir, cur.dir) == 0)
    && k.cell == prev.cell && k.cell2 == cur.cell
  }

  /** `Math.min(Math.max(x, 0), 0.5)`. */
  function Clamp(x: real): (r: real)
    ensures 0.0 <= r <= 0.5
    ensures 0.0 <= x <= 0.5 ==> r == x
    ensures x < 0.0 ==> r == 0.0
    ensures x > 0.5 ==> r == 0.5
  {
    var lo := if x > 0.0 then x else 0.0;
    if lo < 0.5 then lo else 0.5
  }

  function Max(a: real, b: real): real {
    if a >= b then a else b
  }

  /** The four cells around a vertex: up-left, up-right, down-left, down-right. */
  function AdjacentCells(v: Point): seq<Cell> {
    [Cell(v.y - 1, v.x - 1), Cell(v.y - 1, v.x), Cell(v.y, v.x - 1), Cell(v.y, v.x)]
  }

  /** The clamped inner radius the lookup gives a cell. */
  function InnerOf(lookup: (int, int) -> CellSettings, a: Cell): real {
    Clamp(lookup(a.r, a.c).innerRadius)
  }

  /** The running maximum, from 0, of the clamped inner radii of the filled cells among `cells`. */
  function MaxInner(g: Grid, lookup: (int, int) -> CellSettings, cells: seq<Cell>): (m: real)
    ensures 0.0 <= m <= 0.5
  {
    if cells == [] then 0.0
    else
      var m := MaxInner(g, lookup, cells[..|cells| - 1]);
      var a := cells[|cells| - 1];
      if Filled(g, a.r, a.c) then Max(m, InnerOf(lookup, a)) else m
  }

  /**
   * The maximum lies in [0, 0.5], bounds the clamped inner radius of every
   * filled cell among `cells`, and is 0 or attained by one of them.
   */
  lemma {:induction false} MaxInnerSpec(g: Grid, lookup: (int, int) -> CellSettings, cells: seq<Cell>)
    ensures 0.0 <= MaxInner(g, lookup, cells) <= 0.5
    ensures forall k :: 0 <= k < |cells| && Filled(g, cells[k].r, cells[k].c) ==>
      InnerOf(lookup, cells[k]) <= MaxInner(g, lookup, cells)
    ensures MaxInner(g, lookup, cells) == 0.0 ||
      exists k :: 0 <= k < |cells| && Filled(g, cells[k].r, cells[k].c) && MaxInner(g, lookup, cells) == InnerOf(lookup, cells[k])
  {
    if cells != [] {
      var init := cells[..|cells| - 1];
      MaxInnerSpec(g, lookup, init);
      assert forall k :: 0 <= k < |init| ==> cells[k] == init[k];
      var m := MaxInner(g, lookup, init);
      if m != 0.0 && MaxInner(g, lookup, cells) == m {
        var k :| 0 <= k < |init| && Filled(g, init[k].r, init[k].c) && m == InnerOf(lookup, init[k]);
        assert cells[k] == init[k];
      }
    }
  }

  /** The loop of `getRadius` for a concave corner under a lookup. */
  method ConcaveRadius(g: Grid, lookup: (int, int) -> CellSettings, v: Point) returns (maxIR: real)
    ensures maxIR == MaxInner(g, lookup, AdjacentCells(v))
  {
    var adjacentCells := AdjacentCells(v);
    maxIR := 0.0;
    for i := 0 to |adjacentCells|
      invariant maxIR == MaxInner(g, lookup, adjacentCells[..i])
    {
      var ac := adjacentCells[i];
      assert adjacentCells[..i + 1][..i] == adjacentCells[..i];
      if 0 <= ac.r < |g| && 0 <= ac.c < Cols(g) && ac.c < |g[ac.r]| && g[ac.r][ac.c] {
        var s := lookup(ac.r, ac.c);
        maxIR := Max(maxIR, Clamp(s.innerRadius));
      }
    }
    assert adjacentCells[..|adjacentCells|] == adjacentCells;
  }

  /** What `getRadius` resolves for a corner. */
  function CornerRadius(g: Grid, radius: real, innerRadius: real, lookup: Option<(int, int) -> CellSettings>, k: Corner): (r: real)
    ensures 0.0 <= r <= 0.5
  {
    match lookup
    case Some(f) =>
      if k.isConvex then Clamp(f(k.cell.r, k.cell.c).cornerRadius) else MaxInner(g, f, AdjacentCells(k.vertex))
    case None =>
      if k.isConvex then Clamp(radius) else Clamp(innerRadius)
  }

  /**
   * Every resolved radius lies in [0, 0.5]. Without a lookup it is the clamped
   * global radius (corner or inner). With one, a convex corner takes the
   * clamped corner radius of the incoming edge's cell, and a concave corner the
   * maximum, from 0, of the clamped inner radii of the in-grid filled cells
   * around its vertex.
   */
  lemma CornerRadiusSpec(g: Grid, radius: real, innerRadius: real, lookup: Option<(int, int) -> CellSettings>, k: Corner)
    ensures 0.0 <= CornerRadius(g, radius, innerRadius, lookup, k) <= 0.5
    ensures lookup.None? && k.isConvex ==> CornerRadius(g, radius, innerRadius, lookup, k) == Clamp(radius)
    ensures lookup.None? && !k.isConvex ==> CornerRadius(g, radius, innerRadius, lookup, k) == Clamp(innerRadius)
    ensures lookup.Some? && k.isConvex ==>
      CornerRadius(g, radius, innerRadius, lookup, k) == Clamp(lookup.value(k.cell.r, k.cell.c).cornerRadius)
    ensures lookup.Some? && !k.isConvex ==>
      var cells, m := AdjacentCells(k.vertex), CornerRadius(g, radius, innerRadius, lookup, k);
      && (forall a :: a in cells && Filled(g, a.r, a.c) ==> InnerOf(lookup.value, a) <= m)
      && (m == 0.0 || exists a :: a in cells && Filled(g, a.r, a.c) && m == InnerOf(lookup.value, a))
  {
    if lookup.Some? && !k.isConvex {
      var cells := AdjacentCells(k.vertex);
      MaxInnerSpec(g, lookup.value, cells);
      var m := MaxInner(g, lookup.value, cells);
      if m != 0.0 {
        var i :| 0 <= i < |cells| && Filled(g, cells[i].r, cells[i].c) && m == InnerOf(lookup.value, cells[i]);
        assert cells[i] in cells;
      }
    }
  }

  /** `getRadius`. */
  method GetRadius(g: Grid, radius: real, innerRadius: real, lookup: Option<(int, int) -> CellSettings>, k: Corner)
    returns (r: real)
    ensures r == CornerRadius(g, radius, innerRadius, lookup, k)
  {
    var globalR, globalIR := Clamp(radius), Clamp(innerRadius);
    if lookup.Some? {
      if k.isConvex {
        var s1 := lookup.value(k.cell.r, k.cell.c);
        return Clamp(s1.cornerRadius);
      } else {
        r := ConcaveRadius(g, lookup.value, k.vertex);
        return;
      }
    }
    r := if k.isConvex then globalR else globalIR;
  }
}

/**
 * Path emission in `generateSVGPathData`: each traced contour with at least
 * three corners becomes one closed subpath that starts at the first corner's
 * departure point and visits the following corners cyclically, cutting each
 * rounded corner with a line to its arrival point and an arc to its departure
 * point; diagonal bridges follow when enabled.
 */
module Render {
  import opened Wrappers
  import opened Grids
  import opened Boundary
  import opened Contours
  import opened Corners
  import opened PathCommands
  import opened Bridges

  /** The arguments of `generateSVGPathData` after the grid. */
  datatype RenderSettings = RenderSettings(
    radius: real,
    scaleX: real,
    scaleY: real,
    innerRadius: real,
    lookup: Option<(int, int) -> CellSettings>,
    diagonalBridge: bool,
    bridgeRadius: real)

  /** The defaults of the optional arguments: unit scale, no inner radius, no lookup, no bridges, bridge radius 0.35. */
  function DefaultSettings(radius: real): RenderSettings {
    RenderSettings(radius, 1.0, 1.0, 0.0, None, false, 0.35)
  }

  function RadiusOf(g: Grid, s: RenderSettings, k: Corner): real {
    CornerRadius(g, s.radius, s.innerRadius, s.lookup, k)
  }

  /** Where the rounded corner is entered: r back along the incoming direction, scaled. */
  function Arrival(k: Corner, r: real, s: RenderSettings): (real, real) {
    ((k.vertex.x as real - k.incoming.dx as real * r) * s.scaleX, (k.vertex.y as real - k.incoming.dy as real * r) * s.scaleY)
  }

  /** Where the rounded corner is left: r along the outgoing direction, scaled. */
  function Departure(k: Corner, r: real, s: RenderSettings): (real, real) {
    ((k.vertex.x as real + k.outgoing.dx as real * r) * s.scaleX, (k.vertex.y as real + k.outgoing.dy as real * r) * s.scaleY)
  }

  function VertexPoint(k: Corner, s: RenderSettings): (real, real) {
    (k.vertex.x as real * s.scaleX, k.vertex.y as real * s.scaleY)
  }

  /** The first point of a subpath: the departure of a rounded first corner, else its vertex. */
  function StartPoint(k: Corner, r: real, s: RenderSettings): (real, real) {
    if r > 0.0 then Departure(k, r, s) else VertexPoint(k, s)
  }

  /**
   * The commands of one corner: line to the arrival and arc to the departure,
   * or a line to the vertex. Either way they end at the point a subpath
   * starting at this corner would start from.
   */
  function CornerCommands(k: Corner, r: real, s: RenderSettings): (cmds: seq<Command>)
    ensures |cmds| == (if r > 0.0 then 2 else 1) && cmds[0].Line?
    ensures EndPoint(cmds[|cmds| - 1]) == StartPoint(k, r, s)
    ensures r > 0.0 ==> cmds[1].Arc? && (cmds[1].rx, cmds[1].ry) == ScaledRadii(r, s) && cmds[1].sweep == if k.isConvex then 1 else 0
  {
    if r > 0.0 then
      var a, d, radii := Arrival(k, r, s), Departure(k, r, s), ScaledRadii(r, s);
      [Line(a.0, a.1), Arc(radii.0, radii.1, if k.isConvex then 1 else 0, d.0, d.1)]
    else
      var v := VertexPoint(k, s);
      [Line(v.0, v.1)]
  }

  /** The commands of the loop steps [0, step): corners 1, 2, ..., wrapping round to corner 0. */
  function StepsBefore(g: Grid, s: RenderSettings, corners: seq<Corner>, step: nat): seq<Command>
    requires 0 < |corners| && step <= |corners|
  {
    if step == 0 then []
    else
      var k := corners[step % |corners|];
      StepsBefore(g, s, corners, step - 1) + CornerCommands(k, RadiusOf(g, s, k), s)
  }

  /** The subpath of one contour; empty when it has fewer than three corners. */
  function ContourCommands(g: Grid, s: RenderSettings, contour: seq<Edge>): (cmds: seq<Command>)
    ensures cmds == [] <==> |CornersOf(contour)| < 3
    ensures cmds != [] ==> cmds[0].Move? && cmds[|cmds| - 1] == Close
  {
    var corners := CornersOf(contour);
    if |corners| < 3 then []
    else
      var p := StartPoint(corners[0], RadiusOf(g, s, corners[0]), s);
      [Move(p.0, p.1)] + StepsBefore(g, s, corners, |corners|) + [Close]
  }

  /** One step of the segment loop: the commands of corner c. */
  method EmitCorner(g: Grid, s: RenderSettings, c: Corner) returns (cmds: seq<Command>)
    ensures cmds == CornerCommands(c, RadiusOf(g, s, c), s)
  {
    var cr := GetRadius(g, s.radius, s.innerRadius, s.lookup, c);
    if cr > 0.0 {
      var arr, dep := Arrival(c, cr, s), Departure(c, cr, s);
      var rx, ry := cr * s.scaleX, cr * s.scaleY;
      var sweep := if c.isConvex then 1 else 0;
      cmds := [Line(arr.0, arr.1), Arc(rx, ry, sweep, dep.0, dep.1)];
      assert CornerCommands(c, cr, s)[1] == cmds[1];
    } else {
      var v := VertexPoint(c, s);
      cmds := [Line(v.0, v.1)];
    }
  }

  /** The body of the contour loop of `generateSVGPathData`. */
  method EmitContour(g: Grid, s: RenderSettings, contour: seq<Edge>) returns (segs: seq<Command>)
    ensures segs == ContourCommands(g, s, contour)
  {
    var corners := ExtractCorners(contour);
    if |corners| < 3 {
      return [];
    }
    var first := corners[0];
    var firstR := GetRadius(g, s.radius, s.innerRadius, s.lookup, first);
    var firstDep := if firstR > 0.0 then Departure(first, firstR, s) else VertexPoint(first, s);
    segs := [Move(firstDep.0, firstDep.1)];
    for step := 0 to |corners|
      invariant segs == [Move(firstDep.0, firstDep.1)] + StepsBefore(g, s, corners, step)
    {
      var idx := (step + 1) % |corners|;
      var c := corners[idx];
      var cmds := EmitCorner(g, s, c);
      Associative([Move(firstDep.0, firstDep.1)], StepsBefore(g, s, corners, step), cmds);
      segs := segs + cmds;
    }
    segs := segs + [Close];
  }

  /** The subpaths of the contours, in order. */
  function ContoursCommands(g: Grid, s: RenderSettings, contours: seq<seq<Edge>>): seq<Command> {
    if contours == [] then []
    else ContoursCommands(g, s, contours[..|contours| - 1]) + ContourCommands(g, s, contours[|contours| - 1])
  }

  /** The contour loop of `generateSVGPathData`: the subpaths joined in order. */
  method EmitContours(g: Grid, s: RenderSettings, contours: seq<seq<Edge>>) returns (path: seq<Command>)
    ensures path == ContoursCommands(g, s, contours)
  {
    path := [];
    for i := 0 to |contours|
      invariant path == ContoursCommands(g, s, contours[..i])
    {
      var segs := EmitContour(g, s, contours[i]);
      assert contours[..i + 1][..i] == contours[..i];
      path := path + segs;
    }
    assert contours[..|contours|] == contours;
  }

  /** The bridge commands appended when bridges are enabled. */
  function BridgeCommands(g: Grid, s: RenderSettings): seq<Command> {
    if !s.diagonalBridge || Clamp(s.bridgeRadius) == 0.0 then []
    else RenderCrescents(GridCrescents(g), Clamp(s.bridgeRadius), s.scaleX, s.scaleY)
  }

  /**
   * `generateSVGPathData`: nothing when the grid has no boundary edge;
   * otherwise the subpaths of the traced contours, in order, followed by the
   * bridge crescents when bridges are enabled. The ghost results are the
   * complete trace the contours come from.
   */
  method GenerateSVGPathData(g: Grid, s: RenderSettings)
    returns (path: seq<Command>, ghost walks: seq<seq<Edge>>, ghost seeds: seq<nat>)
    ensures BoundaryEdges(g) == [] ==> path == []
    ensures NoneFilled(g) ==> path == []
    ensures BoundaryEdges(g) != [] ==>
      && IsTrace(BoundaryEdges(g), walks, seeds)
      && path == ContoursCommands(g, s, LongWalks(walks)) + BridgeCommands(g, s)
  {
    var edges := FindBoundaryEdges(g);
    NoEdgesIffNoneFilled(g);
    if |edges| == 0 {
      return [], [], [];
    }
    var contours;
    contours, walks, seeds := TraceContours(edges);
    path := EmitContours(g, s, contours);
    if s.diagonalBridge {
      var bridgePaths := DiagonalBridgePaths(g, s.bridgeRadius, s.scaleX, s.scaleY);
      path := path + bridgePaths;
    } else {
      assert BridgeCommands(g, s) == [];
    }
  }

  /** The point a drawing command ends at; closepath is given the origin, as it has none of its own. */
  function EndPoint(cmd: Command): (real, real) {
    match cmd
    case Move(x, y) => (x, y)
    case Line(x, y) => (x, y)
    case Arc(_, _, _, x, y) => (x, y)
    case Close => (0.0, 0.0)
  }

  /**
   * A subpath is drawn exactly for a contour with at least three corners; it
   * opens with a move to the first corner's start point and its last drawing
   * command, the one for corner 0 at the end of the cycle, ends at that same
   * point before the closepath.
   */
  lemma ContourCommandsCloses(g: Grid, s: RenderSettings, contour: seq<Edge>)
    ensures ContourCommands(g, s, contour) == [] <==> |CornersOf(contour)| < 3
    ensures |CornersOf(contour)| >= 3 ==>
      var cmds, k := ContourCommands(g, s, contour), CornersOf(contour)[0];
      var p := StartPoint(k, RadiusOf(g, s, k), s);
      && |cmds| >= 5
      && cmds[0] == Move(p.0, p.1)
      && cmds[|cmds| - 1] == Close
      && EndPoint(cmds[|cmds| - 2]) == p
  {
    var corners := CornersOf(contour);
    if |corners| >= 3 {
      var n := |corners|;
      var k := corners[0];
      StepsLength(g, s, corners, n);
      var steps := StepsBefore(g, s, corners, n);
      var last := CornerCommands(k, RadiusOf(g, s, k), s);
      assert n % n == 0;
      assert steps == StepsBefore(g, s, corners, n - 1) + last;
      assert steps[|steps| - 1] == last[|last| - 1];
    }
  }

  /** Every corner contributes one or two commands. */
  lemma {:induction false} StepsLength(g: Grid, s: RenderSettings, corners: seq<Corner>, step: nat)
    requires 0 < |corners| && step <= |corners|
    ensures step <= |StepsBefore(g, s, corners, step)| <= 2 * step
  {
    if step > 0 {
      StepsLength(g, s, corners, step - 1);
    }
  }

  /** An arc whose radii are the scale factors times one radius in (0, 0.5], with a 0/1 sweep flag. */
  ghost predicate BoundedArc(cmd: Command, s: RenderSettings) {
    cmd.Arc? ==> cmd.sweep <= 1 && exists r: real :: 0.0 < r <= 0.5 && (cmd.rx, cmd.ry) == ScaledRadii(r, s)
  }

  /** An arc radius in cells, in the two scaled axes. */
  function ScaledRadii(r: real, s: RenderSettings): (real, real) {
    (r * s.scaleX, r * s.scaleY)
  }

  lemma {:induction false} StepsArcsBounded(g: Grid, s: RenderSettings, corners: seq<Corner>, step: nat)
    requires 0 < |corners| && step <= |corners|
    ensures forall cmd :: cmd in StepsBefore(g, s, corners, step) ==> BoundedArc(cmd, s)
  {
    if step > 0 {
      StepsArcsBounded(g, s, corners, step - 1);
      var k := corners[step % |corners|];
      CornerRadiusSpec(g, s.radius, s.innerRadius, s.lookup, k);
      var r := RadiusOf(g, s, k);
      if r > 0.0 {
        var cmds := CornerCommands(k, r, s);
        assert (cmds[1].rx, cmds[1].ry) == ScaledRadii(r, s);
      }
    }
  }

  /**
   * Every arc of a subpath has a radius in (0, 0.5] cells in both scaled axes,
   * and the sweep flag is 0 or 1.
   */
  lemma ContourArcsBounded(g: Grid, s: RenderSettings, contour: seq<Edge>)
    ensures forall cmd :: cmd in ContourCommands(g, s, contour) ==> BoundedArc(cmd, s)
  {
    var corners := CornersOf(contour);
    if |corners| >= 3 {
      StepsArcsBounded(g, s, corners, |corners|);
    }
  }
}

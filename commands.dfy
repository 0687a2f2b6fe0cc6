/**
 * Path data as a list of drawing commands instead of the SVG text the
 * renderer concatenates: moveto, lineto, elliptical arc (radii, sweep flag,
 * end point) and closepath, over real coordinates.
 */
module PathCommands {

  datatype Command =
    | Move(x: real, y: real)
    | Line(x: real, y: real)
    | Arc(rx: real, ry: real, sweep: nat, x: real, y: real)
    | Close
}

/**
 * Diagonal bridges (`generateDiagonalBridgePaths`): at every interior vertex
 * where exactly one diagonal pair of the four surrounding cells is filled and
 * the other pair is empty, two small closed pieces of radius br are drawn in
 * the two empty cells at that vertex, so the two filled cells read as joined.
 * The piece in the upper empty cell (NE or NW) is a quarter disc centred on
 * the vertex; the piece in the lower empty cell (SW or SE) keeps the sweep
 * flag of its partner, so its arc is centred br below and br to the side of
 * the vertex, a concave fillet between the two filled cells.
 */
module Bridges {
  import opened Grids
  import opened Boundary
  import opened PathCommands
  import opened Corners

  /** The empty cell a crescent sits in, seen from its vertex. */
  datatype Quadrant = NE | SW | NW | SE

  /** A crescent at vertex (vx, vy), in the cell on the given side of it. */
  datatype Crescent = Crescent(vx: int, vy: int, quadrant: Quadrant)

  /** Up-left and down-right filled, up-right and down-left empty. */
  predicate DiagonalNWSE(g: Grid, vx: int, vy: int) {
    Filled(g, vy - 1, vx - 1) && Filled(g, vy, vx) && !Filled(g, vy - 1, vx) && !Filled(g, vy, vx - 1)
  }

  /** Up-right and down-left filled, up-left and down-right empty. */
  predicate DiagonalNESW(g: Grid, vx: int, vy: int) {
    Filled(g, vy - 1, vx) && Filled(g, vy, vx - 1) && !Filled(g, vy - 1, vx - 1) && !Filled(g, vy, vx)
  }

  /** The crescents of one vertex: NE and SW for a NW-SE bridge, NW and SE for a NE-SW one. */
  function CrescentsAt(g: Grid, vx: int, vy: int): seq<Crescent> {
    (if DiagonalNWSE(g, vx, vy) then [Crescent(vx, vy, NE), Crescent(vx, vy, SW)] else [])
    + (if DiagonalNESW(g, vx, vy) then [Crescent(vx, vy, NW), Crescent(vx, vy, SE)] else [])
  }

  /** The crescents of the vertices (1, vy) .. (vx - 1, vy) of one row, in order. */
  function RowCrescents(g: Grid, vy: int, vx: nat): seq<Crescent> {
    if vx <= 1 then [] else RowCrescents(g, vy, vx - 1) + CrescentsAt(g, vx - 1, vy)
  }

  /** The crescents of the interior vertex rows 1 .. vy - 1, in scan order. */
  function CrescentsBefore(g: Grid, vy: nat): seq<Crescent> {
    if vy <= 1 then [] else CrescentsBefore(g, vy - 1) + RowCrescents(g, vy - 1, Cols(g))
  }

  /** Every crescent of the grid, row by row. */
  function GridCrescents(g: Grid): seq<Crescent> {
    CrescentsBefore(g, |g|)
  }

  /**
   * The path of one piece: a move to the vertex, a straight side of length
   * br, an arc of radius br (sweep 1 for NE and SW, 0 for NW and SE) and a
   * closepath back to the vertex.
   */
  function CrescentCommands(k: Crescent, br: real, sx: real, sy: real): (cmds: seq<Command>)
    ensures |cmds| == 4 && cmds[3] == Close
    ensures cmds[0] == Move(k.vx as real * sx, k.vy as real * sy)
    ensures cmds[1].Line? && cmds[2].Arc? && cmds[2].rx == br * sx && cmds[2].ry == br * sy
    ensures cmds[2].sweep == if k.quadrant == NE || k.quadrant == SW then 1 else 0
  {
    var x, y := k.vx as real, k.vy as real;
    var start := Move(k.vx as real * sx, k.vy as real * sy);
    match k.quadrant
    case NE => [start, Line(x * sx, (y - br) * sy), Arc(br * sx, br * sy, 1, (x + br) * sx, y * sy), Close]
    case SW => [start, Line((x - br) * sx, y * sy), Arc(br * sx, br * sy, 1, x * sx, (y + br) * sy), Close]
    case NW => [start, Line(x * sx, (y - br) * sy), Arc(br * sx, br * sy, 0, (x - br) * sx, y * sy), Close]
    case SE => [start, Line((x + br) * sx, y * sy), Arc(br * sx, br * sy, 0, x * sx, (y + br) * sy), Close]
  }

  function RenderCrescents(ks: seq<Crescent>, br: real, sx: real, sy: real): seq<Command> {
    if ks == [] then [] else RenderCrescents(ks[..|ks| - 1], br, sx, sy) + CrescentCommands(ks[|ks| - 1], br, sx, sy)
  }

  lemma {:induction false} RenderAppend(a: seq<Crescent>, b: seq<Crescent>, br: real, sx: real, sy: real)
    ensures RenderCrescents(a + b, br, sx, sy) == RenderCrescents(a, br, sx, sy) + RenderCrescents(b, br, sx, sy)
    decreases |b|
  {
    if b != [] {
      var m := |b| - 1;
      RenderAppend(a, b[..m], br, sx, sy);
      assert (a + b)[..|a + b| - 1] == a + b[..m];
    } else {
      assert a + b == a;
    }
  }

  /** The path data of one vertex's crescents. */
  method VertexBridges(g: Grid, vx: int, vy: int, br: real, sx: real, sy: real) returns (parts: seq<Command>)
    ensures parts == RenderCrescents(CrescentsAt(g, vx, vy), br, sx, sy)
  {
    var tl := 0 <= vy - 1 < |g| && 0 <= vx - 1 < Cols(g) && vx - 1 < |g[vy - 1]| && g[vy - 1][vx - 1];
    var tr := 0 <= vy - 1 < |g| && 0 <= vx < Cols(g) && vx < |g[vy - 1]| && g[vy - 1][vx];
    var bl := 0 <= vy < |g| && 0 <= vx - 1 < Cols(g) && vx - 1 < |g[vy]| && g[vy][vx - 1];
    var br2 := 0 <= vy < |g| && 0 <= vx < Cols(g) && vx < |g[vy]| && g[vy][vx];
    parts := [];
    var a := if tl && br2 && !tr && !bl then [Crescent(vx, vy, NE), Crescent(vx, vy, SW)] else [];
    if tl && br2 && !tr && !bl {
      parts := parts + CrescentCommands(Crescent(vx, vy, NE), br, sx, sy);
      parts := parts + CrescentCommands(Crescent(vx, vy, SW), br, sx, sy);
      assert a[..1] == [a[0]];
    }
    var b := if tr && bl && !tl && !br2 then [Crescent(vx, vy, NW), Crescent(vx, vy, SE)] else [];
    if tr && bl && !tl && !br2 {
      parts := parts + CrescentCommands(Crescent(vx, vy, NW), br, sx, sy);
      parts := parts + CrescentCommands(Crescent(vx, vy, SE), br, sx, sy);
      assert b[..1] == [b[0]];
    }
    RenderAppend(a, b, br, sx, sy);
  }

  /** The inner loop of `generateDiagonalBridgePaths`: the crescents of vertex row vy. */
  method RowBridges(g: Grid, vy: int, br: real, sx: real, sy: real) returns (parts: seq<Command>)
    ensures parts == RenderCrescents(RowCrescents(g, vy, Cols(g)), br, sx, sy)
  {
    var cols := Cols(g);
    parts := [];
    var vx := 1;
    while vx < cols
      invariant 1 <= vx && (vx <= cols || vx == 1)
      invariant parts == RenderCrescents(RowCrescents(g, vy, vx), br, sx, sy)
    {
      var more := VertexBridges(g, vx, vy, br, sx, sy);
      RenderAppend(RowCrescents(g, vy, vx), CrescentsAt(g, vx, vy), br, sx, sy);
      parts := parts + more;
      vx := vx + 1;
    }
    assert RowCrescents(g, vy, vx) == RowCrescents(g, vy, cols);
  }

  /**
   * `generateDiagonalBridgePaths`: with the bridge radius clamped to [0, 0.5],
   * nothing for radius 0, otherwise the crescents of every candidate vertex,
   * scanned row by row.
   */
  method DiagonalBridgePaths(g: Grid, bridgeRadius: real, sx: real, sy: real) returns (parts: seq<Command>)
    ensures parts == if Clamp(bridgeRadius) == 0.0 then [] else RenderCrescents(GridCrescents(g), Clamp(bridgeRadius), sx, sy)
  {
    var br := Clamp(bridgeRadius);
    if br == 0.0 {
      return [];
    }
    parts := ScanBridges(g, br, sx, sy);
    RowsRenderedSpec(g, |g|, br, sx, sy);
  }

  /** The path data of the vertex rows 1 .. vy - 1, row by row. */
  function RowsRendered(g: Grid, vy: nat, br: real, sx: real, sy: real): seq<Command> {
    if vy <= 1 then [] else RowsRendered(g, vy - 1, br, sx, sy) + RenderCrescents(RowCrescents(g, vy - 1, Cols(g)), br, sx, sy)
  }

  /** Rendering row by row renders the crescents of those rows in scan order. */
  lemma {:induction false} RowsRenderedSpec(g: Grid, vy: nat, br: real, sx: real, sy: real)
    ensures RowsRendered(g, vy, br, sx, sy) == RenderCrescents(CrescentsBefore(g, vy), br, sx, sy)
  {
    if vy > 1 {
      RowsRenderedSpec(g, vy - 1, br, sx, sy);
      RenderAppend(CrescentsBefore(g, vy - 1), RowCrescents(g, vy - 1, Cols(g)), br, sx, sy);
    }
  }

  /** The vertex-row loop of `generateDiagonalBridgePaths`, for a clamped radius br. */
  method ScanBridges(g: Grid, br: real, sx: real, sy: real) returns (parts: seq<Command>)
    ensures parts == RowsRendered(g, |g|, br, sx, sy)
  {
    var rows := |g|;
    parts := [];
    var vy := 1;
    while vy < rows
      invariant 1 <= vy && (vy <= rows || vy == 1)
      invariant parts == RowsRendered(g, vy, br, sx, sy)
    {
      parts := AppendRow(g, vy, br, sx, sy, parts);
      vy := vy + 1;
    }
    SameRowsRendered(g, vy, rows, br, sx, sy);
  }

  /** One pass of the vertex-row loop: the crescents of row vy follow those of the rows before. */
  method AppendRow(g: Grid, vy: nat, br: real, sx: real, sy: real, parts: seq<Command>) returns (parts': seq<Command>)
    requires vy >= 1 && parts == RowsRendered(g, vy, br, sx, sy)
    ensures parts' == RowsRendered(g, vy + 1, br, sx, sy)
  {
    var row := RowBridges(g, vy, br, sx, sy);
    parts' := parts + row;
  }

  /** Where the row loop stops: at the row count, or at once when there is at most one row. */
  lemma SameRowsRendered(g: Grid, vy: nat, rows: nat, br: real, sx: real, sy: real)
    requires vy == rows || (vy == 1 && rows <= 1)
    ensures RowsRendered(g, vy, br, sx, sy) == RowsRendered(g, rows, br, sx, sy)
  {
  }

  /** A crescent at vertex (vx, vy) of one of its four quadrants: the crescent for the vertex that quadrant specifies. */
  predicate IsCandidate(g: Grid, k: Crescent) {
    if k.quadrant == NE || k.quadrant == SW then DiagonalNWSE(g, k.vx, k.vy) else DiagonalNESW(g, k.vx, k.vy)
  }

  /** At most one diagonal holds at a vertex, so a vertex has two crescents or none. */
  lemma CrescentsAtSpec(g: Grid, vx: int, vy: int)
    ensures !(DiagonalNWSE(g, vx, vy) && DiagonalNESW(g, vx, vy))
    ensures |CrescentsAt(g, vx, vy)| == if DiagonalNWSE(g, vx, vy) || DiagonalNESW(g, vx, vy) then 2 else 0
    ensures forall q :: Crescent(vx, vy, q) in CrescentsAt(g, vx, vy) <==> IsCandidate(g, Crescent(vx, vy, q))
  {
  }

  /** A crescent is one of a vertex's exactly when it sits at that vertex and matches the vertex's pattern. */
  lemma CrescentsAtMember(g: Grid, vx: int, vy: int, k: Crescent)
    ensures k in CrescentsAt(g, vx, vy) <==> k.vx == vx && k.vy == vy && IsCandidate(g, k)
  {
    CrescentsAtSpec(g, vx, vy);
    if k.vx == vx && k.vy == vy {
      assert k == Crescent(vx, vy, k.quadrant);
    }
  }

  lemma {:induction false} RowCrescentsIff(g: Grid, vy: int, vx: nat, k: Crescent)
    ensures k in RowCrescents(g, vy, vx) <==> k.vy == vy && 1 <= k.vx < vx && IsCandidate(g, k)
  {
    if vx > 1 {
      RowCrescentsIff(g, vy, vx - 1, k);
      CrescentsAtMember(g, vx - 1, vy, k);
    }
  }

  lemma {:induction false} CrescentsBeforeIff(g: Grid, vy: nat, k: Crescent)
    ensures k in CrescentsBefore(g, vy) <==> 1 <= k.vy < vy && 1 <= k.vx < Cols(g) && IsCandidate(g, k)
  {
    if vy > 1 {
      CrescentsBeforeIff(g, vy - 1, k);
      RowCrescentsIff(g, vy - 1, Cols(g), k);
    }
  }

  /**
   * Crescents are drawn exactly at the interior vertices (1 <= vy < rows,
   * 1 <= vx < cols) where one diagonal pair is filled and the other empty:
   * NE and SW for a NW-SE pair, NW and SE for a NE-SW pair.
   */
  lemma GridCrescentsIff(g: Grid, k: Crescent)
    ensures k in GridCrescents(g) <==> 1 <= k.vy < |g| && 1 <= k.vx < Cols(g) && IsCandidate(g, k)
  {
    CrescentsBeforeIff(g, |g|, k);
  }

  lemma {:induction false} NoneFilledNoRowCrescents(g: Grid, vy: int, vx: nat)
    requires NoneFilled(g)
    ensures RowCrescents(g, vy, vx) == []
  {
    if vx > 1 {
      NoneFilledNoRowCrescents(g, vy, vx - 1);
      assert !Filled(g, vy - 1, vx - 2) && !Filled(g, vy - 1, vx - 1);
    }
  }

  /** An empty grid has no bridge. */
  lemma {:induction false} NoneFilledNoCrescents(g: Grid, vy: nat)
    requires NoneFilled(g)
    ensures CrescentsBefore(g, vy) == []
  {
    if vy > 1 {
      NoneFilledNoCrescents(g, vy - 1);
      NoneFilledNoRowCrescents(g, vy - 1, Cols(g));
    }
  }

  /** The cell a crescent sits in. */
  function QuadrantCell(k: Crescent): Cell {
    match k.quadrant
    case NE => Cell(k.vy - 1, k.vx)
    case SW => Cell(k.vy, k.vx - 1)
    case NW => Cell(k.vy - 1, k.vx - 1)
    case SE => Cell(k.vy, k.vx)
  }

  /** Point (x, y) lies in the unit square of cell a (column a.c, row a.r). */
  predicate InCellSquare(a: Cell, x: real, y: real) {
    a.c as real <= x <= a.c as real + 1.0 && a.r as real <= y <= a.r as real + 1.0
  }

  /**
   * Each crescent of the grid sits in an empty cell touching its vertex: at
   * unit scale every command end point of the crescent's path lies in that
   * cell's square, and its arc radius is the clamped bridge radius.
   */
  lemma CrescentInEmptyCell(g: Grid, k: Crescent, br: real)
    requires k in GridCrescents(g) && 0.0 <= br <= 0.5
    ensures !Filled(g, QuadrantCell(k).r, QuadrantCell(k).c)
    ensures forall cmd :: cmd in CrescentCommands(k, br, 1.0, 1.0) && !cmd.Close? ==>
      InCellSquare(QuadrantCell(k), cmd.x, cmd.y)
    ensures forall cmd :: cmd in CrescentCommands(k, br, 1.0, 1.0) && cmd.Arc? ==> cmd.rx == br && cmd.ry == br
  {
    GridCrescentsIff(g, k);
  }
}

/**
 * Boundary extraction (`findBoundaryEdges`): every side of a filled cell that
 * faces an unfilled or out-of-grid neighbour becomes one unit edge, oriented
 * so that the filled cell lies on the right of the direction of travel
 * (x grows to the right, y grows downwards).
 */
module Boundary {
  import opened Grids

  /** A grid-line intersection: x is a column line, y a row line. */
  datatype Point = Point(x: int, y: int)

  /** A direction vector. */
  datatype Vec = Vec(dx: int, dy: int)

  /** A cell coordinate (row, column). */
  datatype Cell = Cell(r: int, c: int)

  /** A unit boundary edge and the filled cell it bounds. */
  datatype Edge = Edge(start: Point, end: Point, dir: Vec, cell: Cell)

  datatype Side = Top | Right | Bottom | Left

  function Translate(p: Point, v: Vec): Point {
    Point(p.x + v.dx, p.y + v.dy)
  }

  /** One of the four unit directions. */
  predicate Cardinal(v: Vec) {
    || v == Vec(1, 0) || v == Vec(0, 1) || v == Vec(-1, 0) || v == Vec(0, -1)
  }

  /** The cell across side s of cell (r, c). */
  function Neighbour(r: int, c: int, s: Side): Cell {
    match s
    case Top => Cell(r - 1, c)
    case Right => Cell(r, c + 1)
    case Bottom => Cell(r + 1, c)
    case Left => Cell(r, c - 1)
  }

  /** Side s of cell (r, c) faces an unfilled or out-of-grid neighbour. */
  predicate Exposed(g: Grid, r: int, c: int, s: Side) {
    var n := Neighbour(r, c, s);
    !Filled(g, n.r, n.c)
  }

  /**
   * The unit edge along side s of cell (r, c): top left to right, right top to
   * bottom, bottom right to left, left bottom to top.
   */
  function SideEdge(r: int, c: int, s: Side): (e: Edge)
    ensures e.end == Translate(e.start, e.dir) && Cardinal(e.dir)
    ensures e.cell == Cell(r, c)
    // the edge's outward normal, its direction turned left, points at the neighbour
    ensures Neighbour(r, c, s) == Cell(r - e.dir.dx, c + e.dir.dy)
  {
    match s
    case Top => Edge(Point(c, r), Point(c + 1, r), Vec(1, 0), Cell(r, c))
    case Right => Edge(Point(c + 1, r), Point(c + 1, r + 1), Vec(0, 1), Cell(r, c))
    case Bottom => Edge(Point(c + 1, r + 1), Point(c, r + 1), Vec(-1, 0), Cell(r, c))
    case Left => Edge(Point(c, r + 1), Point(c, r), Vec(0, -1), Cell(r, c))
  }

  /** The edges one cell contributes, in the order top, right, bottom, left. */
  function CellEdges(g: Grid, r: int, c: int): seq<Edge> {
    if !Filled(g, r, c) then []
    else Part(g, r, c, Top) + Part(g, r, c, Right) + Part(g, r, c, Bottom) + Part(g, r, c, Left)
  }

  /** The edge of side s when that side is exposed, else nothing. */
  function Part(g: Grid, r: int, c: int, s: Side): seq<Edge> {
    if Exposed(g, r, c, s) then [SideEdge(r, c, s)] else []
  }

  /**
   * The edges of every cell before (r, c) in row-major scan order: rows
   * 0 .. r - 1 in full, then cells (r, 0) .. (r, c - 1).
   */
  function EdgesBefore(g: Grid, r: nat, c: nat): seq<Edge>
    decreases r, c
  {
    if c > 0 then EdgesBefore(g, r, c - 1) + CellEdges(g, r, c - 1)
    else if r > 0 then EdgesBefore(g, r - 1, Cols(g))
    else []
  }

  /** The boundary of the whole grid, in the order the source emits it. */
  function BoundaryEdges(g: Grid): seq<Edge> {
    EdgesBefore(g, |g|, 0)
  }

  /** `findBoundaryEdges`: scans rows, then columns, pushing exposed sides. */
  method FindBoundaryEdges(g: Grid) returns (edges: seq<Edge>)
    ensures edges == BoundaryEdges(g)
  {
    var rows := |g|;
    var cols := Cols(g);
    edges := [];
    for r := 0 to rows
      invariant edges == EdgesBefore(g, r, 0)
    {
      for c := 0 to cols
        invariant edges == EdgesBefore(g, r, c)
      {
        if !Filled(g, r, c) {
          continue;
        }
        edges := PushCellEdges(g, r, c, edges);
      }
    }
  }

  /** The body of the scan for one filled cell: push each exposed side. */
  method PushCellEdges(g: Grid, r: int, c: int, edges: seq<Edge>) returns (edges': seq<Edge>)
    requires Filled(g, r, c)
    ensures edges' == edges + CellEdges(g, r, c)
  {
    edges' := edges;
    if Exposed(g, r, c, Top) {
      edges' := edges' + [SideEdge(r, c, Top)];
    }
    assert edges' == edges + Part(g, r, c, Top);
    if Exposed(g, r, c, Right) {
      edges' := edges' + [SideEdge(r, c, Right)];
    }
    assert edges' == edges + Part(g, r, c, Top) + Part(g, r, c, Right);
    if Exposed(g, r, c, Bottom) {
      edges' := edges' + [SideEdge(r, c, Bottom)];
    }
    assert edges' == edges + Part(g, r, c, Top) + Part(g, r, c, Right) + Part(g, r, c, Bottom);
    if Exposed(g, r, c, Left) {
      edges' := edges' + [SideEdge(r, c, Left)];
    }
    Associative(edges, Part(g, r, c, Top), Part(g, r, c, Right));
    Associative(edges, Part(g, r, c, Top) + Part(g, r, c, Right), Part(g, r, c, Bottom));
    Associative(edges, Part(g, r, c, Top) + Part(g, r, c, Right) + Part(g, r, c, Bottom), Part(g, r, c, Left));
  }

  lemma Associative<T>(a: seq<T>, b: seq<T>, c: seq<T>)
    ensures a + b + c == a + (b + c)
  {
  }

  /** `edgeKey`: an edge is identified by its start and end points. */
  function EdgeKey(e: Edge): (Point, Point) {
    (e.start, e.end)
  }

  /** e is the edge of some exposed side of some filled cell. */
  ghost predicate IsBoundaryEdge(g: Grid, e: Edge) {
    exists r, c, s :: Filled(g, r, c) && Exposed(g, r, c, s) && e == SideEdge(r, c, s)
  }

  /** Cell (r', c') comes before cell (r, c) in row-major order. */
  predicate ScanBefore(r': int, c': int, r: int, c: int) {
    r' < r || (r' == r && c' < c)
  }

  lemma CellEdgesIff(g: Grid, r: int, c: int, e: Edge)
    ensures e in CellEdges(g, r, c) <==> Filled(g, r, c) && exists s :: Exposed(g, r, c, s) && e == SideEdge(r, c, s)
  {
    if Filled(g, r, c) {
      var t, ri, b, l := Exposed(g, r, c, Top), Exposed(g, r, c, Right), Exposed(g, r, c, Bottom), Exposed(g, r, c, Left);
      CellEdgesAsSides(g, r, c);
      SidesMembers(r, c, t, ri, b, l, e);
      if exists s :: Exposed(g, r, c, s) && e == SideEdge(r, c, s) {
        var s :| Exposed(g, r, c, s) && e == SideEdge(r, c, s);
        assert s == Top || s == Right || s == Bottom || s == Left;
      }
    }
  }

  /** The edges of a filled cell are the selection of its exposed sides. */
  lemma CellEdgesAsSides(g: Grid, r: int, c: int)
    requires Filled(g, r, c)
    ensures CellEdges(g, r, c) ==
      Opt(Exposed(g, r, c, Top), r, c, Top) + Opt(Exposed(g, r, c, Right), r, c, Right) +
      Opt(Exposed(g, r, c, Bottom), r, c, Bottom) + Opt(Exposed(g, r, c, Left), r, c, Left)
  {
    assert Part(g, r, c, Top) == Opt(Exposed(g, r, c, Top), r, c, Top);
    assert Part(g, r, c, Right) == Opt(Exposed(g, r, c, Right), r, c, Right);
    assert Part(g, r, c, Bottom) == Opt(Exposed(g, r, c, Bottom), r, c, Bottom);
    assert Part(g, r, c, Left) == Opt(Exposed(g, r, c, Left), r, c, Left);
  }

  /** The members of a selection of sides. */
  lemma SidesMembers(r: int, c: int, t: bool, ri: bool, b: bool, l: bool, e: Edge)
    ensures e in Opt(t, r, c, Top) + Opt(ri, r, c, Right) + Opt(b, r, c, Bottom) + Opt(l, r, c, Left) <==>
      || (t && e == SideEdge(r, c, Top))
      || (ri && e == SideEdge(r, c, Right))
      || (b && e == SideEdge(r, c, Bottom))
      || (l && e == SideEdge(r, c, Left))
  {
  }

  /** e is the edge of an exposed side of a filled cell scanned before (r, c). */
  ghost predicate EmittedBefore(g: Grid, r: int, c: int, e: Edge) {
    exists r', c', s :: ScanBefore(r', c', r, c) && Filled(g, r', c') && Exposed(g, r', c', s) && e == SideEdge(r', c', s)
  }

  /** Scanning one more cell of a row adds that cell's edges. */
  lemma EmittedCellStep(g: Grid, r: int, c: int, e: Edge)
    ensures EmittedBefore(g, r, c + 1, e) <==> EmittedBefore(g, r, c, e) || e in CellEdges(g, r, c)
  {
    if EmittedBefore(g, r, c + 1, e) {
      EmittedLastCell(g, r, c, e);
    }
    if e in CellEdges(g, r, c) {
      EmittedThisCell(g, r, c, e);
    }
    if EmittedBefore(g, r, c, e) {
      var r', c', s :| ScanBefore(r', c', r, c) && Filled(g, r', c') && Exposed(g, r', c', s) && e == SideEdge(r', c', s);
      assert ScanBefore(r', c', r, c + 1);
    }
  }

  /** An edge scanned before (r, c + 1) but not before (r, c) is an edge of cell (r, c). */
  lemma EmittedLastCell(g: Grid, r: int, c: int, e: Edge)
    requires EmittedBefore(g, r, c + 1, e)
    ensures EmittedBefore(g, r, c, e) || e in CellEdges(g, r, c)
  {
    var r', c', s :| ScanBefore(r', c', r, c + 1) && Filled(g, r', c') && Exposed(g, r', c', s) && e == SideEdge(r', c', s);
    if !ScanBefore(r', c', r, c) {
      assert r' == r && c' == c;
      CellEdgesIff(g, r, c, e);
    }
  }

  /** An edge of cell (r, c) is scanned before (r, c + 1). */
  lemma EmittedThisCell(g: Grid, r: int, c: int, e: Edge)
    requires e in CellEdges(g, r, c)
    ensures EmittedBefore(g, r, c + 1, e)
  {
    CellEdgesIff(g, r, c, e);
    var s :| Exposed(g, r, c, s) && e == SideEdge(r, c, s);
    assert ScanBefore(r, c, r, c + 1);
  }

  /** The cells past the column count are never filled, so a finished row adds nothing more. */
  lemma EmittedRowStep(g: Grid, r: int, e: Edge)
    ensures EmittedBefore(g, r + 1, 0, e) <==> EmittedBefore(g, r, Cols(g), e)
  {
    if EmittedBefore(g, r + 1, 0, e) {
      var r', c', s :| ScanBefore(r', c', r + 1, 0) && Filled(g, r', c') && Exposed(g, r', c', s) && e == SideEdge(r', c', s);
      assert ScanBefore(r', c', r, Cols(g));
    }
  }

  lemma {:induction false} EdgesBeforeIff(g: Grid, r: nat, c: nat, e: Edge)
    ensures e in EdgesBefore(g, r, c) <==> EmittedBefore(g, r, c, e)
    decreases r, c
  {
    if c > 0 {
      EdgesBeforeIff(g, r, c - 1, e);
      IffCellStep(g, r, c - 1, e);
    } else if r > 0 {
      EdgesBeforeIff(g, r - 1, Cols(g), e);
      IffRowStep(g, r - 1, e);
    } else {
      IffStart(g, e);
    }
  }

  lemma IffCellStep(g: Grid, r: nat, c: nat, e: Edge)
    requires e in EdgesBefore(g, r, c) <==> EmittedBefore(g, r, c, e)
    ensures e in EdgesBefore(g, r, c + 1) <==> EmittedBefore(g, r, c + 1, e)
  {
    EmittedCellStep(g, r, c, e);
  }

  lemma IffRowStep(g: Grid, r: nat, e: Edge)
    requires e in EdgesBefore(g, r, Cols(g)) <==> EmittedBefore(g, r, Cols(g), e)
    ensures e in EdgesBefore(g, r + 1, 0) <==> EmittedBefore(g, r + 1, 0, e)
  {
    EmittedRowStep(g, r, e);
  }

  lemma IffStart(g: Grid, e: Edge)
    ensures e !in EdgesBefore(g, 0, 0) && !EmittedBefore(g, 0, 0, e)
  {
  }

  /** The scan emits exactly the exposed sides of the filled cells. */
  lemma BoundaryEdgesIff(g: Grid, e: Edge)
    ensures e in BoundaryEdges(g) <==> IsBoundaryEdge(g, e)
  {
    EdgesBeforeIff(g, |g|, 0, e);
  }

  /**
   * Every boundary edge is a unit step in a cardinal direction, comes from a
   * filled cell, and has an unfilled or out-of-grid cell on its left.
   */
  lemma BoundaryEdgeShape(g: Grid, e: Edge)
    requires e in BoundaryEdges(g)
    ensures e.end == Translate(e.start, e.dir) && Cardinal(e.dir)
    ensures Filled(g, e.cell.r, e.cell.c)
    ensures !Filled(g, e.cell.r - e.dir.dx, e.cell.c + e.dir.dy)
  {
    BoundaryEdgesIff(g, e);
    var r, c, s :| Filled(g, r, c) && Exposed(g, r, c, s) && e == SideEdge(r, c, s);
  }

  /** Start and end determine the side and the cell. */
  lemma SideEdgeKeyInjective(r1: int, c1: int, s1: Side, r2: int, c2: int, s2: Side)
    requires EdgeKey(SideEdge(r1, c1, s1)) == EdgeKey(SideEdge(r2, c2, s2))
    ensures r1 == r2 && c1 == c2 && s1 == s2
  {
  }

  /** Two boundary edges with the same key are the same edge. */
  lemma BoundaryKeyDeterminesEdge(g: Grid, e1: Edge, e2: Edge)
    requires e1 in BoundaryEdges(g) && e2 in BoundaryEdges(g)
    requires EdgeKey(e1) == EdgeKey(e2)
    ensures e1 == e2
  {
    BoundaryEdgesIff(g, e1);
    BoundaryEdgesIff(g, e2);
    var r1, c1, s1 :| Filled(g, r1, c1) && Exposed(g, r1, c1, s1) && e1 == SideEdge(r1, c1, s1);
    var r2, c2, s2 :| Filled(g, r2, c2) && Exposed(g, r2, c2, s2) && e2 == SideEdge(r2, c2, s2);
    SideEdgeKeyInjective(r1, c1, s1, r2, c2, s2);
  }

  ghost predicate NoDup<T>(s: seq<T>) {
    forall i, j :: 0 <= i < j < |s| ==> s[i] != s[j]
  }

  lemma NoDupAppend<T>(a: seq<T>, b: seq<T>)
    requires NoDup(a) && NoDup(b)
    requires forall i, j :: 0 <= i < |a| && 0 <= j < |b| ==> a[i] != b[j]
    ensures NoDup(a + b)
  {
    forall i, j | 0 <= i < j < |a + b|
      ensures (a + b)[i] != (a + b)[j]
    {
      if j >= |a| && i < |a| {
        assert (a + b)[i] == a[i] && (a + b)[j] == b[j - |a|];
      }
    }
  }

  /** The edge of side s when `present`, else nothing. */
  function Opt(present: bool, r: int, c: int, s: Side): seq<Edge> {
    if present then [SideEdge(r, c, s)] else []
  }

  /** Any selection of the four sides of one cell, in order, repeats no edge and stays in that cell. */
  lemma SidesNoDup(r: int, c: int, t: bool, ri: bool, b: bool, l: bool)
    ensures var es := Opt(t, r, c, Top) + Opt(ri, r, c, Right) + Opt(b, r, c, Bottom) + Opt(l, r, c, Left);
      && NoDup(es)
      && forall i :: 0 <= i < |es| ==> es[i].cell == Cell(r, c)
  {
  }

  lemma CellEdgesNoDup(g: Grid, r: int, c: int)
    ensures NoDup(CellEdges(g, r, c))
    ensures forall i :: 0 <= i < |CellEdges(g, r, c)| ==> CellEdges(g, r, c)[i].cell == Cell(r, c)
  {
    if Filled(g, r, c) {
      CellEdgesAsSides(g, r, c);
      SidesNoDup(r, c, Exposed(g, r, c, Top), Exposed(g, r, c, Right), Exposed(g, r, c, Bottom), Exposed(g, r, c, Left));
    }
  }

  /** Every edge of es belongs to a cell scanned before (r, c). */
  ghost predicate CellsBefore(es: seq<Edge>, r: int, c: int) {
    forall i :: 0 <= i < |es| ==> ScanBefore(es[i].cell.r, es[i].cell.c, r, c)
  }

  /** Appending the edges of cell (r, c) to edges of earlier cells repeats nothing. */
  lemma AppendCellEdges(a: seq<Edge>, b: seq<Edge>, r: int, c: int)
    requires NoDup(a) && CellsBefore(a, r, c)
    requires NoDup(b) && forall j :: 0 <= j < |b| ==> b[j].cell == Cell(r, c)
    ensures NoDup(a + b) && CellsBefore(a + b, r, c + 1)
  {
    forall i, j | 0 <= i < |a| && 0 <= j < |b|
      ensures a[i] != b[j]
    {
      assert ScanBefore(a[i].cell.r, a[i].cell.c, r, c);
    }
    NoDupAppend(a, b);
    forall i | 0 <= i < |a + b|
      ensures ScanBefore((a + b)[i].cell.r, (a + b)[i].cell.c, r, c + 1)
    {
      if i < |a| {
        assert (a + b)[i] == a[i];
      } else {
        assert (a + b)[i] == b[i - |a|];
      }
    }
  }

  lemma {:induction false} EdgesBeforeNoDup(g: Grid, r: nat, c: nat)
    ensures NoDup(EdgesBefore(g, r, c)) && CellsBefore(EdgesBefore(g, r, c), r, c)
    decreases r, c
  {
    if c > 0 {
      EdgesBeforeNoDup(g, r, c - 1);
      NoDupCellStep(g, r, c - 1);
    } else if r > 0 {
      EdgesBeforeNoDup(g, r - 1, Cols(g));
      CellsBeforeNextRow(EdgesBefore(g, r - 1, Cols(g)), r - 1, Cols(g));
    }
  }

  /** Edges of cells before the end of row r are edges of cells before row r + 1. */
  lemma CellsBeforeNextRow(es: seq<Edge>, r: int, c: int)
    requires CellsBefore(es, r, c)
    ensures CellsBefore(es, r + 1, 0)
  {
  }

  lemma NoDupCellStep(g: Grid, r: nat, c: nat)
    requires NoDup(EdgesBefore(g, r, c)) && CellsBefore(EdgesBefore(g, r, c), r, c)
    ensures NoDup(EdgesBefore(g, r, c + 1)) && CellsBefore(EdgesBefore(g, r, c + 1), r, c + 1)
  {
    CellEdgesNoDup(g, r, c);
    AppendCellEdges(EdgesBefore(g, r, c), CellEdges(g, r, c), r, c);
  }

  /** No edge key occurs twice in the boundary, so keys identify edges. */
  lemma BoundaryKeysDistinct(g: Grid)
    ensures forall i, j :: 0 <= i < j < |BoundaryEdges(g)| ==>
      EdgeKey(BoundaryEdges(g)[i]) != EdgeKey(BoundaryEdges(g)[j])
  {
    var es := BoundaryEdges(g);
    EdgesBeforeNoDup(g, |g|, 0);
    forall i, j | 0 <= i < j < |es|
      ensures EdgeKey(es[i]) != EdgeKey(es[j])
    {
      if EdgeKey(es[i]) == EdgeKey(es[j]) {
        BoundaryKeyDeterminesEdge(g, es[i], es[j]);
      }
    }
  }

  lemma {:induction false} TopmostInColumn(g: Grid, r: int, c: int)
    requires Filled(g, r, c)
    ensures exists r' :: r' <= r && Filled(g, r', c) && Exposed(g, r', c, Top)
    decreases r
  {
    if Filled(g, r - 1, c) {
      TopmostInColumn(g, r - 1, c);
    } else {
      assert Exposed(g, r, c, Top);
    }
  }

  /** The boundary is empty exactly when no cell is filled. */
  lemma NoEdgesIffNoneFilled(g: Grid)
    ensures BoundaryEdges(g) == [] <==> NoneFilled(g)
  {
    if !NoneFilled(g) {
      var r, c :| Filled(g, r, c);
      TopmostInColumn(g, r, c);
      var r' :| r' <= r && Filled(g, r', c) && Exposed(g, r', c, Top);
      BoundaryEdgesIff(g, SideEdge(r', c, Top));
    } else if BoundaryEdges(g) != [] {
      BoundaryEdgesIff(g, BoundaryEdges(g)[0]);
    }
  }

  /** A single filled cell yields the clockwise unit square. */
  lemma SingleCellSquare()
    ensures BoundaryEdges([[true]]) == [
      Edge(Point(0, 0), Point(1, 0), Vec(1, 0), Cell(0, 0)),
      Edge(Point(1, 0), Point(1, 1), Vec(0, 1), Cell(0, 0)),
      Edge(Point(1, 1), Point(0, 1), Vec(-1, 0), Cell(0, 0)),
      Edge(Point(0, 1), Point(0, 0), Vec(0, -1), Cell(0, 0))]
  {
    var g: Grid := [[true]];
    assert !Filled(g, -1, 0) && !Filled(g, 0, 1) && !Filled(g, 1, 0) && !Filled(g, 0, -1);
    assert EdgesBefore(g, 0, 1) == [] + CellEdges(g, 0, 0);
  }
}

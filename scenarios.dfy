/**
 * Small grids worked through the whole renderer: the boundary the scan
 * emits, the walks the tracer takes, the corners and the path. The tracer is
 * deterministic, so every trace of these grids is the one stated here.
 */
module Scenarios {
  import opened Wrappers
  import opened Grids
  import opened Boundary
  import opened Contours
  import opened Corners
  import opened PathCommands
  import opened Render

  /** The step takes `best` when it is unused and turns strictly less than every other unused edge starting there. */
  lemma PreferredCandidate(edges: seq<Edge>, used: set<Key>, cur: Edge, best: Edge)
    requires best in edges && best.start == cur.end && EdgeKey(best) !in used
    requires forall e :: e in edges && e.start == cur.end && EdgeKey(e) !in used && e != best ==>
      TurnPriority(cur.dir, best.dir) < TurnPriority(cur.dir, e.dir)
    ensures ChooseNext(edges, used, cur) == Some(best)
  {
    ChooseNextSpec(edges, used, cur);
  }

  /** The step stops when every edge starting where `cur` ends is used. */
  lemma NoCandidate(edges: seq<Edge>, used: set<Key>, cur: Edge)
    requires forall e :: e in edges && e.start == cur.end ==> EdgeKey(e) in used
    ensures ChooseNext(edges, used, cur) == None
  {
    ChooseNextSpec(edges, used, cur);
  }

  /** One step of a walk: edge i is the step chosen after edge i - 1. */
  lemma StepAt(edges: seq<Edge>, before: set<Key>, walk: seq<Edge>, i: nat)
    requires Steps(edges, before, walk) && 1 <= i < |walk|
    ensures ChooseNext(edges, before + KeySet(walk[..i]), walk[i - 1]) == Some(walk[i])
  {
  }

  /** Two sequences that agree on their first k elements and on element k agree on their first k + 1. */
  lemma ExtendAgreement(w: seq<Edge>, w': seq<Edge>, k: nat)
    requires 1 <= k < |w| && k < |w'| && w[..k] == w'[..k] && w[k] == w'[k]
    ensures w[..k + 1] == w'[..k + 1] && w[k - 1] == w'[k - 1]
  {
    assert w[..k + 1] == w[..k] + [w[k]];
    assert w'[..k + 1] == w'[..k] + [w'[k]];
    assert w[k - 1] == w[..k][k - 1];
    assert w'[k - 1] == w'[..k][k - 1];
  }

  /** A sequence that agrees with the first |w| elements of w' is that prefix of w'. */
  lemma WholePrefix(w: seq<Edge>, w': seq<Edge>)
    requires 1 <= |w| <= |w'| && w[..|w|] == w'[..|w|]
    ensures w'[..|w|] == w && w'[|w| - 1] == w[|w| - 1]
  {
    assert w[..|w|] == w;
    assert w'[|w| - 1] == w'[..|w|][|w| - 1];
  }

  /** Two walks from the same edge with the same keys consumed agree on their first i edges. */
  lemma {:induction false} WalksAgree(edges: seq<Edge>, before: set<Key>, w: seq<Edge>, w': seq<Edge>, i: nat)
    requires WalkFrom(edges, before, w) && WalkFrom(edges, before, w') && w[0] == w'[0]
    requires 1 <= i <= |w| && i <= |w'|
    ensures w[..i] == w'[..i]
  {
    if i == 1 {
      assert w[..1] == [w[0]] && w'[..1] == [w'[0]];
    } else {
      var k := i - 1;
      WalksAgree(edges, before, w, w', k);
      assert w[k - 1] == w[..k][k - 1] && w'[k - 1] == w'[..k][k - 1];
      StepAt(edges, before, w, k);
      StepAt(edges, before, w', k);
      ExtendAgreement(w, w', k);
    }
  }

  /** A walk cannot stop where another walk from the same edge goes on: neither is a proper prefix of the other. */
  lemma NotShorter(edges: seq<Edge>, before: set<Key>, w: seq<Edge>, w': seq<Edge>)
    requires WalkFrom(edges, before, w) && WalkFrom(edges, before, w') && w[0] == w'[0]
    ensures |w'| <= |w|
  {
    if |w| < |w'| {
      var n := |w|;
      WalksAgree(edges, before, w, w', n);
      WholePrefix(w, w');
      StepAt(edges, before, w', n);
      assert false;
    }
  }

  /** The tracer is deterministic: a walk is fixed by its first edge and the keys already consumed. */
  lemma WalkDeterministic(edges: seq<Edge>, before: set<Key>, w: seq<Edge>, w': seq<Edge>)
    requires WalkFrom(edges, before, w) && WalkFrom(edges, before, w') && w[0] == w'[0]
    ensures w == w'
  {
    NotShorter(edges, before, w, w');
    NotShorter(edges, before, w', w);
    WalksAgree(edges, before, w, w', |w|);
  }

  /** The step takes `next` when it is unused and every other edge starting there is used. */
  lemma OnlyStep(edges: seq<Edge>, used: set<Key>, cur: Edge, next: Edge)
    requires next in edges && next.start == cur.end && EdgeKey(next) !in used
    requires forall e :: e in edges && e.start == cur.end ==> e == next || EdgeKey(e) in used
    ensures ChooseNext(edges, used, cur) == Some(next)
  {
    PreferredCandidate(edges, used, cur, next);
  }

  /** The keys of the prefixes of a four-edge walk, as set displays. */
  lemma PrefixKeys(a: Edge, b: Edge, c: Edge, d: Edge)
    ensures KeySet([a]) == {EdgeKey(a)}
    ensures KeySet([a, b]) == {EdgeKey(a), EdgeKey(b)}
    ensures KeySet([a, b, c]) == {EdgeKey(a), EdgeKey(b), EdgeKey(c)}
    ensures KeySet([a, b, c, d]) == {EdgeKey(a), EdgeKey(b), EdgeKey(c), EdgeKey(d)}
  {
  }

  /** A walk of four edges, each the step chosen after the one before, ending where nothing unused continues. */
  lemma FourWalk(edges: seq<Edge>, before: set<Key>, a: Edge, b: Edge, c: Edge, d: Edge)
    requires EdgeKey(a) !in before
    requires ChooseNext(edges, before + KeySet([a]), a) == Some(b)
    requires ChooseNext(edges, before + KeySet([a, b]), b) == Some(c)
    requires ChooseNext(edges, before + KeySet([a, b, c]), c) == Some(d)
    requires ChooseNext(edges, before + KeySet([a, b, c, d]), d) == None
    ensures WalkFrom(edges, before, [a, b, c, d])
  {
    var w := [a, b, c, d];
    assert w[..1] == [a] && w[..2] == [a, b] && w[..3] == [a, b, c];
  }

  /** A complete trace over a nonempty boundary has a walk, and nothing is consumed before it. */
  lemma TraceNonEmpty(edges: seq<Edge>, walks: seq<seq<Edge>>, seeds: seq<nat>)
    requires IsTrace(edges, walks, seeds) && |edges| > 0
    ensures |walks| > 0 && Traced(edges, walks, seeds) && Before(walks, 0) == {}
  {
    assert EdgeKey(edges[0]) in KeySet(Flatten(walks));
    assert walks[..0] == [];
  }

  /**
   * Walk w of a trace is `expected` when edges[j] is the first edge left
   * unconsumed by the walks before it and `expected` is the walk traced from
   * edges[j].
   */
  lemma WalkIs(edges: seq<Edge>, walks: seq<seq<Edge>>, seeds: seq<nat>, w: nat, j: nat, expected: seq<Edge>)
    requires Traced(edges, walks, seeds) && w < |walks|
    requires j < |edges| && EdgeKey(edges[j]) !in Before(walks, w)
    requires KeySet(edges[..j]) <= Before(walks, w)
    requires WalkFrom(edges, Before(walks, w), expected) && expected[0] == edges[j]
    ensures walks[w] == expected
  {
    forall i | 0 <= i < j
      ensures EdgeKey(edges[i]) in Before(walks, w)
    {
      assert edges[i] in edges[..j];
    }
    TraceWalk(edges, walks, seeds, w);
    SeedIs(edges, Before(walks, w), walks[w], seeds[w], j);
    WalkDeterministic(edges, Before(walks, w), walks[w], expected);
  }

  /** A walk is seeded at the first edge whose key is not yet consumed. */
  lemma SeedIs(edges: seq<Edge>, before: set<Key>, walk: seq<Edge>, seed: nat, j: nat)
    requires Seeded(edges, before, walk, seed)
    requires j < |edges| && EdgeKey(edges[j]) !in before
    requires forall i :: 0 <= i < j ==> EdgeKey(edges[i]) in before
    ensures seed == j && walk[0] == edges[j]
  {
  }

  lemma TakeAll(walks: seq<seq<Edge>>)
    ensures walks[..|walks|] == walks
  {
  }

  /** Once an edge is left unconsumed by the first w walks, the trace has a walk w. */
  lemma MoreWalks(edges: seq<Edge>, walks: seq<seq<Edge>>, seeds: seq<nat>, w: nat, j: nat)
    requires IsTrace(edges, walks, seeds) && w <= |walks|
    requires j < |edges| && EdgeKey(edges[j]) !in Before(walks, w)
    ensures w < |walks|
  {
    if w == |walks| {
      TakeAll(walks);
      assert false;
    }
  }

  /** Once the first w walks consume every edge, the trace has no walk w. */
  lemma NoMoreWalks(edges: seq<Edge>, walks: seq<seq<Edge>>, seeds: seq<nat>, w: nat)
    requires Traced(edges, walks, seeds) && w <= |walks|
    requires KeySet(edges) <= Before(walks, w)
    ensures |walks| == w
  {
    if w < |walks| {
      TraceWalk(edges, walks, seeds, w);
      assert false;
    }
  }

  /** The keys consumed by the first one or two walks. */
  lemma BeforeOneTwo(walks: seq<seq<Edge>>)
    requires |walks| >= 1
    ensures Before(walks, 1) == KeySet(walks[0])
    ensures |walks| >= 2 ==> Before(walks, 2) == KeySet(walks[0] + walks[1])
  {
    assert walks[..1] == [walks[0]];
    assert Flatten([walks[0]]) == walks[0];
    if |walks| >= 2 {
      assert walks[..2] == [walks[0], walks[1]];
      assert [walks[0], walks[1]][..1] == [walks[0]];
    }
  }

  /** A single square walk is kept. */
  lemma LongSquare(walks: seq<seq<Edge>>, r: int, c: int)
    requires walks == [CellSquare(r, c)]
    ensures LongWalks(walks) == walks
  {
    LongOneTwo(walks);
  }

  /** The walks of length at least four among one or two walks. */
  lemma LongOneTwo(walks: seq<seq<Edge>>)
    requires 1 <= |walks| <= 2 && forall w :: w in walks ==> |w| >= 4
    ensures LongWalks(walks) == walks
  {
    assert walks[0] in walks;
    var first := walks[..1];
    assert first == [walks[0]] && first[..0] == [];
    assert LongWalks(first) == first;
    if |walks| == 2 {
      assert walks[1] in walks;
      assert walks == first + [walks[1]];
    } else {
      assert walks == first;
    }
  }

  /** The four sides of cell (r, c), clockwise from its top: top, right, bottom and left. */
  function CellSquare(r: int, c: int): seq<Edge> {
    [ Edge(Point(c, r), Point(c + 1, r), Vec(1, 0), Cell(r, c)),
      Edge(Point(c + 1, r), Point(c + 1, r + 1), Vec(0, 1), Cell(r, c)),
      Edge(Point(c + 1, r + 1), Point(c, r + 1), Vec(-1, 0), Cell(r, c)),
      Edge(Point(c, r + 1), Point(c, r), Vec(0, -1), Cell(r, c))]
  }

  /** The sides of a cell square are its side edges, in the order the scan pushes them. */
  lemma CellSquareSides(r: int, c: int)
    ensures CellSquare(r, c) == [SideEdge(r, c, Top), SideEdge(r, c, Right), SideEdge(r, c, Bottom), SideEdge(r, c, Left)]
  {
  }

  /** A cell square is the walk traced from its top side when its corners are reached by no other unused edge. */
  lemma SquareWalk(edges: seq<Edge>, before: set<Key>, r: int, c: int)
    requires forall e :: e in CellSquare(r, c) ==> e in edges && EdgeKey(e) !in before
    requires forall e :: e in edges && e.start == Point(c + 1, r) ==> e == CellSquare(r, c)[1] || EdgeKey(e) in before
    requires forall e :: e in edges && e.start == Point(c + 1, r + 1) ==> e == CellSquare(r, c)[2] || EdgeKey(e) in before
    requires forall e :: e in edges && e.start == Point(c, r + 1) ==> e == CellSquare(r, c)[3] || EdgeKey(e) in before
    requires forall e :: e in edges && e.start == Point(c, r) ==> e == CellSquare(r, c)[0] || EdgeKey(e) in before
    ensures WalkFrom(edges, before, CellSquare(r, c))
  {
    var sq := CellSquare(r, c);
    var t, rt, b, l := sq[0], sq[1], sq[2], sq[3];
    assert t in sq && rt in sq && b in sq && l in sq;
    OnlyStep(edges, before + KeySet([t]), t, rt);
    OnlyStep(edges, before + KeySet([t, rt]), rt, b);
    OnlyStep(edges, before + KeySet([t, rt, b]), b, l);
    assert EdgeKey(t) in KeySet([t, rt, b, l]);
    NoCandidate(edges, before + KeySet([t, rt, b, l]), l);
    FourWalk(edges, before, t, rt, b, l);
  }

  /** A lone cell square is the walk traced from its top side. */
  lemma LoneSquareWalk(edges: seq<Edge>, before: set<Key>, r: int, c: int)
    requires edges == CellSquare(r, c) && before == {}
    ensures WalkFrom(edges, before, CellSquare(r, c))
  {
    SquareWalk(edges, before, r, c);
  }

  /** A boundary that is one cell square is traced as that single walk. */
  lemma SquareTrace(edges: seq<Edge>, walks: seq<seq<Edge>>, seeds: seq<nat>, r: int, c: int)
    requires IsTrace(edges, walks, seeds) && edges == CellSquare(r, c)
    ensures walks == [CellSquare(r, c)]
  {
    TraceNonEmpty(edges, walks, seeds);
    LoneSquareWalk(edges, Before(walks, 0), r, c);
    assert edges[..0] == [];
    WalkIs(edges, walks, seeds, 0, 0, CellSquare(r, c));
    BeforeOneTwo(walks);
    NoMoreWalks(edges, walks, seeds, 1);
  }

  /** The boundary of a single filled cell is its square. */
  lemma SingleCellBoundary()
    ensures BoundaryEdges([[true]]) == CellSquare(0, 0)
  {
    SingleCellSquare();
  }

  /** The path of one contour list with a single contour is that contour's subpath. */
  lemma ContoursOne(g: Grid, s: RenderSettings, w: seq<Edge>)
    ensures ContoursCommands(g, s, [w]) == ContourCommands(g, s, w)
  {
    assert [w][..0] == [];
  }

  /** The corners of a cell square: four convex corners at its vertices, clockwise from the top left. */
  lemma SquareCorners(r: int, c: int)
    ensures CornersOf(CellSquare(r, c)) == [
      Corner(Point(c, r), Vec(0, -1), Vec(1, 0), true, Cell(r, c), Cell(r, c)),
      Corner(Point(c + 1, r), Vec(1, 0), Vec(0, 1), true, Cell(r, c), Cell(r, c)),
      Corner(Point(c + 1, r + 1), Vec(0, 1), Vec(-1, 0), true, Cell(r, c), Cell(r, c)),
      Corner(Point(c, r + 1), Vec(-1, 0), Vec(0, -1), true, Cell(r, c), Cell(r, c))]
  {
    var sq := CellSquare(r, c);
    var k0 := Corner(Point(c, r), Vec(0, -1), Vec(1, 0), true, Cell(r, c), Cell(r, c));
    var k1 := Corner(Point(c + 1, r), Vec(1, 0), Vec(0, 1), true, Cell(r, c), Cell(r, c));
    var k2 := Corner(Point(c + 1, r + 1), Vec(0, 1), Vec(-1, 0), true, Cell(r, c), Cell(r, c));
    var k3 := Corner(Point(c, r + 1), Vec(-1, 0), Vec(0, -1), true, Cell(r, c), Cell(r, c));
    assert CornerAt(sq, 0) == Some(k0);
    assert CornerAt(sq, 1) == Some(k1);
    assert CornerAt(sq, 2) == Some(k2);
    assert CornerAt(sq, 3) == Some(k3);
    assert CornersBefore(sq, 1) == [k0];
    assert CornersBefore(sq, 2) == [k0, k1];
    assert CornersBefore(sq, 3) == [k0, k1, k2];
  }

  /** The path of the square of cell (r, c) drawn with sharp corners: a move to its top left corner and lines along its four sides. */
  function SquarePath(r: int, c: int): seq<Command> {
    [ Move(c as real, r as real),
      Line((c + 1) as real, r as real),
      Line((c + 1) as real, (r + 1) as real),
      Line(c as real, (r + 1) as real),
      Line(c as real, r as real),
      Close]
  }

  /** The point of a corner's vertex at unit scale. */
  function VertexReal(k: Corner): (real, real) {
    (k.vertex.x as real, k.vertex.y as real)
  }

  /**
   * At radius 0 with the default options, a contour with four corners is
   * drawn with sharp corners: a move to the first corner's vertex, lines to
   * the other three and back to the first, and a closepath.
   */
  lemma SharpFour(g: Grid, w: seq<Edge>)
    requires |CornersOf(w)| == 4
    ensures var ks := CornersOf(w);
      var p0, p1, p2, p3 := VertexReal(ks[0]), VertexReal(ks[1]), VertexReal(ks[2]), VertexReal(ks[3]);
      ContourCommands(g, DefaultSettings(0.0), w)
        == [Move(p0.0, p0.1), Line(p1.0, p1.1), Line(p2.0, p2.1), Line(p3.0, p3.1), Line(p0.0, p0.1), Close]
  {
    var s := DefaultSettings(0.0);
    var ks := CornersOf(w);
    CornerRadiusSpec(g, s.radius, s.innerRadius, s.lookup, ks[0]);
    CornerRadiusSpec(g, s.radius, s.innerRadius, s.lookup, ks[1]);
    CornerRadiusSpec(g, s.radius, s.innerRadius, s.lookup, ks[2]);
    CornerRadiusSpec(g, s.radius, s.innerRadius, s.lookup, ks[3]);
    var p0, p1, p2, p3 := VertexReal(ks[0]), VertexReal(ks[1]), VertexReal(ks[2]), VertexReal(ks[3]);
    assert StepsBefore(g, s, ks, 1) == [Line(p1.0, p1.1)];
    assert StepsBefore(g, s, ks, 2) == [Line(p1.0, p1.1), Line(p2.0, p2.1)];
    assert StepsBefore(g, s, ks, 3) == [Line(p1.0, p1.1), Line(p2.0, p2.1), Line(p3.0, p3.1)];
  }

  /** At radius 0 with the default options, the square of a cell is drawn with sharp corners. */
  lemma SquareCommands(g: Grid, r: int, c: int)
    ensures ContourCommands(g, DefaultSettings(0.0), CellSquare(r, c)) == SquarePath(r, c)
  {
    SquareCorners(r, c);
    SharpFour(g, CellSquare(r, c));
  }

  /**
   * A single filled cell at radius 0 with the default options renders as the
   * unit square: a move to its top left corner, lines along its four sides
   * and a closepath; nothing else is drawn.
   */
  lemma SingleCellPath(walks: seq<seq<Edge>>, seeds: seq<nat>)
    requires IsTrace(BoundaryEdges([[true]]), walks, seeds)
    ensures ContoursCommands([[true]], DefaultSettings(0.0), LongWalks(walks)) + BridgeCommands([[true]], DefaultSettings(0.0))
      == [Move(0.0, 0.0), Line(1.0, 0.0), Line(1.0, 1.0), Line(0.0, 1.0), Line(0.0, 0.0), Close]
  {
    SingleCellBoundary();
    SquareTrace(BoundaryEdges([[true]]), walks, seeds, 0, 0);
    LongSquare(walks, 0, 0);
    ContoursOne([[true]], DefaultSettings(0.0), CellSquare(0, 0));
    SquareCommands([[true]], 0, 0);
  }

  /** `generateSVGPathData([[true]], 0)` is the path of the unit square. */
  method SingleCellRender() returns (path: seq<Command>)
    ensures path == [Move(0.0, 0.0), Line(1.0, 0.0), Line(1.0, 1.0), Line(0.0, 1.0), Line(0.0, 0.0), Close]
  {
    var g: Grid := [[true]];
    ghost var walks, seeds;
    SingleCellSquare();
    path, walks, seeds := GenerateSVGPathData(g, DefaultSettings(0.0));
    SingleCellPath(walks, seeds);
  }

  /** Two cells that touch only at a corner. */
  const Diagonal: Grid := [[true, false], [false, true]]

  /** The boundary of the diagonal pair is the square of each cell, in scan order. */
  lemma DiagonalBoundary()
    ensures BoundaryEdges(Diagonal) == CellSquare(0, 0) + CellSquare(1, 1)
  {
    var g := Diagonal;
    CellSquareSides(0, 0);
    CellSquareSides(1, 1);
    assert !Filled(g, -1, 0) && !Filled(g, 0, 1) && !Filled(g, 1, 0) && !Filled(g, 0, -1);
    assert !Filled(g, 0, 1) && !Filled(g, 1, 2) && !Filled(g, 2, 1) && !Filled(g, 1, 0);
    assert CellEdges(g, 0, 0) == CellSquare(0, 0);
    assert CellEdges(g, 1, 1) == CellSquare(1, 1);
    assert EdgesBefore(g, 0, 2) == CellSquare(0, 0);
    assert EdgesBefore(g, 1, 1) == CellSquare(0, 0);
  }

  /**
   * The first walk of the diagonal pair goes round the first cell: at the
   * shared corner it turns right onto the first cell's bottom side rather
   * than left onto the second cell's top side.
   */
  lemma DiagonalFirstWalk(edges: seq<Edge>, before: set<Key>)
    requires edges == CellSquare(0, 0) + CellSquare(1, 1) && before == {}
    ensures WalkFrom(edges, before, CellSquare(0, 0))
  {
    var sq := CellSquare(0, 0);
    var t, rt, b, l := sq[0], sq[1], sq[2], sq[3];
    PrefixKeys(t, rt, b, l);
    DiagonalStraightSteps(edges, before + KeySet([t]), before + KeySet([t, rt, b]));
    DiagonalTurn(edges, before + KeySet([t, rt]));
    DiagonalClose(edges, before + KeySet([t, rt, b, l]));
    FourWalk(edges, before, t, rt, b, l);
  }

  /** Along the first cell's top and bottom sides, the next side is the only edge that continues the walk. */
  lemma DiagonalStraightSteps(edges: seq<Edge>, used1: set<Key>, used3: set<Key>)
    requires edges == CellSquare(0, 0) + CellSquare(1, 1)
    requires used1 == {EdgeKey(CellSquare(0, 0)[0])}
    requires used3 == {EdgeKey(CellSquare(0, 0)[0]), EdgeKey(CellSquare(0, 0)[1]), EdgeKey(CellSquare(0, 0)[2])}
    ensures ChooseNext(edges, used1, CellSquare(0, 0)[0]) == Some(CellSquare(0, 0)[1])
    ensures ChooseNext(edges, used3, CellSquare(0, 0)[2]) == Some(CellSquare(0, 0)[3])
  {
    var sq := CellSquare(0, 0);
    assert sq[1] in edges && sq[3] in edges;
    OnlyStep(edges, used1, sq[0], sq[1]);
    OnlyStep(edges, used3, sq[2], sq[3]);
  }

  /** Back at the first cell's top left corner, the only edge there is used: the first walk ends. */
  lemma DiagonalClose(edges: seq<Edge>, used: set<Key>)
    requires edges == CellSquare(0, 0) + CellSquare(1, 1)
    requires used == {EdgeKey(CellSquare(0, 0)[0]), EdgeKey(CellSquare(0, 0)[1]), EdgeKey(CellSquare(0, 0)[2]), EdgeKey(CellSquare(0, 0)[3])}
    ensures ChooseNext(edges, used, CellSquare(0, 0)[3]) == None
  {
    NoCandidate(edges, used, CellSquare(0, 0)[3]);
  }

  /** At the shared corner, coming down the first cell's right side, the walk turns right onto that cell's bottom side. */
  lemma DiagonalTurn(edges: seq<Edge>, used: set<Key>)
    requires edges == CellSquare(0, 0) + CellSquare(1, 1)
    requires used == {EdgeKey(CellSquare(0, 0)[0]), EdgeKey(CellSquare(0, 0)[1])}
    ensures ChooseNext(edges, used, CellSquare(0, 0)[1]) == Some(CellSquare(0, 0)[2])
  {
    var rt, b := CellSquare(0, 0)[1], CellSquare(0, 0)[2];
    assert b in edges;
    assert TurnPriority(rt.dir, b.dir) == 0;
    assert TurnPriority(rt.dir, CellSquare(1, 1)[0].dir) == 2;
    PreferredCandidate(edges, used, rt, b);
  }

  /** Once the first cell's square is consumed, the second walk goes round the second cell. */
  lemma DiagonalSecondWalk(edges: seq<Edge>, before: set<Key>)
    requires edges == CellSquare(0, 0) + CellSquare(1, 1) && before == KeySet(CellSquare(0, 0))
    ensures WalkFrom(edges, before, CellSquare(1, 1))
    ensures edges[..4] == CellSquare(0, 0) && EdgeKey(edges[4]) !in before
    ensures KeySet(edges) <= KeySet(CellSquare(0, 0) + CellSquare(1, 1))
  {
    SquareWalk(edges, before, 1, 1);
  }

  /** The diagonal pair is traced as two walks, one round each cell. */
  lemma DiagonalTrace(edges: seq<Edge>, walks: seq<seq<Edge>>, seeds: seq<nat>)
    requires IsTrace(edges, walks, seeds) && edges == CellSquare(0, 0) + CellSquare(1, 1)
    ensures walks == [CellSquare(0, 0), CellSquare(1, 1)]
  {
    TraceNonEmpty(edges, walks, seeds);
    DiagonalFirstWalk(edges, Before(walks, 0));
    assert edges[..0] == [];
    WalkIs(edges, walks, seeds, 0, 0, CellSquare(0, 0));
    BeforeOneTwo(walks);
    DiagonalSecondWalk(edges, Before(walks, 1));
    MoreWalks(edges, walks, seeds, 1, 4);
    WalkIs(edges, walks, seeds, 1, 4, CellSquare(1, 1));
    BeforeOneTwo(walks);
    NoMoreWalks(edges, walks, seeds, 2);
    TwoWalks(walks, CellSquare(0, 0), CellSquare(1, 1));
  }

  lemma TwoWalks(walks: seq<seq<Edge>>, a: seq<Edge>, b: seq<Edge>)
    requires |walks| == 2 && walks[0] == a && walks[1] == b
    ensures walks == [a, b]
  {
  }

  /** Two square walks are both kept. */
  lemma LongSquares(walks: seq<seq<Edge>>, r: int, c: int, r': int, c': int)
    requires walks == [CellSquare(r, c), CellSquare(r', c')]
    ensures LongWalks(walks) == walks
  {
    LongOneTwo(walks);
  }

  /** The path of two contours is their subpaths, one after the other. */
  lemma ContoursTwo(g: Grid, s: RenderSettings, w: seq<Edge>, w': seq<Edge>)
    ensures ContoursCommands(g, s, [w, w']) == ContourCommands(g, s, w) + ContourCommands(g, s, w')
  {
    assert [w, w'][..1] == [w];
    ContoursOne(g, s, w);
  }

  /**
   * Two cells that touch only at a corner are two separate contours, one
   * square round each cell; at radius 0 with the default options the path is
   * the two unit squares, each a closed subpath of its own.
   */
  lemma DiagonalSeparate(walks: seq<seq<Edge>>, seeds: seq<nat>)
    requires IsTrace(BoundaryEdges(Diagonal), walks, seeds)
    ensures LongWalks(walks) == [CellSquare(0, 0), CellSquare(1, 1)]
    ensures ContoursCommands(Diagonal, DefaultSettings(0.0), LongWalks(walks)) + BridgeCommands(Diagonal, DefaultSettings(0.0))
      == SquarePath(0, 0) + SquarePath(1, 1)
  {
    DiagonalBoundary();
    DiagonalTrace(BoundaryEdges(Diagonal), walks, seeds);
    LongSquares(walks, 0, 0, 1, 1);
    ContoursTwo(Diagonal, DefaultSettings(0.0), CellSquare(0, 0), CellSquare(1, 1));
    SquareCommands(Diagonal, 0, 0);
    SquareCommands(Diagonal, 1, 1);
  }

  /** A 2 x 2 block of filled cells. */
  const Block: Grid := [[true, true], [true, true]]

  /** The outer sides of the block in scan order: each cell's exposed sides, top, right, bottom, left. */
  function BlockEdges(): seq<Edge> {
    [ Edge(Point(0, 0), Point(1, 0), Vec(1, 0), Cell(0, 0)),
      Edge(Point(0, 1), Point(0, 0), Vec(0, -1), Cell(0, 0)),
      Edge(Point(1, 0), Point(2, 0), Vec(1, 0), Cell(0, 1)),
      Edge(Point(2, 0), Point(2, 1), Vec(0, 1), Cell(0, 1)),
      Edge(Point(1, 2), Point(0, 2), Vec(-1, 0), Cell(1, 0)),
      Edge(Point(0, 2), Point(0, 1), Vec(0, -1), Cell(1, 0)),
      Edge(Point(2, 1), Point(2, 2), Vec(0, 1), Cell(1, 1)),
      Edge(Point(2, 2), Point(1, 2), Vec(-1, 0), Cell(1, 1))]
  }

  /** The walk round the block, clockwise from its top left corner. */
  function BlockWalk(): seq<Edge> {
    [ Edge(Point(0, 0), Point(1, 0), Vec(1, 0), Cell(0, 0)),
      Edge(Point(1, 0), Point(2, 0), Vec(1, 0), Cell(0, 1)),
      Edge(Point(2, 0), Point(2, 1), Vec(0, 1), Cell(0, 1)),
      Edge(Point(2, 1), Point(2, 2), Vec(0, 1), Cell(1, 1)),
      Edge(Point(2, 2), Point(1, 2), Vec(-1, 0), Cell(1, 1)),
      Edge(Point(1, 2), Point(0, 2), Vec(-1, 0), Cell(1, 0)),
      Edge(Point(0, 2), Point(0, 1), Vec(0, -1), Cell(1, 0)),
      Edge(Point(0, 1), Point(0, 0), Vec(0, -1), Cell(0, 0))]
  }

  /** Each cell of the block exposes its two outer sides. */
  lemma BlockCellEdges()
    ensures var e := BlockEdges();
      && CellEdges(Block, 0, 0) == [e[0], e[1]]
      && CellEdges(Block, 0, 1) == [e[2], e[3]]
      && CellEdges(Block, 1, 0) == [e[4], e[5]]
      && CellEdges(Block, 1, 1) == [e[6], e[7]]
  {
    var g := Block;
    assert Filled(g, 0, 0) && Filled(g, 0, 1) && Filled(g, 1, 0) && Filled(g, 1, 1);
    assert !Filled(g, -1, 0) && !Filled(g, -1, 1) && !Filled(g, 2, 0) && !Filled(g, 2, 1);
    assert !Filled(g, 0, -1) && !Filled(g, 1, -1) && !Filled(g, 0, 2) && !Filled(g, 1, 2);
  }

  /** The boundary of the block is its eight outer sides; the four inner sides are shared and emit nothing. */
  lemma BlockBoundary()
    ensures BoundaryEdges(Block) == BlockEdges()
  {
    var g := Block;
    var e := BlockEdges();
    BlockCellEdges();
    assert EdgesBefore(g, 0, 1) == e[..2];
    assert EdgesBefore(g, 0, 2) == e[..4];
    assert EdgesBefore(g, 1, 1) == e[..6];
    assert EdgesBefore(g, 1, 2) == e;
  }

  /** No two edges start at the same point. */
  ghost predicate DistinctStarts(edges: seq<Edge>) {
    forall i, j :: 0 <= i < j < |edges| ==> edges[i].start != edges[j].start
  }

  /** When no two edges start at the same point, the step from `cur` is forced: the edge starting where it ends, unless that one is used. */
  lemma ForcedStep(edges: seq<Edge>, used: set<Key>, cur: Edge, next: Edge)
    requires DistinctStarts(edges) && next in edges && next.start == cur.end
    ensures ChooseNext(edges, used, cur) == if EdgeKey(next) in used then None else Some(next)
  {
    forall e | e in edges && e.start == cur.end
      ensures e == next
    {
      var i :| 0 <= i < |edges| && edges[i] == e;
      var j :| 0 <= j < |edges| && edges[j] == next;
      assert i == j;
    }
    ChooseNextSpec(edges, used, cur);
  }

  /** Over edges with distinct starts, a closed chain of fresh edges with distinct starts is the walk traced from its first edge. */
  lemma ForcedCycle(edges: seq<Edge>, before: set<Key>, cyc: seq<Edge>)
    requires DistinctStarts(edges) && |cyc| > 0 && DistinctStarts(cyc)
    requires forall i :: 0 <= i < |cyc| ==> cyc[i] in edges && EdgeKey(cyc[i]) !in before
    requires forall i :: 0 < i < |cyc| ==> cyc[i].start == cyc[i - 1].end
    requires cyc[0].start == cyc[|cyc| - 1].end
    ensures WalkFrom(edges, before, cyc)
  {
    forall i | 1 <= i < |cyc|
      ensures ChooseNext(edges, before + KeySet(cyc[..i]), cyc[i - 1]) == Some(cyc[i])
    {
      assert EdgeKey(cyc[i]) !in KeySet(cyc[..i]);
      ForcedStep(edges, before + KeySet(cyc[..i]), cyc[i - 1], cyc[i]);
    }
    assert EdgeKey(cyc[0]) in KeySet(cyc);
    ForcedStep(edges, before + KeySet(cyc), cyc[|cyc| - 1], cyc[0]);
  }

  /** Every point of the block's outline starts exactly one of its sides, so the walk round it is forced. */
  lemma BlockWalkFrom(edges: seq<Edge>, before: set<Key>)
    requires edges == BlockEdges() && before == {}
    ensures WalkFrom(edges, before, BlockWalk())
  {
    var w := BlockWalk();
    assert DistinctStarts(edges);
    assert DistinctStarts(w);
    ForcedCycle(edges, before, w);
  }

  /** The walk round the block consumes every side of it. */
  lemma BlockKeys()
    ensures KeySet(BlockEdges()) <= KeySet(BlockWalk())
  {
    var e := BlockEdges();
    assert forall i :: 0 <= i < 8 ==> e[i] in BlockWalk();
  }

  /** The block is traced as the single walk round it. */
  lemma BlockTrace(edges: seq<Edge>, walks: seq<seq<Edge>>, seeds: seq<nat>)
    requires IsTrace(edges, walks, seeds) && edges == BlockEdges()
    ensures walks == [BlockWalk()]
  {
    TraceNonEmpty(edges, walks, seeds);
    BlockWalkFrom(edges, Before(walks, 0));
    assert edges[..0] == [];
    WalkIs(edges, walks, seeds, 0, 0, BlockWalk());
    BeforeOneTwo(walks);
    BlockKeys();
    NoMoreWalks(edges, walks, seeds, 1);
  }

  /** The corner at each position of the walk round the block: one at the start of each outer side, none where a side goes on straight. */
  lemma BlockTurns()
    ensures var w := BlockWalk();
      && CornerAt(w, 0) == Some(Corner(Point(0, 0), Vec(0, -1), Vec(1, 0), true, Cell(0, 0), Cell(0, 0)))
      && CornerAt(w, 1) == None
      && CornerAt(w, 2) == Some(Corner(Point(2, 0), Vec(1, 0), Vec(0, 1), true, Cell(0, 1), Cell(0, 1)))
      && CornerAt(w, 3) == None
      && CornerAt(w, 4) == Some(Corner(Point(2, 2), Vec(0, 1), Vec(-1, 0), true, Cell(1, 1), Cell(1, 1)))
      && CornerAt(w, 5) == None
      && CornerAt(w, 6) == Some(Corner(Point(0, 2), Vec(-1, 0), Vec(0, -1), true, Cell(1, 0), Cell(1, 0)))
      && CornerAt(w, 7) == None
  {
  }

  /** The walk round the block turns at its four outer corners, all convex; the straight joins in the middle of each side are no corners. */
  lemma BlockCorners()
    ensures CornersOf(BlockWalk()) == [
      Corner(Point(0, 0), Vec(0, -1), Vec(1, 0), true, Cell(0, 0), Cell(0, 0)),
      Corner(Point(2, 0), Vec(1, 0), Vec(0, 1), true, Cell(0, 1), Cell(0, 1)),
      Corner(Point(2, 2), Vec(0, 1), Vec(-1, 0), true, Cell(1, 1), Cell(1, 1)),
      Corner(Point(0, 2), Vec(-1, 0), Vec(0, -1), true, Cell(1, 0), Cell(1, 0))]
  {
    var w := BlockWalk();
    BlockTurns();
    var k0, k1, k2, k3 := CornerAt(w, 0).value, CornerAt(w, 2).value, CornerAt(w, 4).value, CornerAt(w, 6).value;
    assert CornersBefore(w, 1) == [k0];
    assert CornersBefore(w, 2) == [k0];
    assert CornersBefore(w, 3) == [k0, k1];
    assert CornersBefore(w, 4) == [k0, k1];
    assert CornersBefore(w, 5) == [k0, k1, k2];
    assert CornersBefore(w, 6) == [k0, k1, k2];
    assert CornersBefore(w, 7) == [k0, k1, k2, k3];
  }

  /** At radius 0 with the default options the walk round the block is drawn as a square of side 2, its four corners convex. */
  lemma BlockPath()
    ensures |CornersOf(BlockWalk())| == 4 && forall k :: k in CornersOf(BlockWalk()) ==> k.isConvex
    ensures ContourCommands(Block, DefaultSettings(0.0), BlockWalk())
      == [Move(0.0, 0.0), Line(2.0, 0.0), Line(2.0, 2.0), Line(0.0, 2.0), Line(0.0, 0.0), Close]
  {
    BlockCorners();
    SharpFour(Block, BlockWalk());
  }

  /** A single walk of at least four edges is kept. */
  lemma LongOne(walks: seq<seq<Edge>>, w: seq<Edge>)
    requires walks == [w] && |w| >= 4
    ensures LongWalks(walks) == walks
  {
    LongOneTwo(walks);
  }

  /**
   * A 2 x 2 block is one contour, the walk round it, whose four corners
   * `BlockPath` gives; at radius 0 with the default options it is drawn as
   * one square of side 2.
   */
  lemma BlockOneContour(walks: seq<seq<Edge>>, seeds: seq<nat>)
    requires IsTrace(BoundaryEdges(Block), walks, seeds)
    ensures LongWalks(walks) == [BlockWalk()]
    ensures ContoursCommands(Block, DefaultSettings(0.0), LongWalks(walks)) + BridgeCommands(Block, DefaultSettings(0.0))
      == [Move(0.0, 0.0), Line(2.0, 0.0), Line(2.0, 2.0), Line(0.0, 2.0), Line(0.0, 0.0), Close]
  {
    BlockBoundary();
    BlockTrace(BoundaryEdges(Block), walks, seeds);
    LongOne(walks, BlockWalk());
    BlockContours();
  }

  /** The path of the block's single contour, with bridges off. */
  lemma BlockContours()
    ensures ContoursCommands(Block, DefaultSettings(0.0), [BlockWalk()]) + BridgeCommands(Block, DefaultSettings(0.0))
      == [Move(0.0, 0.0), Line(2.0, 0.0), Line(2.0, 2.0), Line(0.0, 2.0), Line(0.0, 0.0), Close]
  {
    ContoursOne(Block, DefaultSettings(0.0), BlockWalk());
    BlockPath();
  }
}

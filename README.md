# Grid logo outline renderer and editor — Dafny model

The application draws a logo on a grid of square cells. The user paints
cells with a pencil, an eraser, a line tool or a rectangle tool. The renderer
turns the filled cells into one SVG outline path with rounded corners. This
project models the two parts that do the work:

- **The vector renderer** (`src/lib/vectorRenderer.ts`):
  - `findBoundaryEdges` emits one clockwise unit edge for every side of a
    filled cell that borders an empty or out-of-grid cell.
  - `traceContours` links those edges into closed walks. At each vertex it
    prefers a right turn, then straight on, then a left turn, then a
    reversal, and it drops walks of fewer than four edges.
  - `generateSVGPathData` finds the corners of each walk, where the
    direction changes, and resolves each corner's radius. The radius comes
    from the global convex or concave radius, or from a per-cell lookup,
    clamped to [0, 0.5]. It then emits one closed subpath per contour: a
    move, then a line and an arc per rounded corner, then a closepath.
  - `generateDiagonalBridgePaths` adds two small closed pieces of radius br
    at each vertex where two filled cells meet only at a corner. The piece in
    the upper empty cell is a quarter disc centred on the vertex. The piece in
    the lower empty cell is a concave fillet: its arc is centred br below and
    br to the side of the vertex.
  - `getFilledBounds` computes the tight box around the filled cells.
  - `bresenhamLine` computes the grid points of the line tool's preview.
- **The editor state** (`src/hooks/useGridState.ts`):
  - the grid, the tool and the radii;
  - the per-cell radius overrides;
  - undo and redo stacks of whole grids;
  - the drag handlers `handleCellDown`, `handleCellMove` and
    `handleCellUp`.

The model has one module per part:

- `Grids`: the grid, with the source's `isFilled`, and `createEmptyGrid`.
- `Boundary`: `findBoundaryEdges`.
- `Contours`: `turnPriority` and `traceContours`.
- `Corners`: corner extraction and `getRadius`.
- `PathCommands`: the path commands.
- `Bridges`: `generateDiagonalBridgePaths`.
- `Render`: `generateSVGPathData`.
- `Bounds`: `getFilledBounds`.
- `Bresenham`: `bresenhamLine`.
- `GridState`: the editor, as the class `GridEditor`.
- `Scenarios`: three small grids worked through the whole renderer.

The loops of the source are methods. Most of them are proved equal to a
recursive specification function, and the lemmas state what the source
promises about that function. `GetFilledBounds`, `BresenhamLine`,
`SetGridSize` and `CommitPreview` state their results directly in their
postconditions. `FollowWalk` and `TraceContours` are tied to the ghost
relations `Following` and `IsTrace` described below.

`traceContours` picks the next edge greedily. Its result is specified by a
ghost trace, made of the walks and the edge index each walk was started from:

- each walk starts at the first edge not used by earlier walks;
- each step of a walk is the choice `ChooseNext` makes: the unused edge that
  starts at the current end point and turns least, with the earliest such
  edge winning ties;
- a walk stops when no unused candidate is left;
- the trace covers every edge exactly once.

`GenerateSVGPathData` returns that trace as ghost results beside the path.

The path is a list of commands: `Move`, `Line`, `Arc` with both radii and the
sweep flag, and `Close`. It is not the decimal string the source prints.

`Scenarios` works three grids through the renderer with sharp corners (radius
0, scale 1, no bridges). The tracer is deterministic (`WalkDeterministic`), so
each statement holds for every trace of that grid:

- a single filled cell gives exactly the square path
  M 0 0, L 1 0, L 1 1, L 0 1, L 0 0, Z, with four convex corners;
- a filled 2 x 2 block gives one contour of eight edges with exactly four
  corners, at the outer corners of the block;
- two cells that touch only diagonally give two separate squares: at the
  shared vertex the tracer turns right, back into the first cell, rather
  than left into the second.

## Model

| member | source | states |
|---|---|---|
| Grids.EmptyGrid | src/hooks/useGridState.ts:27-29 | `createEmptyGrid(rows, cols)` has `rows` rows of `cols` cells each, all unfilled |
| Grids.EmptyGridShape | src/hooks/useGridState.ts:27-29 | an empty grid is rectangular, has no filled cell, and reports `cols` columns when it has rows |
| Boundary.SideEdge | src/lib/vectorRenderer.ts:22-29 | each of the four pushed edges is a unit step in a cardinal direction, belongs to its cell, and has the neighbour it borders on its left (outward) side |
| Boundary.FindBoundaryEdges | src/lib/vectorRenderer.ts:11-33 | the nested scan returns exactly `BoundaryEdges(g)`: for each filled cell in row-major order, its exposed sides in the order top, right, bottom, left |
| Boundary.CellEdgesIff | src/lib/vectorRenderer.ts:20-29 | an edge is pushed for cell (r, c) iff the cell is filled and the edge is the edge of one of its exposed sides |
| Boundary.PushCellEdges | src/lib/vectorRenderer.ts:20-29 | one cell of the scan appends exactly the edges of that cell's exposed sides |
| Boundary.EdgesBeforeIff | src/lib/vectorRenderer.ts:18-31 | the edges pushed before position (r, c) of the scan are the edges of exposed sides of filled cells that come earlier in row-major order |
| Boundary.BoundaryEdgesIff | src/lib/vectorRenderer.ts:11-33 | an edge is in the result iff it is the edge of an exposed side of a filled cell inside the grid |
| Boundary.BoundaryEdgeShape | src/lib/vectorRenderer.ts:22-29 | every boundary edge is a cardinal unit step, its cell is filled, and the cell on its left is not filled |
| Boundary.SideEdgeKeyInjective | src/lib/vectorRenderer.ts:6 | the start and end points of a side edge (`edgeKey`) determine the cell and the side |
| Boundary.BoundaryKeyDeterminesEdge | src/lib/vectorRenderer.ts:6 | two boundary edges with the same `edgeKey` are the same edge, so marking keys as used marks edges |
| Boundary.BoundaryKeysDistinct | src/lib/vectorRenderer.ts:11-33 | no `edgeKey` occurs twice among the boundary edges |
| Boundary.TopmostInColumn | src/lib/vectorRenderer.ts:22-23 | at or above every filled cell, some filled cell of the same column has an exposed top side, so every filled column contributes a top edge |
| Boundary.NoEdgesIffNoneFilled | src/lib/vectorRenderer.ts:152-153 | the boundary is empty exactly when no cell is filled, the case in which the path is empty |
| Boundary.SingleCellSquare | src/lib/vectorRenderer.ts:22-29 | a single filled cell yields its clockwise unit square: top, right, bottom, left |
| Contours.TurnPriority | src/lib/vectorRenderer.ts:35-41 | the priority is between 0 and 3 |
| Contours.TurnPriorityCardinal | src/lib/vectorRenderer.ts:35-41 | for cardinal directions the priority is 0 for a right turn, 1 for straight on, 2 for a left turn and 3 for a reversal, in both directions of each case |
| Contours.StartingAtMembers | src/lib/vectorRenderer.ts:44-49 | the edges indexed under a point are exactly the edges starting there |
| Contours.UnusedMembers | src/lib/vectorRenderer.ts:67 | the filter keeps exactly the edges whose key is not used |
| Contours.CandidatesMembers | src/lib/vectorRenderer.ts:67 | the candidates are exactly the unused edges starting at the current end point |
| Contours.BestIndexSpec | src/lib/vectorRenderer.ts:70-73 | the reduce selects a candidate of least priority, and every earlier candidate has a strictly higher priority, so the earliest best one wins |
| Contours.BestIndex | src/lib/vectorRenderer.ts:70-72 | the reduce returns an index of the candidate list |
| Contours.ChooseNext | src/lib/vectorRenderer.ts:66-72 | a chosen next edge is one of the candidates: unused and starting at the current end |
| Contours.ChooseNextSpec | src/lib/vectorRenderer.ts:67-73 | there is no next edge iff every edge starting at the current end is used; otherwise the next edge is an unused edge starting there with least priority among them |
| Contours.ChooseNextEarliest | src/lib/vectorRenderer.ts:71-73 | the chosen edge comes before every other candidate of the same least priority |
| Contours.IndexByStart | src/lib/vectorRenderer.ts:44-49 | the map built by the loop returns, for every point, the edges starting there in input order (empty for absent keys) |
| Contours.TraceWalk | src/lib/vectorRenderer.ts:54-77 | each walk of a trace starts at its seed edge, whose predecessors are all used, and follows `ChooseNext` until it is stuck |
| Contours.KeySetAppend | src/lib/vectorRenderer.ts:64 | the used keys of two joined edge lists are the union of their keys |
| Contours.FlattenAppend | src/lib/vectorRenderer.ts:76 | appending a walk appends its edges, and appends the walk to the kept contours iff it has at least four edges |
| Contours.StepsExtend | src/lib/vectorRenderer.ts:61-74 | a walk extended with the edge `ChooseNext` picks is still a walk of greedy steps |
| Contours.TraceSkip | src/lib/vectorRenderer.ts:55-56 | skipping a start edge that an earlier walk used keeps the trace valid one edge further |
| Contours.TraceExtend | src/lib/vectorRenderer.ts:54-77 | a finished walk from the first unused edge extends the trace one edge further |
| Contours.TracedExtend | src/lib/vectorRenderer.ts:54-77 | a finished walk from edge n, appended with seed n, keeps the walks traced |
| Contours.CoveredExtend | src/lib/vectorRenderer.ts:54-64 | after a walk from edge n, every edge up to n has its key used |
| Contours.TakeEdge | src/lib/vectorRenderer.ts:61-64 | taking the current edge extends the walk by one greedy step and adds exactly its key to `used` |
| Contours.FollowWalk | src/lib/vectorRenderer.ts:58-74 | the inner loop returns a complete greedy walk from the start edge, and adds exactly its keys to `used` |
| Contours.TraceContours | src/lib/vectorRenderer.ts:43-80 | the result is the walks of length at least four of a complete trace of all edges |
| Contours.WalkShape | src/lib/vectorRenderer.ts:61-74 | a walk is chained end to start, uses only input edges, avoids earlier keys and repeats no key |
| Contours.KeysDistinctAppend | src/lib/vectorRenderer.ts:63-64 | joining two key-distinct lists with disjoint keys keeps the keys distinct |
| Contours.KeySetMono | src/lib/vectorRenderer.ts:76 | the kept contours use a subset of the keys of all walks |
| Contours.TracedDistinct | src/lib/vectorRenderer.ts:54-77 | across all walks, and across the kept contours, no edge key occurs twice |
| Contours.SeededInEdges | src/lib/vectorRenderer.ts:58-74 | every edge of a walk comes from the input |
| Contours.TracedInEdges | src/lib/vectorRenderer.ts:54-77 | every edge of every walk comes from the input |
| Contours.LongWalksMembers | src/lib/vectorRenderer.ts:76 | a contour is kept iff it is a walk with at least four edges |
| Contours.TraceContoursSpec | src/lib/vectorRenderer.ts:43-80 | every returned contour has at least four input edges chained end to start, no edge is in two contours, and the walks together use every input key exactly once |
| Corners.ExtractCorners | src/lib/vectorRenderer.ts:164-180 | the corner loop returns `CornersOf(contour)` |
| Corners.PrevMod | src/lib/vectorRenderer.ts:167 | `(i - 1 + n) % n` is the cyclic predecessor of i |
| Corners.CornersBeforePositions | src/lib/vectorRenderer.ts:166-180 | the corners found before position i are, in order, the corners at the increasing positions below i where the direction changes |
| Corners.CornerAt | src/lib/vectorRenderer.ts:167-179 | there is a corner at position i iff the previous edge's direction differs from edge i's, and its vertex is the start of edge i |
| Corners.CornerAtSpec | src/lib/vectorRenderer.ts:167-179 | there is a corner at position j iff the previous edge's direction differs from edge j's; its vertex is edge j's start, with the incoming and outgoing directions, convex iff a right turn, and the cells of both edges |
| Corners.CornersSpec | src/lib/vectorRenderer.ts:166-180 | the corners are exactly the direction changes of the contour, in contour order, at most one per edge |
| Corners.PositionsBound | src/lib/vectorRenderer.ts:166 | strictly increasing positions below n number at most n |
| Corners.Clamp | src/lib/vectorRenderer.ts:157-158 | `Math.min(Math.max(x, 0), 0.5)` lies in [0, 0.5], is x inside that range, 0 below it and 0.5 above it |
| Corners.MaxInnerSpec | src/lib/vectorRenderer.ts:201-208 | the concave radius lies in [0, 0.5], is at least the clamped inner radius of every filled adjacent cell, and is 0 or attained by one of them |
| Corners.ConcaveRadius | src/lib/vectorRenderer.ts:193-208 | the loop over the four cells around the vertex returns their maximum clamped inner radius |
| Corners.MaxInner | src/lib/vectorRenderer.ts:201-208 | the running maximum of clamped inner radii stays in [0, 0.5] |
| Corners.CornerRadius | src/lib/vectorRenderer.ts:186-212 | the resolved radius lies in [0, 0.5] |
| Corners.CornerRadiusSpec | src/lib/vectorRenderer.ts:186-212 | without a lookup the radius is the clamped global radius, convex or concave; with a lookup a convex corner takes its cell's clamped corner radius and a concave one the maximum over the filled cells around the vertex; always in [0, 0.5] |
| Corners.GetRadius | src/lib/vectorRenderer.ts:186-212 | `getRadius` returns `CornerRadius` |
| Bridges.CrescentCommands | src/lib/vectorRenderer.ts:108-134 | each piece is a move to its vertex, a line, an arc with radii br times the scales, and a closepath; the sweep flag is 1 for NE and SW and 0 for NW and SE |
| Bridges.RenderAppend | src/lib/vectorRenderer.ts:108-139 | the parts of two crescent lists are the parts of each, joined in order |
| Bridges.VertexBridges | src/lib/vectorRenderer.ts:100-135 | at one vertex the pushes are the crescents of `CrescentsAt` |
| Bridges.RowBridges | src/lib/vectorRenderer.ts:99-136 | the inner loop pushes the crescents of the row's interior vertices, left to right |
| Bridges.AppendRow | src/lib/vectorRenderer.ts:98-137 | one pass of the vertex-row loop appends the crescents of that row to those of the rows before |
| Bridges.ScanBridges | src/lib/vectorRenderer.ts:98-137 | the vertex-row loop returns the crescents of every row, row by row |
| Bridges.RowsRenderedSpec | src/lib/vectorRenderer.ts:98-137 | rendering row by row renders the crescents of those rows in row-major order |
| Bridges.DiagonalBridgePaths | src/lib/vectorRenderer.ts:82-140 | nothing when the clamped radius is 0, else the crescents of every interior vertex in row-major order |
| Bridges.CrescentsAtSpec | src/lib/vectorRenderer.ts:105-135 | the two diagonal patterns exclude each other; a vertex gets two crescents for either pattern and none otherwise, and exactly the matching quadrants |
| Bridges.CrescentsAtMember | src/lib/vectorRenderer.ts:105-135 | a crescent is one of a vertex's iff it sits at that vertex and its quadrant matches the vertex's pattern |
| Bridges.RowCrescentsIff | src/lib/vectorRenderer.ts:99-136 | the crescents of a row are those of its interior vertices that match a pattern |
| Bridges.CrescentsBeforeIff | src/lib/vectorRenderer.ts:98-137 | the crescents of the earlier rows are those of their interior vertices that match a pattern |
| Bridges.GridCrescentsIff | src/lib/vectorRenderer.ts:97-137 | a crescent is emitted iff its vertex is interior and the four cells around it form its diagonal pattern |
| Bridges.NoneFilledNoRowCrescents | src/lib/vectorRenderer.ts:106-122 | a row of an empty grid yields no crescent |
| Bridges.NoneFilledNoCrescents | src/lib/vectorRenderer.ts:106-122 | an empty grid yields no crescent |
| Bridges.CrescentInEmptyCell | src/lib/vectorRenderer.ts:105-135 | every crescent lies in an empty cell touching its vertex, and its arc radius is the bridge radius |
| Render.EmitCorner | src/lib/vectorRenderer.ts:224-243 | one step of the segment loop: a line to the arrival and an arc to the departure when the radius is positive (sweep 1 iff convex), else a line to the vertex |
| Render.CornerCommands | src/lib/vectorRenderer.ts:225-242 | one corner is a line, followed by an arc of radius r times the scales (sweep 1 iff convex) when r is positive; it ends where a subpath starting at that corner starts |
| Render.ContourCommands | src/lib/vectorRenderer.ts:182-246 | a subpath is empty iff the contour has fewer than three corners; otherwise it starts with a move and ends with a closepath |
| Render.EmitContour | src/lib/vectorRenderer.ts:161-247 | the subpath of a contour: nothing below three corners, else a move to the first corner's start, corners 1, ..., n-1, 0, and a closepath |
| Render.EmitContours | src/lib/vectorRenderer.ts:160-250 | the subpaths of the contours, joined in order |
| Render.GenerateSVGPathData | src/lib/vectorRenderer.ts:142-258 | no path without a filled cell; otherwise the subpaths of the walks of at least four edges of a complete trace of the boundary, followed by the bridges when they are enabled |
| Render.ContourCommandsCloses | src/lib/vectorRenderer.ts:182-246 | a subpath is drawn iff the contour has at least three corners; it starts with a move to the first corner's start point, ends with a closepath, and its last drawing command returns to that start point |
| Render.StepsLength | src/lib/vectorRenderer.ts:222-244 | each corner contributes one or two commands |
| Render.StepsArcsBounded | src/lib/vectorRenderer.ts:227-240 | every arc of the segment loop has a 0/1 sweep flag and radii equal to one radius in (0, 0.5] times the scales |
| Render.ContourArcsBounded | src/lib/vectorRenderer.ts:214-246 | every arc of a subpath has a 0/1 sweep flag and radii equal to one radius in (0, 0.5] times the scales |
| Bounds.ScanState | src/lib/vectorRenderer.ts:267-276 | the scan state is tight around the filled cells before the scan position; once some cell is found the bounds are ordered |
| Bounds.ScanCell | src/lib/vectorRenderer.ts:270-275 | one cell of the scan keeps the running minima and maxima tight around the filled cells seen so far |
| Bounds.GetFilledBounds | src/lib/vectorRenderer.ts:264-280 | null iff no cell is filled; otherwise every filled cell lies in [minR, maxR) x [minC, maxC), and the rows minR and maxR - 1 and the columns minC and maxC - 1 each hold a filled cell |
| Bresenham.XExhausted | src/lib/vectorRenderer.ts:375-377 | once x has reached its end, the error term blocks any further x step |
| Bresenham.YExhausted | src/lib/vectorRenderer.ts:375-377 | once y has reached its end, the error term blocks any further y step |
| Bresenham.Advance | src/lib/vectorRenderer.ts:375-377 | a step from a point short of the end moves x, y or both by one unit towards the end, never past it; the error term stays consistent and within the bound that keeps the new point within half a cell of the ideal line |
| Bresenham.BresenhamLine | src/lib/vectorRenderer.ts:363-380 | the points start at (x0, y0) and end at (x1, y1), which appears only at the end; each step moves at most one unit on each axis towards the end and at least one overall; every point lies between the end points on both axes and within half a cell of the ideal line along the minor axis, that is, 2 (j dx - i dy) lies in [-max(dx, dy), max(dx, dy)] for a point i steps along x and j along y from the start |
| Scenarios.PreferredCandidate | src/lib/vectorRenderer.ts:66-72 | an unused edge at the current end that turns strictly less than every other unused one there is the step taken |
| Scenarios.NoCandidate | src/lib/vectorRenderer.ts:66-67 | when every edge at the current end is used the walk stops |
| Scenarios.WalkDeterministic | src/lib/vectorRenderer.ts:58-74 | two walks from the same first edge over the same used keys are equal |
| Scenarios.SquareTrace | src/lib/vectorRenderer.ts:43-80 | the edges of one lone cell square are traced as that square, from its top side |
| Scenarios.SingleCellBoundary | src/lib/vectorRenderer.ts:11-33 | a 1 x 1 filled grid has the four sides of its cell as boundary, top, right, bottom, left |
| Scenarios.SquareCorners | src/lib/vectorRenderer.ts:164-180 | a cell square has four convex corners, at its four vertices, starting at its top-left |
| Scenarios.SharpFour | src/lib/vectorRenderer.ts:214-246 | with radius 0 a contour of four corners is a move to the first vertex, lines to the other three and back, and a closepath |
| Scenarios.SquareCommands | src/lib/vectorRenderer.ts:214-246 | with radius 0 a cell square is drawn as its four vertices, clockwise from the top-left, closed |
| Scenarios.SingleCellPath | src/lib/vectorRenderer.ts:142-258 | for a single filled cell every trace gives exactly M 0 0, L 1 0, L 1 1, L 0 1, L 0 0, Z |
| Scenarios.SingleCellRender | src/lib/vectorRenderer.ts:142-258 | `generateSVGPathData` on a single filled cell returns exactly that square path |
| Scenarios.DiagonalBoundary | src/lib/vectorRenderer.ts:11-33 | two diagonal cells have as boundary the two cell squares, the upper-left one first |
| Scenarios.DiagonalTurn | src/lib/vectorRenderer.ts:66-72 | at the shared vertex the tracer turns right into the first cell's bottom side rather than left into the second cell's top side |
| Scenarios.DiagonalTrace | src/lib/vectorRenderer.ts:43-80 | the diagonal boundary is traced as the two squares, in scan order |
| Scenarios.DiagonalSeparate | src/lib/vectorRenderer.ts:142-258 | two diagonal cells give two separate contours, the two squares, drawn as two closed square subpaths |
| Scenarios.BlockBoundary | src/lib/vectorRenderer.ts:11-33 | a filled 2 x 2 block has eight boundary edges, two per cell, in scan order |
| Scenarios.ForcedStep | src/lib/vectorRenderer.ts:66-72 | when no two edges start at the same point, the step from an edge is the one edge starting at its end, or none once it is used |
| Scenarios.BlockTrace | src/lib/vectorRenderer.ts:43-80 | the block's boundary is traced as one walk round the block, clockwise from the top-left |
| Scenarios.BlockCorners | src/lib/vectorRenderer.ts:164-180 | that walk has exactly four corners, all convex, at the four outer corners of the block |
| Scenarios.BlockPath | src/lib/vectorRenderer.ts:164-246 | with radius 0 the block is drawn as M 0 0, L 2 0, L 2 2, L 0 2, L 0 0, Z |
| Scenarios.BlockOneContour | src/lib/vectorRenderer.ts:142-258 | for a filled 2 x 2 block every trace gives one contour and exactly that path |
| GridState.PushedSpec | src/hooks/useGridState.ts:57-60 | a push ends with the new grid, keeps at most 51 entries, appends when the stack holds at most 50, and otherwise keeps the newest entries in order |
| GridState.SetCell | src/hooks/useGridState.ts:154-156 | the copied grid has the same shape, the new value at (r, c) and every other cell unchanged |
| GridState.RectIff | src/hooks/useGridState.ts:178-183 | the rectangle preview holds exactly the cells between the two corners, both inclusive |
| GridState.RectangleCells | src/hooks/useGridState.ts:178-183 | the nested loops return the cells from the smaller to the larger corner, row by row |
| GridState.Transposed | src/hooks/useGridState.ts:175 | each point (x, y) of the line becomes the cell (y, x), in order |
| GridState.SetCellShape | src/hooks/useGridState.ts:154-156 | setting one in-grid cell keeps a rectangular grid rectangular, with the same size |
| GridState.CommitPreview | src/hooks/useGridState.ts:195-203 | the committed grid keeps its shape, and a cell is filled iff it was filled or is a previewed cell inside the grid |
| GridState.GridEditor.constructor | src/hooks/useGridState.ts:36-52 | the initial state: empty 4 x 4 grid, pencil, corner radius 0.25, inner radius 0, no bridges, bridge radius 0.35, no overrides or selection, empty stacks and no drag |
| GridState.GridEditor.PushHistory | src/hooks/useGridState.ts:57-60 | the grid is pushed on the undo stack, which keeps its last 50 entries, and redo is emptied; nothing else changes |
| GridState.GridEditor.SetTool | src/hooks/useGridState.ts:37 | only the tool changes |
| GridState.GridEditor.SetGridSize | src/hooks/useGridState.ts:62-73 | the new grid has the requested shape, keeps the old cells inside both shapes, is empty elsewhere, and the old grid is pushed on the history |
| GridState.GridEditor.ClearGrid | src/hooks/useGridState.ts:75-82 | the grid becomes empty with the same shape, the old one is pushed, and the overrides and selection are cleared |
| GridState.GridEditor.Undo | src/hooks/useGridState.ts:84-92 | nothing happens with an empty history; otherwise its top becomes the grid and the current grid goes on the redo stack |
| GridState.GridEditor.Redo | src/hooks/useGridState.ts:94-102 | nothing happens with an empty redo stack; otherwise its top becomes the grid and the current grid goes on the history |
| GridState.GridEditor.UndoThenRedo | src/hooks/useGridState.ts:84-102 | an undo followed by a redo restores the whole editor state |
| GridState.GridEditor.SetCellCornerRadius | src/hooks/useGridState.ts:104-112 | the cell's override gets the new corner radius and keeps its inner radius (the global one when it had no override); no other entry changes |
| GridState.GridEditor.SetCellInnerRadius | src/hooks/useGridState.ts:114-122 | the cell's override gets the new inner radius and keeps its corner radius (the global one when it had no override); no other entry changes |
| GridState.GridEditor.ResetCellSettings | src/hooks/useGridState.ts:124-130 | the cell's override is removed; no other entry changes |
| GridState.GridEditor.GetCellSettings | src/hooks/useGridState.ts:132-134 | the override of the cell when there is one, and nothing otherwise |
| GridState.GridEditor.HandleCellDown | src/hooks/useGridState.ts:136-158 | nothing outside the grid; the edit tool selects a filled cell or clears the selection; other tools start a drag with a snapshot, and pencil and eraser also push the grid and set the cell |
| GridState.GridEditor.StartDrag | src/hooks/useGridState.ts:148-150 | the drag starts at the cell, with a snapshot of the grid; nothing else changes |
| GridState.GridEditor.PaintCell | src/hooks/useGridState.ts:152-156 | only the grid changes, and only at the cell, to the given value |
| GridState.GridEditor.HandleCellMove | src/hooks/useGridState.ts:160-187 | nothing unless dragging inside the grid; pencil and eraser set the cell without a history entry; the rectangle tool previews the rectangle; the line tool previews the Bresenham line from the drag start as cells: unit steps from the drag start to the cell, each within half a cell of the ideal line |
| GridState.GridEditor.PreviewLine | src/hooks/useGridState.ts:172-176 | only the preview changes: the line's cells from the drag start to the cell, each a unit step towards it and within half a cell of the ideal line |
| GridState.GridEditor.HandleCellUp | src/hooks/useGridState.ts:189-209 | nothing unless dragging; a line or rectangle drag with a preview and a snapshot pushes the snapshot, fills the previewed cells inside the grid and clears the preview; every drag ends with no start and no snapshot |
| GridState.GridEditor.CommitDrag | src/hooks/useGridState.ts:194-204 | the snapshot is pushed, the previewed cells inside the grid are filled, other cells stay, and the preview is cleared |

## Left out

- The decimal formatting of coordinates (`round`, `toFixed(4)`) and the joining of commands into one string with spaces. The model returns the command list itself.
- `generateSVGMarkup`, `exportSVG`, `exportPNG` and `copySVGToClipboard`. They wrap the path in markup and hand it to the DOM, a canvas or the clipboard.
- `generateRandomPattern`. It depends on `Math.random`.
- The `evenodd` fill rule, which makes the counter-clockwise inner contours read as holes. It belongs to the markup.
- The React machinery: state setters that run later and may be replayed, stale closures and refs. Each handler is modelled as one atomic update of the editor's fields.
- The plain setters `setCornerRadius`, `setInnerRadius`, `setSelectedCell`, `setDiagonalBridge` and `setBridgeRadius` replace one field each, as `SetTool` does. `canUndo` and `canRedo` are `history != []` and `future != []`.
- `cloneGrid` is the identity. Grids are values in the model, so a copy cannot be aliased.
- `cellKey`'s string key `"r,c"` is the pair (r, c). Distinct cells have distinct keys in both.
- The per-cell radius lookup is an optional parameter of the renderer, and the model keeps it so. The callers of `generateSVGPathData` in src/components/grid/PixelGrid.tsx:54 and src/components/grid/PreviewPanel.tsx:16 do not pass it, and src/pages/Index.tsx:71-77 passes no overrides to them, so the editor's per-cell overrides never reach the renderer. The model does not connect the editor's overrides to the lookup either.
- Containment of the path in [0, Cols * scaleX] x [0, Rows * scaleY] is not proved. Each arrival point lies on the edge before its corner, and for the corner at the first edge that is the contour's last edge, which ends there only if the contour closes. The model does not prove that contours close (see `Contours.TraceContoursSpec` below).
- Contours.TraceContoursSpec: does not prove that each contour returns to its start point (the end of its last edge is the start of its first). The model proves the contours are chained, disjoint and cover every edge, but not that they close.
- Bresenham.BresenhamLine: does not state the number of points, max(|dx|, |dy|) + 1. It states the end points, unit steps towards the end, the bounds and the half-cell distance from the ideal line.
- Corners.Clamp, Corners.CornerRadius, Render.CornerCommands: radii and scales are exact reals, where the source has IEEE doubles. A NaN radius clamps to NaN in the source, fails `cr > 0` and draws a sharp corner; the model has no NaN. The rounding of `(v ± r) * scale` before `toFixed(4)` is not modelled either.
- GridState.GridEditor.SetGridSize: takes natural numbers. Negative or fractional sizes, which `Array.from` would reject or truncate, are not modelled.
- GridState.GridEditor.PushHistory: requires the grids to be rectangular (part of `Valid`). Ragged grids never arise from the editor's own operations, and the model does not cover them.
- Contours.BestIndex: models `reduce` as the index of the chosen candidate rather than the candidate itself. `ChooseNext` returns the candidate.
- Contours.FollowWalk: keeps the source's check that the current edge is already used. The walk never reaches it, because candidates are always unused.
- GridState.GridEditor.UndoThenRedo: not a function of the source. It states the round trip of `undo` and `redo`.

/**
 * The editor state behind `useGridState`: the grid being drawn, the tool,
 * the global and per-cell radii, undo and redo stacks of whole grids, the
 * selection, and the drag state of the drawing tools. Each handler replaces
 * some of these fields; the React hooks that hold them are not modelled.
 */
module GridState {
  import opened Wrappers
  import opened Grids
  import opened Bresenham

  datatype Tool = Pencil | Eraser | LineTool | RectangleTool | Edit

  /** How many earlier history entries a push keeps (`h.slice(-50)`). */
  const HistoryKept := 50

  /** `[...h.slice(-50), g]`: the last 50 entries of h, then g. */
  function Pushed(h: seq<Grid>, g: Grid): seq<Grid> {
    (if |h| > HistoryKept then h[|h| - HistoryKept..] else h) + [g]
  }

  /** A push ends with g, keeps at most 51 entries, and keeps the newest existing ones in order. */
  lemma PushedSpec(h: seq<Grid>, g: Grid)
    ensures |Pushed(h, g)| <= HistoryKept + 1
    ensures Pushed(h, g)[|Pushed(h, g)| - 1] == g
    ensures |h| <= HistoryKept ==> Pushed(h, g) == h + [g]
    ensures var p := Pushed(h, g);
      forall k :: 0 <= k < |p| - 1 ==> p[k] == h[|h| - (|p| - 1) + k]
  {
  }

  /** Every field of the editor, as one value. */
  datatype EditorState = EditorState(
    grid: Grid,
    tool: Tool,
    cornerRadius: real,
    innerRadius: real,
    diagonalBridge: bool,
    bridgeRadius: real,
    cellSettings: map<(int, int), CellSettings>,
    selectedCell: Option<(int, int)>,
    history: seq<Grid>,
    future: seq<Grid>,
    previewCells: seq<(int, int)>,
    drawing: bool,
    drawStart: Option<(int, int)>,
    snapshot: Option<Grid>)

  /** The grid with cell (r, c) set to v. */
  function SetCell(g: Grid, r: int, c: int, v: bool): (g': Grid)
    requires 0 <= r < |g| && 0 <= c < |g[r]|
    ensures |g'| == |g| && forall i :: 0 <= i < |g| ==> |g'[i]| == |g[i]|
    ensures g'[r][c] == v
    ensures forall i, j :: 0 <= i < |g| && 0 <= j < |g[i]| && (i != r || j != c) ==> g'[i][j] == g[i][j]
  {
    g[r := g[r][c := v]]
  }

  /** The cells of the inclusive rectangle rows rMin..rMax, columns cMin..cMax, row by row. */
  function Rect(rMin: int, rMax: int, cMin: int, cMax: int): seq<(int, int)>
    decreases rMax - rMin
  {
    if rMax < rMin then []
    else Rect(rMin, rMax - 1, cMin, cMax) + RowSpan(rMax, cMin, cMax)
  }

  function RowSpan(r: int, cMin: int, cMax: int): seq<(int, int)> {
    if cMax < cMin then [] else seq(cMax - cMin + 1, k => (r, cMin + k))
  }

  /** The rectangle holds exactly the cells inside it. */
  lemma {:induction false} RectIff(rMin: int, rMax: int, cMin: int, cMax: int)
    ensures forall p :: p in Rect(rMin, rMax, cMin, cMax) <==> rMin <= p.0 <= rMax && cMin <= p.1 <= cMax
    decreases rMax - rMin
  {
    if rMax >= rMin {
      RectIff(rMin, rMax - 1, cMin, cMax);
      forall p: (int, int) | rMax == p.0 && cMin <= p.1 <= cMax
        ensures p in RowSpan(rMax, cMin, cMax)
      {
        assert RowSpan(rMax, cMin, cMax)[p.1 - cMin] == p;
      }
    }
  }

  /** The rectangle preview of `handleCellMove`: the nested loops from the smaller to the larger corner. */
  method RectangleCells(s: (int, int), r: int, c: int) returns (cells: seq<(int, int)>)
    ensures var rMin, rMax := Min(s.0, r), Max(s.0, r);
      var cMin, cMax := Min(s.1, c), Max(s.1, c);
      cells == Rect(rMin, rMax, cMin, cMax)
  {
    var rMin, rMax := Min(s.0, r), Max(s.0, r);
    var cMin, cMax := Min(s.1, c), Max(s.1, c);
    cells := [];
    var ri := rMin;
    while ri <= rMax
      invariant rMin <= ri <= rMax + 1
      invariant cells == Rect(rMin, ri - 1, cMin, cMax)
    {
      var ci := cMin;
      var row := [];
      while ci <= cMax
        invariant cMin <= ci <= cMax + 1
        invariant row == seq(ci - cMin, k => (ri, cMin + k))
      {
        row := row + [(ri, ci)];
        ci := ci + 1;
      }
      cells := cells + row;
      ri := ri + 1;
    }
  }

  function Min(a: int, b: int): int {
    if a < b then a else b
  }

  function Max(a: int, b: int): int {
    if a < b then b else a
  }

  /** The preview cells of the line tool: the line's points as (row, column). */
  function Transposed(points: seq<(int, int)>): (cells: seq<(int, int)>)
    ensures |cells| == |points|
    ensures forall k :: 0 <= k < |points| ==> cells[k] == (points[k].1, points[k].0)
  {
    seq(|points|, k requires 0 <= k < |points| => (points[k].1, points[k].0))
  }

  /** In-bounds for the grid: inside its row count and the column count of its first row. */
  predicate InGrid(g: Grid, r: int, c: int) {
    0 <= r < |g| && 0 <= c < Cols(g)
  }

  /** Setting one in-grid cell keeps a rectangular grid rectangular, with the same size. */
  lemma SetCellShape(g: Grid, r: int, c: int, v: bool)
    requires Rectangular(g) && InGrid(g, r, c)
    ensures |SetCell(g, r, c, v)| == |g| && Cols(SetCell(g, r, c, v)) == Cols(g)
    ensures Rectangular(SetCell(g, r, c, v))
  {
  }

  /** The commit loop of `handleCellUp`: every in-bounds preview cell becomes filled. */
  method CommitPreview(g: Grid, cells: seq<(int, int)>) returns (g': Grid)
    requires Rectangular(g)
    ensures |g'| == |g| && Rectangular(g') && Cols(g') == Cols(g)
    ensures forall r, c :: InGrid(g, r, c) ==> g'[r][c] == (g[r][c] || (r, c) in cells)
  {
    g' := g;
    for k := 0 to |cells|
      invariant |g'| == |g| && forall i :: 0 <= i < |g| ==> |g'[i]| == |g[i]|
      invariant forall r, c :: InGrid(g, r, c) ==> g'[r][c] == (g[r][c] || (r, c) in cells[..k])
    {
      var (r, c) := cells[k];
      if r >= 0 && r < |g| && c >= 0 && c < Cols(g) {
        g' := SetCell(g', r, c, true);
      }
      assert cells[..k + 1] == cells[..k] + [cells[k]];
    }
    assert cells[..|cells|] == cells;
  }

  class GridEditor {
    var grid: Grid
    var tool: Tool
    var cornerRadius: real
    var innerRadius: real
    var diagonalBridge: bool
    var bridgeRadius: real
    var cellSettings: map<(int, int), CellSettings>
    var selectedCell: Option<(int, int)>
    var history: seq<Grid>
    var future: seq<Grid>
    var previewCells: seq<(int, int)>
    var drawing: bool
    var drawStart: Option<(int, int)>
    var snapshot: Option<Grid>

    ghost function State(): EditorState
      reads this
    {
      EditorState(grid, tool, cornerRadius, innerRadius, diagonalBridge, bridgeRadius, cellSettings,
                  selectedCell, history, future, previewCells, drawing, drawStart, snapshot)
    }

    /**
     * Every grid the editor holds is rectangular, and the two stacks together
     * hold at most 51 grids: a push keeps 51 and clears redo, and undo and
     * redo only move a grid from one stack to the other.
     */
    ghost predicate Valid()
      reads this
    {
      && Rectangular(grid)
      && (forall k :: 0 <= k < |history| ==> Rectangular(history[k]))
      && (forall k :: 0 <= k < |future| ==> Rectangular(future[k]))
      && (snapshot.Some? ==> Rectangular(snapshot.value))
      && |history| + |future| <= HistoryKept + 1
    }

    /** The initial state: an empty 4 x 4 grid, pencil, corner radius 0.25, bridge radius 0.35. */
    constructor ()
      ensures Valid()
      ensures State() == EditorState(EmptyGrid(4, 4), Pencil, 0.25, 0.0, false, 0.35, map[], None, [], [], [], false, None, None)
    {
      grid := EmptyGrid(4, 4);
      tool := Pencil;
      cornerRadius := 0.25;
      innerRadius := 0.0;
      diagonalBridge := false;
      bridgeRadius := 0.35;
      cellSettings := map[];
      selectedCell := None;
      history := [];
      future := [];
      previewCells := [];
      drawing := false;
      drawStart := None;
      snapshot := None;
      EmptyGridShape(4, 4);
    }

    function GridRows(): nat
      reads this
    {
      |grid|
    }

    function GridCols(): nat
      reads this
    {
      Cols(grid)
    }

    /** `pushHistory(g)`: g goes on the undo stack, which keeps its last 50 entries, and redo is emptied. */
    method PushHistory(g: Grid)
      requires Valid() && Rectangular(g)
      modifies this
      ensures Valid()
      ensures State() == old(State()).(history := Pushed(old(history), g), future := [])
    {
      PushedSpec(history, g);
      history := Pushed(history, g);
      future := [];
    }

    method SetTool(t: Tool)
      modifies this
      ensures State() == old(State()).(tool := t)
    {
      tool := t;
    }

    /**
     * `setGridSize(rows, cols)`: a rows x cols grid that keeps the cells of the
     * old grid it overlaps and is empty elsewhere; the old grid goes on the
     * undo stack.
     */
    method SetGridSize(rows: nat, cols: nat)
      requires Valid()
      modifies this
      ensures Valid()
      ensures |grid| == rows && forall r :: 0 <= r < rows ==> |grid[r]| == cols
      ensures forall r, c :: 0 <= r < rows && 0 <= c < cols ==>
        grid[r][c] == (InGrid(old(grid), r, c) && old(grid)[r][c])
      ensures State() == old(State()).(grid := grid, history := Pushed(old(history), old(grid)), future := [])
    {
      var prev := grid;
      var newGrid := EmptyGrid(rows, cols);
      var minR := if |prev| < rows then |prev| else rows;
      var minC := if Cols(prev) < cols then Cols(prev) else cols;
      for r := 0 to minR
        invariant |newGrid| == rows && forall i :: 0 <= i < rows ==> |newGrid[i]| == cols
        invariant forall i, j :: 0 <= i < rows && 0 <= j < cols ==>
          newGrid[i][j] == (i < r && j < minC && prev[i][j])
      {
        for c := 0 to minC
          invariant |newGrid| == rows && forall i :: 0 <= i < rows ==> |newGrid[i]| == cols
          invariant forall i, j :: 0 <= i < rows && 0 <= j < cols ==>
            newGrid[i][j] == ((i < r || (i == r && j < c)) && j < minC && prev[i][j])
        {
          newGrid := SetCell(newGrid, r, c, prev[r][c]);
        }
      }
      PushHistory(prev);
      grid := newGrid;
    }

    /** `clearGrid`: an empty grid of the same size, no overrides, no selection; the old grid goes on the undo stack. */
    method ClearGrid()
      requires Valid()
      modifies this
      ensures Valid()
      ensures State() == old(State()).(grid := EmptyGrid(old(|grid|), old(Cols(grid))),
        history := Pushed(old(history), old(grid)), future := [], cellSettings := map[], selectedCell := None)
    {
      var prev := grid;
      PushHistory(prev);
      EmptyGridShape(|prev|, Cols(prev));
      grid := EmptyGrid(|prev|, Cols(prev));
      cellSettings := map[];
      selectedCell := None;
    }

    /** `undo`: nothing with an empty undo stack; otherwise its top becomes the grid and the grid goes on redo. */
    method Undo()
      requires Valid()
      modifies this
      ensures Valid()
      ensures old(history) == [] ==> State() == old(State())
      ensures old(history) != [] ==> State() == old(State()).(
        grid := old(history[|history| - 1]),
        history := old(history[..|history| - 1]),
        future := old(future) + [old(grid)])
    {
      if |history| == 0 {
        return;
      }
      var prev := history[|history| - 1];
      future := future + [grid];
      grid := prev;
      history := history[..|history| - 1];
    }

    /** `redo`: the mirror image of `undo`. */
    method Redo()
      requires Valid()
      modifies this
      ensures Valid()
      ensures old(future) == [] ==> State() == old(State())
      ensures old(future) != [] ==> State() == old(State()).(
        grid := old(future[|future| - 1]),
        future := old(future[..|future| - 1]),
        history := old(history) + [old(grid)])
    {
      if |future| == 0 {
        return;
      }
      var next := future[|future| - 1];
      history := history + [grid];
      grid := next;
      future := future[..|future| - 1];
    }

    /** With something to undo, an undo followed by a redo restores every field. */
    method UndoThenRedo()
      requires Valid() && history != []
      modifies this
      ensures Valid()
      ensures State() == old(State())
    {
      ghost var before := State();
      Undo();
      Redo();
      assert before.history == before.history[..|before.history| - 1] + [before.history[|before.history| - 1]];
    }

    /** The override of a cell, or the global radii for a cell without one. */
    function Existing(key: (int, int)): CellSettings
      reads this
    {
      if key in cellSettings then cellSettings[key] else CellSettings(cornerRadius, innerRadius)
    }

    /**
     * `setCellCornerRadius(r, c, v)`: cell (r, c) gets corner radius v and keeps
     * its inner radius, which a new override takes from the global setting;
     * every other override is unchanged.
     */
    method SetCellCornerRadius(r: int, c: int, value: real)
      modifies this
      ensures State() == old(State()).(cellSettings := cellSettings)
      ensures (r, c) in cellSettings && cellSettings[(r, c)].cornerRadius == value
      ensures cellSettings[(r, c)].innerRadius == old(Existing((r, c))).innerRadius
      ensures forall k :: k != (r, c) ==> (k in cellSettings <==> k in old(cellSettings))
      ensures forall k :: k != (r, c) && k in cellSettings ==> cellSettings[k] == old(cellSettings)[k]
    {
      var key := (r, c);
      var existing := if key in cellSettings then cellSettings[key] else CellSettings(cornerRadius, innerRadius);
      cellSettings := cellSettings[key := existing.(cornerRadius := value)];
    }

    /** `setCellInnerRadius(r, c, v)`: symmetric to `SetCellCornerRadius`. */
    method SetCellInnerRadius(r: int, c: int, value: real)
      modifies this
      ensures State() == old(State()).(cellSettings := cellSettings)
      ensures (r, c) in cellSettings && cellSettings[(r, c)].innerRadius == value
      ensures cellSettings[(r, c)].cornerRadius == old(Existing((r, c))).cornerRadius
      ensures forall k :: k != (r, c) ==> (k in cellSettings <==> k in old(cellSettings))
      ensures forall k :: k != (r, c) && k in cellSettings ==> cellSettings[k] == old(cellSettings)[k]
    {
      var key := (r, c);
      var existing := if key in cellSettings then cellSettings[key] else CellSettings(cornerRadius, innerRadius);
      cellSettings := cellSettings[key := existing.(innerRadius := value)];
    }

    /** `resetCellSettings(r, c)`: removes exactly the override of (r, c). */
    method ResetCellSettings(r: int, c: int)
      modifies this
      ensures State() == old(State()).(cellSettings := cellSettings)
      ensures (r, c) !in cellSettings
      ensures forall k :: k != (r, c) ==> (k in cellSettings <==> k in old(cellSettings))
      ensures forall k :: k != (r, c) && k in cellSettings ==> cellSettings[k] == old(cellSettings)[k]
    {
      cellSettings := cellSettings - {(r, c)};
    }

    /** `getCellSettings(r, c)`: the override of (r, c), if any. */
    function GetCellSettings(r: int, c: int): (s: Option<CellSettings>)
      reads this
      ensures s.Some? <==> (r, c) in cellSettings
      ensures s.Some? ==> s.value == cellSettings[(r, c)]
    {
      if (r, c) in cellSettings then Some(cellSettings[(r, c)]) else None
    }

    /**
     * `handleCellDown(r, c)`: ignored outside the grid. The edit tool selects a
     * filled cell and deselects on an empty one. Any other tool starts a drag
     * from (r, c) with a snapshot of the grid; pencil and eraser also put the
     * grid on the undo stack and set exactly that cell filled or empty.
     */
    method HandleCellDown(r: int, c: int)
      requires Valid()
      modifies this
      ensures Valid()
      ensures !InGrid(old(grid), r, c) ==> State() == old(State())
      ensures InGrid(old(grid), r, c) && old(tool) == Edit ==>
        State() == old(State()).(selectedCell := if old(grid)[r][c] then Some((r, c)) else None)
      ensures InGrid(old(grid), r, c) && (old(tool) == LineTool || old(tool) == RectangleTool) ==>
        State() == old(State()).(drawing := true, drawStart := Some((r, c)), snapshot := Some(old(grid)))
      ensures InGrid(old(grid), r, c) && (old(tool) == Pencil || old(tool) == Eraser) ==>
        State() == old(State()).(drawing := true, drawStart := Some((r, c)), snapshot := Some(old(grid)),
          history := Pushed(old(history), old(grid)), future := [],
          grid := SetCell(old(grid), r, c, old(tool) == Pencil))
    {
      if r < 0 || r >= GridRows() || c < 0 || c >= GridCols() {
        return;
      }
      if tool == Edit {
        if grid[r][c] {
          selectedCell := Some((r, c));
        } else {
          selectedCell := None;
        }
        return;
      }
      StartDrag(r, c);
      if tool == Pencil || tool == Eraser {
        var g := grid;
        PushHistory(g);
        PaintCell(r, c, tool == Pencil);
      }
    }

    /** The drag bookkeeping of `handleCellDown`: dragging from (r, c), with a snapshot of the grid. */
    method StartDrag(r: int, c: int)
      requires Valid()
      modifies this
      ensures Valid()
      ensures State() == old(State()).(drawing := true, drawStart := Some((r, c)), snapshot := Some(old(grid)))
    {
      drawing := true;
      drawStart := Some((r, c));
      snapshot := Some(grid);
    }

    /** Writes v into the in-grid cell (r, c); nothing else changes. */
    method PaintCell(r: int, c: int, v: bool)
      requires Valid() && InGrid(grid, r, c)
      modifies this
      ensures Valid()
      ensures State() == old(State()).(grid := SetCell(old(grid), r, c, v))
    {
      SetCellShape(grid, r, c, v);
      grid := SetCell(grid, r, c, v);
    }

    /**
     * `handleCellMove(r, c)`: ignored unless dragging and inside the grid.
     * Pencil and eraser set that cell without a new undo entry; the line tool
     * previews the line from the drag start, the rectangle tool the rectangle
     * it spans.
     */
    method HandleCellMove(r: int, c: int)
      requires Valid()
      modifies this
      ensures Valid()
      ensures (!old(drawing) || !InGrid(old(grid), r, c)) ==> State() == old(State())
      ensures old(drawing) && InGrid(old(grid), r, c) && (old(tool) == Pencil || old(tool) == Eraser) ==>
        State() == old(State()).(grid := SetCell(old(grid), r, c, old(tool) == Pencil))
      ensures old(drawing) && InGrid(old(grid), r, c) && old(tool) == RectangleTool && old(drawStart).Some? ==>
        var s := old(drawStart).value;
        State() == old(State()).(previewCells := Rect(Min(s.0, r), Max(s.0, r), Min(s.1, c), Max(s.1, c)))
      ensures old(drawing) && InGrid(old(grid), r, c) && old(tool) == LineTool && old(drawStart).Some? ==>
        var s := old(drawStart).value;
        && State() == old(State()).(previewCells := previewCells)
        && |previewCells| >= 1 && previewCells[0] == s && previewCells[|previewCells| - 1] == (r, c)
        && (forall k :: 0 < k < |previewCells| ==>
             UnitStep((previewCells[k - 1].1, previewCells[k - 1].0), (previewCells[k].1, previewCells[k].0), Sign(s.1, c), Sign(s.0, r)))
        && forall k :: 0 <= k < |previewCells| ==> NearLine(s.1, s.0, c, r, (previewCells[k].1, previewCells[k].0))
      ensures old(drawing) && InGrid(old(grid), r, c) && old(drawStart).None? && old(tool) != Pencil && old(tool) != Eraser ==>
        State() == old(State())
      ensures old(tool) == Edit ==> State() == old(State())
    {
      if !drawing {
        return;
      }
      if r < 0 || r >= GridRows() || c < 0 || c >= GridCols() {
        return;
      }
      if tool == Pencil || tool == Eraser {
        if grid[r][c] == (tool == Pencil) {
          assert grid[r][c := tool == Pencil] == grid[r];
          return;
        }
        PaintCell(r, c, tool == Pencil);
      } else if (tool == LineTool || tool == RectangleTool) && drawStart.Some? {
        var s := drawStart.value;
        if tool == LineTool {
          PreviewLine(s, r, c);
        } else {
          var cells := RectangleCells(s, r, c);
          previewCells := cells;
        }
      }
    }

    /**
     * The line tool's preview: the Bresenham line from s to (r, c), as
     * (row, column) cells, each within half a cell of the ideal line.
     */
    method PreviewLine(s: (int, int), r: int, c: int)
      modifies this
      ensures State() == old(State()).(previewCells := previewCells)
      ensures |previewCells| >= 1 && previewCells[0] == s && previewCells[|previewCells| - 1] == (r, c)
      ensures forall k :: 0 < k < |previewCells| ==>
        UnitStep((previewCells[k - 1].1, previewCells[k - 1].0), (previewCells[k].1, previewCells[k].0), Sign(s.1, c), Sign(s.0, r))
    ensures forall k :: 0 <= k < |previewCells| ==> NearLine(s.1, s.0, c, r, (previewCells[k].1, previewCells[k].0))
    {
      var points := BresenhamLine(s.1, s.0, c, r);
      previewCells := Transposed(points);
    }

    /**
     * `handleCellUp`: ends a drag. For the line and rectangle tools with a
     * non-empty preview, the snapshot taken at the start of the drag goes on
     * the undo stack, every in-grid preview cell becomes filled, other cells
     * stay, and the preview is cleared.
     */
    method HandleCellUp()
      requires Valid()
      modifies this
      ensures Valid()
      ensures !old(drawing) ==> State() == old(State())
      ensures old(drawing) && (old(tool) == LineTool || old(tool) == RectangleTool) && old(previewCells) != [] && old(snapshot).Some? ==>
        && State() == old(State()).(drawing := false, drawStart := None, snapshot := None, grid := grid,
             history := Pushed(old(history), old(snapshot).value), future := [], previewCells := [])
        && |grid| == old(|grid|) && Rectangular(grid) && Cols(grid) == old(Cols(grid))
        && forall i, j :: InGrid(old(grid), i, j) ==> grid[i][j] == (old(grid)[i][j] || (i, j) in old(previewCells))
      ensures old(drawing) && !((old(tool) == LineTool || old(tool) == RectangleTool) && old(previewCells) != [] && old(snapshot).Some?) ==>
        State() == old(State()).(drawing := false, drawStart := None, snapshot := None)
    {
      if !drawing {
        return;
      }
      drawing := false;
      if (tool == LineTool || tool == RectangleTool) && |previewCells| > 0 && snapshot.Some? {
        CommitDrag();
      }
      drawStart := None;
      snapshot := None;
    }

    /**
     * The commit of `handleCellUp`: the snapshot goes on the undo stack, the
     * in-grid preview cells are filled, and the preview is cleared.
     */
    method CommitDrag()
      requires Valid() && snapshot.Some?
      modifies this
      ensures Valid()
      ensures State() == old(State()).(grid := grid, history := Pushed(old(history), old(snapshot).value),
        future := [], previewCells := [])
      ensures |grid| == old(|grid|) && Rectangular(grid) && Cols(grid) == old(Cols(grid))
      ensures forall i, j :: InGrid(old(grid), i, j) ==> grid[i][j] == (old(grid)[i][j] || (i, j) in old(previewCells))
    {
      PushHistory(snapshot.value);
      grid := CommitPreview(grid, previewCells);
      previewCells := [];
    }
  }
}

/**
 * `getFilledBounds`: the tight box around the filled cells of a grid, with
 * exclusive maxima, or nothing for a grid without a filled cell.
 */
module Bounds {
  import opened Wrappers
  import opened Grids
  import opened Boundary

  datatype FilledBounds = FilledBounds(minR: int, maxR: int, minC: int, maxC: int)

  /** Row r holds a filled cell. */
  ghost predicate RowHasFilled(g: Grid, r: int) {
    exists c :: Filled(g, r, c)
  }

  /** Column c holds a filled cell. */
  ghost predicate ColHasFilled(g: Grid, c: int) {
    exists r :: Filled(g, r, c)
  }

  /** The running extremes once the cells before (r, c) in row-major order are scanned. */
  ghost predicate ScanState(g: Grid, r: int, c: int, minR: int, maxR: int, minC: int, maxC: int): (ok: bool)
    ensures ok && maxR != -1 ==> minR <= maxR && minC <= maxC
  {
    && ((maxR == -1) <==> forall r', c' :: ScanBefore(r', c', r, c) ==> !Filled(g, r', c'))
    && (maxR == -1 ==> minR == |g| && minC == Cols(g) && maxC == -1)
    && (forall r', c' :: ScanBefore(r', c', r, c) && Filled(g, r', c') ==> minR <= r' <= maxR && minC <= c' <= maxC)
    && (maxR != -1 ==>
          && RowHasFilled(g, minR) && RowHasFilled(g, maxR)
          && ColHasFilled(g, minC) && ColHasFilled(g, maxC))
  }

  /** One cell of the scan. */
  method ScanCell(g: Grid, r: int, c: int, minR: int, maxR: int, minC: int, maxC: int)
    returns (minR': int, maxR': int, minC': int, maxC': int)
    requires 0 <= r < |g| && 0 <= c < Cols(g)
    requires ScanState(g, r, c, minR, maxR, minC, maxC)
    ensures ScanState(g, r, c + 1, minR', maxR', minC', maxC')
  {
    minR', maxR', minC', maxC' := minR, maxR, minC, maxC;
    if c < |g[r]| && g[r][c] {
      assert Filled(g, r, c) && RowHasFilled(g, r) && ColHasFilled(g, c);
      if r < minR' { minR' := r; }
      if r > maxR' { maxR' := r; }
      if c < minC' { minC' := c; }
      if c > maxC' { maxC' := c; }
      forall r', c' | ScanBefore(r', c', r, c + 1) && Filled(g, r', c')
        ensures minR' <= r' <= maxR' && minC' <= c' <= maxC'
      {
        if r' != r || c' != c {
          assert ScanBefore(r', c', r, c);
        }
      }
    } else {
      forall r', c' | ScanBefore(r', c', r, c + 1) && Filled(g, r', c')
        ensures ScanBefore(r', c', r, c)
      {
      }
    }
  }

  /**
   * Nothing exactly when no cell is filled; otherwise every filled cell lies
   * in [minR, maxR) x [minC, maxC), and each of the four bounds is attained by
   * a filled cell.
   */
  method GetFilledBounds(g: Grid) returns (b: Option<FilledBounds>)
    ensures b.None? <==> NoneFilled(g)
    ensures b.Some? ==> forall r, c :: Filled(g, r, c) ==>
      b.value.minR <= r < b.value.maxR && b.value.minC <= c < b.value.maxC
    ensures b.Some? ==>
      && RowHasFilled(g, b.value.minR) && RowHasFilled(g, b.value.maxR - 1)
      && ColHasFilled(g, b.value.minC) && ColHasFilled(g, b.value.maxC - 1)
  {
    var rows, cols := |g|, Cols(g);
    var minR, maxR, minC, maxC := rows, -1, cols, -1;
    for r := 0 to rows
      invariant ScanState(g, r, 0, minR, maxR, minC, maxC)
    {
      for c := 0 to cols
        invariant ScanState(g, r, c, minR, maxR, minC, maxC)
      {
        minR, maxR, minC, maxC := ScanCell(g, r, c, minR, maxR, minC, maxC);
      }
      assert forall c' :: !Filled(g, r, c') || c' < cols;
    }
    assert forall r', c' :: !Filled(g, r', c') || ScanBefore(r', c', rows, 0);
    if maxR == -1 {
      return None;
    }
    b := Some(FilledBounds(minR, maxR + 1, minC, maxC + 1));
  }
}

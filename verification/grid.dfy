/** The grid as rows of cells, and the resize effect that rebuilds it when the
    row or column count changes. */
module Grids {

  import opened Cells

  type Grid = seq<seq<Cell>>

  /** Exactly `rows` rows of `cols` cells each. */
  predicate HasShape(g: Grid, rows: nat, cols: nat) {
    |g| == rows && forall r :: 0 <= r < |g| ==> |g[r]| == cols
  }

  /** The length of the first row, which the editor takes as the column count. */
  function Width(g: Grid): nat {
    if |g| == 0 then 0 else |g[0]|
  }

  predicate IsRect(g: Grid) {
    HasShape(g, |g|, Width(g))
  }

  predicate InBounds(g: Grid, r: int, c: int) {
    0 <= r < |g| && 0 <= c < |g[r]|
  }

  /** The guard of the resize effect: the grid is rebuilt only when it is empty
      or its row count or first-row length differs from the requested size. */
  predicate NeedsResize(g: Grid, rows: nat, cols: nat) {
    |g| == 0 || |g| != rows || |g[0]| != cols
  }

  /** The old cell at (r, c) when there is one, a blank cell otherwise. */
  function CellOr(g: Grid, r: int, c: int): Cell {
    if InBounds(g, r, c) then g[r][c] else Blank
  }

  /** The resize effect: positions present in the old grid keep their cell,
      new positions get a blank white cell, positions outside the new bounds
      are dropped. */
  function Resize(g: Grid, rows: nat, cols: nat): (g': Grid)
    ensures !NeedsResize(g, rows, cols) ==> g' == g
    ensures IsRect(g) || NeedsResize(g, rows, cols) ==> HasShape(g', rows, cols)
    ensures IsRect(g) || NeedsResize(g, rows, cols) ==>
      forall r, c :: 0 <= r < rows && 0 <= c < cols && InBounds(g, r, c) ==> g'[r][c] == g[r][c]
    ensures IsRect(g) || NeedsResize(g, rows, cols) ==>
      forall r, c :: 0 <= r < rows && 0 <= c < cols && !InBounds(g, r, c) ==> g'[r][c] == Blank
  {
    if NeedsResize(g, rows, cols) then
      seq(rows, r => seq(cols, c => CellOr(g, r, c)))
    else
      g
  }

  /** Resizing away and back keeps every cell that lay inside both sizes, and
      the positions the intermediate size dropped come back blank. */
  lemma ResizeRoundTrip(g: Grid, rows: nat, cols: nat)
    requires IsRect(g)
    ensures var back := Resize(Resize(g, rows, cols), |g|, Width(g));
      && HasShape(back, |g|, Width(g))
      && forall r, c :: 0 <= r < |g| && 0 <= c < Width(g) ==>
           back[r][c] == (if r < rows && c < cols then g[r][c] else Blank)
  {
  }

  /** Resizing twice to the same size is resizing once. */
  lemma ResizeIdempotent(g: Grid, rows: nat, cols: nat)
    ensures Resize(Resize(g, rows, cols), rows, cols) == Resize(g, rows, cols)
  {
  }

  /** Shrinking after a resize is the same as resizing straight to the smaller size. */
  lemma ResizeShrink(g: Grid, rows1: nat, cols1: nat, rows2: nat, cols2: nat)
    requires IsRect(g)
    requires rows2 <= rows1 && cols2 <= cols1
    ensures Resize(Resize(g, rows1, cols1), rows2, cols2) == Resize(g, rows2, cols2)
  {
    var mid := Resize(g, rows1, cols1);
    var a := Resize(mid, rows2, cols2);
    var b := Resize(g, rows2, cols2);
    assert HasShape(a, rows2, cols2) && HasShape(b, rows2, cols2);
    forall r | 0 <= r < rows2
      ensures a[r] == b[r]
    {
      forall c | 0 <= c < cols2
        ensures a[r][c] == b[r][c]
      {
        assert InBounds(mid, r, c);
      }
    }
  }
}

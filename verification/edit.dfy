/** The cell edit state machine: what a click or a text input does to one
    cell under the current edit mode, and how the number counter moves. */
module Edit {

  import opened Cells
  import opened Grids

  /** The editor's single active mode: 'black', 'double', 'number', 'text'. */
  datatype Mode = BlackMode | DoubleMode | NumberMode | TextMode

  /** The effect of a click on one cell: the new cell and the new counter. */
  function ClickCell(cell: Cell, mode: Mode, next: int): (res: (Cell, int))
    ensures res.0.autoCount == cell.autoCount
    ensures mode == BlackMode ==>
      && res.1 == next
      && res.0.kind != cell.kind
      && (res.0.kind == Black ==> res.0.text == "" && res.0.number == None && !res.0.isDouble)
      && (res.0.kind == White ==> res.0 == cell.(kind := White))
    ensures mode == DoubleMode ==>
      && res.1 == next
      && (cell.kind == White ==> res.0 == cell.(isDouble := !cell.isDouble))
      && (cell.kind == Black ==> res.0 == cell)
    ensures mode == NumberMode && cell.kind == White && !Numbered(cell) ==>
      res.0 == cell.(number := Some(next)) && res.1 == next + 1
    ensures mode == NumberMode && cell.kind == White && Numbered(cell) ==>
      res.0 == cell.(number := None) && res.1 == next
    ensures mode == NumberMode && cell.kind == Black ==> res == (cell, next)
    ensures mode == TextMode ==> res == (cell, next)
  {
    match mode
    case BlackMode =>
      if cell.kind == Black then (cell.(kind := White), next)
      else (cell.(kind := Black, text := "", number := None, isDouble := false), next)
    case DoubleMode =>
      if cell.kind == White then (cell.(isDouble := !cell.isDouble), next) else (cell, next)
    case NumberMode =>
      if cell.kind != White then (cell, next)
      else if !Numbered(cell) then (cell.(number := Some(next)), next + 1)
      else (cell.(number := None), next)
    case TextMode =>
      (cell, next)
  }

  /** `g` with the cell at (r, c) replaced. */
  function SetCell(g: Grid, r: nat, c: nat, cell: Cell): (g': Grid)
    requires InBounds(g, r, c)
    ensures |g'| == |g| && forall i :: 0 <= i < |g| ==> |g'[i]| == |g[i]|
    ensures g'[r][c] == cell
    ensures forall i, j :: InBounds(g, i, j) && (i, j) != (r, c) ==> g'[i][j] == g[i][j]
  {
    g[r := g[r][c := cell]]
  }

  /** A click on (r, c): only that cell may change. */
  function Click(g: Grid, mode: Mode, next: int, r: nat, c: nat): (res: (Grid, int))
    requires InBounds(g, r, c)
    ensures |res.0| == |g| && forall i :: 0 <= i < |g| ==> |res.0[i]| == |g[i]|
    ensures forall i, j :: InBounds(g, i, j) && (i, j) != (r, c) ==> res.0[i][j] == g[i][j]
    ensures (res.0[r][c], res.1) == ClickCell(g[r][c], mode, next)
  {
    var (cell, next') := ClickCell(g[r][c], mode, next);
    (SetCell(g, r, c, cell), next')
  }

  /** A text input on (r, c): the new grid and whether focus moves to (r, c+1). */
  function TextChange(g: Grid, mode: Mode, r: nat, c: nat, val: string, composing: bool): (res: (Grid, bool))
    requires IsRect(g) && InBounds(g, r, c)
    ensures mode != TextMode ==> res == (g, false)
    ensures mode == TextMode ==>
      && |res.0| == |g| && (forall i :: 0 <= i < |g| ==> |res.0[i]| == |g[i]|)
      && res.0[r][c] == g[r][c].(text := val)
      && forall i, j :: InBounds(g, i, j) && (i, j) != (r, c) ==> res.0[i][j] == g[i][j]
    ensures res.1 <==>
      mode == TextMode && !composing && val != "" && c + 1 < Width(g) && g[r][c + 1].kind != Black
  {
    if mode != TextMode then (g, false)
    else
      var g' := SetCell(g, r, c, g[r][c].(text := val));
      (g', !composing && val != "" && c + 1 < Width(g) && g'[r][c + 1].kind != Black)
  }

  /** Every black cell of the grid is empty. */
  ghost predicate AllPure(g: Grid) {
    forall r, c :: InBounds(g, r, c) ==> Pure(g[r][c])
  }

  /** Every number present lies in [1, next). */
  ghost predicate NumbersBelow(g: Grid, next: int) {
    forall r, c :: InBounds(g, r, c) && g[r][c].number.Some? ==> 1 <= g[r][c].number.value < next
  }

  /** No number is carried by two cells. */
  ghost predicate NumbersDistinct(g: Grid) {
    forall r1, c1, r2, c2 ::
      InBounds(g, r1, c1) && InBounds(g, r2, c2) && (r1, c1) != (r2, c2)
      && g[r1][c1].number.Some? && g[r2][c2].number.Some?
      ==> g[r1][c1].number.value != g[r2][c2].number.value
  }

  /** The grid facts every edit keeps. */
  ghost predicate EditInv(g: Grid, next: int) {
    next >= 1 && AllPure(g) && NumbersBelow(g, next) && NumbersDistinct(g)
  }

  /** A click of any mode keeps the black-cell invariant, keeps numbers
      distinct and below the counter, and never lowers the counter. */
  lemma ClickKeepsInv(g: Grid, mode: Mode, next: int, r: nat, c: nat)
    requires InBounds(g, r, c) && EditInv(g, next)
    ensures EditInv(Click(g, mode, next, r, c).0, Click(g, mode, next, r, c).1)
    ensures next <= Click(g, mode, next, r, c).1 <= next + 1
  {
  }

  /** Text typed into a white cell keeps every invariant (the input box is
      only rendered on white cells in text mode). */
  lemma TextKeepsInv(g: Grid, mode: Mode, next: int, r: nat, c: nat, val: string, composing: bool)
    requires IsRect(g) && InBounds(g, r, c) && EditInv(g, next)
    requires mode == TextMode ==> g[r][c].kind == White
    ensures EditInv(TextChange(g, mode, r, c, val, composing).0, next)
  {
  }

  /** Two double-mode clicks on the same cell undo each other. */
  lemma DoubleClickTwice(g: Grid, next: int, r: nat, c: nat)
    requires InBounds(g, r, c)
    ensures var (g1, n1) := Click(g, DoubleMode, next, r, c);
      Click(g1, DoubleMode, n1, r, c) == (g, next)
  {
    var (g1, n1) := Click(g, DoubleMode, next, r, c);
    var (g2, n2) := Click(g1, DoubleMode, n1, r, c);
    assert g2[r] == g[r];
    assert g2 == g;
  }

  /** On a grid whose black cells are empty, two black-mode clicks on a cell
      that is black, or white and empty, give the grid back. */
  lemma BlackClickTwice(g: Grid, next: int, r: nat, c: nat)
    requires InBounds(g, r, c) && Pure(g[r][c])
    requires g[r][c].kind == White ==> g[r][c].text == "" && g[r][c].number == None && !g[r][c].isDouble
    ensures var (g1, n1) := Click(g, BlackMode, next, r, c);
      Click(g1, BlackMode, n1, r, c) == (g, next)
  {
    var (g1, n1) := Click(g, BlackMode, next, r, c);
    var (g2, n2) := Click(g1, BlackMode, n1, r, c);
    assert g2[r] == g[r];
    assert g2 == g;
  }
}

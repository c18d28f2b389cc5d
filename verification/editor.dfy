/** The whole editor: its state, the user commands, and the rule that the
    auto-count pass runs after every change of the grid. */
module Editor {

  import opened Cells
  import opened Grids
  import opened AutoCount
  import opened Edit

  /** The bounds of the row and column sliders. */
  const MinSize: nat := 3
  const MaxSize: nat := 20

  datatype State = State(rows: nat, cols: nat, grid: Grid, next: int, mode: Mode)

  datatype Command =
    | SetRows(n: nat)
    | SetCols(n: nat)
    | SetMode(m: Mode)
    | ClickAt(r: nat, c: nat)
    | TypeAt(r: nat, c: nat, val: string, composing: bool)

  /** The state the editor keeps between commands: the grid has the stated
      size, the edit invariants hold and every `autoCount` is up to date. */
  ghost predicate Inv(s: State) {
    && HasShape(s.grid, s.rows, s.cols)
    && IsRect(s.grid)
    && EditInv(s.grid, s.next)
    && Annotate(s.grid) == s.grid
  }

  /** The commands the interface can issue in state `s`: slider values stay
      in range, clicks hit a rendered cell, and the text box exists only on
      white cells in text mode. */
  predicate Enabled(s: State, cmd: Command) {
    match cmd
    case SetRows(n) => MinSize <= n <= MaxSize
    case SetCols(n) => MinSize <= n <= MaxSize
    case SetMode(_) => true
    case ClickAt(r, c) => r < |s.grid| && c < |s.grid[r]|
    case TypeAt(r, c, _, _) =>
      r < |s.grid| && c < |s.grid[r]| && s.mode == TextMode && s.grid[r][c].kind == White
  }

  /** A rectangular grid reports its own size. */
  lemma RectShape(g: Grid, rows: nat, cols: nat)
    requires HasShape(g, rows, cols)
    ensures IsRect(g) && (rows > 0 ==> Width(g) == cols)
  {
  }

  /** One command followed by the auto-count pass; the flag is the
      advance-focus request of a text input. */
  function Step(s: State, cmd: Command): (res: (State, bool))
    requires Inv(s) && Enabled(s, cmd)
    ensures res.0.next >= s.next
    ensures !cmd.TypeAt? ==> !res.1
    ensures cmd.SetRows? || cmd.SetCols? ==> res.0.next == s.next && res.0.mode == s.mode
    ensures cmd.SetRows? ==> res.0.rows == cmd.n && res.0.cols == s.cols
    ensures cmd.SetCols? ==> res.0.cols == cmd.n && res.0.rows == s.rows
    ensures cmd.SetRows? ==>
      && HasShape(res.0.grid, cmd.n, s.cols)
      && forall i, j :: 0 <= i < cmd.n && 0 <= j < s.cols ==>
           SameContent(res.0.grid[i][j], if i < s.rows then s.grid[i][j] else Blank)
    ensures cmd.SetCols? ==>
      && HasShape(res.0.grid, s.rows, cmd.n)
      && forall i, j :: 0 <= i < s.rows && 0 <= j < cmd.n ==>
           SameContent(res.0.grid[i][j], if j < s.cols then s.grid[i][j] else Blank)
    ensures cmd.SetMode? ==> res.0 == s.(mode := cmd.m)
    ensures cmd.ClickAt? || cmd.TypeAt? ==>
      res.0.mode == s.mode && res.0.rows == s.rows && res.0.cols == s.cols
    ensures cmd.ClickAt? && s.mode != TextMode ==>
      && HasShape(res.0.grid, s.rows, s.cols)
      && res.0.next == ClickCell(s.grid[cmd.r][cmd.c], s.mode, s.next).1
      && SameContent(res.0.grid[cmd.r][cmd.c], ClickCell(s.grid[cmd.r][cmd.c], s.mode, s.next).0)
    ensures cmd.TypeAt? ==>
      && HasShape(res.0.grid, s.rows, s.cols)
      && res.0.next == s.next
      && SameContent(res.0.grid[cmd.r][cmd.c], s.grid[cmd.r][cmd.c].(text := cmd.val))
      && (forall i, j :: 0 <= i < s.rows && 0 <= j < s.cols && (i, j) != (cmd.r, cmd.c) ==>
            SameContent(res.0.grid[i][j], s.grid[i][j]))
      && (res.1 <==> !cmd.composing && cmd.val != "" && cmd.c + 1 < s.cols
                     && s.grid[cmd.r][cmd.c + 1].kind != Black)
  {
    match cmd
    case SetRows(n) =>
      var g := Resize(s.grid, n, s.cols);
      (s.(rows := n, grid := Annotate(g)), false)
    case SetCols(n) =>
      var g := Resize(s.grid, s.rows, n);
      (s.(cols := n, grid := Annotate(g)), false)
    case SetMode(m) =>
      (s.(mode := m), false)
    case ClickAt(r, c) =>
      if s.mode == TextMode then (s, false)
      else
        var (g, next) := Click(s.grid, s.mode, s.next, r, c);
        assert next >= s.next;
        (s.(grid := Annotate(g), next := next), false)
    case TypeAt(r, c, val, composing) =>
      var (g, focus) := TextChange(s.grid, s.mode, r, c, val, composing);
      (s.(grid := Annotate(g)), focus)
  }

  /** Annotating keeps the edit invariants, since it only writes `autoCount`. */
  lemma AnnotateKeepsEditInv(g: Grid, next: int)
    requires IsRect(g) && EditInv(g, next)
    ensures EditInv(Annotate(g), next)
  {
  }

  /** Resizing keeps the edit invariants: kept cells keep their numbers and
      new cells carry none. */
  lemma ResizeKeepsEditInv(g: Grid, next: int, rows: nat, cols: nat)
    requires IsRect(g) && EditInv(g, next)
    ensures EditInv(Resize(g, rows, cols), next)
  {
  }

  /** Annotating a grid whose edit invariants hold yields a state invariant. */
  lemma AnnotatedInv(s: State, g: Grid)
    requires HasShape(g, s.rows, s.cols) && EditInv(g, s.next)
    ensures Inv(s.(grid := Annotate(g)))
  {
    RectShape(g, s.rows, s.cols);
    AnnotateKeepsEditInv(g, s.next);
    AnnotateIdempotent(g);
    RectShape(Annotate(g), s.rows, s.cols);
  }

  /** Every enabled command keeps the editor invariant. */
  lemma StepKeepsInv(s: State, cmd: Command)
    requires Inv(s) && Enabled(s, cmd)
    ensures Inv(Step(s, cmd).0)
  {
    match cmd
    case SetRows(n) =>
      ResizeKeepsEditInv(s.grid, s.next, n, s.cols);
      AnnotatedInv(s.(rows := n), Resize(s.grid, n, s.cols));
    case SetCols(n) =>
      ResizeKeepsEditInv(s.grid, s.next, s.rows, n);
      AnnotatedInv(s.(cols := n), Resize(s.grid, s.rows, n));
    case SetMode(m) =>
    case ClickAt(r, c) =>
      if s.mode != TextMode {
        var (g, next) := Click(s.grid, s.mode, s.next, r, c);
        ClickKeepsInv(s.grid, s.mode, s.next, r, c);
        AnnotatedInv(s.(next := next), g);
      }
    case TypeAt(r, c, val, composing) =>
      TextKeepsInv(s.grid, s.mode, s.next, r, c, val, composing);
      AnnotatedInv(s, TextChange(s.grid, s.mode, r, c, val, composing).0);
  }

  /** After a click and the pass that follows it, every other cell keeps its
      content; only annotations elsewhere may be recomputed. A click in text
      mode changes nothing. */
  lemma ClickFrame(s: State, r: nat, c: nat)
    requires Inv(s) && Enabled(s, ClickAt(r, c))
    ensures var s' := Step(s, ClickAt(r, c)).0;
      && HasShape(s'.grid, s.rows, s.cols)
      && (forall i, j :: 0 <= i < s.rows && 0 <= j < s.cols && (i, j) != (r, c) ==>
            SameContent(s'.grid[i][j], s.grid[i][j]))
      && (s.mode == TextMode ==> s' == s)
  {
  }

  /** The state on first load with nothing saved: a 10 by 10 grid of blank
      cells, counter at 1, black mode. */
  function Init(): (s: State)
    ensures s.rows == 10 && s.cols == 10 && s.next == 1 && s.mode == BlackMode
    ensures HasShape(s.grid, 10, 10)
    ensures forall r, c :: 0 <= r < 10 && 0 <= c < 10 ==> s.grid[r][c] == Blank
  {
    State(10, 10, Annotate(Resize([], 10, 10)), 1, BlackMode)
  }

  lemma InitInv()
    ensures Inv(Init())
  {
    var g := Resize([], 10, 10);
    assert EditInv(g, 1);
    AnnotatedInv(State(10, 10, [], 1, BlackMode), g);
  }

  /** A command the interface cannot issue changes nothing. */
  function Apply(s: State, cmd: Command): (s': State)
    requires Inv(s)
    ensures Inv(s') && s'.next >= s.next
    ensures !Enabled(s, cmd) ==> s' == s
    ensures Enabled(s, cmd) ==> s' == Step(s, cmd).0
  {
    if Enabled(s, cmd) then
      StepKeepsInv(s, cmd);
      Step(s, cmd).0
    else s
  }

  /** Replaying a session of commands from a valid state. */
  function Replay(s: State, cmds: seq<Command>): (s': State)
    requires Inv(s)
    ensures Inv(s') && s'.next >= s.next
    decreases |cmds|
  {
    if cmds == [] then s
    else
      Replay(Apply(s, cmds[0]), cmds[1..])
  }

  /** The counter is monotone along a session: replaying a longer prefix never
      gives a smaller counter. */
  lemma {:induction false} CounterMonotone(s: State, cmds: seq<Command>, k: nat)
    requires Inv(s) && k <= |cmds|
    ensures Replay(s, cmds[..k]).next <= Replay(s, cmds).next
    decreases |cmds|
  {
    if k > 0 {
      assert cmds[..k][1..] == cmds[1..][..k - 1];
      CounterMonotone(Apply(s, cmds[0]), cmds[1..], k - 1);
    }
  }
}

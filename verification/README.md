# Crossword grid editor — verified model

This project models the editing logic of a crossword grid editor (a single-page
React component). The component keeps a rectangular grid of cells. Each cell is
white or black, may carry a circle ("double" cell), a text entry and a clue
number, and carries a derived `autoCount` annotation. The user edits the grid
in one of four modes (`black`, `double`, `number`, `text`) and searches a
question bank by word length and fixed letters.

Modules:

- `Cells` (cells.dfy): the cell record, the truthiness of `number`, and the
  black-cell purity predicate.
- `Grids` (grid.dfy): the grid as `seq<seq<Cell>>` and the resize effect.
- `AutoCount` (autocount.dfy): run lengths and the auto-count pass.
- `Edit` (edit.dfy): the click and text-input state machine and its invariants.
- `Search` (search.dfy): the length filter, the letter pattern and the
  displayed-question filter.
- `Editor` (editor.dfy): the editor state, the user commands, and the rule
  that the auto-count pass runs after every change. It also proves that the
  invariant holds across a whole session.

Modelling choices:

- `number` is `Option<int>`. "Numbered" follows JavaScript truthiness, so both
  null and 0 count as "no number" (src/App.jsx lines 73 and 107).
- The resize effect keeps its guard. A grid is rebuilt only when it is empty,
  or when its row count or first-row length differs from the requested size.
  A grid whose shape already matches is returned as it is.
- State updates are synchronous. The counter increment that the source
  queues with `setNextNumber(prev => prev + 1)` takes effect at once.
- The auto-count effect is modelled as a pure pass (`Annotate`) applied after
  every command. The source re-runs it only when a key built from every
  cell's type and number changes. `AnnotateReadsKindAndNumber` shows that
  this shortcut loses nothing, because the pass reads nothing else.
- Text input stores the typed value verbatim (src/App.jsx:121). Only pattern
  entries keep just their last character (line 145).
- Out-of-range sizes raise no error: the resize effect (src/App.jsx:44-61)
  accepts any non-negative integer size (`Array(rows)` at line 47 would
  throw on a negative or fractional one). The sliders (lines 208-209 and 221-222) cannot produce
  one outside 3..20, so that range is a precondition in `Editor.Enabled`.
- A click in text mode does nothing. The grid's click handler is not called
  in that mode, and the handler has no text branch anyway.

## Model

| member | source | states |
|---|---|---|
| Grids.Resize | src/App.jsx:44-61 | The result has exactly `rows` rows of `cols` cells. A position inside the old and new bounds keeps its old cell. Any other position gets a blank white cell. A grid whose shape already matches is returned untouched. |
| Grids.ResizeRoundTrip | src/App.jsx:47-57 | Resizing away and back keeps every cell that lay inside both sizes. Positions the intermediate size dropped come back blank. |
| Grids.ResizeIdempotent | src/App.jsx:45-59 | Resizing twice to the same size equals resizing once. |
| Grids.ResizeShrink | src/App.jsx:47-57 | Shrinking after a resize equals resizing straight to the smaller size. |
| AutoCount.Run | src/App.jsx:76-79 | The run counted from index i never reaches past the end of the line. |
| AutoCount.RunIsMaximal | src/App.jsx:76-85 | The run length from a cell is exactly the length of the maximal non-black stretch starting there. No other length qualifies. |
| AutoCount.CountRun | src/App.jsx:76-79 | The counting loop returns a length whose cells are all non-black and which ends at the grid edge or at a black cell. |
| AutoCount.RunSameKinds | src/App.jsx:77-83 | Two lines with the same cell kinds have the same run lengths. |
| AutoCount.Annotate | src/App.jsx:67-89 | The pass keeps the grid's shape and every cell's kind, circle, text and number. A cell gets an annotation iff it is white and numbered. |
| AutoCount.AnnotateRuns | src/App.jsx:72-87 | For a numbered white cell, `h` is the maximal run to the right and `v` the maximal run downward. Each is absent exactly when its run is 1. |
| AutoCount.AnnotateBounds | src/App.jsx:76-87 | A present `h` lies in [2, cols − c]. A present `v` lies in [2, rows − r]. |
| AutoCount.AnnotateReadsKindAndNumber | src/App.jsx:92 | Two grids that agree on every cell's kind and number get the same annotations. |
| AutoCount.AnnotateIdempotent | src/App.jsx:63-92 | Running the pass twice gives the same grid as running it once. |
| Edit.ClickCell | src/App.jsx:96-114 | Black mode flips the kind. Turning black clears text, number and circle. Turning white changes nothing else. Double mode toggles the circle on a white cell and does nothing on a black one. Number mode gives an unnumbered white cell the counter and adds 1 to it, or clears an existing number without touching the counter. Text mode and black cells in number mode are no-ops. |
| Edit.Click | src/App.jsx:94-116 | A click changes at most cell (r, c). The grid's shape is unchanged. |
| Edit.TextChange | src/App.jsx:118-130 | Outside text mode nothing changes and no focus move is requested. In text mode, only the cell's text changes, and it becomes the typed value verbatim. A focus move is requested iff the input is not composing, the value is non-empty, c < cols − 1 and cell (r, c+1) is not black. |
| Edit.ClickKeepsInv | src/App.jsx:98-113 | Every click keeps three facts: black cells are empty, numbers are distinct, and numbers lie in [1, counter). The counter never decreases and grows by at most 1. |
| Edit.TextKeepsInv | src/App.jsx:118-122 | Text typed into a white cell keeps the same invariants. |
| Edit.DoubleClickTwice | src/App.jsx:103-104 | Two double-mode clicks on the same cell give back the original grid and counter. |
| Edit.BlackClickTwice | src/App.jsx:98-102 | Two black-mode clicks on a black cell, or on an empty white cell, give back the original grid. |
| Search.LengthFilter | src/App.jsx:137-141 | Choosing length n selects n and resets the pattern to n empty entries. |
| Search.PatternChange | src/App.jsx:143-147 | Only pattern position i changes. It becomes the last character of the input, or empty when the input is empty. The length and the selected length are kept. |
| Search.Filter | src/App.jsx:150-156 | A question is displayed iff it is in the bank, its length field equals the selected length, and its word matches every non-empty pattern position. |
| Search.FilterKeepsRepeats | src/App.jsx:150-156 | Each displayed record appears in the result as many times as in the bank, repeats included. Every other record appears zero times. |
| Search.FilterKeepsOrder | src/App.jsx:150-156 | The displayed list is an order-preserving subsequence of the bank. |
| Search.FreshPatternSelectsByLength | src/App.jsx:137-155 | Right after a length is chosen, exactly the questions of that length are displayed. |
| Search.PatternChangeNarrows | src/App.jsx:143-156 | Fixing a letter at an open position can only remove questions from the displayed list. |
| Search.NothingBeforeLengthChosen | src/App.jsx:150-151 | While no length is selected, no question is displayed. |
| Editor.Step | src/App.jsx:44-130 | A command never lowers the counter. Only a text input can request a focus move. A resize sets the requested size and leaves the counter and the mode alone. After a resize, every cell inside the old bounds keeps its content and every new position is blank. A click outside text mode gives cell (r, c) the content and the counter that the click rule yields. A text input sets that cell's text to the typed value and leaves every other cell's content alone. Its focus flag holds exactly when the input is not composing, the value is non-empty, and the cell to the right exists and is not black. Changing the mode changes nothing else. A click or a text input leaves the mode and the size alone. |
| Editor.StepKeepsInv | src/App.jsx:44-130 | Every command the interface can issue keeps the invariant. The invariant is: the grid has the stated size, black cells are empty, numbers are distinct and below the counter, and every annotation is current. |
| Editor.ClickFrame | src/App.jsx:94-116 | After a click and the pass that follows it, every cell other than (r, c) keeps its content. A click in text mode changes nothing. |
| Editor.Init | src/App.jsx:4-61 | A first load with nothing saved (lines 4-11), followed by the mount-time resize (lines 44-61), gives a 10 × 10 grid of blank cells, counter 1 and black mode. |
| Editor.InitInv | src/App.jsx:4-61 | The first-load state satisfies the invariant. |
| Editor.Enabled | src/App.jsx:206-310 | The commands the interface can issue. Slider values lie in 3..20 (lines 208-209, 221-222). Clicks land on a rendered cell (line 272). A text input exists only on a white cell in text mode (line 303). |
| Editor.Apply | src/App.jsx:206-310 | A command the interface can issue is carried out by `Editor.Step`. A command it cannot issue leaves the state unchanged. Any command keeps the invariant and does not lower the counter. |
| Editor.Replay | src/App.jsx:94-130 | A whole session keeps the invariant and never lowers the counter. |
| Editor.CounterMonotone | src/App.jsx:105-113 | Along a session, the counter after any prefix is at most the counter at the end. |

## Left out

- Saving to and loading from `localStorage` (src/App.jsx:4-11, 33-41): this is browser persistence. Only the defaults used when nothing is saved appear, in `Editor.Init`.
- Fetching and parsing `questions.csv` (src/App.jsx:19-31): network I/O. The model takes an already-parsed question list with an integer `length` field. A record whose length is not a number (NaN in the source) is not represented. A bank line with fewer than four fields gives a record whose `word` is `undefined` (line 25). Once its length is selected and a pattern letter is set, `q.word[index]` (line 154) throws and breaks the rendering. `Search.Question` always has a string `word`, so this error path is not modelled.
- The delayed DOM focus move (src/App.jsx:126-128) and the `alert` on choosing a question (src/App.jsx:132-135): UI side effects. The focus move is the returned boolean of `Edit.TextChange`.
- The dependency key of the auto-count effect (src/App.jsx:92): replaced by running the pass after every command, justified by `AutoCount.AnnotateReadsKindAndNumber`.
- Asynchronous `setState` batching: updates are synchronous in the model.
- Shared cell objects after the shallow copies (src/App.jsx:95, 120): the grid has value semantics. The old grid is discarded after each update, so nothing observable differs.
- Rendering and styling (src/App.jsx:158-390): only these pieces are used:
  - The slider bounds 3..20 (lines 208-209, 221-222) appear as `Editor.MinSize` / `Editor.MaxSize` in `Editor.Enabled`.
  - Clicks land only on rendered cells (line 272), a condition of `Editor.Enabled`.
  - The text box exists only on white cells in text mode (line 303), a condition of `Editor.Enabled`.
  - The click handler is not called in text mode (line 275), which appears in `Editor.Step`.
  - One pattern input is rendered per pattern position (lines 345-350), so `Search.PatternChange` requires an index inside the pattern.
  The rest is not modelled. The length buttons 2..10, disabled when no question has that length (lines 235-248), are not modelled: `Search.LengthFilter` accepts any length.
- Strings are sequences of characters. The source's `slice(-1)` and `word[index]` work on UTF-16 code units, so a character outside the basic plane is handled differently there.
- Across/down slot extraction and clue CSV import/export: no code for them is part of this model.

/** The crossword cell as the editor stores it, and the facts about a cell
    that the other modules share. */
module Cells {

  datatype Option<T> = None | Some(value: T)

  /** The cell's `type`: the editor only ever writes 'white' or 'black'. */
  datatype Kind = White | Black

  /** The derived `autoCount` record: the across run (`h`) and the down run
      (`v`) starting at a numbered cell, each None when the run is 1 or less. */
  datatype Counts = Counts(h: Option<nat>, v: Option<nat>)

  datatype Cell = Cell(
    kind: Kind,
    isDouble: bool,
    text: string,
    number: Option<int>,
    autoCount: Option<Counts>)

  /** The cell a new grid position starts with. */
  const Blank: Cell := Cell(White, false, "", None, None)

  /** JavaScript truthiness of `cell.number`: null and 0 both mean "no number". */
  predicate Numbered(cell: Cell) {
    cell.number.Some? && cell.number.value != 0
  }

  /** A black cell holds no text, no number and no circle. */
  predicate Pure(cell: Cell) {
    cell.kind == Black ==> cell.text == "" && cell.number == None && !cell.isDouble
  }

  /** Equal in every field the user edits; `autoCount` is derived from them. */
  predicate SameContent(a: Cell, b: Cell) {
    a.kind == b.kind && a.isDouble == b.isDouble && a.text == b.text && a.number == b.number
  }
}

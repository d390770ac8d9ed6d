/** Spreadsheet cells and sheets as openpyxl hands them over with
    `values_only=True`: a row is a tuple of cell values, `None` for an empty
    cell. */
module Cells {

  /** A cell value: `None`, a string, or any other value (number, boolean,
      date) given by its `str()` rendering and its Python truth value. */
  datatype Cell = Blank | Str(text: string) | Other(shown: string, truthy: bool)

  /** The active sheet: its first row (the headers) and the data rows from
      row 2 on, in sheet order. */
  datatype Sheet = Sheet(header: seq<Cell>, rows: seq<seq<Cell>>)

  /** Python truthiness of a cell value (`if value:`). */
  predicate Truthy(c: Cell) {
    match c
    case Blank => false
    case Str(t) => t != []
    case Other(_, b) => b
  }

  /** `str(value)` */
  function Show(c: Cell): string {
    match c
    case Blank => "None"
    case Str(t) => t
    case Other(s, _) => s
  }

  /** `row[i]`. openpyxl yields rows as wide as the sheet, and every column
      index the views compute lies inside it, so a read past the end only
      arises for ragged input; it reads as an empty cell. */
  function At(row: seq<Cell>, i: nat): Cell {
    if i < |row| then row[i] else Blank
  }
}

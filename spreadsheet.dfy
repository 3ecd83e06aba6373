/** The workbook as an abstract table: a sheet is a name and a sequence of
    optional rows (index = row number), a row maps column numbers to the
    cells that exist. Binary encoding is not part of this model. */
module Spreadsheet {
  import opened Wrappers
  import opened JavaText

  /** The cell kinds the post service distinguishes. A numeric cell carries the
      integer part its double value is cast to; `Other` stands for formula and
      error cells. */
  datatype Cell = Str(text: string) | Num(number: int) | Bool(flag: bool) | Blank | Other

  type Row = map<nat, Cell>

  datatype Sheet = Sheet(name: string, rows: seq<Option<Row>>)

  /** `row.getCell(column)`: null when the cell does not exist. */
  function GetCell(row: Row, column: nat): Option<Cell> {
    if column in row then Some(row[column]) else None
  }

  /** `sheet.getRow(i)`: null when the row does not exist. */
  function GetRow(rows: seq<Option<Row>>, i: nat): Option<Row> {
    if i < |rows| then rows[i] else None
  }

  /** `getCellValueAsString`: text for string, numeric and boolean cells, null
      for a missing, blank or other cell. */
  function CellValueAsString(cell: Option<Cell>): Option<string> {
    match cell
    case None => None
    case Some(c) =>
      match c
      case Str(text) => Some(Trim(text))
      case Num(n) => Some(LongToString(n))
      case Bool(b) => Some(if b then "true" else "false")
      case Blank => None
      case Other => None
  }

  /** What `CellValueAsString` gives: null exactly for a missing, blank or other
      cell; the trimmed text of a string cell; a decimal text that reads back as
      the number of a numeric cell; "true" or "false" for a boolean cell. Every
      text it gives is already trimmed. */
  lemma CellValueAsStringFacts(cell: Option<Cell>)
    ensures CellValueAsString(cell).Some? <==>
      cell.Some? && (cell.value.Str? || cell.value.Num? || cell.value.Bool?)
    ensures cell.Some? && cell.value.Str? ==> CellValueAsString(cell) == Some(Trim(cell.value.text))
    ensures cell.Some? && cell.value.Num? ==>
      ParseLong(CellValueAsString(cell).value) == Some(cell.value.number)
    ensures cell.Some? && cell.value.Bool? ==>
      CellValueAsString(cell) == Some(if cell.value.flag then "true" else "false")
    ensures CellValueAsString(cell).Some? ==> Trim(CellValueAsString(cell).value) == CellValueAsString(cell).value
  {
    match cell
    case None =>
    case Some(c) =>
      match c
      case Str(text) => TrimIdempotent(text);
      case Num(n) =>
        LongToStringRoundTrip(n);
        LongToStringIsTrimmed(n);
      case Bool(b) => TrimKeepsTrimmed(if b then "true" else "false");
      case Blank =>
      case Other =>
  }

  /** A numeric cell never reads as an empty or blank text. */
  lemma NumericCellHasText(n: int)
    ensures CellValueAsString(Some(Num(n))) == Some(LongToString(n))
    ensures Trim(LongToString(n)) != ""
  {
    LongToStringIsTrimmed(n);
  }
}

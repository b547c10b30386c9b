/** A workbook as read from a spreadsheet file, and the sheet locator for form 5.1. */
module Workbook {
  import opened Options
  import opened Seqs
  import opened Strings

  /** A cell: text, or any other value (a number, a date, an empty cell), which text matching never selects. */
  datatype Cell = Text(text: string) | NonText(id: int)

  /** The data rows of a sheet below its header row, as a grid `width` cells wide. */
  datatype Sheet = Sheet(width: nat, rows: seq<seq<Cell>>)

  /** A data frame is rectangular: every row has one cell per column. */
  predicate Rectangular(sh: Sheet) {
    forall i :: 0 <= i < |sh.rows| ==> |sh.rows[i]| == sh.width
  }

  datatype NamedSheet = NamedSheet(name: string, sheet: Sheet)

  /** The two historical names of form 5.1's sheet both contain one of these. */
  predicate IsFormSheetName(name: string) {
    Contains(name, "5.1") || Contains(name, "5_1")
  }

  predicate IsFormSheet(ns: NamedSheet) {
    IsFormSheetName(ns.name)
  }

  /** The index of the first sheet, in workbook order, whose name marks it as form 5.1; None when there is none. */
  function FindFormSheet(book: seq<NamedSheet>): (r: Option<nat>)
    ensures r.Some? ==> r.value < |book| && IsFormSheetName(book[r.value].name)
    ensures r.Some? ==> forall j :: 0 <= j < r.value ==> !IsFormSheetName(book[j].name)
    ensures r.None? <==> forall j :: 0 <= j < |book| ==> !IsFormSheetName(book[j].name)
  {
    FirstIndex(book, IsFormSheet)
  }
}

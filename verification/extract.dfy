/**
 * The table extractor: the block of form 5.1 that starts at the "Российская Федерация" row and ends
 * before the "Информация" footnote, restricted to the four columns of the period's layout.
 */
module Extract {
  import opened Options
  import opened Seqs
  import opened Strings
  import opened Workbook
  import opened Period

  /** The label of the first table row, the national total. */
  const Anchor := "Российская Федерация"

  /** The label of the footnote under the table. */
  const Footnote := "Информация"

  /** One extracted row: subject, total deaths, confirmed COVID-19 deaths, possible COVID-19 deaths. */
  datatype RawRow = RawRow(subject: Cell, total: Cell, confirmed: Cell, possible: Cell)

  datatype Extraction =
    | Extracted(rows: seq<RawRow>)
    | NoFirstColumn      // the sheet has no column at all, so there is no first column to search
    | NoAnchor           // no first-column text cell contains the anchor label
    | ColumnOutOfRange   // the layout names a column the sheet does not have

  // ---------------------------------------------------------------- layouts

  /** Subject, total, confirmed, possible, before the two-year layout. */
  const OldLayout: seq<nat> := [0, 1, 2, 3]

  /** The same four measures from the two-year layout, whose columns alternate current year, previous year, percentage. */
  const NewLayout: seq<nat> := [0, 1, 4, 7]

  /** A layout revision: from `start` on, the measures are read from `columns`. */
  datatype LayoutRevision = LayoutRevision(start: YearMonth, columns: seq<nat>)

  /** The layout revisions in chronological order; the two-year layout starts with May 2021. */
  const LayoutRevisions: seq<LayoutRevision> := [
    LayoutRevision(YearMonth(0, 0), OldLayout),
    LayoutRevision(YearMonth(5, 2021), NewLayout)
  ]

  function LayoutFrom(revs: seq<LayoutRevision>, p: YearMonth, current: seq<nat>): seq<nat> {
    if |revs| == 0 || !PeriodLe(revs[0].start, p) then current
    else LayoutFrom(revs[1..], p, revs[0].columns)
  }

  /** The layout in force for a period: the old one before May 2021, the two-year one from May 2021 on. */
  function Columns(p: YearMonth): (cols: seq<nat>)
    ensures |cols| == 4
    ensures cols == OldLayout <==> p.year < 2021 || (p.year == 2021 && p.month < 5)
    ensures cols == NewLayout <==> !(p.year < 2021 || (p.year == 2021 && p.month < 5))
  {
    var revs := LayoutRevisions;
    var second := LayoutRevision(YearMonth(5, 2021), NewLayout);
    assert revs[1..] == [second];
    assert [second][1..] == [];
    assert LayoutFrom(revs, p, OldLayout) == LayoutFrom([second], p, OldLayout);
    assert LayoutFrom([second], p, OldLayout) == if PeriodLe(second.start, p) then NewLayout else OldLayout;
    assert OldLayout[2] != NewLayout[2];
    LayoutFrom(revs, p, OldLayout)
  }

  /** The layout test as the source writes it: `month < 5 or year < 2021`. */
  function ColumnsAsWritten(p: YearMonth): seq<nat> {
    if p.month < 5 || p.year < 2021 then OldLayout else NewLayout
  }

  /** The written test agrees with the chronological switch except in January to April of every year after 2021. */
  lemma ColumnsAsWrittenDisagreement(p: YearMonth)
    ensures ColumnsAsWritten(p) != Columns(p) <==> p.year > 2021 && p.month < 5
    ensures ColumnsAsWritten(YearMonth(4, 2021)) == OldLayout
    ensures ColumnsAsWritten(YearMonth(5, 2021)) == NewLayout
    ensures ColumnsAsWritten(YearMonth(3, 2022)) == OldLayout && Columns(YearMonth(3, 2022)) == NewLayout
  {
  }

  // ---------------------------------------------------------------- anchors

  /** The first cell of the row is text containing `needle` (`str.contains(needle) == True`). */
  predicate FirstCellHas(row: seq<Cell>, needle: string) {
    |row| > 0 && row[0].Text? && Contains(row[0].text, needle)
  }

  predicate IsAnchorRow(row: seq<Cell>) { FirstCellHas(row, Anchor) }

  predicate IsFootnoteRow(row: seq<Cell>) { FirstCellHas(row, Footnote) }

  /** The least row index whose first cell holds the anchor label. */
  function AnchorRow(sh: Sheet): (r: Option<nat>)
    ensures r.Some? ==> r.value < |sh.rows| && IsAnchorRow(sh.rows[r.value])
    ensures r.Some? ==> forall j :: 0 <= j < r.value ==> !IsAnchorRow(sh.rows[j])
    ensures r.None? <==> forall j :: 0 <= j < |sh.rows| ==> !IsAnchorRow(sh.rows[j])
  {
    FirstIndex(sh.rows, IsAnchorRow)
  }

  /**
   * The least row index whose first cell holds the footnote label, searched over the WHOLE sheet and not
   * only below the anchor; the row count plus one when no row does.
   */
  function EndRow(sh: Sheet): (e: nat)
    ensures e == |sh.rows| + 1 <==> forall j :: 0 <= j < |sh.rows| ==> !IsFootnoteRow(sh.rows[j])
    ensures e < |sh.rows| || e == |sh.rows| + 1
    ensures e < |sh.rows| ==> IsFootnoteRow(sh.rows[e]) && forall j :: 0 <= j < e ==> !IsFootnoteRow(sh.rows[j])
  {
    match FirstIndex(sh.rows, IsFootnoteRow)
    case None => |sh.rows| + 1
    case Some(e) => e
  }

  /** The cells of `row` at the four `cols`, in that order. */
  function Select(row: seq<Cell>, cols: seq<nat>): (r: RawRow)
    requires |cols| == 4
    requires forall k :: 0 <= k < 4 ==> cols[k] < |row|
  {
    RawRow(row[cols[0]], row[cols[1]], row[cols[2]], row[cols[3]])
  }

  /** The positional slice `[start:stop)` of the rows, clamped like `iloc`: empty when `stop <= start`. */
  function Window(sh: Sheet, start: nat, stop: nat): (w: seq<seq<Cell>>)
    requires start <= |sh.rows|
    ensures |w| == if start < stop then (if stop <= |sh.rows| then stop else |sh.rows|) - start else 0
    ensures forall k :: 0 <= k < |w| ==> w[k] == sh.rows[start + k]
  {
    if stop <= start then []
    else if stop <= |sh.rows| then sh.rows[start..stop]
    else sh.rows[start..]
  }

  predicate InRange(sh: Sheet, cols: seq<nat>) {
    forall k :: 0 <= k < |cols| ==> cols[k] < sh.width
  }

  /**
   * The table block of a sheet. A sheet with no column cannot be searched; a sheet with no anchor row
   * is skipped; a layout column beyond the sheet's width fails; otherwise the rows from the anchor up to
   * (not including) the footnote, each restricted to the layout's columns.
   */
  function ExtractTable(sh: Sheet, cols: seq<nat>): (e: Extraction)
    requires Rectangular(sh)
    requires |cols| == 4
    ensures e.NoFirstColumn? <==> sh.width == 0
    ensures e.NoAnchor? <==> sh.width > 0 && forall j :: 0 <= j < |sh.rows| ==> !IsAnchorRow(sh.rows[j])
    ensures e.ColumnOutOfRange? <==> sh.width > 0 && AnchorRow(sh).Some? && !InRange(sh, cols)
    ensures e.Extracted? ==>
      var start, stop := AnchorRow(sh).value, EndRow(sh);
      && InRange(sh, cols)
      && |e.rows| == (if start < stop then (if stop <= |sh.rows| then stop else |sh.rows|) - start else 0)
      && forall k :: 0 <= k < |e.rows| ==> e.rows[k] == Select(sh.rows[start + k], cols)
  {
    if sh.width == 0 then NoFirstColumn
    else
      match AnchorRow(sh)
      case None => NoAnchor
      case Some(start) =>
        if !InRange(sh, cols) then ColumnOutOfRange
        else
          var w := Window(sh, start, EndRow(sh));
          Extracted(seq(|w|, k requires 0 <= k < |w| => Select(w[k], cols)))
  }

  /** A footnote above the anchor row yields an empty table rather than a skip. */
  lemma FootnoteAboveAnchorEmpty(sh: Sheet, cols: seq<nat>)
    requires Rectangular(sh) && |cols| == 4
    requires ExtractTable(sh, cols).Extracted?
    requires exists j :: 0 <= j <= AnchorRow(sh).value && IsFootnoteRow(sh.rows[j])
    ensures ExtractTable(sh, cols).rows == []
  {
  }

  /** Without a footnote the table runs from the anchor row to the last row of the sheet. */
  lemma NoFootnoteRunsToEnd(sh: Sheet, cols: seq<nat>)
    requires Rectangular(sh) && |cols| == 4
    requires ExtractTable(sh, cols).Extracted?
    requires forall j :: 0 <= j < |sh.rows| ==> !IsFootnoteRow(sh.rows[j])
    ensures |ExtractTable(sh, cols).rows| == |sh.rows| - AnchorRow(sh).value
    ensures ExtractTable(sh, cols).rows[|ExtractTable(sh, cols).rows| - 1] == Select(sh.rows[|sh.rows| - 1], cols)
  {
    var e := ExtractTable(sh, cols);
    var start := AnchorRow(sh).value;
    assert EndRow(sh) == |sh.rows| + 1;
    assert |e.rows| == |sh.rows| - start;
    assert e.rows[|e.rows| - 1] == Select(sh.rows[start + (|e.rows| - 1)], cols);
  }

  /**
   * With a first column, an anchor row, the layout's columns in range and no footnote at or above the
   * first anchor row, the table is non-empty and starts with the anchor row itself: its subject is the anchor cell.
   */
  lemma TableStartsAtAnchor(sh: Sheet, cols: seq<nat>)
    requires Rectangular(sh) && |cols| == 4 && cols[0] == 0
    requires sh.width > 0 && InRange(sh, cols) && exists j :: 0 <= j < |sh.rows| && IsAnchorRow(sh.rows[j])
    requires forall j :: 0 <= j < |sh.rows| && IsAnchorRow(sh.rows[j]) && (forall i :: 0 <= i < j ==> !IsAnchorRow(sh.rows[i])) ==>
      forall i :: 0 <= i <= j ==> !IsFootnoteRow(sh.rows[i])
    ensures ExtractTable(sh, cols).Extracted? && |ExtractTable(sh, cols).rows| > 0
    ensures IsAnchorRow([ExtractTable(sh, cols).rows[0].subject])
  {
  }

}

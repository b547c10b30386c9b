/**
 * The per-file pipeline (period, sheet, table, normalisation, summary exclusion, joins) and the
 * compiler that drops skipped files, concatenates the rest and sorts by subject and period.
 */
module Compile {
  import opened Options
  import opened Seqs
  import opened Lex
  import opened Workbook
  import opened Period
  import opened Extract
  import opened Reference
  import opened Normalize
  import opened Join

  /** Which program a run follows: the script as written, or the behaviour its comments and design describe. */
  datatype Variant = AsWritten | Intended

  /** Why a file was skipped; the batch continues with the next file. */
  datatype Skip = PeriodUnknown | FormSheetMissing | AnchorMissing

  /**
   * Why the whole run stops: an uncaught failure in one file (no first column, a layout column the sheet
   * lacks, a `",".join` over a non-string in the region or the district report), or nothing at all to
   * compile.
   */
  datatype Crash = FirstColumnMissing | ColumnMissing | SubjectReportFailed | DistrictReportFailed | NothingToCompile

  datatype FileOutcome =
    | Skipped(skip: Skip)
    | Crashed(crash: Crash)
    | Processed(rows: seq<OutRow>, unmatchedSubjects: seq<Cell>, unmatchedCodes: seq<Option<string>>)

  predicate WellFormedBook(book: seq<NamedSheet>) {
    forall i :: 0 <= i < |book| ==> Rectangular(book[i].sheet)
  }

  function RecordOf(o: OutRow): Record { o.left.left }

  /** The layout a variant reads: the written `month < 5 or year < 2021` test, or the switch at May 2021. */
  function LayoutOf(v: Variant, p: YearMonth): (cols: seq<nat>)
    ensures |cols| == 4 && cols[0] == 0
  {
    if v.AsWritten? then ColumnsAsWritten(p) else Columns(p)
  }

  /** The rows of one file after normalisation and summary exclusion, before the joins. */
  function Prepared(raw: seq<RawRow>, p: YearMonth, tables: Tables): seq<Record> {
    ExcludeSummary(NormalizeRows(raw, p), tables.districts)
  }

  /** `x` holds the cells of `row` at the layout's columns. */
  predicate RawFrom(x: RawRow, row: seq<Cell>, cols: seq<nat>) {
    && |cols| == 4
    && (forall k :: 0 <= k < 4 ==> cols[k] < |row|)
    && x == Select(row, cols)
  }

  function RawOf(r: Record): RawRow { RawRow(r.subject, r.total, r.confirmed, r.possible) }

  /** The measures of `r` are the cells of `row` at the layout's columns. */
  predicate ReadFrom(r: Record, row: seq<Cell>, cols: seq<nat>) {
    RawFrom(RawOf(r), row, cols)
  }

  /**
   * Row `i` of `rows` lies in the block from row `start` up to, not including, row `stop`; for a form
   * sheet, from the anchor row (`AnchorRow`) to the row above the footnote (`EndRow`).
   */
  predicate InBlock(rows: seq<seq<Cell>>, start: nat, stop: nat, i: int) {
    start <= i < |rows| && i < stop
  }

  /** The sheet has a first column, an anchor row and every column of the layout: its table can be cut out. */
  predicate Readable(sh: Sheet, cols: seq<nat>) {
    sh.width > 0 && AnchorRow(sh).Some? && InRange(sh, cols)
  }

  /** The key of subject cell `c` is the key of a summary district. */
  predicate IsSummaryCell(c: Cell, ds: seq<District>) {
    NameKeyOf(c).Some? && NameKeyOf(c).value in SummaryKeys(ds)
  }

  /** Subject cell `c` survives summary exclusion but its key matches no region; a non-text cell has no key. */
  predicate UnknownSubject(c: Cell, tables: Tables) {
    !IsSummaryCell(c, tables.districts) && |Matches(NameKeyOf(c), tables.regions, RegionKey)| == 0
  }

  predicate HasNonTextSubject(raw: seq<RawRow>) {
    exists i :: 0 <= i < |raw| && !raw[i].subject.Text?
  }

  predicate HasUnknownSubject(raw: seq<RawRow>, tables: Tables) {
    exists i :: 0 <= i < |raw| && UnknownSubject(raw[i].subject, tables)
  }

  /**
   * The extracted table of one file, normalised, cleared of summary rows, joined with the regions and then
   * the districts, with the rows that found no match reported. As written, the region report raises for a
   * non-text subject and, failing that, the district report raises for any row that found no region,
   * since its district code is missing; as intended, the file is always processed. A processed file holds
   * rows stamped with the period, none of them a summary row, each copied from the table, and every
   * non-summary row of the table is among them.
   */
  function FromTable(v: Variant, raw: seq<RawRow>, p: YearMonth, tables: Tables): (o: FileOutcome)
    ensures !o.Skipped?
    ensures o.Crashed? ==> v.AsWritten? && (o.crash == SubjectReportFailed || o.crash == DistrictReportFailed)
    ensures o == Crashed(SubjectReportFailed) <==> v.AsWritten? && HasNonTextSubject(raw)
    ensures o == Crashed(DistrictReportFailed) <==> v.AsWritten? && !HasNonTextSubject(raw) && HasUnknownSubject(raw, tables)
    ensures o.Processed? ==> forall j :: 0 <= j < |o.rows| ==>
      && RecordOf(o.rows[j]).period == PeriodString(p)
      && !IsSummaryRecord(RecordOf(o.rows[j]), tables.districts)
      && RawOf(RecordOf(o.rows[j])) in raw
    ensures o.Processed? ==> forall i :: 0 <= i < |raw| && !IsSummaryCell(raw[i].subject, tables.districts) ==>
      exists j :: 0 <= j < |o.rows| && RawOf(RecordOf(o.rows[j])) == raw[i]
    ensures o.Processed? && v.AsWritten? ==> forall j :: 0 <= j < |o.rows| ==> o.rows[j].left.right.Some?
  {
    var recs := Prepared(raw, p, tables);
    var byRegion := JoinRegions(recs, tables.regions);
    var full := JoinDistricts(byRegion, tables.districts);
    PreparedReports(raw, p, tables);
    JoinedRows(raw, p, tables);
    JoinedComplete(raw, p, tables);
    JoinedAllMatched(raw, p, tables);
    if v.AsWritten? && SubjectReportAsWritten(byRegion).None? then Crashed(SubjectReportFailed)
    else if v.AsWritten? && DistrictReportAsWritten(full).None? then Crashed(DistrictReportFailed)
    else Processed(full, UnmatchedSubjects(byRegion), UnmatchedDistrictCodes(full))
  }

  /** A prepared row carries the period string and its subject's key, is not a summary row, and copies one extracted row. */
  lemma PreparedRow(raw: seq<RawRow>, p: YearMonth, tables: Tables, q: nat)
    ensures q < |Prepared(raw, p, tables)| ==>
      var r := Prepared(raw, p, tables)[q];
      && r.period == PeriodString(p)
      && r.nameKey == NameKeyOf(r.subject)
      && !IsSummaryRecord(r, tables.districts)
      && exists i :: 0 <= i < |raw| && raw[i] == RawOf(r)
  {
    if q >= |Prepared(raw, p, tables)| { return; }
    var normal := NormalizeRows(raw, p);
    var r := Prepared(raw, p, tables)[q];
    var m :| 0 <= m < |normal| && normal[m] == r;
    assert raw[m] == RawOf(r);
  }

  lemma PreparedFacts(raw: seq<RawRow>, p: YearMonth, tables: Tables)
    ensures var recs := Prepared(raw, p, tables);
      forall q :: 0 <= q < |recs| ==>
        && recs[q].period == PeriodString(p)
        && !IsSummaryRecord(recs[q], tables.districts)
        && RawOf(recs[q]) in raw
  {
    var recs := Prepared(raw, p, tables);
    forall q | 0 <= q < |recs|
      ensures RawOf(recs[q]) in raw
    {
      PreparedRow(raw, p, tables, q);
    }
  }

  /** Every extracted row whose subject is not a summary key survives into the prepared rows. */
  lemma PreparedComplete(raw: seq<RawRow>, p: YearMonth, tables: Tables, i: nat)
    requires i < |raw| && !IsSummaryCell(raw[i].subject, tables.districts)
    ensures exists q :: 0 <= q < |Prepared(raw, p, tables)| && RawOf(Prepared(raw, p, tables)[q]) == raw[i]
  {
    var normal := NormalizeRows(raw, p);
    var recs := Prepared(raw, p, tables);
    assert normal[i].nameKey == NameKeyOf(raw[i].subject);
    assert !IsSummaryRecord(normal[i], tables.districts);
    assert normal[i] in recs;
    var q :| 0 <= q < |recs| && recs[q] == normal[i];
    assert RawOf(recs[q]) == raw[i];
  }

  /** A row without key matches no region. */
  lemma NoKeyMissesRegion(r: Record, regions: seq<Region>)
    requires r.nameKey.None?
    ensures MissesRegion(r, regions)
  {
  }

  /** A prepared row with a non-text subject misses every region; such rows are exactly the non-text extracted rows. */
  lemma PreparedNonText(raw: seq<RawRow>, p: YearMonth, tables: Tables)
    ensures var recs := Prepared(raw, p, tables);
      (exists q :: 0 <= q < |recs| && !recs[q].subject.Text? && MissesRegion(recs[q], tables.regions)) <==> HasNonTextSubject(raw)
  {
    var recs := Prepared(raw, p, tables);
    if exists q :: 0 <= q < |recs| && !recs[q].subject.Text? && MissesRegion(recs[q], tables.regions) {
      var q :| 0 <= q < |recs| && !recs[q].subject.Text? && MissesRegion(recs[q], tables.regions);
      PreparedRow(raw, p, tables, q);
      var i :| 0 <= i < |raw| && raw[i] == RawOf(recs[q]);
      assert !raw[i].subject.Text?;
    }
    if HasNonTextSubject(raw) {
      var i :| 0 <= i < |raw| && !raw[i].subject.Text?;
      PreparedComplete(raw, p, tables, i);
      var q :| 0 <= q < |recs| && RawOf(recs[q]) == raw[i];
      PreparedRow(raw, p, tables, q);
      NoKeyMissesRegion(recs[q], tables.regions);
    }
  }

  /** The prepared rows that miss every region are exactly the extracted rows with an unknown subject. */
  lemma PreparedUnknown(raw: seq<RawRow>, p: YearMonth, tables: Tables)
    ensures var recs := Prepared(raw, p, tables);
      (exists q :: 0 <= q < |recs| && MissesRegion(recs[q], tables.regions)) <==> HasUnknownSubject(raw, tables)
  {
    var recs := Prepared(raw, p, tables);
    if exists q :: 0 <= q < |recs| && MissesRegion(recs[q], tables.regions) {
      var q :| 0 <= q < |recs| && MissesRegion(recs[q], tables.regions);
      PreparedRow(raw, p, tables, q);
      var i :| 0 <= i < |raw| && raw[i] == RawOf(recs[q]);
      assert UnknownSubject(raw[i].subject, tables);
    }
    if HasUnknownSubject(raw, tables) {
      var i :| 0 <= i < |raw| && UnknownSubject(raw[i].subject, tables);
      PreparedComplete(raw, p, tables, i);
      var q :| 0 <= q < |recs| && RawOf(recs[q]) == raw[i];
      PreparedRow(raw, p, tables, q);
    }
  }

  /** The two reports of a file fail, as written, exactly for a non-text subject and for a subject without region. */
  lemma PreparedReports(raw: seq<RawRow>, p: YearMonth, tables: Tables)
    ensures SubjectReportAsWritten(JoinRegions(Prepared(raw, p, tables), tables.regions)).None? <==> HasNonTextSubject(raw)
    ensures DistrictReportAsWritten(JoinDistricts(JoinRegions(Prepared(raw, p, tables), tables.regions), tables.districts)).None? <==>
      HasUnknownSubject(raw, tables)
  {
    var recs := Prepared(raw, p, tables);
    SubjectReportFailsIff(recs, tables.regions);
    DistrictReportFailsIff(recs, tables.regions, tables.districts);
    PreparedNonText(raw, p, tables);
    PreparedUnknown(raw, p, tables);
  }

  /** The record of every joined row is one of the rows fed to the joins. */
  lemma JoinedFromPrepared(recs: seq<Record>, tables: Tables)
    ensures var full := JoinDistricts(JoinRegions(recs, tables.regions), tables.districts);
      forall j :: 0 <= j < |full| ==> RecordOf(full[j]) in recs
  {
    var byRegion := JoinRegions(recs, tables.regions);
    LeftJoinSound(recs, tables.regions, RecordKey, RegionKey);
    LeftJoinSound(byRegion, tables.districts, RegionRowCode, DistrictCode);
  }

  /** After both joins every row keeps its period, its non-summary status and its origin in the table. */
  lemma JoinedRows(raw: seq<RawRow>, p: YearMonth, tables: Tables)
    ensures var full := JoinDistricts(JoinRegions(Prepared(raw, p, tables), tables.regions), tables.districts);
      forall j :: 0 <= j < |full| ==>
        && RecordOf(full[j]).period == PeriodString(p)
        && !IsSummaryRecord(RecordOf(full[j]), tables.districts)
        && RawOf(RecordOf(full[j])) in raw
  {
    JoinedFromPrepared(Prepared(raw, p, tables), tables);
    PreparedFacts(raw, p, tables);
  }

  /** Every non-summary extracted row is present after both joins. */
  lemma JoinedComplete(raw: seq<RawRow>, p: YearMonth, tables: Tables)
    ensures var full := JoinDistricts(JoinRegions(Prepared(raw, p, tables), tables.regions), tables.districts);
      forall i :: 0 <= i < |raw| && !IsSummaryCell(raw[i].subject, tables.districts) ==>
        exists j :: 0 <= j < |full| && RawOf(RecordOf(full[j])) == raw[i]
  {
    var recs := Prepared(raw, p, tables);
    var full := JoinDistricts(JoinRegions(recs, tables.regions), tables.districts);
    forall i | 0 <= i < |raw| && !IsSummaryCell(raw[i].subject, tables.districts)
      ensures exists j :: 0 <= j < |full| && RawOf(RecordOf(full[j])) == raw[i]
    {
      PreparedComplete(raw, p, tables, i);
      var q :| 0 <= q < |recs| && RawOf(recs[q]) == raw[i];
      JoinsKeepEveryRecord(recs, tables, q);
      var j :| 0 <= j < |full| && full[j].left.left == recs[q];
      assert RawOf(RecordOf(full[j])) == raw[i];
    }
  }

  /** Without a subject lacking region, every joined row found its region. */
  lemma JoinedAllMatched(raw: seq<RawRow>, p: YearMonth, tables: Tables)
    ensures var full := JoinDistricts(JoinRegions(Prepared(raw, p, tables), tables.regions), tables.districts);
      !HasUnknownSubject(raw, tables) ==> forall j :: 0 <= j < |full| ==> full[j].left.right.Some?
  {
    if !HasUnknownSubject(raw, tables) {
      var recs := Prepared(raw, p, tables);
      LeftJoinSound(recs, tables.regions, RecordKey, RegionKey);
      LeftJoinSound(JoinRegions(recs, tables.regions), tables.districts, RegionRowCode, DistrictCode);
      PreparedUnknown(raw, p, tables);
    }
  }

  /** `raw` holds, in order, the rows of `rows` from `start` up to `stop`, at the layout's columns. */
  ghost predicate Copies(rows: seq<seq<Cell>>, start: nat, stop: nat, cols: seq<nat>, raw: seq<RawRow>) {
    && |cols| == 4
    && (forall i :: 0 <= i < |rows| ==> cols[0] < |rows[i]|)
    && (forall m :: 0 <= m < |raw| ==> InBlock(rows, start, stop, start + m) && RawFrom(raw[m], rows[start + m], cols))
    && (forall i :: InBlock(rows, start, stop, i) ==> i - start < |raw|)
  }

  /** The rows selected from a window of a rectangular block are a copy of that block. */
  lemma SelectedCopies(rows: seq<seq<Cell>>, width: nat, start: nat, stop: nat, cols: seq<nat>, raw: seq<RawRow>)
    requires forall i :: 0 <= i < |rows| ==> |rows[i]| == width
    requires |cols| == 4 && forall k :: 0 <= k < 4 ==> cols[k] < width
    requires start < |rows|
    requires |raw| == (if start < stop then (if stop <= |rows| then stop else |rows|) - start else 0)
    requires forall k :: 0 <= k < |raw| ==> raw[k] == Select(rows[start + k], cols)
    ensures Copies(rows, start, stop, cols, raw)
  {
    forall i | 0 <= i < |rows|
      ensures cols[0] < |rows[i]|
    {
      assert cols[0] < width;
    }
    forall m | 0 <= m < |raw|
      ensures InBlock(rows, start, stop, start + m) && RawFrom(raw[m], rows[start + m], cols)
    {
      assert raw[m] == Select(rows[start + m], cols);
    }
    forall i | InBlock(rows, start, stop, i)
      ensures i - start < |raw|
    {
    }
  }

  /** An extracted table copies the table block of its sheet. */
  lemma ExtractedCopies(sh: Sheet, cols: seq<nat>, raw: seq<RawRow>)
    requires Rectangular(sh) && |cols| == 4
    requires ExtractTable(sh, cols) == Extracted(raw)
    ensures Readable(sh, cols)
    ensures Copies(sh.rows, AnchorRow(sh).value, EndRow(sh), cols, raw)
  {
    assert InRange(sh, cols);
    SelectedCopies(sh.rows, sh.width, AnchorRow(sh).value, EndRow(sh), cols, raw);
  }

  /** A copied row with a non-text subject is a block row with a non-text first cell, and back. */
  lemma CopiesNonText(rows: seq<seq<Cell>>, start: nat, stop: nat, cols: seq<nat>, raw: seq<RawRow>)
    requires Copies(rows, start, stop, cols, raw) && cols[0] == 0
    ensures HasNonTextSubject(raw) <==> exists i :: InBlock(rows, start, stop, i) && !rows[i][0].Text?
  {
    if HasNonTextSubject(raw) {
      var m :| 0 <= m < |raw| && !raw[m].subject.Text?;
      assert RawFrom(raw[m], rows[start + m], cols);
    }
    if exists i :: InBlock(rows, start, stop, i) && !rows[i][0].Text? {
      var i :| InBlock(rows, start, stop, i) && !rows[i][0].Text?;
      assert RawFrom(raw[i - start], rows[i], cols);
    }
  }

  /** A copied row with an unknown subject is a block row with an unknown first cell, and back. */
  lemma CopiesUnknown(rows: seq<seq<Cell>>, start: nat, stop: nat, cols: seq<nat>, raw: seq<RawRow>, tables: Tables)
    requires Copies(rows, start, stop, cols, raw) && cols[0] == 0
    ensures HasUnknownSubject(raw, tables) <==> exists i :: InBlock(rows, start, stop, i) && UnknownSubject(rows[i][0], tables)
  {
    if HasUnknownSubject(raw, tables) {
      var m :| 0 <= m < |raw| && UnknownSubject(raw[m].subject, tables);
      assert RawFrom(raw[m], rows[start + m], cols);
    }
    if exists i :: InBlock(rows, start, stop, i) && UnknownSubject(rows[i][0], tables) {
      var i :| InBlock(rows, start, stop, i) && UnknownSubject(rows[i][0], tables);
      assert RawFrom(raw[i - start], rows[i], cols);
    }
  }

  /** A record copying an extracted row was read from a row of the block, which this lemma names. */
  lemma CopiesRecord(rows: seq<seq<Cell>>, start: nat, stop: nat, cols: seq<nat>, raw: seq<RawRow>, r: Record) returns (i: nat)
    requires Copies(rows, start, stop, cols, raw)
    requires RawOf(r) in raw
    ensures InBlock(rows, start, stop, i) && ReadFrom(r, rows[i], cols)
  {
    var m :| 0 <= m < |raw| && raw[m] == RawOf(r);
    i := start + m;
  }

  /** Rows that cover every non-summary extracted row cover every non-summary row of the block. */
  lemma CopiesCovered(out: seq<OutRow>, rows: seq<seq<Cell>>, start: nat, stop: nat, cols: seq<nat>, raw: seq<RawRow>, ds: seq<District>)
    requires Copies(rows, start, stop, cols, raw) && cols[0] == 0
    requires forall m :: 0 <= m < |raw| && !IsSummaryCell(raw[m].subject, ds) ==>
      exists j :: 0 <= j < |out| && RawOf(RecordOf(out[j])) == raw[m]
    ensures forall i :: InBlock(rows, start, stop, i) && !IsSummaryCell(rows[i][0], ds) ==>
      exists j :: 0 <= j < |out| && ReadFrom(RecordOf(out[j]), rows[i], cols)
  {
    forall i | InBlock(rows, start, stop, i) && !IsSummaryCell(rows[i][0], ds)
      ensures exists j :: 0 <= j < |out| && ReadFrom(RecordOf(out[j]), rows[i], cols)
    {
      var m := i - start;
      assert RawFrom(raw[m], rows[i], cols);
      var j :| 0 <= j < |out| && RawOf(RecordOf(out[j])) == raw[m];
      assert ReadFrom(RecordOf(out[j]), rows[i], cols);
    }
  }

  /**
   * What the table block `rows[start..stop]` read with layout `cols` gives: as written, a crash at the
   * region report for a block row whose subject is not text and, failing that, at the district report for
   * a non-summary subject that matches no region. A processed file holds rows stamped with the period,
   * none of them a summary row, each read from a block row, and every non-summary block row is among
   * them; as written, every one of them found its region.
   */
  ghost predicate BlockOutcome(v: Variant, p: YearMonth, rows: seq<seq<Cell>>, start: nat, stop: nat, cols: seq<nat>,
                               tables: Tables, o: FileOutcome)
    requires forall i :: 0 <= i < |rows| ==> |rows[i]| > 0
  {
    && !o.Skipped?
    && (o.Crashed? ==> o.crash == SubjectReportFailed || o.crash == DistrictReportFailed)
    && (o == Crashed(SubjectReportFailed) <==>
         v.AsWritten? && exists i :: InBlock(rows, start, stop, i) && !rows[i][0].Text?)
    && (o == Crashed(DistrictReportFailed) <==>
         && v.AsWritten?
         && (forall i :: InBlock(rows, start, stop, i) ==> rows[i][0].Text?)
         && exists i :: InBlock(rows, start, stop, i) && UnknownSubject(rows[i][0], tables))
    && (o.Processed? ==> forall j :: 0 <= j < |o.rows| ==>
         && RecordOf(o.rows[j]).period == PeriodString(p)
         && !IsSummaryRecord(RecordOf(o.rows[j]), tables.districts)
         && exists i :: InBlock(rows, start, stop, i) && ReadFrom(RecordOf(o.rows[j]), rows[i], cols))
    && (o.Processed? ==> forall i :: InBlock(rows, start, stop, i) && !IsSummaryCell(rows[i][0], tables.districts) ==>
         exists j :: 0 <= j < |o.rows| && ReadFrom(RecordOf(o.rows[j]), rows[i], cols))
    && (o.Processed? && v.AsWritten? ==> forall j :: 0 <= j < |o.rows| ==> o.rows[j].left.right.Some?)
  }

  /**
   * What reading form sheet `sh` for period `p` gives: a crash for a sheet without columns, a skip without
   * an anchor row, a crash for a layout column the sheet lacks, and otherwise what its table block gives.
   */
  ghost predicate SheetOutcome(v: Variant, p: YearMonth, sh: Sheet, tables: Tables, o: FileOutcome)
    requires Rectangular(sh)
  {
    var cols := LayoutOf(v, p);
    && (o == Crashed(FirstColumnMissing) <==> sh.width == 0)
    && (o == Skipped(AnchorMissing) <==> sh.width > 0 && AnchorRow(sh).None?)
    && (o == Crashed(ColumnMissing) <==> sh.width > 0 && AnchorRow(sh).Some? && !InRange(sh, cols))
    && (!Readable(sh, cols) ==> !o.Processed? && o != Crashed(SubjectReportFailed) && o != Crashed(DistrictReportFailed))
    && (Readable(sh, cols) ==> BlockOutcome(v, p, sh.rows, AnchorRow(sh).value, EndRow(sh), cols, tables, o))
  }

  /** Reading a table copied from a block gives the block-level outcome. */
  lemma BlockFacts(v: Variant, p: YearMonth, rows: seq<seq<Cell>>, start: nat, stop: nat, raw: seq<RawRow>, tables: Tables)
    requires Copies(rows, start, stop, LayoutOf(v, p), raw)
    requires forall i :: 0 <= i < |rows| ==> |rows[i]| > 0
    ensures BlockOutcome(v, p, rows, start, stop, LayoutOf(v, p), tables, FromTable(v, raw, p, tables))
  {
    var cols := LayoutOf(v, p);
    CopiesNonText(rows, start, stop, cols, raw);
    CopiesUnknown(rows, start, stop, cols, raw, tables);
    var o := FromTable(v, raw, p, tables);
    if o.Processed? {
      forall j | 0 <= j < |o.rows|
        ensures exists i :: InBlock(rows, start, stop, i) && ReadFrom(RecordOf(o.rows[j]), rows[i], cols)
      {
        var i := CopiesRecord(rows, start, stop, cols, raw, RecordOf(o.rows[j]));
      }
      CopiesCovered(o.rows, rows, start, stop, cols, raw, tables.districts);
    }
  }

  /** Reading an extracted table gives the sheet-level outcome. */
  lemma SheetFacts(v: Variant, p: YearMonth, sh: Sheet, raw: seq<RawRow>, tables: Tables)
    requires Rectangular(sh)
    requires ExtractTable(sh, LayoutOf(v, p)) == Extracted(raw)
    ensures SheetOutcome(v, p, sh, tables, FromTable(v, raw, p, tables))
  {
    ExtractedCopies(sh, LayoutOf(v, p), raw);
    BlockFacts(v, p, sh.rows, AnchorRow(sh).value, EndRow(sh), raw, tables);
  }

  /**
   * One input file: its name and its workbook. Skips for an undatable name or a missing form sheet;
   * otherwise what the form sheet gives for the period (see `SheetOutcome`).
   */
  function ProcessFile(v: Variant, name: string, book: seq<NamedSheet>, tables: Tables): (o: FileOutcome)
    requires WellFormedBook(book)
    ensures o == Skipped(PeriodUnknown) <==> |DigitRuns(name)| < 2
    ensures ParsePeriod(name).Some? ==>
      (o == Skipped(FormSheetMissing) <==> forall j :: 0 <= j < |book| ==> !IsFormSheetName(book[j].name))
    ensures ParsePeriod(name).Some? && FindFormSheet(book).Some? ==>
      SheetOutcome(v, ParsePeriod(name).value, book[FindFormSheet(book).value].sheet, tables, o)
  {
    match ParsePeriod(name)
    case None => Skipped(PeriodUnknown)
    case Some(p) =>
      match FindFormSheet(book)
      case None => Skipped(FormSheetMissing)
      case Some(k) =>
        match ExtractTable(book[k].sheet, LayoutOf(v, p))
        case NoFirstColumn => Crashed(FirstColumnMissing)
        case NoAnchor => Skipped(AnchorMissing)
        case ColumnOutOfRange => Crashed(ColumnMissing)
        case Extracted(raw) =>
          SheetFacts(v, p, book[k].sheet, raw, tables);
          FromTable(v, raw, p, tables)
  }

  // ---------------------------------------------------------------- the compiler

  datatype InputFile = InputFile(name: string, book: seq<NamedSheet>)

  datatype RunResult = Aborted(crash: Crash) | Dataset(rows: seq<OutRow>)

  predicate WellFormedInputs(files: seq<InputFile>) {
    forall i :: 0 <= i < |files| ==> WellFormedBook(files[i].book)
  }

  /** The outcome of every file, in input order: `process_file` applied to each file name and workbook. */
  function Outcomes(v: Variant, files: seq<InputFile>, tables: Tables): (outs: seq<FileOutcome>)
    requires WellFormedInputs(files)
  {
    seq(|files|, i requires 0 <= i < |files| => ProcessFile(v, files[i].name, files[i].book, tables))
  }

  /** The first crash in file order; the files after it are never reached. */
  function FirstCrash(outs: seq<FileOutcome>): (c: Option<Crash>)
    ensures c.None? <==> forall i :: 0 <= i < |outs| ==> !outs[i].Crashed?
    ensures c.Some? ==> exists i :: 0 <= i < |outs| && outs[i] == Crashed(c.value) && forall j :: 0 <= j < i ==> !outs[j].Crashed?
  {
    match FirstIndex(outs, (o: FileOutcome) => o.Crashed?)
    case None => None
    case Some(i) => Some(outs[i].crash)
  }

  /** The rows of the processed files, file after file; skipped files contribute nothing. */
  function Collected(outs: seq<FileOutcome>): seq<OutRow> {
    if |outs| == 0 then []
    else (if outs[0].Processed? then outs[0].rows else []) + Collected(outs[1..])
  }

  predicate AnyProcessed(outs: seq<FileOutcome>) {
    exists i :: 0 <= i < |outs| && outs[i].Processed?
  }

  /**
   * What the loop in `main` makes of the file outcomes: the first crashing file aborts the run with its
   * error; with no processed file at all there is nothing to concatenate and the run aborts too;
   * otherwise the processed files' rows, sorted by subject and period.
   */
  function Assemble(outs: seq<FileOutcome>): (r: RunResult)
    ensures r.Aborted? <==> (exists i :: 0 <= i < |outs| && outs[i].Crashed?) || !AnyProcessed(outs)
    ensures (exists i :: 0 <= i < |outs| && outs[i].Crashed?) ==>
      r.Aborted? && exists i :: 0 <= i < |outs| && outs[i] == Crashed(r.crash) && forall j :: 0 <= j < i ==> !outs[j].Crashed?
    ensures (forall i :: 0 <= i < |outs| ==> !outs[i].Crashed?) && !AnyProcessed(outs) ==> r == Aborted(NothingToCompile)
    ensures r.Dataset? ==> SortedRows(r.rows)
    ensures r.Dataset? ==> multiset(r.rows) == multiset(Collected(outs))
  {
    match FirstCrash(outs)
    case Some(c) => Aborted(c)
    case None =>
      if !AnyProcessed(outs) then Aborted(NothingToCompile)
      else Dataset(SortRows(Collected(outs)))
  }

  /** The whole run over the input files. */
  function CompileRun(v: Variant, files: seq<InputFile>, tables: Tables): RunResult
    requires WellFormedInputs(files)
  {
    Assemble(Outcomes(v, files, tables))
  }

  /** Every row of every processed file is in the concatenation: files are dropped only when skipped. */
  lemma {:induction false} CollectedKeepsFiles(outs: seq<FileOutcome>, i: nat, j: nat)
    requires i < |outs| && outs[i].Processed? && j < |outs[i].rows|
    ensures outs[i].rows[j] in Collected(outs)
  {
    if i > 0 {
      CollectedKeepsFiles(outs[1..], i - 1, j);
    }
  }

  /** Every row of the concatenation is a row of some processed file. */
  lemma {:induction false} CollectedFromFiles(outs: seq<FileOutcome>, x: OutRow)
    requires x in Collected(outs)
    ensures exists i, j :: 0 <= i < |outs| && outs[i].Processed? && 0 <= j < |outs[i].rows| && outs[i].rows[j] == x
  {
    var head := if outs[0].Processed? then outs[0].rows else [];
    if x in head {
      var j :| 0 <= j < |head| && head[j] == x;
      assert outs[0].rows[j] == x;
    } else {
      CollectedFromFiles(outs[1..], x);
      var i, j :| 0 <= i < |outs[1..]| && outs[1..][i].Processed? && 0 <= j < |outs[1..][i].rows| && outs[1..][i].rows[j] == x;
      assert outs[i + 1].rows[j] == x;
    }
  }

  /** Without a crash, every row of every processed file reaches the dataset. */
  lemma AssembleKeepsRows(outs: seq<FileOutcome>, i: nat, j: nat)
    requires forall k :: 0 <= k < |outs| ==> !outs[k].Crashed?
    requires i < |outs| && outs[i].Processed? && j < |outs[i].rows|
    ensures Assemble(outs).Dataset? && outs[i].rows[j] in Assemble(outs).rows
  {
    CollectedKeepsFiles(outs, i, j);
    var c := Collected(outs);
    assert multiset(SortRows(c))[outs[i].rows[j]] > 0;
  }

  /** Every row of the dataset is a row of some processed file. */
  lemma AssembleRowsFromFiles(outs: seq<FileOutcome>, k: nat)
    requires Assemble(outs).Dataset? && k < |Assemble(outs).rows|
    ensures exists i, j :: 0 <= i < |outs| && outs[i].Processed? && 0 <= j < |outs[i].rows| && outs[i].rows[j] == Assemble(outs).rows[k]
  {
    var rows := Assemble(outs).rows;
    assert rows == SortRows(Collected(outs));
    assert rows[k] in multiset(Collected(outs));
    CollectedFromFiles(outs, rows[k]);
  }

  // ---------------------------------------------------------------- sorting by (subject, period)

  /** Subjects in text order, with non-text subjects after every text subject (`na_position='last'`). */
  predicate SubjectLe(a: Cell, b: Cell) {
    match (a, b)
    case (Text(x), Text(y)) => LexLe(x, y)
    case (Text(_), NonText(_)) => true
    case (NonText(_), Text(_)) => false
    case (NonText(_), NonText(_)) => true
  }

  /** `sort_values(['subject', 'period'])`: by subject, and by period string among equal subjects. */
  predicate RowLe(a: OutRow, b: OutRow) {
    var sa, sb := RecordOf(a).subject, RecordOf(b).subject;
    SubjectLe(sa, sb) && (!SubjectLe(sb, sa) || LexLe(RecordOf(a).period, RecordOf(b).period))
  }

  predicate SortedRows(rows: seq<OutRow>) {
    forall i, j :: 0 <= i < j < |rows| ==> RowLe(rows[i], rows[j])
  }

  lemma SubjectLeTotal(a: Cell, b: Cell)
    ensures SubjectLe(a, b) || SubjectLe(b, a)
  {
    if a.Text? && b.Text? {
      LexLeTotal(a.text, b.text);
    }
  }

  lemma SubjectLeTrans(a: Cell, b: Cell, c: Cell)
    requires SubjectLe(a, b) && SubjectLe(b, c)
    ensures SubjectLe(a, c)
  {
    if a.Text? && b.Text? && c.Text? {
      LexLeTrans(a.text, b.text, c.text);
    }
  }

  lemma RowLeTotal(a: OutRow, b: OutRow)
    ensures RowLe(a, b) || RowLe(b, a)
  {
    SubjectLeTotal(RecordOf(a).subject, RecordOf(b).subject);
    LexLeTotal(RecordOf(a).period, RecordOf(b).period);
  }

  /**
   * Two rows tie in the sort order only when they agree on the period and their subjects are the same
   * text, or both are non-text.
   */
  lemma RowLeTies(a: OutRow, b: OutRow)
    requires RowLe(a, b) && RowLe(b, a)
    ensures RecordOf(a).subject.Text? <==> RecordOf(b).subject.Text?
    ensures RecordOf(a).subject.Text? ==> RecordOf(a).subject == RecordOf(b).subject
    ensures RecordOf(a).period == RecordOf(b).period
  {
    var sa, sb := RecordOf(a).subject, RecordOf(b).subject;
    if sa.Text? && sb.Text? {
      LexLeAntisym(sa.text, sb.text);
    }
    LexLeAntisym(RecordOf(a).period, RecordOf(b).period);
  }

  lemma RowLeTrans(a: OutRow, b: OutRow, c: OutRow)
    requires RowLe(a, b) && RowLe(b, c)
    ensures RowLe(a, c)
  {
    var sa, sb, sc := RecordOf(a).subject, RecordOf(b).subject, RecordOf(c).subject;
    SubjectLeTrans(sa, sb, sc);
    if SubjectLe(sc, sa) {
      SubjectLeTrans(sb, sc, sa);
      SubjectLeTrans(sc, sa, sb);
      LexLeTrans(RecordOf(a).period, RecordOf(b).period, RecordOf(c).period);
    }
  }

  /** Inserts `x` into a sorted sequence, keeping it sorted. */
  function Insert(x: OutRow, s: seq<OutRow>): (r: seq<OutRow>)
    requires SortedRows(s)
    ensures SortedRows(r)
    ensures multiset(r) == multiset(s) + multiset{x}
  {
    if |s| == 0 then [x]
    else if RowLe(x, s[0]) then
      assert forall j :: 0 <= j < |s| ==> RowLe(x, s[j]) by {
        forall j | 0 <= j < |s| ensures RowLe(x, s[j]) {
          if j > 0 {
            RowLeTrans(x, s[0], s[j]);
          }
        }
      }
      [x] + s
    else
      RowLeTotal(x, s[0]);
      var rest := Insert(x, s[1..]);
      assert s == [s[0]] + s[1..];
      assert forall j :: 0 <= j < |rest| ==> RowLe(s[0], rest[j]) by {
        forall j | 0 <= j < |rest| ensures RowLe(s[0], rest[j]) {
          assert rest[j] in multiset(rest);
          assert rest[j] == x || rest[j] in multiset(s[1..]);
          if rest[j] != x {
            var m :| 0 <= m < |s[1..]| && s[1..][m] == rest[j];
            assert s[m + 1] == rest[j];
          }
        }
      }
      [s[0]] + rest
  }

  /** The rows sorted by subject, then period: a sorted permutation of the input. */
  function SortRows(rows: seq<OutRow>): (r: seq<OutRow>)
    ensures SortedRows(r)
    ensures multiset(r) == multiset(rows)
  {
    if |rows| == 0 then []
    else
      assert rows == [rows[0]] + rows[1..];
      Insert(rows[0], SortRows(rows[1..]))
  }
}

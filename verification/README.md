# Form 5.1 extraction and normalisation, modelled in Dafny

This project models the core of `compile_data.py` from the covid-russia-data repository. That script
turns monthly Rosstat workbooks of mortality statistics into one dataset. For each file it:

1. reads the period (month, year) from the digit runs of the file name;
2. finds the sheet holding form 5.1 (COVID-19 mortality by subject);
3. cuts out the table between the "Российская Федерация" row and the "Информация" footnote;
4. picks the four measure columns of the layout in force for that period;
5. keys each row by its subject name (spaces removed, upper-cased) and stamps it with `YYYY-MM-01`;
6. drops the rows of summary federal districts (the national and district totals);
7. left-joins the rows with the region table and then with the federal-district table, and lists the
   rows that found no match.

The orchestrator then drops skipped files, concatenates the rest and sorts by subject and period.

Everything is a pure function over immutable values:

- A workbook is a sequence of named sheets.
- A sheet holds its data rows below the header row, as a rectangular grid of cells. Pandas labels the
  rows by position.
- A cell is `Text(s)` or `NonText(id)`. `NonText` stands for numbers, dates and empty cells. Only text
  can match a `str.contains` test.
- The two reference tables are given as sequences of records.
- A file ends in one of three ways. It is skipped (no period, no form sheet, no anchor row). It crashes
  and so stops the whole batch: no first column, a layout column the sheet lacks, or, as written, a
  `",".join` over a non-string in the region report (line 128) or the district report (line 134). Or
  it yields rows. The run also stops when there is nothing to concatenate.
- The per-file pipeline and the run take a `Variant`. `AsWritten` follows the script, defects
  included: the layout test of lines 106-107 and the two crashing reports. `Intended` reads the layout
  switch at May 2021 and lets the reports list non-text subjects and missing codes without failing.

Modules, leaves first:

- `Options`: the optional value.
- `Seqs`: first index, filter, subsequence, reverse.
- `Strings`: digits, substring test, upper case, join keys.
- `Lex`: Python's string order.
- `Numerals`: `int()` and zero-padded formatting.
- `Period`: the period parser and the period string.
- `Workbook`: cells, sheets and the sheet locator.
- `Extract`: anchors, layouts and the table extractor.
- `Reference`: the region and district records.
- `Normalize`: join keys, period stamps and summary exclusion.
- `Join`: the generic left join, the two joins and the unmatched lists.
- `Compile`: the per-file pipeline, the run and the sort. `ProcessFile` parses the name, finds the
  form sheet, extracts the table and hands it to `FromTable`, which models lines 108-137. `CompileRun`
  applies `ProcessFile` to every input file in order and hands the outcomes to `Assemble`, which models
  the rest of `main`.

The model follows the code in these details, which are easy to misread:

- The footnote is searched over the whole sheet, not only below the anchor. A footnote above the
  anchor therefore gives an empty table.
- Only the space character `' '` is removed from names, not all whitespace.
- Region records carry no summary flag. Only the federal-district table has one: the final
  `drop(columns=[..., 'summary'])` works only if a single `summary` column exists.
- The layout switch and the two unmatched reports are defects, recorded under "## Findings". The
  `AsWritten` variant of the pipeline keeps each of them; the `Intended` variant uses the evidently
  intended behaviour.

## Model

| member | source | states |
|---|---|---|
| Strings.Contains | compile_data.py:71 | The plain substring test is true exactly when the pattern occurs at some position of the text. |
| Strings.NormKey | compile_data.py:110 | A join key holds no space and no lower-case letter and is never longer than the name. What it is exactly is fixed by `Strings.NormKeyChar` together with `Strings.NormKeyAppend`. |
| Strings.NormKeyChar | compile_data.py:110 | A space contributes nothing to the key and any other character contributes its upper case, so the key keeps the name's other characters, in order and as often as they occur. |
| Strings.NormKeyIdempotent | compile_data.py:110 | Normalising a key again leaves it unchanged. |
| Strings.NormKeyIgnoresSpace | compile_data.py:110 | Inserting a space anywhere in a name does not change its key. |
| Strings.NormKeyIgnoresCase | compile_data.py:110 | Upper-casing a name first does not change its key. |
| Strings.NormKeyAppend | compile_data.py:110 | The key of a concatenation is the concatenation of the keys. |
| Numerals.ShowNat | compile_data.py:111 | The decimal numeral of n is non-empty, all digits, has no leading zero, and reads back as n. |
| Numerals.ParseNatLeadingZeros | compile_data.py:59 | Leading zeros in a digit run do not change its `int()` value. |
| Numerals.PadShowIsFixed | compile_data.py:111 | Below 10^w, zero-padding a numeral to width w gives exactly its w-digit form. |
| Numerals.ShowNatLength | compile_data.py:111 | A numeral fits in k characters exactly when the number is below 10^k. |
| Seqs.Reverse | compile_data.py:66 | `reversed` puts element i at position length-1-i. |
| Period.DigitRunsCoverDigits | compile_data.py:59 | Concatenating the digit runs of a name gives exactly its digits in order. |
| Period.DigitRunsOfRender | compile_data.py:59 | Digit runs separated by non-empty non-digit gaps are read back exactly, so runs are maximal. |
| Period.ParsePeriod | compile_data.py:59-66 | A name is undatable exactly when it has fewer than two runs. Otherwise the month and year are the last and second-to-last runs when the first run is at least 2020, and the first two runs otherwise. |
| Period.TwoRunPeriod | compile_data.py:64-66 | Runs (2021, 10) and (10, 2021) both give month 10 of 2021. In general a year-first pair is swapped and any other pair is kept. |
| Period.ThreeRunYearFirst | compile_data.py:64-66 | The whole run list is reversed, not just the first two runs: (2021, b, c) gives month c of year b. |
| Period.PeriodStringLength | compile_data.py:111 | The period string has length 10 exactly when year < 10000 and month < 100. |
| Period.PeriodStringShape | compile_data.py:111 | For such a period the string reads back as four year digits, '-', two month digits and "-01", and the digits give back the year and the month. |
| Period.PeriodStringOrder | compile_data.py:111 | For such periods, sorting the period strings as text sorts the periods chronologically. |
| Workbook.FindFormSheet | compile_data.py:71-75 | Returns the first sheet in workbook order whose name contains "5.1" or "5_1". Returns none exactly when no sheet name does. |
| Extract.AnchorRow | compile_data.py:78-83 | Returns the least row whose first cell is text containing "Российская Федерация". Returns none exactly when there is no such row. |
| Extract.EndRow | compile_data.py:86-87 | Returns the least row of the whole sheet whose first cell is text containing "Информация". Returns the row count plus one exactly when there is none. |
| Extract.Window | compile_data.py:108 | The positional slice is clamped to the sheet. It is empty when the end is not after the start. |
| Extract.Columns | compile_data.py:89-107 | Periods before May 2021 use columns 0,1,2,3. Periods from May 2021 on use 0,1,4,7. |
| Extract.ColumnsAsWrittenDisagreement | compile_data.py:106-107 | The written test `month < 5 or year < 2021` differs from the chronological switch exactly in January to April of each year after 2021. (2021,4) is old, (2021,5) is new, (3,2022) is old. |
| Extract.ExtractTable | compile_data.py:78-109 | A sheet without columns crashes. A missing anchor skips. A layout column beyond the width crashes. Otherwise the result is the rows from the anchor to before the footnote, at the layout's columns. |
| Extract.FootnoteAboveAnchorEmpty | compile_data.py:86-108 | A footnote at or above the anchor row yields an empty table, not a skip. |
| Extract.NoFootnoteRunsToEnd | compile_data.py:87-108 | Without a footnote the table runs from the anchor to the last sheet row. |
| Extract.TableStartsAtAnchor | compile_data.py:78-108 | With an anchor row, the layout's columns in range and no footnote at or above the first anchor row (the one the table starts from), the table is extracted, is non-empty, and its first subject is the anchor cell. |
| Normalize.NameKeyOf | compile_data.py:110 | Only a text subject gets a key, and that key holds no space. |
| Normalize.ExcludeSummary | compile_data.py:118-122 | The result is an order-preserving subsequence of the rows. It holds no summary-keyed row, and every row that is not summary-keyed as many times as the input does. |
| Normalize.SummarySubjectDropped | compile_data.py:118-122 | A subject that normalises to a summary district's key, such as the national total, never survives. |
| Normalize.NoSummaryKeepsAll | compile_data.py:120-122 | Without summary entries every row is kept. |
| Join.Matches | compile_data.py:125 | The matches are the reference entries with the row's key, in reference order. A missing key matches nothing. How often each entry occurs is stated by `Join.MatchesCount`. |
| Join.MatchesCount | compile_data.py:125 | An entry with the row's key occurs among the matches as often as in the reference table, so duplicate reference records give duplicate rows; any other entry never occurs. |
| Join.Expand | compile_data.py:125 | One left row yields a single unmatched row when nothing matches. Otherwise it yields exactly one row per match, in reference order, each pairing it with that match. |
| Join.LeftJoin | compile_data.py:125-131 | The left join has at least as many rows as its input. |
| Join.LeftJoinOrigin | compile_data.py:125-131 | Every output row comes from expanding one input row. |
| Join.LeftJoinSound | compile_data.py:125-131 | Every output row carries an input row. It has no entry exactly when that row matches nothing; otherwise it has an entry with that row's key. |
| Join.LeftJoinKeepsEveryRow | compile_data.py:125-131 | No input row is dropped by a left join. |
| Join.LeftJoinAppend | compile_data.py:125-131 | The join of a concatenation is the concatenation of the joins, so left order is kept. |
| Join.LeftJoinUniqueKeys | compile_data.py:125-131 | With unique reference keys the join is row for row: same length, same rows at the same positions. |
| Join.UnmatchedOfLeftJoin | compile_data.py:126 | The unmatched output rows are exactly the input rows that match nothing, in order. |
| Join.RegionMissIsDistrictMiss | compile_data.py:125-132 | A row without a region has no district code, so it also gets no district. |
| Join.UnmatchedSubjectsExact | compile_data.py:126-128 | The region report is exactly the subjects of the input rows whose key matches no region. |
| Join.UnmatchedDistrictCodesExact | compile_data.py:132-134 | The district report is exactly the codes of the rows matching no district. Every row that missed its region is listed, without a code. |
| Join.NonTextSubjectFailsReport | compile_data.py:126-128 | As written, a non-text subject inside the table makes the region report fail. |
| Join.RegionMissFailsDistrictReport | compile_data.py:132-134 | As written, a row that missed its region makes the district report fail. |
| Join.UnknownSubjectAbortsAsWritten | compile_data.py:125-134 | As written, any subject whose key matches no region ends the run at the district report. |
| Join.WithoutMatchMembers | compile_data.py:126 | Every row listed as unmatched is an input row whose key matches no reference entry. |
| Join.SubjectReportFailsIff | compile_data.py:125-128 | As written, the region report fails exactly when some row with a non-text subject matches no region. |
| Join.DistrictReportFailsIff | compile_data.py:125-134 | As written, the district report fails exactly when some row matches no region. |
| Join.JoinsKeepEveryRecord | compile_data.py:125-131 | Every row fed to the region join appears in the output of the district join. |
| Compile.PreparedComplete | compile_data.py:108-122 | Every extracted row whose subject key is not a summary key survives normalisation and summary exclusion. |
| Compile.FromTable | compile_data.py:108-137 | Never a skip. As written, the file crashes at the region report exactly when an extracted subject is not text, and otherwise at the district report exactly when a non-summary subject matches no region; the intended variant never crashes. A processed file's rows carry the period string, are not summary rows, and copy extracted rows. Every non-summary extracted row is among them. As written, every kept row found its region. |
| Compile.ProcessFile | compile_data.py:55-137 | Skipped for no period exactly when the name has fewer than two digit runs, and for no form sheet exactly when no sheet name qualifies. On the form sheet, read with the written layout test as written and the May 2021 switch as intended: it crashes exactly when there is no column, is skipped exactly when there is no anchor row, and crashes exactly when a layout column is beyond the width. Otherwise, on the block from the anchor row to above the footnote, as written it crashes at the region report exactly when a block row's subject is not text, and otherwise at the district report exactly when a non-summary block subject matches no region. A processed file's rows carry the period string, are not summary rows, and are each read from a block row at the layout's columns; every non-summary block row is among them, and as written every kept row found its region. |
| Compile.JoinedFromPrepared | compile_data.py:125-131 | The record of every joined row is one of the rows fed to the joins. |
| Compile.FirstCrash | compile_data.py:141 | The run stops at the first crashing file, and no earlier file crashed. There is no crash exactly when no file crashed. |
| Compile.Assemble | compile_data.py:139-151 | The run aborts exactly when some file crashes or no file is processed. A crash aborts it with the error of the first crashing file. With no crash and no processed file it aborts with NothingToCompile, the failure of `reduce` over an empty list of frames (line 147). Otherwise the dataset is sorted by subject and period, and it is a permutation of the concatenated processed rows: every row occurs as often as in the files, so duplicate rows are kept. |
| Compile.CollectedKeepsFiles | compile_data.py:143-147 | Every row of every processed file reaches the concatenation. |
| Compile.CollectedFromFiles | compile_data.py:143-147 | Every row of the concatenation is a row of some processed file. |
| Compile.AssembleKeepsRows | compile_data.py:139-151 | With no crash, every row of every processed file is in the dataset. |
| Compile.AssembleRowsFromFiles | compile_data.py:139-151 | Every row of the dataset is a row of some processed file. |
| Compile.RowLeTotal | compile_data.py:151 | Any two rows are comparable by (subject, period). |
| Compile.RowLeTrans | compile_data.py:151 | The (subject, period) order is transitive. |
| Compile.RowLeTies | compile_data.py:151 | Two rows tie in the order only when both subjects are the same text, or both are not text, and the periods are equal. |
| Compile.Insert | compile_data.py:151 | Inserting into sorted rows keeps them sorted and adds exactly that row. |
| Compile.SortRows | compile_data.py:151 | The sorted rows are ordered by subject, then period, and are a permutation of the input. |

## Left out

- Reading workbooks and writing the result (`pd.read_excel`, `to_excel`) and the directory glob: file I/O. A file is given as its name and its sheets; files come in the order given.
- Loading `reg_map.json` and memoising it with `@cache`: file I/O. The reference tables are passed in as sequences, and a missing or malformed reference file (fatal in the source) is outside the model.
- Float coercion of the three measure columns (`astype('float')`, lines 114-116): floating point and pandas internals. Measure cells are opaque, so a non-numeric text cell there, which would abort the run, is not modelled.
- The console messages, including the period line at line 67. Only the two unmatched lists are returned.
- Strings.Upper: covers ASCII and the Cyrillic letters U+0430..U+045F only, not Python's full Unicode `str.upper`. Digits are ASCII `0`-`9`, not Unicode `\d`.
- The pandas `.str` accessor refuses a first column that pandas typed as numeric, for example one with no text cell at all. That depends on dtype inference, so the model assumes the first column can be text-matched.
- The final column drop at line 137 and the `reduce`/`append` mechanics. Concatenating the processed files' rows in order stands for them, and rows keep the whole region and district records.
- Compile.SortRows: states a sorted permutation but not stability, because the order pandas gives to rows with equal (subject, period) keys is not modelled. Numeric subjects, which pandas cannot compare with text, are treated like empty ones and sorted after all text.

## Findings

| source | as written | input that shows it | evidently intended | confidence | as-written member | corrected member |
|---|---|---|---|---|---|---|
| compile_data.py:106-107 | the old layout is chosen when `month < 5 or year < 2021` | a file for March 2022 (month 3, year 2022) reads columns 0,1,2,3 instead of 0,1,4,7 | the old layout only for periods before May 2021, as the comment at lines 90-105 says | high; not executed | Extract.ColumnsAsWrittenDisagreement | Extract.Columns |
| compile_data.py:132-134 | the district report joins the `fo_code` values of rows without a district, and these include the missing codes of rows that found no region | a table row whose subject matches no region: its `fo_code` is NaN, so `",".join` raises TypeError and the whole run stops | the row is kept with empty fields and reported, and the batch continues | medium; not executed | Join.UnknownSubjectAbortsAsWritten | Join.UnmatchedDistrictCodesExact |
| compile_data.py:126-128 | the region report joins the subjects of rows without a region, and a blank or numeric subject cell is not a string | an empty first cell between the anchor and the footnote: `",".join` raises TypeError | the row is kept and reported, and the batch continues | medium; not executed | Join.NonTextSubjectFailsReport | Join.UnmatchedSubjectsExact |

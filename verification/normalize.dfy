/** The row normaliser: join keys and period stamps, and the exclusion of summary rows. */
module Normalize {
  import opened Options
  import opened Seqs
  import opened Strings
  import opened Workbook
  import opened Period
  import opened Extract
  import opened Reference

  /** An extracted row with its join key (None when the subject is not text) and its period string. */
  datatype Record = Record(subject: Cell, total: Cell, confirmed: Cell, possible: Cell, nameKey: Option<string>, period: string)

  /** The join key of a subject cell; a non-text subject has none and so never matches a reference entry. */
  function NameKeyOf(c: Cell): (k: Option<string>)
    ensures k.Some? <==> c.Text?
    ensures k.Some? ==> ' ' !in k.value
  {
    if c.Text? then Some(NormKey(c.text)) else None
  }

  function NormalizeRow(r: RawRow, stamp: string): Record {
    Record(r.subject, r.total, r.confirmed, r.possible, NameKeyOf(r.subject), stamp)
  }

  /**
   * Every extracted row, in order, keyed by its subject and stamped with the file's period string; the
   * measure cells are carried unchanged.
   */
  function NormalizeRows(rows: seq<RawRow>, p: YearMonth): (recs: seq<Record>)
    ensures |recs| == |rows|
    ensures forall i :: 0 <= i < |rows| ==>
      && recs[i].subject == rows[i].subject
      && recs[i].total == rows[i].total
      && recs[i].confirmed == rows[i].confirmed
      && recs[i].possible == rows[i].possible
      && recs[i].period == PeriodString(p)
    ensures forall i :: 0 <= i < |rows| ==> (recs[i].nameKey.Some? <==> rows[i].subject.Text?)
    ensures forall i :: 0 <= i < |rows| && rows[i].subject.Text? ==> recs[i].nameKey == Some(NormKey(rows[i].subject.text))
  {
    var stamp := PeriodString(p);
    seq(|rows|, i requires 0 <= i < |rows| => NormalizeRow(rows[i], stamp))
  }

  /** The row's key equals the key of a district entry flagged as a summary. */
  predicate IsSummaryRecord(r: Record, ds: seq<District>) {
    r.nameKey.Some? && r.nameKey.value in SummaryKeys(ds)
  }

  function KeepRecord(ds: seq<District>): Record -> bool {
    (r: Record) => !IsSummaryRecord(r, ds)
  }

  /**
   * Drops every row whose key is a summary district's key and keeps every other row, in order: the result
   * is a subsequence of the input holding exactly its non-summary rows.
   */
  function ExcludeSummary(rows: seq<Record>, ds: seq<District>): (kept: seq<Record>)
    ensures IsSubsequence(kept, rows)
    ensures forall i :: 0 <= i < |kept| ==> kept[i] in rows && !IsSummaryRecord(kept[i], ds)
    ensures forall i :: 0 <= i < |rows| && !IsSummaryRecord(rows[i], ds) ==> rows[i] in kept
    ensures forall i :: 0 <= i < |rows| ==> multiset(kept)[rows[i]] == if IsSummaryRecord(rows[i], ds) then 0 else multiset(rows)[rows[i]]
  {
    Filter(rows, KeepRecord(ds))
  }

  /** A row whose subject normalises to the key of a summary district, such as the national total, never survives. */
  lemma SummarySubjectDropped(rows: seq<Record>, ds: seq<District>, d: District, name: string)
    requires d in ds && d.summary
    requires NormKey(name) == DistrictKey(d)
    ensures forall r :: r in ExcludeSummary(rows, ds) ==> r.nameKey != Some(NormKey(name))
  {
    var j :| 0 <= j < |ds| && ds[j] == d;
    assert DistrictKey(d) in SummaryKeys(ds);
  }

  /** With no summary entry in the reference, exclusion keeps every row. */
  lemma {:induction false} NoSummaryKeepsAll(rows: seq<Record>, ds: seq<District>)
    requires forall i :: 0 <= i < |ds| ==> !ds[i].summary
    ensures ExcludeSummary(rows, ds) == rows
  {
    assert SummaryKeys(ds) == {};
    FilterAll(rows, KeepRecord(ds));
  }
}

/**
 * The region joiner: pandas-style left joins of the extracted rows with the region table (on the name
 * key) and then with the federal-district table (on the district code), and the lists of unmatched rows.
 */
module Join {
  import opened Options
  import opened Seqs
  import opened Workbook
  import opened Reference
  import opened Normalize

  /** A left row with the reference entry it was joined to, or None for a row without a match. */
  datatype Joined<L, R> = Joined(left: L, right: Option<R>)

  /** The reference entries whose key equals `key`, in reference order; none for a missing key. */
  function Matches<R, K(==)>(key: Option<K>, refs: seq<R>, rkey: R -> K): (ms: seq<R>)
    ensures IsSubsequence(ms, refs)
    ensures forall i :: 0 <= i < |ms| ==> ms[i] in refs && key == Some(rkey(ms[i]))
    ensures forall i :: 0 <= i < |refs| && key == Some(rkey(refs[i])) ==> refs[i] in ms
  {
    Filter(refs, (x: R) => key == Some(rkey(x)))
  }

  /** Each reference entry is matched as often as it occurs in the reference table when its key is the row's key, and never otherwise. */
  lemma MatchesCount<R, K>(key: Option<K>, refs: seq<R>, rkey: R -> K)
    ensures forall i :: 0 <= i < |refs| ==>
      multiset(Matches(key, refs, rkey))[refs[i]] == if key == Some(rkey(refs[i])) then multiset(refs)[refs[i]] else 0
  {
  }

  /** The output rows of one left row: one per match, or a single unmatched row. */
  function Expand<L, R, K(==)>(row: L, refs: seq<R>, lkey: L -> Option<K>, rkey: R -> K): (out: seq<Joined<L, R>>)
    ensures |out| >= 1
    ensures forall j :: 0 <= j < |out| ==> out[j].left == row
    ensures |Matches(lkey(row), refs, rkey)| == 0 ==> out == [Joined(row, None)]
    ensures |Matches(lkey(row), refs, rkey)| > 0 ==>
      && |out| == |Matches(lkey(row), refs, rkey)|
      && forall j :: 0 <= j < |out| ==> out[j].right == Some(Matches(lkey(row), refs, rkey)[j])
    ensures forall j :: 0 <= j < |out| ==> (out[j].right.None? <==> |Matches(lkey(row), refs, rkey)| == 0)
    ensures forall j :: 0 <= j < |out| && out[j].right.Some? ==>
      out[j].right.value in refs && lkey(row) == Some(rkey(out[j].right.value))
  {
    var ms := Matches(lkey(row), refs, rkey);
    if |ms| == 0 then [Joined(row, None)]
    else seq(|ms|, i requires 0 <= i < |ms| => Joined(row, Some(ms[i])))
  }

  /**
   * `rows.merge(refs, how='left')`: each left row, in order, followed by its matches; a row without a
   * match is kept once with no reference entry. No row is dropped (see `LeftJoinKeepsEveryRow`) and none
   * is invented (see `LeftJoinSound`).
   */
  function LeftJoin<L, R, K(==)>(rows: seq<L>, refs: seq<R>, lkey: L -> Option<K>, rkey: R -> K): (out: seq<Joined<L, R>>)
    ensures |out| >= |rows|
  {
    if |rows| == 0 then [] else Expand(rows[0], refs, lkey, rkey) + LeftJoin(rows[1..], refs, lkey, rkey)
  }

  /** Every output row is one of the output rows of some input row. */
  lemma {:induction false} LeftJoinOrigin<L, R, K>(rows: seq<L>, refs: seq<R>, lkey: L -> Option<K>, rkey: R -> K, j: nat)
    requires j < |LeftJoin(rows, refs, lkey, rkey)|
    ensures exists i :: 0 <= i < |rows| && LeftJoin(rows, refs, lkey, rkey)[j] in Expand(rows[i], refs, lkey, rkey)
  {
    var head := Expand(rows[0], refs, lkey, rkey);
    var tail := LeftJoin(rows[1..], refs, lkey, rkey);
    assert LeftJoin(rows, refs, lkey, rkey) == head + tail;
    if j < |head| {
      assert LeftJoin(rows, refs, lkey, rkey)[j] == head[j];
    } else {
      assert LeftJoin(rows, refs, lkey, rkey)[j] == tail[j - |head|];
      LeftJoinOrigin(rows[1..], refs, lkey, rkey, j - |head|);
      var i :| 0 <= i < |rows[1..]| && tail[j - |head|] in Expand(rows[1..][i], refs, lkey, rkey);
      assert rows[1..][i] == rows[i + 1];
    }
  }

  /**
   * Nothing is invented: every output row carries an input row, it has no reference entry exactly when
   * that row's key matches none, and otherwise its entry is a reference entry with that key.
   */
  lemma LeftJoinSound<L, R, K>(rows: seq<L>, refs: seq<R>, lkey: L -> Option<K>, rkey: R -> K)
    ensures forall j :: 0 <= j < |LeftJoin(rows, refs, lkey, rkey)| ==>
      var o := LeftJoin(rows, refs, lkey, rkey)[j];
      && o.left in rows
      && (o.right.None? <==> |Matches(lkey(o.left), refs, rkey)| == 0)
      && (o.right.Some? ==> o.right.value in refs && lkey(o.left) == Some(rkey(o.right.value)))
  {
    forall j | 0 <= j < |LeftJoin(rows, refs, lkey, rkey)|
      ensures var o := LeftJoin(rows, refs, lkey, rkey)[j];
        && o.left in rows
        && (o.right.None? <==> |Matches(lkey(o.left), refs, rkey)| == 0)
        && (o.right.Some? ==> o.right.value in refs && lkey(o.left) == Some(rkey(o.right.value)))
    {
      LeftJoinOrigin(rows, refs, lkey, rkey, j);
    }
  }

  /** Nothing is dropped: every input row appears in the output of the join. */
  lemma LeftJoinKeepsEveryRow<L, R, K>(rows: seq<L>, refs: seq<R>, lkey: L -> Option<K>, rkey: R -> K, i: nat)
    requires i < |rows|
    ensures exists j :: 0 <= j < |LeftJoin(rows, refs, lkey, rkey)| && LeftJoin(rows, refs, lkey, rkey)[j].left == rows[i]
  {
    assert rows == rows[..i] + rows[i..];
    LeftJoinAppend(rows[..i], rows[i..], refs, lkey, rkey);
    var pre := LeftJoin(rows[..i], refs, lkey, rkey);
    var rest := LeftJoin(rows[i..], refs, lkey, rkey);
    assert rest == Expand(rows[i], refs, lkey, rkey) + LeftJoin(rows[i..][1..], refs, lkey, rkey);
    assert (pre + rest)[|pre|] == rest[0];
  }

  /** Joining a concatenation joins each part in turn: the join keeps the order of the left rows. */
  lemma {:induction false} LeftJoinAppend<L, R, K>(a: seq<L>, b: seq<L>, refs: seq<R>, lkey: L -> Option<K>, rkey: R -> K)
    ensures LeftJoin(a + b, refs, lkey, rkey) == LeftJoin(a, refs, lkey, rkey) + LeftJoin(b, refs, lkey, rkey)
  {
    if |a| == 0 {
      assert a + b == b;
    } else {
      assert (a + b)[0] == a[0];
      assert (a + b)[1..] == a[1..] + b;
      LeftJoinAppend(a[1..], b, refs, lkey, rkey);
    }
  }

  /** No two reference entries share a key. */
  predicate UniqueKeys<R, K(==)>(refs: seq<R>, rkey: R -> K) {
    forall i, j :: 0 <= i < j < |refs| ==> rkey(refs[i]) != rkey(refs[j])
  }

  lemma {:induction false} UniqueKeysAtMostOneMatch<R, K>(key: Option<K>, refs: seq<R>, rkey: R -> K)
    requires UniqueKeys(refs, rkey)
    ensures |Matches(key, refs, rkey)| <= 1
  {
    if |refs| > 0 {
      var rest := refs[1..];
      assert UniqueKeys(rest, rkey) by {
        forall i, j | 0 <= i < j < |rest| ensures rkey(rest[i]) != rkey(rest[j]) {
          assert rest[i] == refs[i + 1] && rest[j] == refs[j + 1];
        }
      }
      UniqueKeysAtMostOneMatch(key, rest, rkey);
      if key == Some(rkey(refs[0])) {
        var p := (x: R) => key == Some(rkey(x));
        assert Matches(key, refs, rkey) == [refs[0]] + Matches(key, rest, rkey);
        forall i | 0 <= i < |rest| ensures !p(rest[i]) {
          assert rest[i] == refs[i + 1];
        }
        FilterNone(rest, p);
      }
    }
  }

  /** With unique reference keys the join is row for row: same length, same left rows in the same positions. */
  lemma {:induction false} LeftJoinUniqueKeys<L, R, K>(rows: seq<L>, refs: seq<R>, lkey: L -> Option<K>, rkey: R -> K)
    requires UniqueKeys(refs, rkey)
    ensures |LeftJoin(rows, refs, lkey, rkey)| == |rows|
    ensures forall i :: 0 <= i < |rows| ==> LeftJoin(rows, refs, lkey, rkey)[i].left == rows[i]
  {
    if |rows| > 0 {
      UniqueKeysAtMostOneMatch(lkey(rows[0]), refs, rkey);
      LeftJoinUniqueKeys(rows[1..], refs, lkey, rkey);
    }
  }

  /** The left rows of the output rows that found no match, in order. */
  function Unmatched<L, R>(out: seq<Joined<L, R>>): seq<L> {
    if |out| == 0 then []
    else if out[0].right.None? then [out[0].left] + Unmatched(out[1..])
    else Unmatched(out[1..])
  }

  /** The left rows without any match, in order: an independent statement of what the report should list. */
  function WithoutMatch<L, R, K(==)>(rows: seq<L>, refs: seq<R>, lkey: L -> Option<K>, rkey: R -> K): seq<L> {
    if |rows| == 0 then []
    else if |Matches(lkey(rows[0]), refs, rkey)| == 0 then [rows[0]] + WithoutMatch(rows[1..], refs, lkey, rkey)
    else WithoutMatch(rows[1..], refs, lkey, rkey)
  }

  lemma {:induction false} UnmatchedAppend<L, R>(a: seq<Joined<L, R>>, b: seq<Joined<L, R>>)
    ensures Unmatched(a + b) == Unmatched(a) + Unmatched(b)
  {
    if |a| == 0 {
      assert a + b == b;
    } else {
      assert (a + b)[0] == a[0];
      assert (a + b)[1..] == a[1..] + b;
      UnmatchedAppend(a[1..], b);
    }
  }

  lemma {:induction false} UnmatchedAllSome<L, R>(out: seq<Joined<L, R>>)
    requires forall j :: 0 <= j < |out| ==> out[j].right.Some?
    ensures Unmatched(out) == []
  {
    if |out| > 0 {
      UnmatchedAllSome(out[1..]);
    }
  }

  /** The unmatched rows of a left join are exactly the left rows that have no match, in their original order. */
  lemma {:induction false} UnmatchedOfLeftJoin<L, R, K>(rows: seq<L>, refs: seq<R>, lkey: L -> Option<K>, rkey: R -> K)
    ensures Unmatched(LeftJoin(rows, refs, lkey, rkey)) == WithoutMatch(rows, refs, lkey, rkey)
  {
    if |rows| > 0 {
      var head := Expand(rows[0], refs, lkey, rkey);
      var tail := LeftJoin(rows[1..], refs, lkey, rkey);
      UnmatchedAppend(head, tail);
      UnmatchedOfLeftJoin(rows[1..], refs, lkey, rkey);
      if |Matches(lkey(rows[0]), refs, rkey)| == 0 {
        assert head == [Joined(rows[0], None)];
      } else {
        UnmatchedAllSome(head);
      }
    }
  }

  // ---------------------------------------------------------------- the two joins of the pipeline

  type RegionRow = Joined<Record, Region>

  type OutRow = Joined<RegionRow, District>

  function RecordKey(r: Record): Option<string> { r.nameKey }

  /** The district code a row carries after the region join: its region's, or none for an unmatched row. */
  function RegionRowCode(j: RegionRow): Option<string> {
    if j.right.Some? then Some(j.right.value.districtCode) else None
  }

  function JoinRegions(recs: seq<Record>, regions: seq<Region>): seq<RegionRow> {
    LeftJoin(recs, regions, RecordKey, RegionKey)
  }

  function JoinDistricts(rows: seq<RegionRow>, districts: seq<District>): seq<OutRow> {
    LeftJoin(rows, districts, RegionRowCode, DistrictCode)
  }

  /** A row without a region carries no district code, so it can match no district either. */
  lemma RegionMissIsDistrictMiss(rows: seq<RegionRow>, districts: seq<District>)
    ensures forall j :: 0 <= j < |JoinDistricts(rows, districts)| && JoinDistricts(rows, districts)[j].left.right.None? ==>
      JoinDistricts(rows, districts)[j].right.None?
  {
    LeftJoinSound(rows, districts, RegionRowCode, DistrictCode);
  }

  // ---------------------------------------------------------------- unmatched reports

  /** The subjects of the rows the region join could not match, in order, as cells. */
  function UnmatchedSubjects(rows: seq<RegionRow>): (names: seq<Cell>)
    ensures |names| == |Unmatched(rows)|
    ensures forall i :: 0 <= i < |names| ==> names[i] == Unmatched(rows)[i].subject
  {
    var u := Unmatched(rows);
    seq(|u|, i requires 0 <= i < |u| => u[i].subject)
  }

  /** The district codes of the rows the district join could not match, in order; None for a row that carried no code. */
  function UnmatchedDistrictCodes(rows: seq<OutRow>): (codes: seq<Option<string>>)
    ensures |codes| == |Unmatched(rows)|
    ensures forall i :: 0 <= i < |codes| ==> codes[i] == RegionRowCode(Unmatched(rows)[i])
  {
    var u := Unmatched(rows);
    seq(|u|, i requires 0 <= i < |u| => RegionRowCode(u[i]))
  }

  /** The region report lists the subject of every input row whose key matches no region, in order, and nothing else. */
  lemma UnmatchedSubjectsExact(recs: seq<Record>, regions: seq<Region>)
    ensures var w := WithoutMatch(recs, regions, RecordKey, RegionKey);
      && |UnmatchedSubjects(JoinRegions(recs, regions))| == |w|
      && forall i :: 0 <= i < |w| ==> UnmatchedSubjects(JoinRegions(recs, regions))[i] == w[i].subject
  {
    UnmatchedOfLeftJoin(recs, regions, RecordKey, RegionKey);
  }

  /**
   * The district report has one entry per row without a district, in order, carrying that row's
   * district code; a row that missed its region is listed without a code.
   */
  lemma UnmatchedDistrictCodesExact(rows: seq<RegionRow>, districts: seq<District>)
    ensures var w := WithoutMatch(rows, districts, RegionRowCode, DistrictCode);
      && |UnmatchedDistrictCodes(JoinDistricts(rows, districts))| == |w|
      && forall i :: 0 <= i < |w| ==> UnmatchedDistrictCodes(JoinDistricts(rows, districts))[i] == RegionRowCode(w[i])
    ensures forall i :: 0 <= i < |rows| && rows[i].right.None? ==> None in UnmatchedDistrictCodes(JoinDistricts(rows, districts))
  {
    UnmatchedOfLeftJoin(rows, districts, RegionRowCode, DistrictCode);
    var w := WithoutMatch(rows, districts, RegionRowCode, DistrictCode);
    forall i | 0 <= i < |rows| && rows[i].right.None?
      ensures None in UnmatchedDistrictCodes(JoinDistricts(rows, districts))
    {
      WithoutMatchHas(rows, districts, RegionRowCode, DistrictCode, i);
      var k :| 0 <= k < |w| && w[k] == rows[i];
      assert UnmatchedDistrictCodes(JoinDistricts(rows, districts))[k] == None;
    }
  }

  lemma {:induction false} WithoutMatchHas<L, R, K>(rows: seq<L>, refs: seq<R>, lkey: L -> Option<K>, rkey: R -> K, i: nat)
    requires i < |rows| && |Matches(lkey(rows[i]), refs, rkey)| == 0
    ensures rows[i] in WithoutMatch(rows, refs, lkey, rkey)
  {
    if i > 0 {
      WithoutMatchHas(rows[1..], refs, lkey, rkey, i - 1);
    }
  }

  /**
   * The region report as written: `",".join` of the subjects, which fails (None) as soon as one listed
   * subject is not text.
   */
  function SubjectReportAsWritten(rows: seq<RegionRow>): (r: Option<seq<string>>)
  {
    var names := UnmatchedSubjects(rows);
    if forall i :: 0 <= i < |names| ==> names[i].Text? then Some(seq(|names|, i requires 0 <= i < |names| => names[i].text))
    else None
  }

  /**
   * The district report as written: `",".join` of the district codes, which fails (None) as soon as one
   * listed code is missing.
   */
  function DistrictReportAsWritten(rows: seq<OutRow>): (r: Option<seq<string>>)
  {
    var codes := UnmatchedDistrictCodes(rows);
    if forall i :: 0 <= i < |codes| ==> codes[i].Some? then Some(seq(|codes|, i requires 0 <= i < |codes| => codes[i].value))
    else None
  }

  /** As written, a blank or numeric subject cell inside the table makes the region report fail. */
  lemma NonTextSubjectFailsReport(recs: seq<Record>, regions: seq<Region>, i: nat)
    requires i < |recs| && !recs[i].subject.Text? && recs[i].nameKey.None?
    ensures SubjectReportAsWritten(JoinRegions(recs, regions)).None?
  {
    WithoutMatchHas(recs, regions, RecordKey, RegionKey, i);
    UnmatchedSubjectsExact(recs, regions);
    var w := WithoutMatch(recs, regions, RecordKey, RegionKey);
    var k :| 0 <= k < |w| && w[k] == recs[i];
    assert !UnmatchedSubjects(JoinRegions(recs, regions))[k].Text?;
  }

  /** As written, a row that missed its region makes the district report fail. */
  lemma RegionMissFailsDistrictReport(rows: seq<RegionRow>, districts: seq<District>, i: nat)
    requires i < |rows| && rows[i].right.None?
    ensures DistrictReportAsWritten(JoinDistricts(rows, districts)).None?
  {
    UnmatchedDistrictCodesExact(rows, districts);
  }

  /**
   * As written, ANY subject whose key matches no region ends the whole run at the district report,
   * although the row was meant to be kept and listed.
   */
  lemma UnknownSubjectAbortsAsWritten(recs: seq<Record>, regions: seq<Region>, districts: seq<District>, i: nat)
    requires i < |recs| && |Matches(recs[i].nameKey, regions, RegionKey)| == 0
    ensures DistrictReportAsWritten(JoinDistricts(JoinRegions(recs, regions), districts)).None?
  {
    var joined := JoinRegions(recs, regions);
    LeftJoinKeepsEveryRow(recs, regions, RecordKey, RegionKey, i);
    LeftJoinSound(recs, regions, RecordKey, RegionKey);
    var j :| 0 <= j < |joined| && joined[j].left == recs[i];
    RegionMissFailsDistrictReport(joined, districts, j);
  }

  /** Every row the unmatched list holds is an input row whose key matches no reference entry. */
  lemma {:induction false} WithoutMatchMembers<L, R, K>(rows: seq<L>, refs: seq<R>, lkey: L -> Option<K>, rkey: R -> K)
    ensures forall k :: 0 <= k < |WithoutMatch(rows, refs, lkey, rkey)| ==>
      WithoutMatch(rows, refs, lkey, rkey)[k] in rows && |Matches(lkey(WithoutMatch(rows, refs, lkey, rkey)[k]), refs, rkey)| == 0
  {
    if |rows| > 0 {
      WithoutMatchMembers(rows[1..], refs, lkey, rkey);
      var w, tail := WithoutMatch(rows, refs, lkey, rkey), WithoutMatch(rows[1..], refs, lkey, rkey);
      forall k | 0 <= k < |w|
        ensures w[k] in rows && |Matches(lkey(w[k]), refs, rkey)| == 0
      {
        if |Matches(lkey(rows[0]), refs, rkey)| == 0 && k > 0 {
          assert w[k] == tail[k - 1];
        }
      }
    }
  }

  /** The key of row `r` matches no region. */
  predicate MissesRegion(r: Record, regions: seq<Region>) {
    |Matches(r.nameKey, regions, RegionKey)| == 0
  }

  /** As written, a failing region report lists a row with a non-text subject that matches no region. */
  lemma SubjectReportFailureHasCause(recs: seq<Record>, regions: seq<Region>)
    ensures SubjectReportAsWritten(JoinRegions(recs, regions)).None? ==>
      exists i :: 0 <= i < |recs| && !recs[i].subject.Text? && MissesRegion(recs[i], regions)
  {
    if SubjectReportAsWritten(JoinRegions(recs, regions)).Some? { return; }
    var names := UnmatchedSubjects(JoinRegions(recs, regions));
    var w := WithoutMatch(recs, regions, RecordKey, RegionKey);
    UnmatchedSubjectsExact(recs, regions);
    var k :| 0 <= k < |names| && !names[k].Text?;
    WithoutMatchMembers(recs, regions, RecordKey, RegionKey);
    var i :| 0 <= i < |recs| && recs[i] == w[k];
    assert !recs[i].subject.Text? && MissesRegion(recs[i], regions);
  }

  /** As written, a row with a non-text subject that matches no region makes the region report fail. */
  lemma MissedNonTextFailsReport(recs: seq<Record>, regions: seq<Region>, i: nat)
    requires i < |recs| && !recs[i].subject.Text? && MissesRegion(recs[i], regions)
    ensures SubjectReportAsWritten(JoinRegions(recs, regions)).None?
  {
    var w := WithoutMatch(recs, regions, RecordKey, RegionKey);
    UnmatchedSubjectsExact(recs, regions);
    WithoutMatchHas(recs, regions, RecordKey, RegionKey, i);
    var k :| 0 <= k < |w| && w[k] == recs[i];
    assert !UnmatchedSubjects(JoinRegions(recs, regions))[k].Text?;
  }

  /** As written, the region report fails exactly when some row with a non-text subject matches no region. */
  lemma SubjectReportFailsIff(recs: seq<Record>, regions: seq<Region>)
    ensures SubjectReportAsWritten(JoinRegions(recs, regions)).None? <==>
      exists i :: 0 <= i < |recs| && !recs[i].subject.Text? && MissesRegion(recs[i], regions)
  {
    if SubjectReportAsWritten(JoinRegions(recs, regions)).None? {
      SubjectReportFailureHasCause(recs, regions);
    }
    if exists i :: 0 <= i < |recs| && !recs[i].subject.Text? && MissesRegion(recs[i], regions) {
      var i :| 0 <= i < |recs| && !recs[i].subject.Text? && MissesRegion(recs[i], regions);
      MissedNonTextFailsReport(recs, regions, i);
    }
  }

  /** As written, the district report fails exactly when some row matches no region. */
  lemma DistrictReportFailsIff(recs: seq<Record>, regions: seq<Region>, districts: seq<District>)
    ensures DistrictReportAsWritten(JoinDistricts(JoinRegions(recs, regions), districts)).None? <==>
      exists i :: 0 <= i < |recs| && MissesRegion(recs[i], regions)
  {
    var byRegion := JoinRegions(recs, regions);
    var codes := UnmatchedDistrictCodes(JoinDistricts(byRegion, districts));
    var w := WithoutMatch(byRegion, districts, RegionRowCode, DistrictCode);
    if DistrictReportAsWritten(JoinDistricts(byRegion, districts)).None? {
      UnmatchedDistrictCodesExact(byRegion, districts);
      var k :| 0 <= k < |codes| && codes[k].None?;
      WithoutMatchMembers(byRegion, districts, RegionRowCode, DistrictCode);
      LeftJoinSound(recs, regions, RecordKey, RegionKey);
      var j :| 0 <= j < |byRegion| && byRegion[j] == w[k];
      var i :| 0 <= i < |recs| && recs[i] == byRegion[j].left;
      assert MissesRegion(recs[i], regions);
    }
    if exists i :: 0 <= i < |recs| && MissesRegion(recs[i], regions) {
      var i :| 0 <= i < |recs| && MissesRegion(recs[i], regions);
      UnknownSubjectAbortsAsWritten(recs, regions, districts, i);
    }
  }

  /** Nothing is lost in the two joins: every input row is the record of some fully joined row. */
  lemma JoinsKeepEveryRecord(recs: seq<Record>, tables: Tables, i: nat)
    requires i < |recs|
    ensures var full := JoinDistricts(JoinRegions(recs, tables.regions), tables.districts);
      exists j :: 0 <= j < |full| && full[j].left.left == recs[i]
  {
    var byRegion := JoinRegions(recs, tables.regions);
    LeftJoinKeepsEveryRow(recs, tables.regions, RecordKey, RegionKey, i);
    var m :| 0 <= m < |byRegion| && byRegion[m].left == recs[i];
    var full := JoinDistricts(byRegion, tables.districts);
    LeftJoinKeepsEveryRow(byRegion, tables.districts, RegionRowCode, DistrictCode, m);
    var j :| 0 <= j < |full| && full[j].left == byRegion[m];
    assert full[j].left.left == recs[i];
  }
}

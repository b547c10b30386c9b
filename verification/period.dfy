/**
 * The period parser: a file's (month, year) from the digit runs of its name, and the
 * `YYYY-MM-01` string each extracted row is stamped with.
 */
module Period {
  import opened Options
  import opened Seqs
  import opened Strings
  import opened Lex
  import opened Numerals

  // ---------------------------------------------------------------- digit runs

  function Flush(cur: string): seq<string> {
    if |cur| == 0 then [] else [cur]
  }

  /** Scans `s` left to right; `cur` is the digit run read so far and not yet emitted. */
  function Runs(s: string, cur: string): (runs: seq<string>)
    requires AllDigits(cur)
    ensures forall i :: 0 <= i < |runs| ==> |runs[i]| > 0 && AllDigits(runs[i])
    decreases |s|
  {
    if |s| == 0 then Flush(cur)
    else if IsDigit(s[0]) then Runs(s[1..], cur + [s[0]])
    else Flush(cur) + Runs(s[1..], [])
  }

  /** The maximal runs of ASCII decimal digits in `s`, in order (`re.findall(r'\d+', s)`). */
  function DigitRuns(s: string): (runs: seq<string>)
    ensures forall i :: 0 <= i < |runs| ==> |runs[i]| > 0 && AllDigits(runs[i])
  {
    Runs(s, [])
  }

  /** The digits of `s` in order, everything else dropped. */
  function DigitsOf(s: string): string {
    if |s| == 0 then []
    else if IsDigit(s[0]) then [s[0]] + DigitsOf(s[1..])
    else DigitsOf(s[1..])
  }

  lemma {:induction false} RunsCoverDigits(s: string, cur: string)
    requires AllDigits(cur)
    ensures Flatten(Runs(s, cur)) == cur + DigitsOf(s)
    decreases |s|
  {
    if |s| == 0 {
      assert Flatten(Flush(cur)) == cur;
      assert DigitsOf(s) == [];
    } else if IsDigit(s[0]) {
      assert Runs(s, cur) == Runs(s[1..], cur + [s[0]]);
      assert DigitsOf(s) == [s[0]] + DigitsOf(s[1..]);
      RunsCoverDigits(s[1..], cur + [s[0]]);
      assert cur + [s[0]] + DigitsOf(s[1..]) == cur + ([s[0]] + DigitsOf(s[1..]));
    } else {
      assert Runs(s, cur) == Flush(cur) + Runs(s[1..], []);
      assert DigitsOf(s) == DigitsOf(s[1..]);
      RunsCoverDigits(s[1..], []);
      FlattenAppend(Flush(cur), Runs(s[1..], []));
      assert Flatten(Flush(cur)) == cur;
      assert [] + DigitsOf(s[1..]) == DigitsOf(s[1..]);
    }
  }

  /** Concatenating the runs gives back exactly the digits of the name: no digit is lost or invented. */
  lemma DigitRunsCoverDigits(s: string)
    ensures Flatten(DigitRuns(s)) == DigitsOf(s)
  {
    RunsCoverDigits(s, []);
  }

  /** A name built from digit runs separated by non-digit gaps: `gaps[0] + runs[0] + gaps[1] + ... + gaps[n]`. */
  function Render(runs: seq<string>, gaps: seq<string>): string
    requires |gaps| == |runs| + 1
  {
    if |runs| == 0 then gaps[0] else gaps[0] + runs[0] + Render(runs[1..], gaps[1..])
  }

  predicate NoDigits(s: string) { forall i :: 0 <= i < |s| ==> !IsDigit(s[i]) }

  /** Inner gaps are non-empty (the outer two may be empty) and contain no digit; every run is a non-empty digit string. */
  predicate WellSeparated(runs: seq<string>, gaps: seq<string>) {
    && |gaps| == |runs| + 1
    && (forall i :: 0 <= i < |runs| ==> |runs[i]| > 0 && AllDigits(runs[i]))
    && (forall i :: 0 <= i < |gaps| ==> NoDigits(gaps[i]))
    && (forall i :: 0 < i < |runs| ==> |gaps[i]| > 0)
  }

  lemma {:induction false} RunsDigitPrefix(d: string, rest: string, cur: string)
    requires AllDigits(d) && AllDigits(cur)
    ensures Runs(d + rest, cur) == Runs(rest, cur + d)
    decreases |d|
  {
    if |d| == 0 {
      assert d + rest == rest;
      assert cur + d == cur;
    } else {
      assert (d + rest)[0] == d[0];
      assert (d + rest)[1..] == d[1..] + rest;
      RunsDigitPrefix(d[1..], rest, cur + [d[0]]);
      assert cur + [d[0]] + d[1..] == cur + d;
    }
  }

  lemma {:induction false} RunsGapPrefix(g: string, rest: string, cur: string)
    requires NoDigits(g) && |g| > 0 && AllDigits(cur)
    ensures Runs(g + rest, cur) == Flush(cur) + Runs(rest, [])
    decreases |g|
  {
    assert (g + rest)[0] == g[0];
    assert (g + rest)[1..] == g[1..] + rest;
    if |g| == 1 {
      assert g[1..] + rest == rest;
    } else {
      RunsGapPrefix(g[1..], rest, []);
    }
  }

  lemma RunsOfGap(g: string, cur: string)
    requires NoDigits(g) && AllDigits(cur)
    ensures Runs(g, cur) == Flush(cur)
  {
    if |g| > 0 {
      RunsGapPrefix(g, [], cur);
      assert g + [] == g;
    }
  }

  /** One step of reading a rendered name: the gap emits the pending run, and the next run becomes pending. */
  lemma RunsGapThenRun(g: string, r: string, tail: string, cur: string)
    requires NoDigits(g) && AllDigits(r) && AllDigits(cur)
    requires |cur| > 0 ==> |g| > 0
    ensures Runs(g + (r + tail), cur) == Flush(cur) + Runs(tail, r)
  {
    if |g| == 0 {
      assert g + (r + tail) == r + tail;
      RunsDigitPrefix(r, tail, cur);
      assert cur + r == r;
    } else {
      RunsGapPrefix(g, r + tail, cur);
      RunsDigitPrefix(r, tail, []);
      assert [] + r == r;
    }
  }

  lemma {:induction false} RunsOfRender(runs: seq<string>, gaps: seq<string>, cur: string)
    requires WellSeparated(runs, gaps) && AllDigits(cur)
    requires |cur| > 0 && |runs| > 0 ==> |gaps[0]| > 0
    ensures Runs(Render(runs, gaps), cur) == Flush(cur) + runs
    decreases |runs|
  {
    if |runs| == 0 {
      RunsOfGap(gaps[0], cur);
    } else {
      var tail := Render(runs[1..], gaps[1..]);
      assert Render(runs, gaps) == gaps[0] + (runs[0] + tail);
      RunsGapThenRun(gaps[0], runs[0], tail, cur);
      assert WellSeparated(runs[1..], gaps[1..]);
      RunsOfRender(runs[1..], gaps[1..], runs[0]);
      assert runs == [runs[0]] + runs[1..];
    }
  }

  /** Reading the digit runs of a name built from runs and gaps gives back exactly those runs. */
  lemma DigitRunsOfRender(runs: seq<string>, gaps: seq<string>)
    requires WellSeparated(runs, gaps)
    ensures DigitRuns(Render(runs, gaps)) == runs
  {
    RunsOfRender(runs, gaps, []);
  }

  /** The integer value of each digit run (`[int(x) for x in ...]`). */
  function RunValues(s: string): (ns: seq<nat>)
    ensures |ns| == |DigitRuns(s)|
    ensures forall i :: 0 <= i < |ns| ==> ns[i] == ParseNat(DigitRuns(s)[i])
  {
    var runs := DigitRuns(s);
    seq(|runs|, i requires 0 <= i < |runs| => ParseNat(runs[i]))
  }

  // ---------------------------------------------------------------- the period

  datatype YearMonth = YearMonth(month: nat, year: nat)

  /** The first run value from which the run list is taken to be written year-first. */
  const YearFirstThreshold := 2020

  /**
   * The period of a file name: None with fewer than two digit runs; otherwise month and year are
   * the first two run values, after reversing the WHOLE run list when the first value is at least 2020.
   */
  function ParsePeriod(name: string): (p: Option<YearMonth>)
    ensures p.None? <==> |DigitRuns(name)| < 2
    ensures p.Some? ==>
      var ns := RunValues(name);
      if ns[0] >= YearFirstThreshold then p.value == YearMonth(ns[|ns| - 1], ns[|ns| - 2])
      else p.value == YearMonth(ns[0], ns[1])
  {
    var ns := RunValues(name);
    if |ns| < 2 then None
    else
      var ordered := if ns[0] >= YearFirstThreshold then Reverse(ns) else ns;
      Some(YearMonth(ordered[0], ordered[1]))
  }

  /**
   * A name with exactly two numbers `a` and `b` (written without leading zeros): a year-first name
   * (`a >= 2020`) gives month `b` of year `a`, any other gives month `a` of year `b`.
   */
  lemma TwoRunPeriod(a: nat, b: nat, gaps: seq<string>)
    requires WellSeparated([ShowNat(a), ShowNat(b)], gaps)
    ensures ParsePeriod(Render([ShowNat(a), ShowNat(b)], gaps))
         == if a >= YearFirstThreshold then Some(YearMonth(b, a)) else Some(YearMonth(a, b))
  {
    DigitRunsOfRender([ShowNat(a), ShowNat(b)], gaps);
  }

  /** With three runs and a year-first name the whole list is reversed: the month is the LAST run, the year the middle one. */
  lemma ThreeRunYearFirst(a: nat, b: nat, c: nat, gaps: seq<string>)
    requires WellSeparated([ShowNat(a), ShowNat(b), ShowNat(c)], gaps)
    requires a >= YearFirstThreshold
    ensures ParsePeriod(Render([ShowNat(a), ShowNat(b), ShowNat(c)], gaps)) == Some(YearMonth(c, b))
  {
    DigitRunsOfRender([ShowNat(a), ShowNat(b), ShowNat(c)], gaps);
  }

  /** `f'{year:04d}-{month:02d}-01'`. */
  function PeriodString(p: YearMonth): string {
    PadLeft(ShowNat(p.year), 4) + "-" + PadLeft(ShowNat(p.month), 2) + "-01"
  }

  /** Years below 10000 and months below 100 are the ones whose period string has the fixed `YYYY-MM-01` shape. */
  predicate FitsFormat(p: YearMonth) { p.year < 10000 && p.month < 100 }

  lemma Pow10Values()
    ensures Pow10(2) == 100 && Pow10(4) == 10000
  {
  }

  /** The part of the period string after the year. */
  function MonthPart(month: nat): string {
    "-" + (PadLeft(ShowNat(month), 2) + "-01")
  }

  lemma PeriodStringSplit(p: YearMonth)
    ensures PeriodString(p) == PadLeft(ShowNat(p.year), 4) + MonthPart(p.month)
  {
  }

  /** For a period that fits the format, the period string is the fixed-width year, a dash, the fixed-width month and `-01`. */
  lemma PeriodStringFixed(p: YearMonth)
    requires FitsFormat(p)
    ensures PeriodString(p) == Fixed(p.year, 4) + ("-" + (Fixed(p.month, 2) + "-01"))
  {
    Pow10Values();
    PadShowIsFixed(p.year, 4);
    PadShowIsFixed(p.month, 2);
    PeriodStringSplit(p);
  }

  /** The period string is ten characters long exactly when the period fits the format. */
  lemma PeriodStringLength(p: YearMonth)
    ensures |PeriodString(p)| == 10 <==> FitsFormat(p)
  {
    Pow10Values();
    ShowNatLength(p.year, 4);
    ShowNatLength(p.month, 2);
    PeriodStringSplit(p);
  }

  /**
   * The period string of a period that fits the format reads back: four digits of the year, a dash,
   * two digits of the month, and `-01`.
   */
  lemma PeriodStringShape(p: YearMonth)
    requires FitsFormat(p)
    ensures var s := PeriodString(p);
      && |s| == 10 && AllDigits(s[..4]) && s[4] == '-' && AllDigits(s[5..7]) && s[7] == '-' && s[8..] == "01"
      && ParseNat(s[..4]) == p.year && ParseNat(s[5..7]) == p.month
  {
    Pow10Values();
    PeriodStringFixed(p);
    FixedLayout(Fixed(p.year, 4), Fixed(p.month, 2));
    ParseFixed(p.year, 4);
    ParseFixed(p.month, 2);
  }

  lemma FixedLayout(y: string, m: string)
    requires |y| == 4 && |m| == 2
    ensures var s := y + ("-" + (m + "-01"));
      && s[..4] == y && s[4] == '-' && s[5..7] == m && s[7] == '-' && s[8..] == "01"
  {
  }

  /** Chronological order on periods: by year, then by month. */
  predicate PeriodLe(a: YearMonth, b: YearMonth) {
    a.year < b.year || (a.year == b.year && a.month <= b.month)
  }

  /** Two fixed-width numerals of the same width are equal exactly when the numbers are. */
  lemma FixedInjective(x: nat, y: nat, w: nat)
    requires x < Pow10(w) && y < Pow10(w)
    ensures Fixed(x, w) == Fixed(y, w) <==> x == y
  {
    ParseFixed(x, w);
    ParseFixed(y, w);
  }

  lemma MonthPartOrder(x: nat, y: nat)
    requires x < 100 && y < 100
    ensures LexLe("-" + (Fixed(x, 2) + "-01"), "-" + (Fixed(y, 2) + "-01")) <==> x <= y
  {
    Pow10Values();
    var mx, my := Fixed(x, 2), Fixed(y, 2);
    LexLeConcat("-", mx + "-01", "-", my + "-01");
    LexLeConcat(mx, "-01", my, "-01");
    LexLeRefl("-01");
    FixedOrder(x, y, 2);
  }

  /** For periods that fit the format, sorting the period strings as text sorts the periods chronologically. */
  lemma PeriodStringOrder(a: YearMonth, b: YearMonth)
    requires FitsFormat(a) && FitsFormat(b)
    ensures LexLe(PeriodString(a), PeriodString(b)) <==> PeriodLe(a, b)
  {
    Pow10Values();
    PeriodStringFixed(a);
    PeriodStringFixed(b);
    var ya, yb := Fixed(a.year, 4), Fixed(b.year, 4);
    LexLeConcat(ya, "-" + (Fixed(a.month, 2) + "-01"), yb, "-" + (Fixed(b.month, 2) + "-01"));
    MonthPartOrder(a.month, b.month);
    FixedOrder(a.year, b.year, 4);
    FixedInjective(a.year, b.year, 4);
  }
}

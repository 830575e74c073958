/**
  Worked data-quality scenarios: two-year county histories run through the
  outlier rule and through the whole rule set.
 */
module QualityExamples {
  import opened Wrappers
  import opened Referrals
  import opened CheckFrame
  import opened QualityChecks

  /** A consistent row: every referral is a violent felony, one youth per referral. */
  function Row(countyId: int, yearId: int, county: string, year: int, total: int): CheckRow {
    var m := Measures(Some(1000), Some(total), Some(0), Some(0), Some(0), Some(0), Some(0), Some(total), None, Some(total));
    CheckRow(countyId, yearId, m, county, "Unknown", year)
  }

  /** 100 then 160 is a 60% rise over more than 10 referrals: flagged; the first year never is. */
  lemma RiseOfSixtyPercentIsFlagged()
    ensures !Violates(YoYChange, [Row(1, 1, "ADAMS", 2020, 100), Row(1, 2, "ADAMS", 2021, 160)], 0)
    ensures Violates(YoYChange, [Row(1, 1, "ADAMS", 2020, 100), Row(1, 2, "ADAMS", 2021, 160)], 1)
  {
  }

  /** 5 then 10 doubles, but from no more than 10 referrals: not flagged. */
  lemma SmallCountyIsNotFlagged()
    ensures !Violates(YoYChange, [Row(1, 1, "ADAMS", 2020, 5), Row(1, 2, "ADAMS", 2021, 10)], 1)
  {
  }

  /** Rows of another county in between do not break the county's history. */
  lemma PreviousRowIsTheCountysOwn()
    ensures PrevInCounty([Row(1, 1, "ADAMS", 2020, 100), Row(2, 1, "BEXAR", 2020, 900), Row(1, 2, "ADAMS", 2021, 160)], 2) == Some(0)
    ensures Violates(YoYChange, [Row(1, 1, "ADAMS", 2020, 100), Row(2, 1, "BEXAR", 2020, 900), Row(1, 2, "ADAMS", 2021, 160)], 2)
  {
  }

  /** The ADAMS history, newest year first. */
  function AdamsRows(): seq<CheckRow> {
    [Row(1, 2, "ADAMS", 2021, 160), Row(1, 1, "ADAMS", 2020, 100)]
  }

  lemma AdamsSortsByYear()
    ensures SortRows(AdamsRows()) == [Row(1, 1, "ADAMS", 2020, 100), Row(1, 2, "ADAMS", 2021, 160)]
  {
    var r0, r1 := Row(1, 2, "ADAMS", 2021, 160), Row(1, 1, "ADAMS", 2020, 100);
    assert AdamsRows()[..1] == [r0];
    assert SortRows([r0]) == [r0];
    assert !RowLe(r0, r1);
  }

  /** No ADAMS row fails any of the four row-by-row rules. */
  lemma AdamsPassesRowRules(c: Check)
    requires c != YoYChange
    ensures FailedRows(c, AdamsRows()) == 0
  {
    var rows := AdamsRows();
    assert Frame(c, rows) == rows;
    assert !Violates(c, rows, 0);
    assert !Violates(c, rows, 1);
    assert CountViolations(c, rows, 1) == 0;
  }

  /** Sorted, the 2021 row is a 60% rise over 100 referrals: exactly one outlier. */
  lemma AdamsHasOneOutlier()
    ensures FailedRows(YoYChange, AdamsRows()) == 1
  {
    AdamsSortsByYear();
    var sorted := [Row(1, 1, "ADAMS", 2020, 100), Row(1, 2, "ADAMS", 2021, 160)];
    assert Frame(YoYChange, AdamsRows()) == sorted;
    RiseOfSixtyPercentIsFlagged();
    assert CountViolations(YoYChange, sorted, 1) == 0;
  }

  lemma AdamsCounts()
    ensures FailedRows(NonNullTotals, AdamsRows()) == 0
    ensures FailedRows(UniqueCountyYear, AdamsRows()) == 0
    ensures FailedRows(OffenseSum, AdamsRows()) == 0
    ensures FailedRows(YouthBound, AdamsRows()) == 0
    ensures FailedRows(YoYChange, AdamsRows()) == 1
  {
    AdamsPassesRowRules(NonNullTotals);
    AdamsPassesRowRules(UniqueCountyYear);
    AdamsPassesRowRules(OffenseSum);
    AdamsPassesRowRules(YouthBound);
    AdamsHasOneOutlier();
  }

  /** Only the outlier rule having failures leaves the outlier issue alone. */
  lemma OnlyOutlierFires(counts: Check -> nat)
    requires counts(NonNullTotals) == 0 && counts(UniqueCountyYear) == 0 && counts(OffenseSum) == 0
    requires counts(YouthBound) == 0 && counts(YoYChange) == 1
    ensures IssuesOf(RuleOrder, counts, MakeIssue) == [MakeIssue(YoYChange, 1)]
  {
    RuleOrderUnfold(counts, MakeIssue);
  }

  /** The outlier issue for one row. */
  lemma OneOutlierIssue()
    ensures MakeIssue(YoYChange, 1).category == Outlier
    ensures MakeIssue(YoYChange, 1).rule == "YoY Change > 50%"
    ensures MakeIssue(YoYChange, 1).failedRows == 1
    ensures MakeIssue(YoYChange, 1).severity == Low
    ensures DetailsCount(MakeIssue(YoYChange, 1).details) == Some(1)
  {
    DetailsCarryCount(YoYChange, 1);
  }

  /**
    ADAMS with 100 referrals in 2020 and 160 in 2021, loaded newest first: the
    outlier rule sorts the years back into order and reports one row, and no
    other rule fires.
   */
  lemma AdamsJumpIsTheOnlyIssue()
    ensures CheckIssues(AdamsRows()) == [MakeIssue(YoYChange, 1)]
  {
    var counts := FailedCounts(AdamsRows());
    assert CheckIssues(AdamsRows()) == IssuesOf(RuleOrder, counts, MakeIssue);
    AdamsCounts();
    assert counts(NonNullTotals) == 0 && counts(UniqueCountyYear) == 0 && counts(OffenseSum) == 0;
    assert counts(YouthBound) == 0 && counts(YoYChange) == 1;
    OnlyOutlierFires(counts);
  }

  /** An empty frame yields no issues. */
  lemma EmptyFrameHasNoIssues()
    ensures CheckIssues([]) == []
  {
    NoIssuesIffClean([]);
  }
}

/**
  The data-quality report table: a header row with the five columns, then
  one row per issue; just the header when there are no issues.
 */
module QualityReport {
  import opened Wrappers
  import opened Decimal
  import opened CheckFrame
  import opened QualityChecks

  const Header: seq<string> := ["Category", "Rule", "Failed_Rows", "Severity", "Details"]

  function CategoryName(c: Category): string {
    match c
    case Completeness => "Completeness"
    case Uniqueness => "Uniqueness"
    case Logic => "Logic"
    case Outlier => "Outlier"
  }

  function SeverityName(s: Severity): string {
    match s
    case Critical => "Critical"
    case High => "High"
    case Medium => "Medium"
    case Low => "Low"
  }

  function ParseCategory(s: string): (c: Option<Category>)
    ensures c.Some? ==> CategoryName(c.value) == s
  {
    if s == "Completeness" then Some(Completeness)
    else if s == "Uniqueness" then Some(Uniqueness)
    else if s == "Logic" then Some(Logic)
    else if s == "Outlier" then Some(Outlier)
    else None
  }

  function ParseSeverity(s: string): (v: Option<Severity>)
    ensures v.Some? ==> SeverityName(v.value) == s
  {
    if s == "Critical" then Some(Critical)
    else if s == "High" then Some(High)
    else if s == "Medium" then Some(Medium)
    else if s == "Low" then Some(Low)
    else None
  }

  lemma CategoryNameParses(c: Category)
    ensures ParseCategory(CategoryName(c)) == Some(c)
  {
  }

  lemma SeverityNameParses(s: Severity)
    ensures ParseSeverity(SeverityName(s)) == Some(s)
  {
  }

  /** The cells of an issue's row, in header order. */
  function IssueCells(issue: Issue): seq<string> {
    [CategoryName(issue.category), issue.rule, NatToString(issue.failedRows), SeverityName(issue.severity), issue.details]
  }

  /** The report written for these issues: the header row, then one row per issue. */
  function ReportTable(issues: seq<Issue>): (table: seq<seq<string>>)
    ensures |table| == |issues| + 1 && table[0] == Header
    ensures forall k :: 1 <= k < |table| ==> |table[k]| == |Header|
  {
    [Header] + seq(|issues|, k requires 0 <= k < |issues| => IssueCells(issues[k]))
  }

  /** Reads one report row back into an issue. */
  function ParseIssueRow(cells: seq<string>): Option<Issue> {
    if |cells| == 5 && ParseCategory(cells[0]).Some? && cells[2] != [] && AllDigits(cells[2])
       && ParseSeverity(cells[3]).Some?
    then Some(Issue(ParseCategory(cells[0]).value, cells[1], ParseDigits(cells[2]), ParseSeverity(cells[3]).value, cells[4]))
    else None
  }

  function ParseIssueRows(rows: seq<seq<string>>): Option<seq<Issue>> {
    if rows == [] then Some([])
    else
      match (ParseIssueRow(rows[0]), ParseIssueRows(rows[1..]))
      case (Some(issue), Some(rest)) => Some([issue] + rest)
      case _ => None
  }

  /** Reads a report back: the header, then issue rows. */
  function ParseReport(table: seq<seq<string>>): Option<seq<Issue>> {
    if |table| >= 1 && table[0] == Header then ParseIssueRows(table[1..]) else None
  }

  lemma IssueRowRoundTrip(issue: Issue)
    ensures ParseIssueRow(IssueCells(issue)) == Some(issue)
  {
    CategoryNameParses(issue.category);
    SeverityNameParses(issue.severity);
    ParseNatToString(issue.failedRows);
  }

  lemma {:induction false} IssueRowsRoundTrip(issues: seq<Issue>)
    ensures ParseIssueRows(seq(|issues|, k requires 0 <= k < |issues| => IssueCells(issues[k]))) == Some(issues)
  {
    var rows := seq(|issues|, k requires 0 <= k < |issues| => IssueCells(issues[k]));
    if issues != [] {
      IssueRowRoundTrip(issues[0]);
      IssueRowsRoundTrip(issues[1..]);
      assert rows[1..] == seq(|issues[1..]|, k requires 0 <= k < |issues[1..]| => IssueCells(issues[1..][k]));
      assert issues == [issues[0]] + issues[1..];
    }
  }

  /** Reading the written report gives back the issues, in order. */
  lemma ReportRoundTrip(issues: seq<Issue>)
    ensures ParseReport(ReportTable(issues)) == Some(issues)
  {
    var table := ReportTable(issues);
    assert table[1..] == seq(|issues|, k requires 0 <= k < |issues| => IssueCells(issues[k]));
    IssueRowsRoundTrip(issues);
  }

  /** Each issue's row shows its Failed_Rows as a decimal number that reads back as it. */
  lemma FailedRowsCellReadsBack(issues: seq<Issue>, k: nat)
    requires k < |issues|
    ensures AllDigits(ReportTable(issues)[k + 1][2])
    ensures ParseDigits(ReportTable(issues)[k + 1][2]) == issues[k].failedRows
  {
    ParseNatToString(issues[k].failedRows);
  }

  /** When no row fails any rule, the report is the header row alone. */
  lemma CleanFrameGivesHeaderOnly(rows: seq<CheckRow>)
    requires forall c, i :: 0 <= i < |rows| ==> !Violates(c, Frame(c, rows), i)
    ensures ReportTable(CheckIssues(rows)) == [Header]
  {
    NoIssuesIffClean(rows);
  }
}

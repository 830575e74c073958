/**
  The five data-quality rules run over the joined fact view, the issue each
  one reports, and the driver that collects those issues in rule order.
 */
module QualityChecks {
  import opened Wrappers
  import opened Decimal
  import opened Referrals
  import opened CheckFrame

  datatype Category = Completeness | Uniqueness | Logic | Outlier
  datatype Severity = Critical | High | Medium | Low

  /** The rules, in the order they run. */
  datatype Check = NonNullTotals | UniqueCountyYear | OffenseSum | YouthBound | YoYChange

  /** One row of the data-quality report. */
  datatype Issue = Issue(category: Category, rule: string, failedRows: nat, severity: Severity, details: string)

  function Position(c: Check): nat {
    match c
    case NonNullTotals => 0
    case UniqueCountyYear => 1
    case OffenseSum => 2
    case YouthBound => 3
    case YoYChange => 4
  }

  function CategoryOf(c: Check): Category {
    match c
    case NonNullTotals => Completeness
    case UniqueCountyYear => Uniqueness
    case OffenseSum => Logic
    case YouthBound => Logic
    case YoYChange => Outlier
  }

  function SeverityOf(c: Check): Severity {
    match c
    case NonNullTotals => Critical
    case UniqueCountyYear => Critical
    case OffenseSum => Medium
    case YouthBound => High
    case YoYChange => Low
  }

  function RuleText(c: Check): string {
    match c
    case NonNullTotals => "Total_Referrals must not be NULL"
    case UniqueCountyYear => "County + Year must be unique"
    case OffenseSum => "Sum of Offenses == Total Referrals"
    case YouthBound => "Unique Youth <= Total Referrals"
    case YoYChange => "YoY Change > 50%"
  }

  /** The text of Details after the count and its space. */
  function DetailsSentence(c: Check): string {
    match c
    case NonNullTotals => "rows have missing referral counts."
    case UniqueCountyYear => "duplicate records for County/Year combinations."
    case OffenseSum => "rows have mismatch between offense sum and Total Referrals. (Potential data entry error)"
    case YouthBound => "rows have more Unique Youth than Referrals (impossible)."
    case YoYChange => "county-years show >50% change in volume vs previous year."
  }

  function DetailsSuffix(c: Check): string {
    " " + DetailsSentence(c)
  }

  /** The Details text: the count, written in decimal, inside the rule's sentence. */
  function Details(c: Check, count: nat): string {
    if c == UniqueCountyYear then "Found " + NatToString(count) + DetailsSuffix(c)
    else NatToString(count) + DetailsSuffix(c)
  }

  /** The issue a rule appends when count rows fail it. */
  function MakeIssue(c: Check, count: nat): Issue {
    Issue(CategoryOf(c), RuleText(c), count, SeverityOf(c), Details(c, count))
  }

  /** The rule an issue's Rule text names (None for a text no rule uses). */
  function RuleOf(rule: string): (c: Option<Check>)
    ensures c.Some? ==> RuleText(c.value) == rule
  {
    if rule == RuleText(NonNullTotals) then Some(NonNullTotals)
    else if rule == RuleText(UniqueCountyYear) then Some(UniqueCountyYear)
    else if rule == RuleText(OffenseSum) then Some(OffenseSum)
    else if rule == RuleText(YouthBound) then Some(YouthBound)
    else if rule == RuleText(YoYChange) then Some(YoYChange)
    else None
  }

  /** Each rule has its own Rule text. */
  lemma RuleTextNamesItsRule(c: Check)
    ensures RuleOf(RuleText(c)) == Some(c)
  {
  }

  lemma RuleTextInjective(a: Check, b: Check)
    requires RuleText(a) == RuleText(b)
    ensures a == b
  {
    RuleTextNamesItsRule(a);
    RuleTextNamesItsRule(b);
  }

  /**
    Calc_Total: the sum of the six offense columns, NaN (None) as soon as
    one of them is missing.
   */
  function CalcTotal(m: Measures): Option<int> {
    if m.violentFelony.Some? && m.otherFelony.Some? && m.misd.Some? && m.vop.Some? && m.statusOffense.Some? && m.cins.Some?
    then Some(m.violentFelony.value + m.otherFelony.value + m.misd.value + m.vop.value + m.statusOffense.value + m.cins.value)
    else None
  }

  /** Calc_Total != Total_Referrals, where NaN is unequal to everything, itself included. */
  predicate SumMismatch(m: Measures) {
    CalcTotal(m).None? || m.totalReferrals.None? || CalcTotal(m).value != m.totalReferrals.value
  }

  /** Unique_Youth > Total_Referrals, false when either side is NaN. */
  predicate YouthExceeds(m: Measures) {
    m.uniqueYouth.Some? && m.totalReferrals.Some? && m.uniqueYouth.value > m.totalReferrals.value
  }

  function Abs(x: int): nat {
    if x < 0 then -x else x
  }

  /**
    |cur - prev| / prev > 0.5 for a positive prev, in integers: the change
    is more than half of the previous year's volume.
   */
  predicate Swing(prev: int, cur: int) {
    2 * Abs(cur - prev) > prev
  }

  /** The integer test agrees with the ratio the rule computes. */
  lemma SwingIsRatioAboveHalf(prev: int, cur: int)
    requires prev > 0
    ensures Swing(prev, cur) <==> (Abs(cur - prev) as real) / (prev as real) > 0.5
  {
    HalfRatio(Abs(cur - prev) as real, prev as real);
  }

  lemma HalfRatio(d: real, p: real)
    requires p > 0.0
    ensures d / p > 0.5 <==> 2.0 * d > p
  {
    var r := d / p;
    assert r * p == d;
    if r > 0.5 {
      assert (r - 0.5) * p > 0.0;
    } else {
      assert (0.5 - r) * p >= 0.0;
    }
  }

  /**
    Row i of the sorted frame is a year-over-year outlier: the previous
    Total_Referrals of its county is present and above 10, its own is
    present (a NaN change is filled with 0), and it moved by more than half.
   */
  predicate YoYFlag(df: seq<CheckRow>, i: nat)
    requires i < |df|
  {
    var p := PrevInCounty(df, i);
    && p.Some?
    && df[p.value].measures.totalReferrals.Some?
    && df[p.value].measures.totalReferrals.value > 10
    && df[i].measures.totalReferrals.Some?
    && Swing(df[p.value].measures.totalReferrals.value, df[i].measures.totalReferrals.value)
  }

  /** Row i of frame df fails rule c. A duplicate is any repeat of an earlier (CountyID, YearID). */
  predicate Violates(c: Check, df: seq<CheckRow>, i: nat)
    requires i < |df|
  {
    match c
    case NonNullTotals => df[i].measures.totalReferrals.None?
    case UniqueCountyYear => exists j :: 0 <= j < i && df[j].countyId == df[i].countyId && df[j].yearId == df[i].yearId
    case OffenseSum => SumMismatch(df[i].measures)
    case YouthBound => YouthExceeds(df[i].measures)
    case YoYChange => YoYFlag(df, i)
  }

  /** How many of the first n rows fail rule c. */
  function CountViolations(c: Check, df: seq<CheckRow>, n: nat): (count: nat)
    requires n <= |df|
    ensures count <= n
  {
    if n == 0 then 0
    else CountViolations(c, df, n - 1) + (if Violates(c, df, n - 1) then 1 else 0)
  }

  /** The positions among the first n rows that fail rule c. */
  ghost function ViolatingRows(c: Check, df: seq<CheckRow>, n: nat): set<nat>
    requires n <= |df|
  {
    set i: nat | i < n && Violates(c, df, i)
  }

  /** The count is the number of failing rows. */
  lemma {:induction false} CountIsViolatingRows(c: Check, df: seq<CheckRow>, n: nat)
    requires n <= |df|
    ensures CountViolations(c, df, n) == |ViolatingRows(c, df, n)|
  {
    if n > 0 {
      CountIsViolatingRows(c, df, n - 1);
      ViolatingRowsStep(c, df, n);
    }
  }

  /** Adding row n-1 adds it to the failing rows exactly when it fails. */
  lemma ViolatingRowsStep(c: Check, df: seq<CheckRow>, n: nat)
    requires 0 < n <= |df|
    ensures |ViolatingRows(c, df, n)| == |ViolatingRows(c, df, n - 1)| + (if Violates(c, df, n - 1) then 1 else 0)
  {
    SetStep(ViolatingRows(c, df, n - 1), ViolatingRows(c, df, n), n - 1, Violates(c, df, n - 1));
  }

  /** A set that gains at most the one new element x grows by one exactly when it gains x. */
  lemma SetStep(before: set<nat>, after: set<nat>, x: nat, gained: bool)
    requires x !in before
    requires forall i :: i in after <==> i in before || (i == x && gained)
    ensures |after| == |before| + (if gained then 1 else 0)
  {
    if gained {
      assert after == before + {x};
    } else {
      assert after == before;
    }
  }

  /** The count is positive exactly when some row fails. */
  lemma {:induction false} CountPositiveIff(c: Check, df: seq<CheckRow>, n: nat)
    requires n <= |df|
    ensures CountViolations(c, df, n) > 0 <==> exists i :: 0 <= i < n && Violates(c, df, i)
  {
    if n > 0 {
      CountPositiveIff(c, df, n - 1);
    }
  }

  /** The distinct (CountyID, YearID) pairs among the first n rows. */
  ghost function KeysBelow(df: seq<CheckRow>, n: nat): set<(int, int)>
    requires n <= |df|
  {
    set i | 0 <= i < n :: (df[i].countyId, df[i].yearId)
  }

  /** duplicated(subset=['CountyID', 'YearID']).sum() is the number of rows minus the number of distinct pairs. */
  lemma {:induction false} DuplicatesAreRowsMinusKeys(df: seq<CheckRow>, n: nat)
    requires n <= |df|
    ensures CountViolations(UniqueCountyYear, df, n) == n - |KeysBelow(df, n)|
  {
    if n > 0 {
      DuplicatesAreRowsMinusKeys(df, n - 1);
      var key := (df[n - 1].countyId, df[n - 1].yearId);
      assert KeysBelow(df, n) == KeysBelow(df, n - 1) + {key};
      if Violates(UniqueCountyYear, df, n - 1) {
        var j :| 0 <= j < n - 1 && df[j].countyId == df[n - 1].countyId && df[j].yearId == df[n - 1].yearId;
        assert key in KeysBelow(df, n - 1);
      } else {
        assert key !in KeysBelow(df, n - 1);
      }
    }
  }

  /** No duplicate is reported exactly when all (CountyID, YearID) pairs differ. */
  lemma NoDuplicatesIffKeysDistinct(df: seq<CheckRow>)
    ensures CountViolations(UniqueCountyYear, df, |df|) == 0 <==>
      forall i, j :: 0 <= i < j < |df| ==> (df[i].countyId, df[i].yearId) != (df[j].countyId, df[j].yearId)
  {
    CountPositiveIff(UniqueCountyYear, df, |df|);
    if CountViolations(UniqueCountyYear, df, |df|) == 0 {
      forall i, j | 0 <= i < j < |df| ensures (df[i].countyId, df[i].yearId) != (df[j].countyId, df[j].yearId) {
        assert !Violates(UniqueCountyYear, df, j);
      }
    }
  }

  /** The frame rule c reads: the outlier rule runs after the (County, Year) sort. */
  function Frame(c: Check, rows: seq<CheckRow>): (df: seq<CheckRow>)
    ensures |df| == |rows|
  {
    if c == YoYChange then SortRowsLength(rows); SortRows(rows) else rows
  }

  /** The number of rows of its frame that fail rule c. */
  function FailedRows(c: Check, rows: seq<CheckRow>): nat {
    CountViolations(c, Frame(c, rows), |rows|)
  }

  /** What rule c contributes: one entry, made from its count, when that count is positive. */
  function IssueFor<X>(c: Check, count: nat, make: (Check, nat) -> X): seq<X> {
    if count > 0 then [make(c, count)] else []
  }

  /** Every rule's count of failing rows. */
  function FailedCounts(rows: seq<CheckRow>): Check -> nat {
    c => FailedRows(c, rows)
  }

  /** The rules in the order run_checks applies them. */
  const RuleOrder: seq<Check> := [NonNullTotals, UniqueCountyYear, OffenseSum, YouthBound, YoYChange]

  /** The contributions of rules cs, in that order. */
  function IssuesOf<X>(cs: seq<Check>, counts: Check -> nat, make: (Check, nat) -> X): seq<X> {
    if cs == [] then [] else IssueFor(cs[0], counts(cs[0]), make) + IssuesOf(cs[1..], counts, make)
  }

  /** The report's issues. */
  function CheckIssues(rows: seq<CheckRow>): seq<Issue> {
    IssuesOf(RuleOrder, FailedCounts(rows), MakeIssue)
  }

  lemma RuleOrderUnfold<X>(counts: Check -> nat, make: (Check, nat) -> X)
    ensures IssuesOf(RuleOrder, counts, make) == IssueFor(NonNullTotals, counts(NonNullTotals), make)
      + IssueFor(UniqueCountyYear, counts(UniqueCountyYear), make)
      + IssueFor(OffenseSum, counts(OffenseSum), make)
      + IssueFor(YouthBound, counts(YouthBound), make)
      + IssueFor(YoYChange, counts(YoYChange), make)
  {
    var iN, iU, iO := IssueFor(NonNullTotals, counts(NonNullTotals), make), IssueFor(UniqueCountyYear, counts(UniqueCountyYear), make), IssueFor(OffenseSum, counts(OffenseSum), make);
    var iY, iX := IssueFor(YouthBound, counts(YouthBound), make), IssueFor(YoYChange, counts(YoYChange), make);
    var s1 := RuleOrder[1..];
    var s2 := s1[1..];
    var s3 := s2[1..];
    var s4 := s3[1..];
    assert s4[1..] == [];
    assert IssuesOf(s4, counts, make) == iX + [];
    assert IssuesOf(s3, counts, make) == iY + iX;
    assert IssuesOf(s2, counts, make) == iO + (iY + iX);
    assert IssuesOf(s1, counts, make) == iU + (iO + (iY + iX));
    assert IssuesOf(RuleOrder, counts, make) == iN + (iU + (iO + (iY + iX)));
    assert iN + (iU + (iO + (iY + iX))) == iN + iU + iO + iY + iX;
  }

  /** The longest run of digits at the start of s. */
  function LeadingDigits(s: string): (t: string)
    ensures AllDigits(t) && |t| <= |s|
  {
    if s == [] || !IsDigit(s[0]) then [] else [s[0]] + LeadingDigits(s[1..])
  }

  /** Reads the count back out of a Details text: the digits after an optional "Found ". */
  function DetailsCount(details: string): Option<nat> {
    var body := if |details| >= 6 && details[..6] == "Found " then details[6..] else details;
    var digits := LeadingDigits(body);
    if digits == [] then None else Some(ParseDigits(digits))
  }

  lemma {:induction false} LeadingDigitsOfNumber(t: string, suffix: string)
    requires AllDigits(t)
    requires suffix == [] || !IsDigit(suffix[0])
    ensures LeadingDigits(t + suffix) == t
  {
    if t != [] {
      assert (t + suffix)[1..] == t[1..] + suffix;
      LeadingDigitsOfNumber(t[1..], suffix);
    }
  }

  lemma CountReadBack(n: nat, suffix: string)
    requires |suffix| > 0 && suffix[0] == ' '
    ensures DetailsCount(NatToString(n) + suffix) == Some(n)
  {
    var digits := NatToString(n);
    var d := digits + suffix;
    LeadingDigitsOfNumber(digits, suffix);
    ParseNatToString(n);
    assert IsDigit(d[0]);
  }

  lemma CountReadBackAfterFound(n: nat, suffix: string)
    requires |suffix| > 0 && suffix[0] == ' '
    ensures DetailsCount("Found " + NatToString(n) + suffix) == Some(n)
  {
    var digits := NatToString(n);
    var d := "Found " + digits + suffix;
    LeadingDigitsOfNumber(digits, suffix);
    ParseNatToString(n);
    assert d[..6] == "Found ";
    assert d[6..] == digits + suffix;
  }

  /** The count written into an issue's Details is its Failed_Rows. */
  lemma DetailsCarryCount(c: Check, n: nat)
    ensures DetailsCount(MakeIssue(c, n).details) == Some(n)
  {
    var suffix := DetailsSuffix(c);
    assert suffix[0] == ' ';
    if c == UniqueCountyYear {
      CountReadBackAfterFound(n, suffix);
      assert MakeIssue(c, n).details == "Found " + NatToString(n) + suffix;
    } else {
      CountReadBack(n, suffix);
      assert MakeIssue(c, n).details == NatToString(n) + suffix;
    }
  }

  /** The rules of cs with a positive count, in the order of cs. */
  function Fired(cs: seq<Check>, counts: Check -> nat): seq<Check> {
    if cs == [] then [] else (if counts(cs[0]) > 0 then [cs[0]] else []) + Fired(cs[1..], counts)
  }

  /** The fired rules are exactly the rules of cs with a positive count. */
  lemma {:induction false} FiredMembers(cs: seq<Check>, counts: Check -> nat)
    ensures |Fired(cs, counts)| <= |cs|
    ensures forall c :: c in Fired(cs, counts) <==> c in cs && counts(c) > 0
  {
    if cs != [] {
      FiredMembers(cs[1..], counts);
      assert cs == [cs[0]] + cs[1..];
    }
  }

  /** The fired rules keep the order of cs. */
  lemma {:induction false} FiredInOrder(cs: seq<Check>, counts: Check -> nat)
    requires forall k, l :: 0 <= k < l < |cs| ==> Position(cs[k]) < Position(cs[l])
    ensures forall k, l :: 0 <= k < l < |Fired(cs, counts)| ==> Position(Fired(cs, counts)[k]) < Position(Fired(cs, counts)[l])
  {
    if cs != [] {
      var rest := Fired(cs[1..], counts);
      FiredInOrder(cs[1..], counts);
      FiredMembers(cs[1..], counts);
      if counts(cs[0]) > 0 {
        forall c | c in rest ensures Position(cs[0]) < Position(c) {
          HeadComesFirst(cs, c);
        }
        PrependInOrder(cs[0], rest);
        assert Fired(cs, counts) == [cs[0]] + rest;
      } else {
        assert Fired(cs, counts) == rest;
      }
    }
  }

  /** In rules of increasing position, the first comes before every later one. */
  lemma HeadComesFirst(cs: seq<Check>, c: Check)
    requires forall k, l :: 0 <= k < l < |cs| ==> Position(cs[k]) < Position(cs[l])
    requires cs != [] && c in cs[1..]
    ensures Position(cs[0]) < Position(c)
  {
    var j :| 0 <= j < |cs[1..]| && cs[1..][j] == c;
    assert cs[j + 1] == c;
  }

  /** A rule placed before rules of higher position keeps the order increasing. */
  lemma PrependInOrder(c: Check, rest: seq<Check>)
    requires forall k, l :: 0 <= k < l < |rest| ==> Position(rest[k]) < Position(rest[l])
    requires forall d :: d in rest ==> Position(c) < Position(d)
    ensures forall k, l :: 0 <= k < l < |[c] + rest| ==> Position(([c] + rest)[k]) < Position(([c] + rest)[l])
  {
    var all := [c] + rest;
    forall k, l | 0 <= k < l < |all| ensures Position(all[k]) < Position(all[l]) {
      assert all[l] == rest[l - 1] && all[l] in rest;
      if k > 0 {
        assert all[k] == rest[k - 1];
      }
    }
  }

  /** The contributions of cs are the fired rules' entries, one each. */
  lemma {:induction false} IssuesOfFired<X>(cs: seq<Check>, counts: Check -> nat, make: (Check, nat) -> X)
    ensures |IssuesOf(cs, counts, make)| == |Fired(cs, counts)|
    ensures forall k :: 0 <= k < |IssuesOf(cs, counts, make)| ==>
      IssuesOf(cs, counts, make)[k] == make(Fired(cs, counts)[k], counts(Fired(cs, counts)[k]))
  {
    if cs != [] {
      IssuesOfFired(cs[1..], counts, make);
      var head := IssueFor(cs[0], counts(cs[0]), make);
      var rest := IssuesOf(cs[1..], counts, make);
      var fhead: seq<Check> := if counts(cs[0]) > 0 then [cs[0]] else [];
      var frest := Fired(cs[1..], counts);
      assert |head| == |fhead|;
      forall k | 0 <= k < |head| + |rest|
        ensures (head + rest)[k] == make((fhead + frest)[k], counts((fhead + frest)[k]))
      {
        if k >= |head| {
          assert (head + rest)[k] == rest[k - |head|];
          assert (fhead + frest)[k] == frest[k - |head|];
        }
      }
      assert IssuesOf(cs, counts, make) == head + rest;
      assert Fired(cs, counts) == fhead + frest;
    }
  }

  /** Over rules cs run in increasing position: each issue names its rule, counts > 0 rows, carries the count in Details. */
  lemma IssuesOfInOrder(cs: seq<Check>, counts: Check -> nat)
    requires forall k, l :: 0 <= k < l < |cs| ==> Position(cs[k]) < Position(cs[l])
    ensures |IssuesOf(cs, counts, MakeIssue)| <= |cs|
    ensures forall k :: 0 <= k < |IssuesOf(cs, counts, MakeIssue)| ==>
      && RuleOf(IssuesOf(cs, counts, MakeIssue)[k].rule).Some?
      && IssuesOf(cs, counts, MakeIssue)[k].failedRows > 0
      && DetailsCount(IssuesOf(cs, counts, MakeIssue)[k].details) == Some(IssuesOf(cs, counts, MakeIssue)[k].failedRows)
    ensures forall k, l :: 0 <= k < l < |IssuesOf(cs, counts, MakeIssue)| ==>
      Position(RuleOf(IssuesOf(cs, counts, MakeIssue)[k].rule).value) < Position(RuleOf(IssuesOf(cs, counts, MakeIssue)[l].rule).value)
  {
    FiredMembers(cs, counts);
    FiredInOrder(cs, counts);
    IssuesOfFired(cs, counts, MakeIssue);
    var issues := IssuesOf(cs, counts, MakeIssue);
    var fired := Fired(cs, counts);
    forall k | 0 <= k < |issues|
      ensures RuleOf(issues[k].rule) == Some(fired[k])
      ensures issues[k].failedRows > 0
      ensures DetailsCount(issues[k].details) == Some(issues[k].failedRows)
    {
      assert fired[k] in fired;
      RuleTextNamesItsRule(fired[k]);
      DetailsCarryCount(fired[k], counts(fired[k]));
    }
  }

  /**
    At most one issue per rule, in the fixed order Completeness, Uniqueness,
    Logic (sum), Logic (youth), Outlier; each names a rule, has at least one
    failed row and carries that count in its Details.
   */
  lemma IssuesInRuleOrder(rows: seq<CheckRow>)
    ensures |CheckIssues(rows)| <= 5
    ensures forall k :: 0 <= k < |CheckIssues(rows)| ==>
      && RuleOf(CheckIssues(rows)[k].rule).Some?
      && CheckIssues(rows)[k].failedRows > 0
      && DetailsCount(CheckIssues(rows)[k].details) == Some(CheckIssues(rows)[k].failedRows)
    ensures forall k, l :: 0 <= k < l < |CheckIssues(rows)| ==>
      Position(RuleOf(CheckIssues(rows)[k].rule).value) < Position(RuleOf(CheckIssues(rows)[l].rule).value)
  {
    var counts := FailedCounts(rows);
    RuleOrderIncreasing();
    IssuesOfInOrder(RuleOrder, counts);
  }

  /** The rules run in increasing position. */
  lemma RuleOrderIncreasing()
    ensures forall k, l :: 0 <= k < l < |RuleOrder| ==> Position(RuleOrder[k]) < Position(RuleOrder[l])
  {
  }

  /**
    Over rules cs, when what make builds for rule d carries d's text and no two
    rules share a text: rule c of cs has an issue exactly when its count is
    positive, and the issue is c's.
   */
  lemma IssuesOfForRule(cs: seq<Check>, counts: Check -> nat, make: (Check, nat) -> Issue, text: Check -> string, c: Check)
    requires c in cs
    requires forall d, n :: make(d, n).rule == text(d)
    requires forall a, b :: text(a) == text(b) ==> a == b
    ensures (exists k :: 0 <= k < |IssuesOf(cs, counts, make)| && IssuesOf(cs, counts, make)[k].rule == text(c)) <==>
      counts(c) > 0
    ensures forall k :: 0 <= k < |IssuesOf(cs, counts, make)| && IssuesOf(cs, counts, make)[k].rule == text(c) ==>
      IssuesOf(cs, counts, make)[k] == make(c, counts(c))
  {
    FiredMembers(cs, counts);
    IssuesOfFired(cs, counts, make);
    var issues := IssuesOf(cs, counts, make);
    var fired := Fired(cs, counts);
    forall k | 0 <= k < |issues| && issues[k].rule == text(c) ensures fired[k] == c {
      assert issues[k].rule == text(fired[k]);
    }
    if counts(c) > 0 {
      var k :| 0 <= k < |fired| && fired[k] == c;
      assert issues[k].rule == text(c);
    }
  }

  /** MakeIssue labels the issue it builds for rule d with d's Rule text, and the texts differ. */
  lemma MakeIssuesNameTheirRule()
    ensures forall d, n :: MakeIssue(d, n).rule == RuleText(d)
    ensures forall a, b :: RuleText(a) == RuleText(b) ==> a == b
  {
    forall a, b | RuleText(a) == RuleText(b) ensures a == b {
      RuleTextInjective(a, b);
    }
  }

  lemma EveryRuleRuns(c: Check)
    ensures c in RuleOrder
  {
  }

  /** The report's issue for rule c, if any, is the one made from c's count of failing rows. */
  lemma ReportedAsCounted(rows: seq<CheckRow>, c: Check)
    ensures (exists k :: 0 <= k < |CheckIssues(rows)| && CheckIssues(rows)[k].rule == RuleText(c)) <==> FailedRows(c, rows) > 0
    ensures forall k :: 0 <= k < |CheckIssues(rows)| && CheckIssues(rows)[k].rule == RuleText(c) ==>
      CheckIssues(rows)[k] == MakeIssue(c, FailedRows(c, rows))
  {
    var counts := FailedCounts(rows);
    assert CheckIssues(rows) == IssuesOf(RuleOrder, counts, MakeIssue);
    MakeIssuesNameTheirRule();
    EveryRuleRuns(c);
    IssuesOfForRule(RuleOrder, counts, MakeIssue, RuleText, c);
    assert counts(c) == FailedRows(c, rows);
  }

  /** Rule c appears in the report exactly when some row of its frame fails it. */
  lemma IssueForRule(rows: seq<CheckRow>, c: Check)
    ensures (exists k :: 0 <= k < |CheckIssues(rows)| && CheckIssues(rows)[k].rule == RuleText(c)) <==>
      exists i :: 0 <= i < |rows| && Violates(c, Frame(c, rows), i)
  {
    ReportedAsCounted(rows, c);
    FailedRowsPositiveIff(rows, c);
  }

  /** Rule c has failures exactly when some row of its frame fails it. */
  lemma FailedRowsPositiveIff(rows: seq<CheckRow>, c: Check)
    ensures FailedRows(c, rows) > 0 <==> exists i :: 0 <= i < |rows| && Violates(c, Frame(c, rows), i)
  {
    CountPositiveIff(c, Frame(c, rows), |rows|);
  }

  /**
    Rule c's issue counts its failing rows as Failed_Rows, and its Category,
    Severity and Details are the rule's.
   */
  lemma IssueOfRuleCountsFailures(rows: seq<CheckRow>, c: Check)
    ensures forall k :: 0 <= k < |CheckIssues(rows)| && CheckIssues(rows)[k].rule == RuleText(c) ==>
      CheckIssues(rows)[k] == MakeIssue(c, |ViolatingRows(c, Frame(c, rows), |rows|)|)
  {
    ReportedAsCounted(rows, c);
    CountIsViolatingRows(c, Frame(c, rows), |rows|);
  }

  /** The rows failing rule c, as a condition on the rows themselves. */
  lemma FailuresAre(c: Check, rows: seq<CheckRow>, failing: set<nat>)
    requires forall i :: 0 <= i < |rows| ==> (Violates(c, Frame(c, rows), i) <==> i in failing)
    requires forall i :: i in failing ==> i < |rows|
    ensures (exists i :: 0 <= i < |rows| && Violates(c, Frame(c, rows), i)) <==> failing != {}
    ensures ViolatingRows(c, Frame(c, rows), |rows|) == failing
  {
    if failing != {} {
      var i :| i in failing;
      assert Violates(c, Frame(c, rows), i);
    }
  }

  /** Rule c is reported exactly when some row fails it, and then with those rows as Failed_Rows. */
  lemma ReportedWith(rows: seq<CheckRow>, c: Check, failing: set<nat>)
    requires forall i :: 0 <= i < |rows| ==> (Violates(c, Frame(c, rows), i) <==> i in failing)
    requires forall i :: i in failing ==> i < |rows|
    ensures (exists k :: 0 <= k < |CheckIssues(rows)| && CheckIssues(rows)[k].rule == RuleText(c)) <==> failing != {}
    ensures forall k :: 0 <= k < |CheckIssues(rows)| && CheckIssues(rows)[k].rule == RuleText(c) ==>
      && CheckIssues(rows)[k].failedRows == |failing|
      && CheckIssues(rows)[k].category == CategoryOf(c)
      && CheckIssues(rows)[k].severity == SeverityOf(c)
  {
    FailuresAre(c, rows, failing);
    IssueForRule(rows, c);
    IssueOfRuleCountsFailures(rows, c);
  }

  /** Completeness: reported iff some Total_Referrals is NULL, counting those rows, severity Critical. */
  lemma CompletenessIssue(rows: seq<CheckRow>)
    ensures (exists k :: 0 <= k < |CheckIssues(rows)| && CheckIssues(rows)[k].rule == RuleText(NonNullTotals)) <==>
      exists i :: 0 <= i < |rows| && rows[i].measures.totalReferrals.None?
    ensures forall k :: 0 <= k < |CheckIssues(rows)| && CheckIssues(rows)[k].rule == RuleText(NonNullTotals) ==>
      && CheckIssues(rows)[k].category == Completeness
      && CheckIssues(rows)[k].severity == Critical
      && CheckIssues(rows)[k].failedRows == |set i: nat | i < |rows| && rows[i].measures.totalReferrals.None?|
  {
    var failing := set i: nat | i < |rows| && rows[i].measures.totalReferrals.None?;
    ReportedWith(rows, NonNullTotals, failing);
    if exists i :: 0 <= i < |rows| && rows[i].measures.totalReferrals.None? {
      var i :| 0 <= i < |rows| && rows[i].measures.totalReferrals.None?;
      assert i in failing;
    }
  }

  /** Uniqueness: reported iff some (CountyID, YearID) repeats, counting every repeat, severity Critical. */
  lemma UniquenessIssue(rows: seq<CheckRow>)
    ensures (exists k :: 0 <= k < |CheckIssues(rows)| && CheckIssues(rows)[k].rule == RuleText(UniqueCountyYear)) <==>
      exists i, j :: 0 <= i < j < |rows| && (rows[i].countyId, rows[i].yearId) == (rows[j].countyId, rows[j].yearId)
    ensures forall k :: 0 <= k < |CheckIssues(rows)| && CheckIssues(rows)[k].rule == RuleText(UniqueCountyYear) ==>
      && CheckIssues(rows)[k].category == Uniqueness
      && CheckIssues(rows)[k].severity == Critical
      && CheckIssues(rows)[k].failedRows == |rows| - |KeysBelow(rows, |rows|)|
  {
    var failing := ViolatingRows(UniqueCountyYear, rows, |rows|);
    ReportedWith(rows, UniqueCountyYear, failing);
    CountIsViolatingRows(UniqueCountyYear, rows, |rows|);
    DuplicatesAreRowsMinusKeys(rows, |rows|);
    NoDuplicatesIffKeysDistinct(rows);
    CountPositiveIff(UniqueCountyYear, rows, |rows|);
  }

  /** Offense sum: reported iff some row's six offenses do not add up to Total_Referrals, severity Medium. */
  lemma OffenseSumIssue(rows: seq<CheckRow>)
    ensures (exists k :: 0 <= k < |CheckIssues(rows)| && CheckIssues(rows)[k].rule == RuleText(OffenseSum)) <==>
      exists i :: 0 <= i < |rows| && SumMismatch(rows[i].measures)
    ensures forall k :: 0 <= k < |CheckIssues(rows)| && CheckIssues(rows)[k].rule == RuleText(OffenseSum) ==>
      && CheckIssues(rows)[k].category == Logic
      && CheckIssues(rows)[k].severity == Medium
      && CheckIssues(rows)[k].failedRows == |set i: nat | i < |rows| && SumMismatch(rows[i].measures)|
  {
    var failing := set i: nat | i < |rows| && SumMismatch(rows[i].measures);
    ReportedWith(rows, OffenseSum, failing);
    if exists i :: 0 <= i < |rows| && SumMismatch(rows[i].measures) {
      var i :| 0 <= i < |rows| && SumMismatch(rows[i].measures);
      assert i in failing;
    }
  }

  /** Youth bound: reported iff some row has more Unique_Youth than Total_Referrals, severity High. */
  lemma YouthBoundIssue(rows: seq<CheckRow>)
    ensures (exists k :: 0 <= k < |CheckIssues(rows)| && CheckIssues(rows)[k].rule == RuleText(YouthBound)) <==>
      exists i :: 0 <= i < |rows| && YouthExceeds(rows[i].measures)
    ensures forall k :: 0 <= k < |CheckIssues(rows)| && CheckIssues(rows)[k].rule == RuleText(YouthBound) ==>
      && CheckIssues(rows)[k].category == Logic
      && CheckIssues(rows)[k].severity == High
      && CheckIssues(rows)[k].failedRows == |set i: nat | i < |rows| && YouthExceeds(rows[i].measures)|
  {
    var failing := set i: nat | i < |rows| && YouthExceeds(rows[i].measures);
    ReportedWith(rows, YouthBound, failing);
    if exists i :: 0 <= i < |rows| && YouthExceeds(rows[i].measures) {
      var i :| 0 <= i < |rows| && YouthExceeds(rows[i].measures);
      assert i in failing;
    }
  }

  /** Outliers: reported iff some row of the (County, Year)-sorted frame is flagged, severity Low. */
  lemma OutlierIssue(rows: seq<CheckRow>)
    ensures |SortRows(rows)| == |rows|
    ensures (exists k :: 0 <= k < |CheckIssues(rows)| && CheckIssues(rows)[k].rule == RuleText(YoYChange)) <==>
      exists i :: 0 <= i < |rows| && YoYFlag(SortRows(rows), i)
    ensures forall k :: 0 <= k < |CheckIssues(rows)| && CheckIssues(rows)[k].rule == RuleText(YoYChange) ==>
      && CheckIssues(rows)[k].category == Outlier
      && CheckIssues(rows)[k].severity == Low
      && CheckIssues(rows)[k].failedRows == |set i: nat | i < |rows| && YoYFlag(SortRows(rows), i)|
  {
    SortRowsLength(rows);
    var failing := set i: nat | i < |rows| && YoYFlag(SortRows(rows), i);
    ReportedWith(rows, YoYChange, failing);
    if exists i :: 0 <= i < |rows| && YoYFlag(SortRows(rows), i) {
      var i :| 0 <= i < |rows| && YoYFlag(SortRows(rows), i);
      assert i in failing;
    }
  }

  /** The report is empty exactly when no row fails any rule. */
  lemma NoIssuesIffClean(rows: seq<CheckRow>)
    ensures CheckIssues(rows) == [] <==>
      forall c, i :: 0 <= i < |rows| ==> !Violates(c, Frame(c, rows), i)
  {
    if CheckIssues(rows) != [] {
      IssuesInRuleOrder(rows);
      var c := RuleOf(CheckIssues(rows)[0].rule).value;
      IssueForRule(rows, c);
    } else {
      forall c, i | 0 <= i < |rows| ensures !Violates(c, Frame(c, rows), i) {
        IssueForRule(rows, c);
      }
    }
  }

  /** On the sorted frame, the first row of each county is never an outlier. */
  lemma FirstRowOfCountyNotFlagged(df: seq<CheckRow>, i: nat)
    requires SortedByCountyYear(df) && i < |df|
    requires i == 0 || df[i - 1].county != df[i].county
    ensures !Violates(YoYChange, df, i)
  {
    PrevIsAdjacentWhenSorted(df, i);
  }

  /**
    On the sorted frame, a later row of a county is an outlier exactly when
    the row above has more than 10 referrals and the change relative to it
    is more than 50%.
   */
  lemma LaterRowFlaggedIff(df: seq<CheckRow>, i: nat)
    requires SortedByCountyYear(df) && 0 < i < |df|
    requires df[i - 1].county == df[i].county
    ensures Violates(YoYChange, df, i) <==>
      && df[i - 1].measures.totalReferrals.Some?
      && df[i - 1].measures.totalReferrals.value > 10
      && df[i].measures.totalReferrals.Some?
      && (Abs(df[i].measures.totalReferrals.value - df[i - 1].measures.totalReferrals.value) as real)
         / (df[i - 1].measures.totalReferrals.value as real) > 0.5
  {
    PrevIsAdjacentWhenSorted(df, i);
    var prev := df[i - 1].measures.totalReferrals;
    var cur := df[i].measures.totalReferrals;
    if prev.Some? && prev.value > 10 && cur.Some? {
      SwingIsRatioAboveHalf(prev.value, cur.value);
    }
  }

  /**
    run_checks: test each rule in turn and append its issue, sorting the
    frame by (County, Year) before the outlier rule.
   */
  method RunChecks(rows: seq<CheckRow>) returns (issues: seq<Issue>)
    ensures issues == CheckIssues(rows)
  {
    ghost var counts := FailedCounts(rows);
    RuleOrderUnfold(counts, MakeIssue);
    var df := rows;
    var count := CountViolations(NonNullTotals, df, |df|);
    assert count == counts(NonNullTotals);
    issues := AppendIfFailed([], NonNullTotals, count);
    ghost var expected := IssueFor(NonNullTotals, counts(NonNullTotals), MakeIssue);
    assert issues == expected;
    count := CountViolations(UniqueCountyYear, df, |df|);
    assert count == counts(UniqueCountyYear);
    issues := AppendIfFailed(issues, UniqueCountyYear, count);
    expected := expected + IssueFor(UniqueCountyYear, counts(UniqueCountyYear), MakeIssue);
    count := CountViolations(OffenseSum, df, |df|);
    assert count == counts(OffenseSum);
    issues := AppendIfFailed(issues, OffenseSum, count);
    expected := expected + IssueFor(OffenseSum, counts(OffenseSum), MakeIssue);
    count := CountViolations(YouthBound, df, |df|);
    assert count == counts(YouthBound);
    issues := AppendIfFailed(issues, YouthBound, count);
    expected := expected + IssueFor(YouthBound, counts(YouthBound), MakeIssue);
    df := SortRows(df);
    SortRowsLength(rows);
    count := CountViolations(YoYChange, df, |df|);
    assert count == counts(YoYChange);
    issues := AppendIfFailed(issues, YoYChange, count);
    expected := expected + IssueFor(YoYChange, counts(YoYChange), MakeIssue);
    assert issues == expected;
    assert CheckIssues(rows) == IssuesOf(RuleOrder, counts, MakeIssue);
  }

  /** Appends rule c's issue when count rows fail it. */
  method AppendIfFailed(issues: seq<Issue>, c: Check, count: nat) returns (r: seq<Issue>)
    ensures r == issues + IssueFor(c, count, MakeIssue)
  {
    r := issues;
    if count > 0 {
      r := r + [MakeIssue(c, count)];
    }
  }
}

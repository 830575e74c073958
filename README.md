# Juvenile services reporting: ETL star schema, data-quality rules and county metadata

This project models the core of a small reporting pipeline over the Texas
county-level juvenile referral extract (one row per calendar year and
county, ten measure columns). There are three parts.

- **County metadata** (`generate_metadata.py`). `get_region` looks a county
  up in a fixed table of 50 names. For any other name it picks a region by
  the name's first letter. The metadata is one `(County, Region, State="TX")`
  row per distinct county of the extract, in first-appearance order.
- **Star schema** (`etl_pipeline.py`). `Dim_Time` ranks the distinct years
  in ascending order (YearID 1..n). `Dim_County` sorts the distinct counties,
  joins the metadata with a left join, fills a missing Region with
  "Unknown" and then numbers the merged rows 1..m. CountyID is therefore the
  county's rank only when the metadata names each county at most once; a
  repeated metadata county gives its name several rows and IDs. `Fact_Referrals` joins both keys back onto
  every raw row and keeps the ten measures.
- **Data-quality rules** (`run_checks.py`). Five rules run in a fixed order
  over the fact table joined to its dimensions. The rules are completeness,
  uniqueness of (CountyID, YearID), the offense sum, Unique_Youth bounded by
  Total_Referrals, and year-over-year swings above 50%. Each rule that finds
  failing rows adds one issue with its Category, Rule, Failed_Rows, Severity
  and Details. The report is the header row followed by one row per issue.

Modules:

| File | Module | Contents |
|---|---|---|
| `wrappers.dfy` | `Wrappers` | `Option` |
| `ordering.dfy` | `Ordering` | string and integer order, sort-distinct (`sort_values` after `unique`), first-appearance `unique()` |
| `decimal.dfy` | `Decimal` | decimal rendering of counts and reading them back |
| `referrals.dfy` | `Referrals` | the raw extract's rows |
| `region_lookup.dfy` | `RegionLookup` | `get_region` and the metadata loop |
| `star_schema.dfy` | `StarSchema` | the dimensions and the fact table |
| `check_frame.dfy` | `CheckFrame` | the joined frame the checks read, its stable (County, Year) sort, and the per-county previous row |
| `quality_checks.dfy` | `QualityChecks` | the five rules, the issue list and the `run_checks` driver |
| `quality_examples.dfy` | `QualityExamples` | worked examples |
| `quality_report.dfy` | `QualityReport` | the report table and its read-back |

pandas semantics are written out where they matter:

- A missing cell is `None` (NaN).
- `NaN != x` is true and `NaN > x` is false.
- `duplicated()` flags every repeat after the first occurrence.
- `groupby('County').shift(1)` reads the last earlier row of the same county.
- A left join keeps the left order and yields one row per match, or one
  unmatched row.
- The fraction test `|cur - prev| / prev > 0.5` becomes `2*|cur - prev| > prev`
  on integers. `QualityChecks.SwingIsRatioAboveHalf` proves the two agree.

Behaviour worth knowing:

- The transform of `etl_process` (scripts/etl_pipeline.py:31-52), run
  against an existing metadata file, and the rules of `run_checks`
  (scripts/run_checks.py:23-128) raise no error on an empty extract. When
  the metadata file is missing, an empty extract makes `etl_process` fail
  instead (see "## Left out"). There is no list of rejected rows, no
  per-rule error isolation and no atomic replacement of the report file.
- The fact table carries ten measure columns, Referral_Rate among them
  (scripts/etl_pipeline.py:48-52).
- The fact table has one row per raw row, not one per distinct
  (County, Year) pair. A repeated pair in the extract stays repeated, and the
  uniqueness rule reports it.
- A county without a metadata row keeps State as NaN. Only Region is filled
  with "Unknown" (scripts/etl_pipeline.py:40).

## Model

| member | source | states |
|---|---|---|
| RegionLookup.GetRegion | scripts/generate_metadata.py:32-40 | The result is some region exactly when the county is listed or its name is non-empty; an empty unlisted name is the IndexError of `county[0]`. Every result is one of the 18 region names. |
| RegionLookup.ListedCountyGetsItsRegion | scripts/generate_metadata.py:33-34 | A county in the table gets exactly its listed region. |
| RegionLookup.UnlistedCountyGetsLetterBand | scripts/generate_metadata.py:35-40 | An unlisted non-empty name gets North Texas for A-C, East Texas for D-F, Central Texas for G-I, West Texas for J-M and South Texas otherwise. |
| RegionLookup.FallbackDependsOnFirstLetterOnly | scripts/generate_metadata.py:35-40 | Two unlisted names with the same first letter get the same region. |
| RegionLookup.LookupExamples | scripts/generate_metadata.py:12-34 | HARRIS is Gulf Coast. The lookup is case-sensitive, so "harris" falls back to South Texas. |
| RegionLookup.FallbackExamples | scripts/generate_metadata.py:35-40 | The unlisted ANDREWS is North Texas, and the empty name fails. |
| RegionLookup.GenerateMetadata | scripts/generate_metadata.py:42-48 | The loop appends one row per distinct county in turn and returns exactly the metadata `MetadataRows` describes; it fails (None) when `get_region` raises. |
| RegionLookup.MetadataOneRowPerCounty | scripts/generate_metadata.py:7-48 | The metadata has one row per distinct county of the extract and no repeats. The rows are in first-appearance order. Every row has State TX and `get_region`'s region. |
| RegionLookup.MetadataFailsOnlyOnEmptyName | scripts/generate_metadata.py:36 | Generation fails exactly when the county column contains an empty name. |
| RegionLookup.ListedRegion | scripts/generate_metadata.py:12-30 | The fixed table of 50 counties. Every region it lists is one of the 18 region names. |
| RegionLookup.FallbackRegion | scripts/generate_metadata.py:36-40 | The first-letter fallback. Its answer is always one of the region names. |
| RegionLookup.MetadataRows | scripts/generate_metadata.py:42-48 | One (county, `get_region` region, "TX") row per `unique()` county, or failure when `get_region` raises. No ensures of its own: `MetadataOneRowPerCounty` and `MetadataFailsOnlyOnEmptyName` state its properties. |
| Ordering.Unique | scripts/generate_metadata.py:7 | `unique()` keeps each value once, holds exactly the input's values and has no repeats. |
| Ordering.UniqueKeepsFirstAppearanceOrder | scripts/generate_metadata.py:7 | `unique()` lists values in order of their first appearance. |
| Ordering.SortDistinct | scripts/etl_pipeline.py:32-33 | Sorting the distinct values gives a strictly ascending sequence with exactly the input's values. |
| Ordering.RankIsCountBelow | scripts/etl_pipeline.py:33-34 | In a strictly sorted sequence, a value's index is the number of values below it. |
| Ordering.StrLtIsStrictTotalOrder | scripts/etl_pipeline.py:38 | The lexicographic string order that `sort_values('County')` uses is a strict total order. |
| StarSchema.SortedYears | scripts/etl_pipeline.py:32-33 | The distinct years are strictly ascending and are exactly the extract's years. |
| StarSchema.DimTime | scripts/etl_pipeline.py:32-34 | Row i of Dim_Time has YearID i+1, and years strictly increase with the ID. |
| StarSchema.DimTimeCoversRawYears | scripts/etl_pipeline.py:32 | Every raw year has a Dim_Time row, and every Dim_Time year occurs in the extract. |
| StarSchema.YearIdIsRank | scripts/etl_pipeline.py:33-34 | A year's YearID is 1 plus the number of distinct extract years below it. |
| StarSchema.DimTimeDependsOnYearSetOnly | scripts/etl_pipeline.py:32-34 | Two extracts with the same set of years get the same Dim_Time. |
| StarSchema.SortedCounties | scripts/etl_pipeline.py:38 | The distinct counties are strictly ascending and are exactly the extract's counties. |
| StarSchema.MetaFor | scripts/etl_pipeline.py:39 | The metadata rows matching a county are exactly those rows whose County is that county. |
| StarSchema.MergeOne | scripts/etl_pipeline.py:39-40 | The left join gives each county at least one row. Every row takes Region and State from a matching metadata row, or gets "Unknown" and NaN when none matches. |
| StarSchema.MergeMeta | scripts/etl_pipeline.py:39-40 | The left merge of the sorted county names with the metadata. It never has fewer rows than names. |
| StarSchema.MergeMetaRowsJoined | scripts/etl_pipeline.py:39-40 | Every row of the merged frame belongs to a left county and is joined as `MergeOne` states. |
| StarSchema.MergeMetaCoversNames | scripts/etl_pipeline.py:39 | Every left county has a row in the merged frame. |
| StarSchema.MergeMetaOneToOne | scripts/etl_pipeline.py:39 | With distinct metadata counties, the left join keeps the left rows one-for-one and in order. |
| StarSchema.DimCounty | scripts/etl_pipeline.py:38-41 | Row i of Dim_County has CountyID i+1 and an extract county, joined to the metadata as the left join and fill dictate. |
| StarSchema.DimCountyCoversRawCounties | scripts/etl_pipeline.py:38-41 | Every raw county has a Dim_County row. |
| StarSchema.DimCountyOneRowPerCounty | scripts/etl_pipeline.py:38-41 | With distinct metadata counties, Dim_County has one row per distinct county, in strictly ascending order with CountyID i+1. Each row takes its metadata row's Region and State, or gets "Unknown" and NaN when there is none. |
| StarSchema.MatchIdsOfDistinctKeys | scripts/etl_pipeline.py:44-45 | Matching a dimension with distinct keys on one of its keys gives exactly that row's ID. |
| StarSchema.LeftJoin | scripts/etl_pipeline.py:44-45 | pandas' left merge: each left row once per matching key, in order, or once with a NaN key. It never has fewer rows than the left table. |
| StarSchema.FactReferrals | scripts/etl_pipeline.py:44-52 | Both key joins, then the projection onto CountyID, YearID and the ten measures. No raw row is dropped. |
| StarSchema.LeftJoinOneToOne | scripts/etl_pipeline.py:44-45 | A left join in which every left row matches exactly once keeps the left rows in order and attaches each one's match. |
| StarSchema.YearMatchesOnce | scripts/etl_pipeline.py:44 | Every raw row matches exactly one Dim_Time row, the one holding its year's YearID. |
| StarSchema.CountyMatchesOnce | scripts/etl_pipeline.py:45 | With distinct metadata counties, every raw row matches exactly one Dim_County row, the one holding its county's CountyID. |
| StarSchema.FactRowsFollowRaw | scripts/etl_pipeline.py:44-52 | Fact_Referrals has one row per raw row, in raw order. Each row holds its county's CountyID, its year's YearID and the raw measures unchanged. |
| StarSchema.FactKeysRoundTrip | scripts/etl_pipeline.py:32-52 | A fact row's YearID and CountyID are both present and in range, and they look up the raw row's year and county in the dimensions. |
| StarSchema.FactKeysInjective | scripts/etl_pipeline.py:44-45 | Raw rows with different (Year, County) get different (CountyID, YearID) pairs. |
| StarSchema.CompleteMetadataGivesRegions | scripts/etl_pipeline.py:39-40 | When the metadata lists every county once with `get_region`'s answer and State TX, no Dim_County Region is "Unknown". Every Region is then `get_region`'s answer and every State is TX. |
| StarSchema.GeneratedMetadata | scripts/etl_pipeline.py:13-18 | The metadata `generate_metadata` builds on the fly when the file is missing. It is defined only when no county name makes `get_region` raise. No ensures of its own: `GeneratedMetadataGivesRegions` states its properties. |
| StarSchema.GeneratedMetadataGivesRegions | scripts/etl_pipeline.py:13-18 | The metadata generated on the fly when the file is missing meets that condition, so that run assigns no "Unknown" region. |
| CheckFrame.InsertRow | scripts/run_checks.py:95 | Inserting into a (County, Year)-sorted frame keeps it sorted and adds exactly that row. |
| CheckFrame.SortRows | scripts/run_checks.py:95 | `sort_values(['County', 'Year'])` gives a frame sorted by County, then Year, that is a permutation of the input. |
| CheckFrame.SortRowsStable | scripts/run_checks.py:95 | The sort is stable: the rows sharing any one (County, Year) come out in their frame order. |
| CheckFrame.InsertRowStable | scripts/run_checks.py:95 | Inserting a row places it after every row with the same (County, Year). |
| CheckFrame.SortRowsLength | scripts/run_checks.py:95 | Sorting keeps the number of rows. |
| CheckFrame.LastWithCounty | scripts/run_checks.py:96 | The row found is the last earlier row of that county; no row of that county lies between it and the current row, and none at all when there is no result. |
| CheckFrame.PrevInCounty | scripts/run_checks.py:96 | The row `groupby('County').shift(1)` reads: an earlier row of the same county with no row of that county in between, or none when no earlier row has that county. |
| CheckFrame.PrevIsAdjacentWhenSorted | scripts/run_checks.py:95-96 | On the sorted frame, a row's previous row within its county is the row just above when that row has the same county, and there is none otherwise. |
| QualityChecks.CalcTotal | scripts/run_checks.py:57-64 | Calc_Total: the sum of the six offense columns, NaN when any of them is missing. No ensures of its own. |
| QualityChecks.SumMismatch | scripts/run_checks.py:66 | `Calc_Total != Total_Referrals`, true when either side is NaN. No ensures of its own: `OffenseSumIssue` uses it. |
| QualityChecks.YouthExceeds | scripts/run_checks.py:81 | `Unique_Youth > Total_Referrals`, false when either side is NaN. No ensures of its own: `YouthBoundIssue` uses it. |
| QualityChecks.YoYFlag | scripts/run_checks.py:96-104 | A row is an outlier when its county's previous total is present and above 10, its own total is present, and the change is more than half. No ensures of its own: `LaterRowFlaggedIff` and `FirstRowOfCountyNotFlagged` state its properties. |
| QualityChecks.Violates | scripts/run_checks.py:27-104 | The per-row test of each rule. A duplicate is a repeat of an earlier (CountyID, YearID), as `duplicated()` with keep='first' flags. No ensures of its own. |
| QualityChecks.CountViolations | scripts/run_checks.py:28-107 | The number of failing rows among the first n, never more than n. `CountIsViolatingRows` proves it equals the size of the failing-row set. |
| QualityChecks.Frame | scripts/run_checks.py:95 | The outlier rule reads the (County, Year)-sorted frame, the other rules the loaded frame. Both have the same number of rows. |
| QualityChecks.MakeIssue | scripts/run_checks.py:29-113 | The issue a rule appends: its Category, Rule text, count, Severity and Details. No ensures of its own: `DetailsCarryCount` and `ReportedAsCounted` state its properties. |
| QualityChecks.Details | scripts/run_checks.py:34-113 | The Details f-string: the count in decimal inside the rule's sentence, after "Found " for uniqueness. No ensures of its own: `DetailsCarryCount` reads the count back. |
| QualityChecks.FailedRows | scripts/run_checks.py:28-107 | Each rule's `count`: the number of rows of the rule's frame that fail it. No ensures of its own: `CountIsViolatingRows` and `FailedRowsPositiveIff` state its properties. |
| QualityChecks.AppendIfFailed | scripts/run_checks.py:27-113 | The guarded `issues.append`: the list grows by the rule's issue exactly when its count is positive, and is otherwise unchanged. |
| QualityChecks.CheckIssues | scripts/run_checks.py:23-114 | The issue list the five rules define, in rule order. No ensures of its own: `IssuesInRuleOrder`, `ReportedAsCounted` and the per-rule lemmas state its properties. |
| QualityChecks.RuleOf | scripts/run_checks.py:31-110 | Reading a Rule text back gives the rule whose text it is, or nothing. |
| QualityChecks.RuleTextNamesItsRule | scripts/run_checks.py:31-110 | Each of the five Rule texts reads back as its own rule. |
| QualityChecks.RuleTextInjective | scripts/run_checks.py:31-110 | The five Rule texts are pairwise distinct. |
| QualityChecks.SwingIsRatioAboveHalf | scripts/run_checks.py:100-104 | For a positive previous count, `2*abs(cur - prev) > prev` holds exactly when `abs((cur - prev) / prev) > 0.5` over the reals. |
| QualityChecks.CountIsViolatingRows | scripts/run_checks.py:28-107 | A rule's count is the number of rows that fail it. |
| QualityChecks.CountPositiveIff | scripts/run_checks.py:27-106 | A rule's count is positive exactly when some row fails it; this is the `.any()` / `not empty` guard. |
| QualityChecks.DuplicatesAreRowsMinusKeys | scripts/run_checks.py:39-41 | The `duplicated()` count is the number of rows minus the number of distinct (CountyID, YearID) pairs. |
| QualityChecks.NoDuplicatesIffKeysDistinct | scripts/run_checks.py:39-40 | No duplicate is flagged exactly when all (CountyID, YearID) pairs differ. |
| QualityChecks.DetailsCarryCount | scripts/run_checks.py:34-113 | Each rule's Details text carries its count as a leading decimal number ("Found " first for uniqueness), and reading that number back gives the count. |
| QualityChecks.IssuesInRuleOrder | scripts/run_checks.py:23-114 | The report holds at most five issues, in the fixed rule order, none repeated. Each has a known Rule, a positive Failed_Rows and Details that read back as Failed_Rows. |
| QualityChecks.IssueForRule | scripts/run_checks.py:25-114 | A rule appears in the report exactly when some row of its frame fails it. |
| QualityChecks.ReportedAsCounted | scripts/run_checks.py:25-114 | A rule has an issue in the report exactly when its count of failing rows is positive, and that issue is the one built from the count. |
| QualityChecks.FailedRowsPositiveIff | scripts/run_checks.py:27-106 | A rule's count of failing rows is positive exactly when some row of its frame fails it. |
| QualityChecks.IssueOfRuleCountsFailures | scripts/run_checks.py:25-114 | A reported rule's Failed_Rows is its number of failing rows, and its Category, Severity and Details are the rule's. |
| QualityChecks.CompletenessIssue | scripts/run_checks.py:27-35 | The completeness issue appears exactly when some Total_Referrals is NULL. It is Completeness/Critical, and Failed_Rows is the number of NULL rows. |
| QualityChecks.UniquenessIssue | scripts/run_checks.py:39-48 | The uniqueness issue appears exactly when two rows share (CountyID, YearID). It is Uniqueness/Critical, and Failed_Rows is the row count minus the distinct pairs. |
| QualityChecks.OffenseSumIssue | scripts/run_checks.py:57-76 | The offense-sum issue appears exactly when some row's six offense counts do not add up to Total_Referrals (a NaN anywhere counts as a mismatch). It is Logic/Medium, and Failed_Rows is the number of such rows. |
| QualityChecks.YouthBoundIssue | scripts/run_checks.py:81-90 | The youth issue appears exactly when some row has Unique_Youth greater than Total_Referrals, both present. It is Logic/High, and Failed_Rows is the number of such rows. |
| QualityChecks.OutlierIssue | scripts/run_checks.py:95-114 | The outlier issue appears exactly when some row of the (County, Year)-sorted frame is flagged. It is Outlier/Low, and Failed_Rows is the number of flagged rows. |
| QualityChecks.FirstRowOfCountyNotFlagged | scripts/run_checks.py:96-104 | A county's first row has no previous value, so it is never an outlier. |
| QualityChecks.LaterRowFlaggedIff | scripts/run_checks.py:96-104 | Any other row is flagged exactly when both counts are present, the previous count is above 10, and the real-valued change ratio exceeds 0.5 in absolute value. |
| QualityChecks.NoIssuesIffClean | scripts/run_checks.py:23-114 | The issue list is empty exactly when no row fails any rule. |
| QualityChecks.RunChecks | scripts/run_checks.py:23-114 | The driver's appended issue list is exactly the one the five rules define, in rule order. |
| QualityExamples.RiseOfSixtyPercentIsFlagged | scripts/run_checks.py:100-104 | A county going from 100 to 160 referrals is flagged. |
| QualityExamples.SmallCountyIsNotFlagged | scripts/run_checks.py:103-104 | A county going from 5 to 10 is not flagged, because the previous count is not above 10. |
| QualityExamples.PreviousRowIsTheCountysOwn | scripts/run_checks.py:96 | The previous value comes from the same county's earlier row, skipping other counties in between. |
| QualityExamples.AdamsHasOneOutlier | scripts/run_checks.py:95-107 | Once sorted, the two ADAMS rows give exactly one outlier row. |
| QualityExamples.AdamsJumpIsTheOnlyIssue | scripts/run_checks.py:23-114 | Two out-of-order ADAMS rows (2021: 160, 2020: 100) are sorted by year, and the 100 to 160 jump is the report's only issue, with Failed_Rows 1. |
| QualityExamples.EmptyFrameHasNoIssues | scripts/run_checks.py:120-128 | An empty frame yields no issues. |
| QualityReport.IssueCells | scripts/run_checks.py:120-122 | One report row: Category, Rule, Failed_Rows in decimal, Severity and Details, in header order. No ensures of its own: `IssueRowRoundTrip` reads it back. |
| QualityReport.IssueRowRoundTrip | scripts/run_checks.py:120-122 | Reading one issue's row back gives the issue. |
| QualityReport.ReportTable | scripts/run_checks.py:120-127 | The report has the five-column header row, then exactly one five-cell row per issue. |
| QualityReport.ReportRoundTrip | scripts/run_checks.py:120-127 | Reading the written report back gives the issues, in order. |
| QualityReport.FailedRowsCellReadsBack | scripts/run_checks.py:122 | Each Failed_Rows cell is a decimal number that reads back as the issue's count. |
| QualityReport.CleanFrameGivesHeaderOnly | scripts/run_checks.py:125-127 | When no row fails any rule, the report is the header row alone. |
| Decimal.NatToString | scripts/run_checks.py:34 | A count is written as digits with no leading zero. |
| Decimal.ParseNatToString | scripts/run_checks.py:34 | Reading the digits of a count back gives the count. |

## Left out

- Reading the CSV extract and the metadata CSV, and writing the metadata
  CSV, the SQLite tables, the indexes and the report CSV, are file and
  database I/O. The model's inputs and outputs are sequences of rows.
- The SQL view `run_checks` reads (scripts/run_checks.py:11-20) is not
  modelled. The checks take the joined frame (`CheckFrame.CheckRow`) as
  their input. With keys built by the ETL that inner join drops no row.
- The file-exists test that triggers on-the-fly metadata generation
  (scripts/etl_pipeline.py:13-16) is file I/O.
  `StarSchema.GeneratedMetadataGivesRegions` covers the generated branch.
  `StarSchema.DimCountyOneRowPerCounty` covers any existing file with
  distinct counties.
- `StarSchema.GeneratedMetadata` does not model the failure of an empty
  extract with no metadata file. `generate_metadata` then writes a CSV
  with no columns (scripts/generate_metadata.py:42-53). Reading it back at
  scripts/etl_pipeline.py:18 raises, so `etl_process` stops. The model
  returns empty metadata for that case, and the run carries on with empty
  dimensions.
- The positional column rename (scripts/etl_pipeline.py:25-29) has no
  behaviour apart from naming. The model uses the renamed fields directly.
- Referral_Rate is a real-valued column that is only copied, never checked.
  Other measures are integers or NaN. A float column holding non-integers
  or values of 2^53 or more is not modelled.
- The integer measures are assumed small enough that no int64 sum wraps
  around. `QualityChecks.CalcTotal` adds the six offense columns as
  unbounded integers, while numpy's int64 sum at
  scripts/run_checks.py:57-64 would wrap past 2^63 - 1.
- A missing Year or County cell in the extract, and blank cells in the
  metadata CSV, are not modelled. Keys are always present.
- Printing progress messages and the report to the console is left out.
- `StarSchema.FactRowsFollowRaw`, `StarSchema.CountyMatchesOnce`, `StarSchema.FactKeysRoundTrip`,
  `StarSchema.FactKeysInjective` and `StarSchema.DimCountyOneRowPerCounty`
  are proved only for metadata whose County values are distinct, as
  generated metadata always is. With a repeated county the left joins
  repeat rows. `StarSchema.LeftJoin` and `StarSchema.MergeMeta` model that
  case, and `StarSchema.LeftJoin`, `StarSchema.MergeMeta` and
  `StarSchema.FactReferrals` are proved never to drop a row, but nothing
  more is proved about it.
- The dashboards, the synthetic-data generator, the database creator and
  the database inspection script are outside the modelled core.

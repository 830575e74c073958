/**
  The ETL transform: the time and county dimensions with dense 1-based
  surrogate keys assigned by sort-then-rank, the region join with its
  "Unknown" default, and the fact table obtained by joining the keys back
  onto every raw row.
 */
module StarSchema {
  import opened Wrappers
  import opened Ordering
  import opened Referrals
  import opened RegionLookup

  /** A Dim_Time row. */
  datatype TimeRow = TimeRow(year: int, yearId: nat)

  /** A Dim_County row; State is missing (NaN) when the county has no metadata row. */
  datatype CountyRow = CountyRow(county: string, region: string, state: Option<string>, countyId: nat)

  /** A Fact_Referrals row; a key is None (NaN) only if its left join found no dimension row. */
  datatype FactRow = FactRow(countyId: Option<nat>, yearId: Option<nat>, measures: Measures)

  const UnknownRegion: string := "Unknown"

  // ---------------------------------------------------------------- Dim_Time

  /** The distinct years of the extract in ascending order. */
  function SortedYears(raw: seq<RawRow>): (ys: seq<int>)
    ensures StrictlySorted(ys, IntLt)
    ensures forall y :: y in ys <==> y in RawYears(raw)
  {
    IntLtIsStrictTotalOrder();
    SortDistinct(RawYears(raw), IntLt)
  }

  /** Dim_Time: the distinct years in ascending order, YearID = position + 1. */
  function DimTime(raw: seq<RawRow>): (dim: seq<TimeRow>)
    ensures forall i :: 0 <= i < |dim| ==> dim[i].yearId == i + 1
    ensures forall i, j :: 0 <= i < j < |dim| ==> dim[i].year < dim[j].year
  {
    var ys := SortedYears(raw);
    seq(|ys|, i requires 0 <= i < |ys| => TimeRow(ys[i], i + 1))
  }

  /** Dim_Time has a row for every year of the extract and for no other year. */
  lemma DimTimeCoversRawYears(raw: seq<RawRow>)
    ensures forall k :: 0 <= k < |raw| ==> exists i :: 0 <= i < |DimTime(raw)| && DimTime(raw)[i].year == raw[k].year
    ensures forall i :: 0 <= i < |DimTime(raw)| ==> exists k :: 0 <= k < |raw| && raw[k].year == DimTime(raw)[i].year
  {
    var ys := SortedYears(raw);
    var dim := DimTime(raw);
    forall k | 0 <= k < |raw| ensures exists i :: 0 <= i < |dim| && dim[i].year == raw[k].year {
      assert RawYears(raw)[k] == raw[k].year;
      var i := IndexOf(ys, raw[k].year);
      assert dim[i].year == raw[k].year;
    }
    forall i | 0 <= i < |dim| ensures exists k :: 0 <= k < |raw| && raw[k].year == dim[i].year {
      assert ys[i] in RawYears(raw);
      var k := IndexOf(RawYears(raw), ys[i]);
      assert raw[k].year == dim[i].year;
    }
  }

  /** The YearID sort-then-rank gives year y. */
  function YearIdOf(raw: seq<RawRow>, y: int): nat
    requires y in RawYears(raw)
  {
    IndexOf(SortedYears(raw), y) + 1
  }

  /** YearID is one more than the number of distinct extract years before it. */
  lemma YearIdIsRank(raw: seq<RawRow>, i: nat)
    requires i < |DimTime(raw)|
    ensures DimTime(raw)[i].yearId == 1 + |set y | y in RawYears(raw) && y < DimTime(raw)[i].year|
  {
    var ys := SortedYears(raw);
    IntLtIsStrictTotalOrder();
    RankIsCountBelow(ys, i, IntLt);
    assert DimTime(raw)[i].year == ys[i];
    var below := Below(ys, ys[i], IntLt);
    assert below == (set y | y in RawYears(raw) && y < ys[i]) by {
      forall y ensures y in below <==> y in RawYears(raw) && y < ys[i] {
        assert y in ys <==> y in RawYears(raw);
      }
    }
    assert |below| == i;
    assert (set y | y in RawYears(raw) && y < DimTime(raw)[i].year) == below;
  }

  /** Dim_Time depends only on the set of years in the extract. */
  lemma DimTimeDependsOnYearSetOnly(raw1: seq<RawRow>, raw2: seq<RawRow>)
    requires forall y :: y in RawYears(raw1) <==> y in RawYears(raw2)
    ensures DimTime(raw1) == DimTime(raw2)
  {
    IntLtIsStrictTotalOrder();
    SortedIsUnique(SortedYears(raw1), SortedYears(raw2), IntLt);
  }

  // -------------------------------------------------------------- Dim_County

  /** The distinct county names of the extract in ascending (code point) order. */
  function SortedCounties(raw: seq<RawRow>): (cs: seq<string>)
    ensures StrictlySorted(cs, StrLt)
    ensures forall c :: c in cs <==> c in RawCounties(raw)
  {
    StrLtIsStrictTotalOrder();
    SortDistinct(RawCounties(raw), StrLt)
  }

  /** The metadata rows whose County equals c, in metadata order. */
  function MetaFor(c: string, meta: seq<MetaRow>): (ms: seq<MetaRow>)
    ensures forall m :: m in ms <==> m in meta && m.county == c
  {
    if meta == [] then []
    else (if meta[0].county == c then [meta[0]] else []) + MetaFor(c, meta[1..])
  }

  /**
    How a Dim_County row got its Region and State: from a metadata row with the
    same name, or, when no metadata row has that name, Region "Unknown" and no State.
   */
  ghost predicate RegionJoined(county: string, region: string, state: Option<string>, meta: seq<MetaRow>) {
    || (region == UnknownRegion && state == None
        && forall k :: 0 <= k < |meta| ==> meta[k].county != county)
    || (exists k :: 0 <= k < |meta| && meta[k].county == county &&
          region == meta[k].region && state == Some(meta[k].state))
  }

  /** The left merge of one county name with the metadata, Region NaN filled with "Unknown". */
  function MergeOne(c: string, meta: seq<MetaRow>): (rows: seq<CountyRow>)
    ensures |rows| >= 1
    ensures forall k :: 0 <= k < |rows| ==> rows[k].county == c && RegionJoined(rows[k].county, rows[k].region, rows[k].state, meta)
  {
    var ms := MetaFor(c, meta);
    if ms == [] then
      assert forall k :: 0 <= k < |meta| ==> meta[k] !in ms;
      [CountyRow(c, UnknownRegion, None, 0)]
    else
      assert forall k :: 0 <= k < |ms| ==> ms[k] in meta;
      seq(|ms|, k requires 0 <= k < |ms| => CountyRow(c, ms[k].region, Some(ms[k].state), 0))
  }

  /** merge(county_meta, on='County', how='left') over the sorted names, keys not yet set. */
  function MergeMeta(names: seq<string>, meta: seq<MetaRow>): (rows: seq<CountyRow>)
    ensures |rows| >= |names|
  {
    if names == [] then []
    else MergeOne(names[0], meta) + MergeMeta(names[1..], meta)
  }

  /** Every merged row comes from one of the names, with its region joined from the metadata. */
  lemma {:induction false} MergeMetaRowsJoined(names: seq<string>, meta: seq<MetaRow>)
    ensures forall i :: 0 <= i < |MergeMeta(names, meta)| ==>
      && MergeMeta(names, meta)[i].county in names
      && RegionJoined(MergeMeta(names, meta)[i].county, MergeMeta(names, meta)[i].region, MergeMeta(names, meta)[i].state, meta)
  {
    if names != [] {
      var head := MergeOne(names[0], meta);
      var rest := MergeMeta(names[1..], meta);
      MergeMetaRowsJoined(names[1..], meta);
      var rows := head + rest;
      assert names == [names[0]] + names[1..];
      forall i | 0 <= i < |rows|
        ensures rows[i].county in names && RegionJoined(rows[i].county, rows[i].region, rows[i].state, meta)
      {
        if i < |head| {
          assert rows[i] == head[i];
          assert head[i].county == names[0];
          assert RegionJoined(head[i].county, head[i].region, head[i].state, meta);
        } else {
          assert rows[i] == rest[i - |head|];
          assert rest[i - |head|].county in names[1..];
          assert RegionJoined(rest[i - |head|].county, rest[i - |head|].region, rest[i - |head|].state, meta);
        }
      }
      assert MergeMeta(names, meta) == rows;
    }
  }

  /** Every name yields at least one merged row. */
  lemma {:induction false} MergeMetaCoversNames(names: seq<string>, meta: seq<MetaRow>)
    ensures forall c :: c in names ==> exists i :: 0 <= i < |MergeMeta(names, meta)| && MergeMeta(names, meta)[i].county == c
  {
    if names != [] {
      var head := MergeOne(names[0], meta);
      var rest := MergeMeta(names[1..], meta);
      MergeMetaCoversNames(names[1..], meta);
      var rows := head + rest;
      forall c | c in names ensures exists i :: 0 <= i < |rows| && rows[i].county == c {
        if c == names[0] {
          assert rows[0].county == c;
        } else {
          assert c in names[1..];
          var j :| 0 <= j < |rest| && rest[j].county == c;
          assert rows[|head| + j] == rest[j];
        }
      }
      assert MergeMeta(names, meta) == rows;
    }
  }

  /** Dim_County: the merged, name-sorted table with CountyID = position + 1. */
  function DimCounty(raw: seq<RawRow>, meta: seq<MetaRow>): (dim: seq<CountyRow>)
    ensures forall i :: 0 <= i < |dim| ==> dim[i].countyId == i + 1
    ensures forall i :: 0 <= i < |dim| ==> dim[i].county in RawCounties(raw) && RegionJoined(dim[i].county, dim[i].region, dim[i].state, meta)
  {
    var rows := MergeMeta(SortedCounties(raw), meta);
    MergeMetaRowsJoined(SortedCounties(raw), meta);
    seq(|rows|, i requires 0 <= i < |rows| => rows[i].(countyId := i + 1))
  }

  /** Every county name of the extract has a Dim_County row. */
  lemma DimCountyCoversRawCounties(raw: seq<RawRow>, meta: seq<MetaRow>)
    ensures forall k :: 0 <= k < |raw| ==> exists i :: 0 <= i < |DimCounty(raw, meta)| && DimCounty(raw, meta)[i].county == raw[k].county
  {
    var rows := MergeMeta(SortedCounties(raw), meta);
    var dim := DimCounty(raw, meta);
    MergeMetaCoversNames(SortedCounties(raw), meta);
    forall k | 0 <= k < |raw| ensures exists i :: 0 <= i < |dim| && dim[i].county == raw[k].county {
      assert RawCounties(raw)[k] == raw[k].county;
      assert raw[k].county in SortedCounties(raw);
      var i :| 0 <= i < |rows| && rows[i].county == raw[k].county;
      assert dim[i].county == raw[k].county;
    }
  }

  /** The metadata table names each county at most once. */
  ghost predicate UniqueMetaCounties(meta: seq<MetaRow>) {
    forall i, j :: 0 <= i < j < |meta| ==> meta[i].county != meta[j].county
  }

  lemma {:induction false} MetaForAbsent(c: string, meta: seq<MetaRow>)
    requires forall k :: 0 <= k < |meta| ==> meta[k].county != c
    ensures MetaFor(c, meta) == []
  {
    if meta != [] {
      MetaForAbsent(c, meta[1..]);
    }
  }

  lemma {:induction false} MetaForAtMostOne(c: string, meta: seq<MetaRow>)
    requires UniqueMetaCounties(meta)
    ensures |MetaFor(c, meta)| <= 1
  {
    if meta != [] {
      MetaForAtMostOne(c, meta[1..]);
      if meta[0].county == c {
        forall k | 0 <= k < |meta| - 1 ensures meta[1..][k].county != c {
          assert meta[0].county != meta[k + 1].county;
        }
        MetaForAbsent(c, meta[1..]);
      }
    }
  }

  lemma {:induction false} MergeMetaOneToOne(names: seq<string>, meta: seq<MetaRow>)
    requires UniqueMetaCounties(meta)
    ensures |MergeMeta(names, meta)| == |names|
    ensures forall i :: 0 <= i < |names| ==> MergeMeta(names, meta)[i].county == names[i]
  {
    if names != [] {
      MetaForAtMostOne(names[0], meta);
      var head := MergeOne(names[0], meta);
      assert |head| == 1 && head[0] in head;
      MergeMetaOneToOne(names[1..], meta);
    }
  }

  /**
    With a metadata table naming each county at most once, Dim_County has
    exactly one row per distinct county of the extract, in ascending name
    order, with CountyID running 1..m and Region the listed one or "Unknown".
   */
  lemma DimCountyOneRowPerCounty(raw: seq<RawRow>, meta: seq<MetaRow>)
    requires UniqueMetaCounties(meta)
    ensures |DimCounty(raw, meta)| == |SortedCounties(raw)|
    ensures forall i :: 0 <= i < |DimCounty(raw, meta)| ==>
      DimCounty(raw, meta)[i].county == SortedCounties(raw)[i] && DimCounty(raw, meta)[i].countyId == i + 1
    ensures forall i, j :: 0 <= i < j < |DimCounty(raw, meta)| ==> StrLt(DimCounty(raw, meta)[i].county, DimCounty(raw, meta)[j].county)
    ensures forall i, k :: 0 <= i < |DimCounty(raw, meta)| && 0 <= k < |meta| && meta[k].county == DimCounty(raw, meta)[i].county ==>
      DimCounty(raw, meta)[i].region == meta[k].region && DimCounty(raw, meta)[i].state == Some(meta[k].state)
    ensures forall i :: 0 <= i < |DimCounty(raw, meta)| && (forall k :: 0 <= k < |meta| ==> meta[k].county != DimCounty(raw, meta)[i].county) ==>
      DimCounty(raw, meta)[i].region == UnknownRegion && DimCounty(raw, meta)[i].state == None
  {
    MergeMetaOneToOne(SortedCounties(raw), meta);
    var dim := DimCounty(raw, meta);
    forall i, k | 0 <= i < |dim| && 0 <= k < |meta| && meta[k].county == dim[i].county
      ensures dim[i].region == meta[k].region && dim[i].state == Some(meta[k].state)
    {
      assert RegionJoined(dim[i].county, dim[i].region, dim[i].state, meta);
      var k' :| 0 <= k' < |meta| && meta[k'].county == dim[i].county
        && dim[i].region == meta[k'].region && dim[i].state == Some(meta[k'].state);
      assert k' == k;
    }
  }

  /** The CountyID sort-then-rank gives county c (when metadata names are unique). */
  function CountyIdOf(raw: seq<RawRow>, c: string): nat
    requires c in RawCounties(raw)
  {
    IndexOf(SortedCounties(raw), c) + 1
  }

  // ------------------------------------------------------------- Fact table

  /** The keys of the rows of dim whose natural key equals k, in dim order. */
  function MatchIds<R, K(==)>(dim: seq<R>, key: R -> K, id: R -> nat, k: K): seq<nat> {
    if dim == [] then []
    else (if key(dim[0]) == k then [id(dim[0])] else []) + MatchIds(dim[1..], key, id, k)
  }

  lemma {:induction false} MatchIdsAbsent<R, K>(dim: seq<R>, key: R -> K, id: R -> nat, k: K)
    requires forall i :: 0 <= i < |dim| ==> key(dim[i]) != k
    ensures MatchIds(dim, key, id, k) == []
  {
    if dim != [] {
      MatchIdsAbsent(dim[1..], key, id, k);
    }
  }

  /** On a dimension whose natural keys are distinct, a present key matches exactly once. */
  lemma {:induction false} MatchIdsOfDistinctKeys<R, K>(dim: seq<R>, key: R -> K, id: R -> nat, p: nat)
    requires p < |dim|
    requires forall i, j :: 0 <= i < j < |dim| ==> key(dim[i]) != key(dim[j])
    ensures MatchIds(dim, key, id, key(dim[p])) == [id(dim[p])]
  {
    if p == 0 {
      MatchIdsAbsent(dim[1..], key, id, key(dim[0]));
    } else {
      MatchIdsOfDistinctKeys(dim[1..], key, id, p - 1);
    }
  }

  /**
    merge(how='left') of a left table with a dimension: each left row is
    repeated once per matching key, in order, or kept once with a NaN key.
   */
  function LeftJoin<L>(left: seq<L>, matches: L -> seq<nat>): (r: seq<(L, Option<nat>)>)
    ensures |r| >= |left|
  {
    if left == [] then []
    else
      var ids := matches(left[0]);
      (if ids == [] then [(left[0], None)]
       else seq(|ids|, k requires 0 <= k < |ids| => (left[0], Some(ids[k]))))
      + LeftJoin(left[1..], matches)
  }

  /** A left join on a key that matches exactly once keeps every left row, once, in order. */
  lemma {:induction false} LeftJoinOneToOne<L>(left: seq<L>, matches: L -> seq<nat>)
    requires forall i :: 0 <= i < |left| ==> |matches(left[i])| == 1
    ensures |LeftJoin(left, matches)| == |left|
    ensures forall i :: 0 <= i < |left| ==> LeftJoin(left, matches)[i] == (left[i], Some(matches(left[i])[0]))
  {
    if left != [] {
      LeftJoinOneToOne(left[1..], matches);
    }
  }

  function TimeYear(t: TimeRow): int { t.year }
  function TimeId(t: TimeRow): nat { t.yearId }
  function CountyName(c: CountyRow): string { c.county }
  function CountyId(c: CountyRow): nat { c.countyId }

  /** Joining on Year against Dim_Time. */
  function YearMatches(dim: seq<TimeRow>): RawRow -> seq<nat> {
    (r: RawRow) => MatchIds(dim, TimeYear, TimeId, r.year)
  }

  /** Joining on County against Dim_County. */
  function CountyMatches(dim: seq<CountyRow>): ((RawRow, Option<nat>)) -> seq<nat> {
    (p: (RawRow, Option<nat>)) => MatchIds(dim, CountyName, CountyId, p.0.county)
  }

  /** The fact table: both key joins, then the projection onto keys and the ten measures. */
  function FactReferrals(raw: seq<RawRow>, meta: seq<MetaRow>): (facts: seq<FactRow>)
    ensures |facts| >= |raw|
  {
    var byYear := LeftJoin(raw, YearMatches(DimTime(raw)));
    var byCounty := LeftJoin(byYear, CountyMatches(DimCounty(raw, meta)));
    seq(|byCounty|, i requires 0 <= i < |byCounty| =>
      FactRow(byCounty[i].1, byCounty[i].0.1, byCounty[i].0.0.measures))
  }

  lemma YearMatchesOnce(raw: seq<RawRow>, i: nat)
    requires i < |raw|
    ensures raw[i].year in RawYears(raw)
    ensures YearMatches(DimTime(raw))(raw[i]) == [YearIdOf(raw, raw[i].year)]
  {
    var dim := DimTime(raw);
    assert RawYears(raw)[i] == raw[i].year;
    var p := IndexOf(SortedYears(raw), raw[i].year);
    assert forall a, b :: 0 <= a < b < |dim| ==> TimeYear(dim[a]) != TimeYear(dim[b]);
    MatchIdsOfDistinctKeys(dim, TimeYear, TimeId, p);
  }

  lemma CountyMatchesOnce(raw: seq<RawRow>, meta: seq<MetaRow>, i: nat, y: Option<nat>)
    requires UniqueMetaCounties(meta)
    requires i < |raw|
    ensures raw[i].county in RawCounties(raw)
    ensures CountyMatches(DimCounty(raw, meta))((raw[i], y)) == [CountyIdOf(raw, raw[i].county)]
  {
    var dim := DimCounty(raw, meta);
    assert RawCounties(raw)[i] == raw[i].county;
    CountyIdLooksUpCounty(raw, meta, raw[i].county);
    DimCountyNamesDistinct(raw, meta);
    MatchIdsOfDistinctKeys(dim, CountyName, CountyId, CountyIdOf(raw, raw[i].county) - 1);
  }

  /** Dim_County names each county once (when metadata names are unique). */
  lemma DimCountyNamesDistinct(raw: seq<RawRow>, meta: seq<MetaRow>)
    requires UniqueMetaCounties(meta)
    ensures forall a, b :: 0 <= a < b < |DimCounty(raw, meta)| ==> CountyName(DimCounty(raw, meta)[a]) != CountyName(DimCounty(raw, meta)[b])
  {
    var dim := DimCounty(raw, meta);
    DimCountyOneRowPerCounty(raw, meta);
    forall a, b | 0 <= a < b < |dim| ensures dim[a].county != dim[b].county {
      StrLtIrreflexive(dim[a].county);
    }
  }

  /**
    With a metadata table naming each county at most once, the fact table has
    one row per raw row, in the same order, carrying the YearID and CountyID
    ranked for that row's year and county and the raw row's ten measures.
   */
  lemma FactRowsFollowRaw(raw: seq<RawRow>, meta: seq<MetaRow>)
    requires UniqueMetaCounties(meta)
    ensures forall i :: 0 <= i < |raw| ==> raw[i].year in RawYears(raw) && raw[i].county in RawCounties(raw)
    ensures |FactReferrals(raw, meta)| == |raw|
    ensures forall i :: 0 <= i < |raw| ==>
      FactReferrals(raw, meta)[i] == FactRow(Some(CountyIdOf(raw, raw[i].county)), Some(YearIdOf(raw, raw[i].year)), raw[i].measures)
  {
    var yearOf := YearMatches(DimTime(raw));
    var countyOf := CountyMatches(DimCounty(raw, meta));
    forall i | 0 <= i < |raw| ensures |yearOf(raw[i])| == 1 {
      YearMatchesOnce(raw, i);
    }
    LeftJoinOneToOne(raw, yearOf);
    var byYear := LeftJoin(raw, yearOf);
    forall i | 0 <= i < |byYear| ensures |countyOf(byYear[i])| == 1 {
      CountyMatchesOnce(raw, meta, i, byYear[i].1);
    }
    LeftJoinOneToOne(byYear, countyOf);
    forall i | 0 <= i < |raw|
      ensures raw[i].year in RawYears(raw) && raw[i].county in RawCounties(raw)
      ensures byYear[i] == (raw[i], Some(YearIdOf(raw, raw[i].year)))
      ensures countyOf(byYear[i]) == [CountyIdOf(raw, raw[i].county)]
    {
      YearMatchesOnce(raw, i);
      CountyMatchesOnce(raw, meta, i, byYear[i].1);
    }
  }

  /**
    Looking the fact row's keys up again returns the raw row's natural keys:
    the Dim_Time row with that YearID has the row's Year, and the Dim_County
    row with that CountyID has the row's County.
   */
  lemma FactKeysRoundTrip(raw: seq<RawRow>, meta: seq<MetaRow>, i: nat)
    requires UniqueMetaCounties(meta)
    requires i < |raw|
    ensures |FactReferrals(raw, meta)| == |raw|
    ensures FactReferrals(raw, meta)[i].yearId.Some? && FactReferrals(raw, meta)[i].countyId.Some?
    ensures 1 <= FactReferrals(raw, meta)[i].yearId.value <= |DimTime(raw)|
    ensures DimTime(raw)[FactReferrals(raw, meta)[i].yearId.value - 1]
      == TimeRow(raw[i].year, FactReferrals(raw, meta)[i].yearId.value)
    ensures 1 <= FactReferrals(raw, meta)[i].countyId.value <= |DimCounty(raw, meta)|
    ensures DimCounty(raw, meta)[FactReferrals(raw, meta)[i].countyId.value - 1].county == raw[i].county
    ensures DimCounty(raw, meta)[FactReferrals(raw, meta)[i].countyId.value - 1].countyId
      == FactReferrals(raw, meta)[i].countyId.value
  {
    assert raw[i].year in RawYears(raw) && raw[i].county in RawCounties(raw) by {
      assert RawYears(raw)[i] == raw[i].year && RawCounties(raw)[i] == raw[i].county;
    }
    assert |FactReferrals(raw, meta)| == |raw| &&
      FactReferrals(raw, meta)[i] == FactRow(Some(CountyIdOf(raw, raw[i].county)), Some(YearIdOf(raw, raw[i].year)), raw[i].measures)
    by {
      FactRowsFollowRaw(raw, meta);
    }
    YearIdLooksUpYear(raw, raw[i].year);
    CountyIdLooksUpCounty(raw, meta, raw[i].county);
  }

  /** The Dim_Time row at YearID y's position holds year y. */
  lemma YearIdLooksUpYear(raw: seq<RawRow>, y: int)
    requires y in RawYears(raw)
    ensures 1 <= YearIdOf(raw, y) <= |DimTime(raw)|
    ensures DimTime(raw)[YearIdOf(raw, y) - 1] == TimeRow(y, YearIdOf(raw, y))
  {
  }

  /** The Dim_County row at CountyID c's position holds county c. */
  lemma CountyIdLooksUpCounty(raw: seq<RawRow>, meta: seq<MetaRow>, c: string)
    requires UniqueMetaCounties(meta)
    requires c in RawCounties(raw)
    ensures 1 <= CountyIdOf(raw, c) <= |DimCounty(raw, meta)|
    ensures DimCounty(raw, meta)[CountyIdOf(raw, c) - 1].county == c
    ensures DimCounty(raw, meta)[CountyIdOf(raw, c) - 1].countyId == CountyIdOf(raw, c)
  {
    DimCountyOneRowPerCounty(raw, meta);
  }

  /**
    Distinct (Year, County) pairs of the extract get distinct
    (CountyID, YearID) pairs: the key mapping is injective.
   */
  lemma FactKeysInjective(raw: seq<RawRow>, meta: seq<MetaRow>, i: nat, j: nat)
    requires UniqueMetaCounties(meta)
    requires i < |raw| && j < |raw|
    requires raw[i].year != raw[j].year || raw[i].county != raw[j].county
    ensures |FactReferrals(raw, meta)| == |raw|
    ensures (FactReferrals(raw, meta)[i].countyId, FactReferrals(raw, meta)[i].yearId)
      != (FactReferrals(raw, meta)[j].countyId, FactReferrals(raw, meta)[j].yearId)
  {
    FactKeysRoundTrip(raw, meta, i);
    FactKeysRoundTrip(raw, meta, j);
  }

  /**
    The metadata generate_metadata writes for this extract. When get_region
    raises, the exception ends the ETL run, so there is no metadata to use.
   */
  function GeneratedMetadata(raw: seq<RawRow>): seq<MetaRow>
    requires MetadataRows(RawCounties(raw)).Some?
  {
    MetadataRows(RawCounties(raw)).value
  }

  /**
    Against a metadata table that lists every county of the extract once,
    with get_region's answer and State TX, Dim_County's Region is get_region's
    answer, never "Unknown", and its State is TX.
   */
  lemma CompleteMetadataGivesRegions(raw: seq<RawRow>, meta: seq<MetaRow>)
    requires UniqueMetaCounties(meta)
    requires forall c :: c in RawCounties(raw) ==> exists k :: 0 <= k < |meta| && meta[k].county == c
    requires forall k :: 0 <= k < |meta| ==> meta[k].state == State && GetRegion(meta[k].county) == Some(meta[k].region)
    ensures forall i :: 0 <= i < |DimCounty(raw, meta)| ==>
      && GetRegion(DimCounty(raw, meta)[i].county) == Some(DimCounty(raw, meta)[i].region)
      && DimCounty(raw, meta)[i].region != UnknownRegion
      && DimCounty(raw, meta)[i].state == Some(State)
  {
    var dim := DimCounty(raw, meta);
    forall i | 0 <= i < |dim|
      ensures GetRegion(dim[i].county) == Some(dim[i].region)
      ensures dim[i].region != UnknownRegion && dim[i].state == Some(State)
    {
      var k :| 0 <= k < |meta| && meta[k].county == dim[i].county;
      JoinedWithListedRow(dim[i].county, dim[i].region, dim[i].state, meta, k);
      ListedRegionIsKnown(meta[k]);
    }
  }

  /** A name listed (once) in the metadata takes that row's Region and State. */
  lemma JoinedWithListedRow(county: string, region: string, state: Option<string>, meta: seq<MetaRow>, k: nat)
    requires UniqueMetaCounties(meta)
    requires RegionJoined(county, region, state, meta)
    requires k < |meta| && meta[k].county == county
    ensures region == meta[k].region && state == Some(meta[k].state)
  {
    var k' :| 0 <= k' < |meta| && meta[k'].county == county && region == meta[k'].region && state == Some(meta[k'].state);
    assert k' == k;
  }

  /** get_region never answers "Unknown". */
  lemma ListedRegionIsKnown(m: MetaRow)
    requires GetRegion(m.county) == Some(m.region)
    ensures m.region != UnknownRegion
  {
    assert m.region in RegionNames;
  }

  /**
    The metadata generated from the extract itself satisfies that: the ETL
    run that generates its metadata on the fly never assigns "Unknown".
   */
  lemma GeneratedMetadataGivesRegions(raw: seq<RawRow>)
    requires MetadataRows(RawCounties(raw)).Some?
    ensures UniqueMetaCounties(GeneratedMetadata(raw))
    ensures forall i :: 0 <= i < |DimCounty(raw, GeneratedMetadata(raw))| ==>
      && GetRegion(DimCounty(raw, GeneratedMetadata(raw))[i].county) == Some(DimCounty(raw, GeneratedMetadata(raw))[i].region)
      && DimCounty(raw, GeneratedMetadata(raw))[i].region != UnknownRegion
      && DimCounty(raw, GeneratedMetadata(raw))[i].state == Some(State)
  {
    MetadataOneRowPerCounty(RawCounties(raw));
    CompleteMetadataGivesRegions(raw, GeneratedMetadata(raw));
  }
}

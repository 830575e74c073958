/**
  The frame the data-quality checks read: Fact_Referrals joined to its two
  dimensions (every fact column plus County, Region and Year), the
  (County, Year) sort the outlier rule applies to it, and the per-county
  "previous row" that groupby('County').shift(1) looks at.
 */
module CheckFrame {
  import opened Wrappers
  import opened Ordering
  import opened Referrals

  /** One row of the joined view: the fact keys and measures, then County, Region, Year. */
  datatype CheckRow = CheckRow(countyId: int, yearId: int, measures: Measures, county: string, region: string, year: int)

  /** The (County, Year) order of sort_values(['County', 'Year']): a may precede b. */
  predicate RowLe(a: CheckRow, b: CheckRow) {
    StrLt(a.county, b.county) || (a.county == b.county && a.year <= b.year)
  }

  lemma RowLeTotal(a: CheckRow, b: CheckRow)
    ensures RowLe(a, b) || RowLe(b, a)
  {
    if a.county != b.county {
      StrLtConnected(a.county, b.county);
    }
  }

  lemma RowLeTransitive(a: CheckRow, b: CheckRow, c: CheckRow)
    requires RowLe(a, b) && RowLe(b, c)
    ensures RowLe(a, c)
  {
    if StrLt(a.county, b.county) && StrLt(b.county, c.county) {
      StrLtTransitive(a.county, b.county, c.county);
    }
  }

  /** Every row may precede every later one. */
  ghost predicate SortedByCountyYear(s: seq<CheckRow>) {
    forall i, j :: 0 <= i < j < |s| ==> RowLe(s[i], s[j])
  }

  /** Places x after every row of t that may precede it (so equal keys keep their order). */
  function InsertRow(t: seq<CheckRow>, x: CheckRow): (r: seq<CheckRow>)
    requires SortedByCountyYear(t)
    ensures SortedByCountyYear(r)
    ensures multiset(r) == multiset(t) + multiset{x}
  {
    if t == [] || RowLe(t[|t| - 1], x) then
      AppendKeepsSorted(t, x);
      t + [x]
    else
      var r' := InsertRow(t[..|t| - 1], x);
      InsertedBeforeLast(t, x, r');
      r' + [t[|t| - 1]]
  }

  /** A row that every row of t may precede can go at the end. */
  lemma AppendKeepsSorted(t: seq<CheckRow>, x: CheckRow)
    requires SortedByCountyYear(t)
    requires t == [] || RowLe(t[|t| - 1], x)
    ensures SortedByCountyYear(t + [x])
  {
    forall i | 0 <= i < |t| ensures RowLe(t[i], x) {
      if i < |t| - 1 {
        RowLeTransitive(t[i], t[|t| - 1], x);
      }
    }
  }

  /** When x must precede t's last row, inserting x into the rest and then appending that last row stays sorted. */
  lemma InsertedBeforeLast(t: seq<CheckRow>, x: CheckRow, r': seq<CheckRow>)
    requires SortedByCountyYear(t) && t != [] && !RowLe(t[|t| - 1], x)
    requires SortedByCountyYear(r')
    requires multiset(r') == multiset(t[..|t| - 1]) + multiset{x}
    ensures SortedByCountyYear(r' + [t[|t| - 1]])
    ensures multiset(r' + [t[|t| - 1]]) == multiset(t) + multiset{x}
  {
    var init, last := t[..|t| - 1], t[|t| - 1];
    assert t == init + [last];
    RowLeTotal(last, x);
    forall i | 0 <= i < |r'| ensures RowLe(r'[i], last) {
      var y := r'[i];
      assert y in multiset(r');
      if y != x {
        assert y in multiset(init);
        var j :| 0 <= j < |init| && init[j] == y;
        assert t[j] == y;
      }
    }
  }

  /** The frame after sort_values(['County', 'Year']): sorted, the same rows, equal keys in frame order. */
  function SortRows(s: seq<CheckRow>): (r: seq<CheckRow>)
    ensures SortedByCountyYear(r)
    ensures multiset(r) == multiset(s)
  {
    if s == [] then []
    else
      assert s == s[..|s| - 1] + [s[|s| - 1]];
      InsertRow(SortRows(s[..|s| - 1]), s[|s| - 1])
  }

  /** Sorting keeps the number of rows. */
  lemma SortRowsLength(s: seq<CheckRow>)
    ensures |SortRows(s)| == |s|
  {
    assert |multiset(SortRows(s))| == |multiset(s)|;
  }

  /** Row x as a one-row frame when it has the given County and Year, else nothing. */
  function Keyed(x: CheckRow, county: string, year: int): seq<CheckRow> {
    if x.county == county && x.year == year then [x] else []
  }

  /** The rows of s with the given County and Year, in frame order. */
  function WithKey(s: seq<CheckRow>, county: string, year: int): seq<CheckRow> {
    if s == [] then [] else WithKey(s[..|s| - 1], county, year) + Keyed(s[|s| - 1], county, year)
  }

  lemma SnocWithKey(t: seq<CheckRow>, x: CheckRow, county: string, year: int)
    ensures WithKey(t + [x], county, year) == WithKey(t, county, year) + Keyed(x, county, year)
  {
    assert (t + [x])[..|t|] == t;
  }

  /** Inserting x puts it after every row that shares its (County, Year). */
  lemma {:induction false} InsertRowStable(t: seq<CheckRow>, x: CheckRow, county: string, year: int)
    requires SortedByCountyYear(t)
    ensures WithKey(InsertRow(t, x), county, year) == WithKey(t, county, year) + Keyed(x, county, year)
  {
    if t == [] || RowLe(t[|t| - 1], x) {
      assert InsertRow(t, x) == t + [x];
      SnocWithKey(t, x, county, year);
    } else {
      var init, last := t[..|t| - 1], t[|t| - 1];
      var r' := InsertRow(init, x);
      assert InsertRow(t, x) == r' + [last];
      InsertRowStable(init, x, county, year);
      SnocWithKey(r', last, county, year);
      SnocWithKey(init, last, county, year);
      assert init + [last] == t;
      KeyedSwap(WithKey(init, county, year), x, last, county, year);
    }
  }

  /** Rows that cannot be in order never share a (County, Year), so at most one of them is kept. */
  lemma KeyedSwap(w: seq<CheckRow>, x: CheckRow, last: CheckRow, county: string, year: int)
    requires !RowLe(last, x)
    ensures w + Keyed(x, county, year) + Keyed(last, county, year) == w + Keyed(last, county, year) + Keyed(x, county, year)
  {
  }

  /**
    The sort is stable: the rows sharing any one (County, Year) keep their
    frame order, as pandas' multi-column sort_values does.
   */
  lemma {:induction false} SortRowsStable(s: seq<CheckRow>, county: string, year: int)
    ensures WithKey(SortRows(s), county, year) == WithKey(s, county, year)
  {
    if s != [] {
      var init := s[..|s| - 1];
      SortRowsStable(init, county, year);
      InsertRowStable(SortRows(init), s[|s| - 1], county, year);
    }
  }

  /** The last of the first n rows whose County is c. */
  function LastWithCounty(df: seq<CheckRow>, c: string, n: nat): (r: Option<nat>)
    requires n <= |df|
    ensures r.Some? ==> r.value < n && df[r.value].county == c
    ensures r.Some? ==> forall j :: r.value < j < n ==> df[j].county != c
    ensures r.None? ==> forall j :: 0 <= j < n ==> df[j].county != c
  {
    if n == 0 then None
    else if df[n - 1].county == c then Some(n - 1)
    else LastWithCounty(df, c, n - 1)
  }

  /** The row groupby('County').shift(1) takes row i's previous value from: the last earlier row of its county. */
  function PrevInCounty(df: seq<CheckRow>, i: nat): (r: Option<nat>)
    requires i < |df|
    ensures r.Some? ==> r.value < i && df[r.value].county == df[i].county
    ensures r.Some? ==> forall j :: r.value < j < i ==> df[j].county != df[i].county
    ensures r.None? ==> forall j :: 0 <= j < i ==> df[j].county != df[i].county
  {
    LastWithCounty(df, df[i].county, i)
  }

  /**
    On a (County, Year)-sorted frame a county's rows are contiguous, so the
    previous row of the same county is the row just above, if it has that
    county, and there is none otherwise.
   */
  lemma PrevIsAdjacentWhenSorted(df: seq<CheckRow>, i: nat)
    requires SortedByCountyYear(df) && i < |df|
    ensures PrevInCounty(df, i) == if i > 0 && df[i - 1].county == df[i].county then Some(i - 1) else None
  {
    if i > 0 && df[i - 1].county != df[i].county {
      forall j | 0 <= j < i ensures df[j].county != df[i].county {
        if j < i - 1 && df[j].county == df[i].county {
          assert RowLe(df[j], df[i - 1]) && RowLe(df[i - 1], df[i]);
          if StrLt(df[j].county, df[i - 1].county) && StrLt(df[i - 1].county, df[i].county) {
            StrLtTransitive(df[j].county, df[i - 1].county, df[i].county);
            StrLtIrreflexive(df[i].county);
          }
        }
      }
    }
  }
}

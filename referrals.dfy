/**
  The records of the county-level referral extract after the positional
  column rename: one row per (calendar year, county) with ten measure columns.
 */
module Referrals {
  import opened Wrappers

  /**
    The ten measure columns, carried unchanged from the raw extract into the
    fact table. A cell the CSV leaves empty is None (pandas NaN). The
    referral rate is only ever copied, never computed with.
   */
  datatype Measures = Measures(
    juvPop: Option<int>,
    violentFelony: Option<int>,
    otherFelony: Option<int>,
    misd: Option<int>,
    vop: Option<int>,
    statusOffense: Option<int>,
    cins: Option<int>,
    totalReferrals: Option<int>,
    referralRate: Option<real>,
    uniqueYouth: Option<int>)

  /** One row of the raw extract: the natural keys (Year, County) and the measures. */
  datatype RawRow = RawRow(year: int, county: string, measures: Measures)

  /** The County column of the extract, in row order. */
  function RawCounties(raw: seq<RawRow>): seq<string> {
    seq(|raw|, i requires 0 <= i < |raw| => raw[i].county)
  }

  /** The Year column of the extract, in row order. */
  function RawYears(raw: seq<RawRow>): seq<int> {
    seq(|raw|, i requires 0 <= i < |raw| => raw[i].year)
  }
}

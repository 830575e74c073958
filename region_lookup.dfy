/**
  County metadata: the county -> region table and the per-county metadata
  rows built from the raw extract's county column.
 */
module RegionLookup {
  import opened Wrappers
  import opened Ordering

  /** One metadata row: County, Region, State. */
  datatype MetaRow = MetaRow(county: string, region: string, state: string)

  const State: string := "TX"

  /**
    The fixed county -> region table (the `regions` dict), keyed by the
    extract's upper-case names: Some(region) for a listed county, None otherwise.
   */
  function ListedRegion(county: string): (r: Option<string>)
    ensures r.Some? ==> r.value in RegionNames
  {
    match county
    case "HARRIS" => Some("Gulf Coast")
    case "DALLAS" => Some("Metroplex")
    case "TARRANT" => Some("Metroplex")
    case "BEXAR" => Some("Alamo")
    case "TRAVIS" => Some("Capital")
    case "EL PASO" => Some("Upper Rio Grande")
    case "COLLIN" => Some("Metroplex")
    case "DENTON" => Some("Metroplex")
    case "HIDALGO" => Some("South Texas")
    case "FORT BEND" => Some("Gulf Coast")
    case "MONTGOMERY" => Some("Gulf Coast")
    case "WILLIAMSON" => Some("Capital")
    case "CAMERON" => Some("South Texas")
    case "NUECES" => Some("Coastal Bend")
    case "BRAZORIA" => Some("Gulf Coast")
    case "BELL" => Some("Central Texas")
    case "GALVESTON" => Some("Gulf Coast")
    case "LUBBOCK" => Some("High Plains")
    case "WEBB" => Some("South Texas")
    case "JEFFERSON" => Some("South East Texas")
    case "MCLENNON" => Some("Central Texas")
    case "SMITH" => Some("East Texas")
    case "BRAZOS" => Some("Central Texas")
    case "HAYS" => Some("Capital")
    case "JOHNSON" => Some("Metroplex")
    case "ELLIS" => Some("Metroplex")
    case "ECTOR" => Some("Permian Basin")
    case "MIDLAND" => Some("Permian Basin")
    case "GUADALUPE" => Some("Alamo")
    case "TAYLOR" => Some("West Texas")
    case "WICHITA" => Some("North Texas")
    case "GREGG" => Some("East Texas")
    case "POTTER" => Some("High Plains")
    case "GRAYSON" => Some("North Texas")
    case "RANDALL" => Some("High Plains")
    case "PARKER" => Some("Metroplex")
    case "TOM GREEN" => Some("Concho Valley")
    case "COMAL" => Some("Alamo")
    case "KAUFMAN" => Some("Metroplex")
    case "BOWIE" => Some("North East Texas")
    case "VICTORIA" => Some("Golden Crescent")
    case "HUNT" => Some("North Texas")
    case "ROCKWALL" => Some("Metroplex")
    case "ORANGE" => Some("South East Texas")
    case "ANGELINA" => Some("Deep East Texas")
    case "LIBERTY" => Some("Gulf Coast")
    case "HENDERSON" => Some("East Texas")
    case "TITUS" => Some("North East Texas")
    case "WALKER" => Some("Gulf Coast")
    case "STARR" => Some("South Texas")
    case _ => None
  }

  /** Every region name the lookup can produce. */
  const RegionNames: set<string> := {
    "Gulf Coast", "Metroplex", "Alamo", "Capital", "Upper Rio Grande", "South Texas",
    "Coastal Bend", "Central Texas", "High Plains", "South East Texas", "East Texas",
    "Permian Basin", "West Texas", "North Texas", "Concho Valley", "North East Texas",
    "Golden Crescent", "Deep East Texas"
  }

  /** The region of a county missing from the table, chosen by its first letter. */
  function FallbackRegion(first: char): (r: string)
    ensures r in RegionNames
  {
    if first in ['A', 'B', 'C'] then "North Texas"
    else if first in ['D', 'E', 'F'] then "East Texas"
    else if first in ['G', 'H', 'I'] then "Central Texas"
    else if first in ['J', 'K', 'L', 'M'] then "West Texas"
    else "South Texas"
  }

  /**
    get_region: the table's region for a listed county, otherwise the
    first-letter fallback. None is the IndexError raised when an unlisted
    name is empty and has no first letter.
   */
  function GetRegion(county: string): (r: Option<string>)
    ensures r.Some? <==> ListedRegion(county).Some? || county != []
    ensures r.Some? ==> r.value in RegionNames
  {
    if ListedRegion(county).Some? then ListedRegion(county)
    else if county == [] then None
    else Some(FallbackRegion(county[0]))
  }

  /** A listed county gets exactly its listed region. */
  lemma ListedCountyGetsItsRegion(county: string)
    requires ListedRegion(county).Some?
    ensures GetRegion(county) == ListedRegion(county)
  {
  }

  /**
    An unlisted, non-empty name falls into one of five bands of its first
    letter: A-C, D-F, G-I, J-M, and everything else.
   */
  lemma UnlistedCountyGetsLetterBand(county: string)
    requires ListedRegion(county).None? && county != []
    ensures 'A' <= county[0] <= 'C' ==> GetRegion(county) == Some("North Texas")
    ensures 'D' <= county[0] <= 'F' ==> GetRegion(county) == Some("East Texas")
    ensures 'G' <= county[0] <= 'I' ==> GetRegion(county) == Some("Central Texas")
    ensures 'J' <= county[0] <= 'M' ==> GetRegion(county) == Some("West Texas")
    ensures !('A' <= county[0] <= 'M') ==> GetRegion(county) == Some("South Texas")
  {
  }

  /** The region of an unlisted county depends on nothing but its first letter. */
  lemma FallbackDependsOnFirstLetterOnly(a: string, b: string)
    requires ListedRegion(a).None? && ListedRegion(b).None? && a != [] && b != []
    requires a[0] == b[0]
    ensures GetRegion(a) == GetRegion(b)
  {
  }

  /** Lookups are case-sensitive: a lower-case spelling misses the table. */
  lemma LookupExamples()
    ensures GetRegion("HARRIS") == Some("Gulf Coast")
    ensures GetRegion("harris") == Some("South Texas")
  {
  }

  /** Unlisted names fall back by first letter; an empty one has none. */
  lemma FallbackExamples()
    ensures GetRegion("ANDREWS") == Some("North Texas")
    ensures GetRegion("") == None
  {
  }

  /** The metadata rows written for a county column, or None if get_region raises. */
  function MetadataRows(counties: seq<string>): Option<seq<MetaRow>> {
    var u := Unique(counties);
    if forall i :: 0 <= i < |u| ==> GetRegion(u[i]).Some? then
      Some(seq(|u|, i requires 0 <= i < |u| => MetaRow(u[i], GetRegion(u[i]).value, State)))
    else None
  }

  /** generate_metadata's loop: one row per distinct county, appended in turn. */
  method GenerateMetadata(counties: seq<string>) returns (rows: Option<seq<MetaRow>>)
    ensures rows == MetadataRows(counties)
  {
    var unique := Unique(counties);
    var metadata: seq<MetaRow> := [];
    var i := 0;
    while i < |unique|
      invariant 0 <= i <= |unique|
      invariant |metadata| == i
      invariant forall k :: 0 <= k < i ==> GetRegion(unique[k]).Some?
      invariant forall k :: 0 <= k < i ==> metadata[k] == MetaRow(unique[k], GetRegion(unique[k]).value, State)
    {
      var county := unique[i];
      var region := GetRegion(county);
      if region.None? {
        return None;
      }
      metadata := metadata + [MetaRow(county, region.value, State)];
      i := i + 1;
    }
    assert metadata == seq(|unique|, k requires 0 <= k < |unique| => MetaRow(unique[k], GetRegion(unique[k]).value, State));
    return Some(metadata);
  }

  /**
    The generated metadata has exactly one row per distinct county of the
    extract, in first-appearance order, each with a known region and State TX.
   */
  lemma MetadataOneRowPerCounty(counties: seq<string>)
    requires MetadataRows(counties).Some?
    ensures forall i, j :: 0 <= i < j < |MetadataRows(counties).value| ==>
      MetadataRows(counties).value[i].county != MetadataRows(counties).value[j].county
    ensures forall c :: c in counties <==>
      exists i :: 0 <= i < |MetadataRows(counties).value| && MetadataRows(counties).value[i].county == c
    ensures forall i, j :: 0 <= i < j < |MetadataRows(counties).value| ==>
      IndexOf(counties, MetadataRows(counties).value[i].county) < IndexOf(counties, MetadataRows(counties).value[j].county)
    ensures forall i :: 0 <= i < |MetadataRows(counties).value| ==>
      && MetadataRows(counties).value[i].state == State
      && GetRegion(MetadataRows(counties).value[i].county) == Some(MetadataRows(counties).value[i].region)
  {
    var rows := MetadataRows(counties).value;
    var u := Unique(counties);
    forall c | c in counties ensures exists i :: 0 <= i < |rows| && rows[i].county == c {
      assert c in u;
      var i :| 0 <= i < |u| && u[i] == c;
      assert rows[i].county == c;
    }
    forall i, j | 0 <= i < j < |rows| ensures IndexOf(counties, rows[i].county) < IndexOf(counties, rows[j].county) {
      UniqueKeepsFirstAppearanceOrder(counties, i, j);
    }
  }

  /** Generation fails exactly when the county column holds an empty name. */
  lemma MetadataFailsOnlyOnEmptyName(counties: seq<string>)
    ensures MetadataRows(counties).None? <==> "" in counties
  {
    var u := Unique(counties);
    if "" in counties {
      assert "" in u;
      var i :| 0 <= i < |u| && u[i] == "";
      assert GetRegion(u[i]).None?;
    }
  }
}

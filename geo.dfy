/**
 * Great-circle distance with its 'unknown' guard, the geolocation record,
 * and the nearest-region scan over GCP_REGIONS (map_gcp_region).
 */
module Geo {
  import opened Wrappers
  import opened Catalog

  /** A latitude or longitude, or the sentinel 'unknown'. */
  datatype Coord = Known(deg: real) | Unknown

  /** A distance in kilometres, or the sentinel 'unknown'. */
  datatype Distance = Km(km: real) | UnknownDistance

  /**
   * The haversine formula on four known coordinates, rounded to hundredths.
   * It is floating-point trigonometry, so the model leaves it abstract.
   */
  type Haversine = (real, real, real, real) -> real

  /** What the geolocation lookup reports about one IP address. */
  datatype GeoInfo = GeoInfo(ip: string, city: string, region: string, country: string, lat: Coord, long: Coord)

  /** The record used when no hop could be geolocated. */
  function UnknownGeo(): (g: GeoInfo)
    ensures g.lat.Unknown? && g.long.Unknown?
  {
    GeoInfo("unknown", "unknown", "unknown", "unknown", Unknown, Unknown)
  }

  /** The geolocation lookup with anycast hits suppressed (nil for an anycast address). */
  type GeoLookup = string -> Option<GeoInfo>

  /** orthodromic_distance: 'unknown' as soon as one coordinate is unknown. */
  function OrthodromicDistance(lat1: Coord, lon1: Coord, lat2: Coord, lon2: Coord, haversine: Haversine): (r: Distance)
    ensures r.UnknownDistance? <==> (lat1.Unknown? || lon1.Unknown? || lat2.Unknown? || lon2.Unknown?)
    ensures r.Km? ==> r.km == haversine(lat1.deg, lon1.deg, lat2.deg, lon2.deg)
  {
    if lat1.Unknown? || lon1.Unknown? || lat2.Unknown? || lon2.Unknown? then UnknownDistance
    else Km(haversine(lat1.deg, lon1.deg, lat2.deg, lon2.deg))
  }

  /** The result of map_gcp_region: a catalog entry, or 'not_applicable'. */
  datatype GcpMatch = NotApplicable | Region(index: GcpIndex) {

    /** The string map_gcp_region returns. */
    function Name(): string {
      match this
      case NotApplicable => "not_applicable"
      case Region(i) => GcpRegions[i].key
    }

    /** approx_gcp_city: the catalog city of the match, or 'not_applicable'. */
    function City(): string {
      match this
      case NotApplicable => "not_applicable"
      case Region(i) => GcpRegions[i].city
    }
  }

  /** Distance from a known point to catalog entry i. */
  function DistanceTo(lat: real, long: real, i: GcpIndex, haversine: Haversine): real {
    haversine(lat, long, GcpRegions[i].lat, GcpRegions[i].long)
  }

  /** Catalog entry i is nearest to the point, and no earlier entry is as near. */
  ghost predicate IsFirstNearest(i: GcpIndex, lat: real, long: real, haversine: Haversine) {
    && (forall j: GcpIndex :: DistanceTo(lat, long, i, haversine) <= DistanceTo(lat, long, j, haversine))
    && (forall j: GcpIndex :: j < i ==> DistanceTo(lat, long, i, haversine) < DistanceTo(lat, long, j, haversine))
  }

  /** Index of the first minimum of a non-empty sequence, scanning left to right with a strict `<`. */
  function FirstMinIndex(ds: seq<real>): (k: nat)
    requires |ds| > 0
    ensures k < |ds|
    ensures forall j :: 0 <= j < |ds| ==> ds[k] <= ds[j]
    ensures forall j :: 0 <= j < k ==> ds[k] < ds[j]
  {
    if |ds| == 1 then 0
    else
      var k := FirstMinIndex(ds[..|ds| - 1]);
      if ds[|ds| - 1] < ds[k] then |ds| - 1 else k
  }

  /** One step of the scan: entry i replaces the best so far only when strictly nearer. */
  lemma FirstMinStep(ds: seq<real>, i: nat)
    requires i < |ds|
    ensures i == 0 ==> FirstMinIndex(ds[..i + 1]) == 0
    ensures i > 0 ==>
              FirstMinIndex(ds[..i + 1]) ==
              (if ds[i] < ds[FirstMinIndex(ds[..i])] then i else FirstMinIndex(ds[..i]))
  {
    assert ds[..i + 1][..i] == ds[..i];
  }

  /** Distances from a known point to every catalog entry, in catalog order. */
  function CatalogDistances(lat: real, long: real, haversine: Haversine): (ds: seq<real>)
    ensures |ds| == |GcpRegions|
    ensures forall i: GcpIndex :: ds[i] == DistanceTo(lat, long, i, haversine)
  {
    seq(|GcpRegions|, i requires 0 <= i < |GcpRegions| => DistanceTo(lat, long, i, haversine))
  }

  /** map_gcp_region, as a value: 'not_applicable' for an unknown point, else the first nearest entry. */
  function NearestGcpRegion(lat: Coord, long: Coord, haversine: Haversine): (r: GcpMatch)
    ensures r.NotApplicable? <==> (lat.Unknown? || long.Unknown?)
    ensures r.Region? ==> IsFirstNearest(r.index, lat.deg, long.deg, haversine)
  {
    if lat.Unknown? || long.Unknown? then NotApplicable
    else Region(FirstMinIndex(CatalogDistances(lat.deg, long.deg, haversine)))
  }

  /** Two entries that are both the first nearest are the same entry. */
  lemma FirstNearestUnique(i: GcpIndex, j: GcpIndex, lat: real, long: real, haversine: Haversine)
    requires IsFirstNearest(i, lat, long, haversine) && IsFirstNearest(j, lat, long, haversine)
    ensures i == j
  {
    assert DistanceTo(lat, long, i, haversine) <= DistanceTo(lat, long, j, haversine);
    assert DistanceTo(lat, long, j, haversine) <= DistanceTo(lat, long, i, haversine);
  }

  /** map_gcp_region: scans the catalog keeping the best distance so far. */
  method MapGcpRegion(lat: Coord, long: Coord, haversine: Haversine) returns (r: GcpMatch)
    ensures r == NearestGcpRegion(lat, long, haversine)
  {
    if lat.Unknown? || long.Unknown? {
      return NotApplicable;
    }
    ghost var ds := CatalogDistances(lat.deg, long.deg, haversine);
    var closest: Option<GcpIndex> := None;
    var shortest: Option<real> := None;  // None stands for Float::INFINITY
    for i := 0 to |GcpRegions|
      invariant closest.None? <==> i == 0
      invariant closest.None? <==> shortest.None?
      invariant i > 0 ==> closest.value == FirstMinIndex(ds[..i]) && shortest.value == ds[closest.value]
    {
      var d := OrthodromicDistance(lat, long, Known(GcpRegions[i].lat), Known(GcpRegions[i].long), haversine);
      if d.UnknownDistance? {
        continue;
      }
      assert d.km == ds[i];
      FirstMinStep(ds, i);
      if shortest.None? || d.km < shortest.value {
        shortest := Some(d.km);
        closest := Some(i);
      }
    }
    assert ds[..|GcpRegions|] == ds;
    r := if closest.Some? then Region(closest.value) else NotApplicable;
  }
}

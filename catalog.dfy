/** The two fixed catalogs of traceroute_collector.rb, in their declared order. */
module Catalog {
  import opened Wrappers
  import opened SeqFacts

  /** Position of the first pair whose key is `key` (Ruby Hash lookup). */
  function IndexOf<K(==), V>(pairs: seq<(K, V)>, key: K): (r: Option<nat>)
    ensures r.None? <==> forall i :: 0 <= i < |pairs| ==> pairs[i].0 != key
    ensures r.Some? ==> r.value < |pairs| && pairs[r.value].0 == key
    ensures r.Some? ==> forall j :: 0 <= j < r.value ==> pairs[j].0 != key
  {
    if pairs == [] then None
    else if pairs[0].0 == key then Some(0)
    else
      match IndexOf(pairs[1..], key)
      case None => None
      case Some(i) => Some(i + 1)
  }

  /** `hash[key]`: the value stored under `key`, or nil. */
  function Lookup<K(==), V>(pairs: seq<(K, V)>, key: K): (r: Option<V>)
    ensures r.None? <==> forall i :: 0 <= i < |pairs| ==> pairs[i].0 != key
    ensures r.Some? ==> (key, r.value) in pairs
  {
    match IndexOf(pairs, key)
    case None => None
    case Some(i) => Some(pairs[i].1)
  }

  /** The first entry with a key is the one `hash[key]` finds. */
  lemma LookupFirst<K, V>(pairs: seq<(K, V)>, i: nat)
    requires i < |pairs|
    requires forall j :: 0 <= j < i ==> pairs[j].0 != pairs[i].0
    ensures Lookup(pairs, pairs[i].0) == Some(pairs[i].1)
  {
    var r := IndexOf(pairs, pairs[i].0);
    assert r.Some?;
    assert r.value == i;
  }

  /** `hash.select { |_, v| keep(v) }.keys`: the keys of the kept entries, in order. */
  function KeysWhere<K, V>(pairs: seq<(K, V)>, keep: V -> bool): (r: seq<K>)
    ensures |r| <= |pairs|
  {
    if pairs == [] then []
    else
      var last := pairs[|pairs| - 1];
      KeysWhere(pairs[..|pairs| - 1], keep) + (if keep(last.1) then [last.0] else [])
  }

  /** Selection keeps the order of the entries. */
  lemma {:induction false} KeysWhereAppend<K, V>(a: seq<(K, V)>, b: seq<(K, V)>, keep: V -> bool)
    ensures KeysWhere(a + b, keep) == KeysWhere(a, keep) + KeysWhere(b, keep)
  {
    if b == [] {
      assert a + b == a;
    } else {
      DropLastOfConcat(a, b);
      KeysWhereAppend(a, b[..|b| - 1], keep);
      assert (a + b)[|a + b| - 1] == b[|b| - 1];
      Assoc(KeysWhere(a, keep), KeysWhere(b[..|b| - 1], keep), (if keep(b[|b| - 1].1) then [b[|b| - 1].0] else []));
    }
  }

  /** A key is selected exactly when some entry with that key is kept. */
  lemma {:induction false} KeysWhereMembership<K, V>(pairs: seq<(K, V)>, keep: V -> bool, key: K)
    ensures key in KeysWhere(pairs, keep) <==>
      exists i :: 0 <= i < |pairs| && pairs[i].0 == key && keep(pairs[i].1)
  {
    if pairs != [] {
      var init := pairs[..|pairs| - 1];
      KeysWhereMembership(init, keep, key);
      if exists i :: 0 <= i < |pairs| && pairs[i].0 == key && keep(pairs[i].1) {
        var i :| 0 <= i < |pairs| && pairs[i].0 == key && keep(pairs[i].1);
        if i < |pairs| - 1 {
          assert init[i] == pairs[i];
        }
      }
      if exists i :: 0 <= i < |init| && init[i].0 == key && keep(init[i].1) {
        var i :| 0 <= i < |init| && init[i].0 == key && keep(init[i].1);
        assert pairs[i] == init[i];
      }
    }
  }

  /** BUSINESS_REGIONS: colo region name to short business-region code. */
  const BusinessRegions: seq<(string, string)> := [
    ("North America", "na"),
    ("South America", "latam"),
    ("Europe", "eu"),
    ("Africa", "afr"),
    ("Middle East", "me"),
    ("Asia Pacific", "apac"),
    ("Asia", "apac"),
    ("Oceania", "apac"),
    ("Test", "test")
  ]

  /** `BUSINESS_REGIONS.values.include?(code)`. */
  predicate IsBusinessCode(code: string) {
    exists i :: 0 <= i < |BusinessRegions| && BusinessRegions[i].1 == code
  }

  /** `BUSINESS_REGIONS[name]`, where a missing name (nil) maps to nil. */
  function BusinessRegionOf(name: Option<string>): (r: Option<string>)
    ensures r.Some? ==> IsBusinessCode(r.value)
  {
    match name
    case None => None
    case Some(n) =>
      var r := Lookup(BusinessRegions, n);
      assert r.Some? ==> (n, r.value) in BusinessRegions;
      r
  }

  /** One entry of GCP_REGIONS. */
  datatype GcpRegion = GcpRegion(key: string, lat: real, long: real, city: string)

  /** GCP_REGIONS, in declaration order (the order `each` visits them). */
  const GcpRegions: seq<GcpRegion> := [
    GcpRegion("us-west1", 45.5946, -122.6819, "Portland, OR, US"),
    GcpRegion("us-west2", 34.0489, -118.2529, "Los Angeles, CA, US"),
    GcpRegion("us-west3", 39.7392, -104.9903, "Denver, CO, US"),
    GcpRegion("us-west4", 40.7608, -111.8910, "Salt Lake City, UT, US"),
    GcpRegion("us-south1", 32.7767, -96.7970, "Dallas, TX, US"),
    GcpRegion("us-east1", 33.8361, -81.1637, "Moncks Corner, SC, US"),
    GcpRegion("us-east4", 39.0438, -77.4874, "Ashburn, VA, US"),
    GcpRegion("us-east5", 36.8508, -76.2859, "Norfolk, VA, US"),
    GcpRegion("us-central1", 41.2586, -95.9378, "Council Bluffs, IA, US"),
    GcpRegion("southamerica-west1", -12.0464, -77.0428, "Lima, Peru"),
    GcpRegion("southamerica-east1", -23.5505, -46.6333, "São Paulo, Brazil"),
    GcpRegion("northamerica-northeast1", 45.5017, -73.5673, "Montreal, QC, CA"),
    GcpRegion("northamerica-northeast2", 43.6532, -79.3832, "Toronto, ON, CA"),
    GcpRegion("me-west1", 31.7683, 35.2137, "Tel Aviv, Israel"),
    GcpRegion("me-central1", 25.276987, 55.296249, "Dubai, UAE"),
    GcpRegion("me-central2", 24.7136, 46.6753, "Riyadh, Saudi Arabia"),
    GcpRegion("europe-west1", 53.3331, -6.2489, "Dublin, Ireland"),
    GcpRegion("europe-west2", 51.5072, -0.1276, "London, UK"),
    GcpRegion("europe-west3", 50.1109, 8.6821, "Frankfurt, Germany"),
    GcpRegion("europe-west4", 48.8566, 2.3522, "Paris, France"),
    GcpRegion("europe-west6", 47.3769, 8.5417, "Zurich, Switzerland"),
    GcpRegion("europe-west8", 53.5511, 9.9937, "Hamburg, Germany"),
    GcpRegion("europe-west9", 52.5200, 13.4050, "Berlin, Germany"),
    GcpRegion("europe-west10", 59.3293, 18.0686, "Stockholm, Sweden"),
    GcpRegion("europe-west12", 41.9028, 12.4964, "Rome, Italy"),
    GcpRegion("europe-southwest1", 40.4168, -3.7038, "Madrid, Spain"),
    GcpRegion("europe-north1", 60.1699, 24.9384, "Helsinki, Finland"),
    GcpRegion("europe-central2", 52.2297, 21.0122, "Warsaw, Poland"),
    GcpRegion("australia-southeast1", -33.8688, 151.2093, "Sydney, Australia"),
    GcpRegion("australia-southeast2", -37.8136, 144.9631, "Melbourne, Australia"),
    GcpRegion("asia-southeast1", 1.3521, 103.8198, "Singapore, Singapore"),
    GcpRegion("asia-southeast2", -6.2088, 106.8456, "Jakarta, Indonesia"),
    GcpRegion("asia-south1", 19.0760, 72.8777, "Mumbai, India"),
    GcpRegion("asia-south2", 12.9716, 77.5946, "Bangalore, India"),
    GcpRegion("asia-northeast1", 35.6895, 139.6917, "Tokyo, Japan"),
    GcpRegion("asia-northeast2", 37.5665, 126.9780, "Seoul, South Korea"),
    GcpRegion("asia-northeast3", 22.3964, 114.1095, "Hong Kong, Hong Kong"),
    GcpRegion("asia-east1", 25.0330, 121.5654, "Taipei, Taiwan"),
    GcpRegion("asia-east2", 23.1291, 113.2644, "Guangzhou, China"),
    GcpRegion("africa-south1", -26.2041, 28.0473, "Johannesburg, South Africa")
  ]

  /** An index into GCP_REGIONS. */
  type GcpIndex = i: nat | i < |GcpRegions|
}

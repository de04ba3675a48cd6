/**
 * What the collector traces: the targets given with `--targets`, the check
 * that exactly one of `--colos` and `--region` is given, and the colos a
 * business region selects from the colo table.
 */
module Selection {
  import opened Wrappers
  import opened RubyStrings
  import opened Catalog

  // ---------------------------------------------------------------------
  // Targets (lines 12-14, 97-103)
  // ---------------------------------------------------------------------

  /** One trace target; `ip` is nil when the entry held nothing but colons. */
  datatype Target = Target(ip: Option<string>, name: string, domain: string)

  /** DEFAULT_TARGETS. */
  const DefaultTargets: seq<Target> := [Target(Some("1.1.1.1"), "cf-global-dns", "one.one.one.one")]

  /**
   * One `--targets` entry: split on ':', take the first three fields, and
   * default a missing name or domain to 'unknown'. Extra fields are ignored.
   */
  function ParseTarget(entry: string): (t: Target)
    ensures t.ip.None? <==> forall k :: 0 <= k < |entry| ==> entry[k] == ':'
    ensures t.ip.Some? ==> ':' !in t.ip.value
    ensures t.name != "unknown" ==> ':' !in t.name
    ensures t.domain != "unknown" ==> ':' !in t.domain
  {
    var parts := Split(entry, ':');
    Target(
      if |parts| > 0 then Some(parts[0]) else None,
      if |parts| > 1 then parts[1] else "unknown",
      if |parts| > 2 then parts[2] else "unknown")
  }

  /** The `ip:name:domain` form an entry is written in. */
  function FormatTarget(ip: string, name: string, domain: string): string {
    Join([ip, name, domain], ':')
  }

  /** An entry written as `ip:name:domain` parses back to its three parts. */
  lemma ParseFormatted(ip: string, name: string, domain: string)
    requires ':' !in ip && ':' !in name && ':' !in domain && domain != ""
    ensures FormatTarget(ip, name, domain) == ip + [':'] + name + [':'] + domain
    ensures ParseTarget(FormatTarget(ip, name, domain)) == Target(Some(ip), name, domain)
  {
    var fs := [ip, name, domain];
    assert fs[1..][1..] == [domain];
    assert Join(fs[1..], ':') == name + [':'] + domain;
    SplitOfJoin(fs, ':');
  }

  /**
   * Any entry of colon-free fields (the last non-empty), followed by any
   * number of trailing colons, yields its first field as the IP and its
   * second and third as name and domain when present: fields left empty at
   * the end, as in "1.1.1.1:cf:" or "1.1.1.1::", become 'unknown'.
   */
  lemma ParseFields(fs: seq<string>, k: nat)
    requires |fs| >= 1 && fs[|fs| - 1] != ""
    requires forall i :: 0 <= i < |fs| ==> ':' !in fs[i]
    ensures ParseTarget(Join(fs + EmptyFields(k), ':')) ==
      Target(Some(fs[0]), if |fs| > 1 then fs[1] else "unknown", if |fs| > 2 then fs[2] else "unknown")
  {
    SplitOfJoinTrailing(fs, k, ':');
  }

  /** "ip:name:" keeps the name and leaves the domain 'unknown'. */
  lemma ParseEmptyDomain(ip: string, name: string)
    requires ':' !in ip && ':' !in name && name != ""
    ensures ParseTarget(ip + [':'] + name + [':']) == Target(Some(ip), name, "unknown")
  {
    var fs := [ip, name];
    assert fs + EmptyFields(1) == fs + [""];
    JoinSnoc(fs, "", ':');
    assert Join(fs, ':') == ip + [':'] + name by {
      assert fs[1..] == [name];
    }
    assert ip + [':'] + name + [':'] + "" == ip + [':'] + name + [':'];
    ParseFields(fs, 1);
  }

  /** A bare IP gets 'unknown' for both name and domain. */
  lemma ParseBareIp(ip: string)
    requires ':' !in ip && ip != ""
    ensures ParseTarget(ip) == Target(Some(ip), "unknown", "unknown")
  {
    SplitOfPlain(ip, ':');
  }

  /** `--targets`: one target per entry, in the order given. */
  function ParseTargets(entries: seq<string>): (ts: seq<Target>)
    ensures |ts| == |entries|
    ensures forall i :: 0 <= i < |entries| ==> ts[i] == ParseTarget(entries[i])
  {
    if entries == [] then [] else [ParseTarget(entries[0])] + ParseTargets(entries[1..])
  }

  /** The targets traced: those parsed from `--targets`, or DEFAULT_TARGETS when it is absent. */
  function ResolveTargets(entries: Option<seq<string>>): (ts: seq<Target>)
    ensures entries.Some? ==> |ts| == |entries.value|
    ensures entries.Some? ==> forall i :: 0 <= i < |entries.value| ==> ts[i] == ParseTarget(entries.value[i])
    ensures entries.None? ==> ts == DefaultTargets
  {
    match entries
    case None => DefaultTargets
    case Some(es) => ParseTargets(es)
  }

  /** The default target is what `--targets 1.1.1.1:cf-global-dns:one.one.one.one` would give. */
  lemma DefaultIsParsed()
    ensures ResolveTargets(None) == [ParseTarget(FormatTarget("1.1.1.1", "cf-global-dns", "one.one.one.one"))]
  {
    ParseFormatted("1.1.1.1", "cf-global-dns", "one.one.one.one");
  }

  // ---------------------------------------------------------------------
  // The option check (lines 118-122)
  // ---------------------------------------------------------------------

  /** Where the colo list comes from once the options are checked. */
  datatype ColoSource = ByColos(colos: seq<string>) | ByRegion(region: string)

  const BothGiven := "Specify either --colos or --region, but not both."
  const NeitherGiven := "Specify at least one of --colos or --region."

  /** Exactly one of `--colos` and `--region` must be given; otherwise the script raises. */
  function CheckOptions(colos: Option<seq<string>>, region: Option<string>): (r: Result<ColoSource, string>)
    ensures r.Ok? <==> colos.Some? != region.Some?
    ensures r.Ok? && colos.Some? ==> r.value == ByColos(colos.value)
    ensures r.Ok? && region.Some? ==> r.value == ByRegion(region.value)
    ensures colos.Some? && region.Some? ==> r == Err(BothGiven)
    ensures colos.None? && region.None? ==> r == Err(NeitherGiven)
  {
    if colos.Some? && region.Some? then Err(BothGiven)
    else if colos.None? && region.None? then Err(NeitherGiven)
    else if colos.Some? then Ok(ByColos(colos.value))
    else Ok(ByRegion(region.value))
  }

  // ---------------------------------------------------------------------
  // Colo table and selection by region (lines 149-156, 307-309)
  // ---------------------------------------------------------------------

  /** One entry of the colo table: the keys the collector reads, each possibly missing. */
  datatype ColoInfo = ColoInfo(
    region: Option<string>,
    city: Option<string>,
    country: Option<string>,
    lat: Option<real>,
    lon: Option<real>)

  /** The colo table, keyed by colo code, in file order. */
  type ColoTable = seq<(string, ColoInfo)>

  /** A colo belongs to a business region when its region name maps to that code. */
  predicate InRegion(info: ColoInfo, short: string) {
    BusinessRegionOf(info.region) == Some(short)
  }

  /** The `select ... .keys` of fetch_colos_by_region: matching keys, in table order. */
  function CodesInRegion(table: ColoTable, short: string): (r: seq<string>)
    ensures |r| <= |table|
  {
    KeysWhere(table, info => InRegion(info, short))
  }

  const InvalidRegion := "Invalid region: "

  /** fetch_colos_by_region: raises on a short code that is no business region. */
  function FetchColosByRegion(table: ColoTable, short: string): (r: Result<seq<string>, string>)
    ensures r.Err? <==> !IsBusinessCode(short)
    ensures r.Err? ==> r.error == InvalidRegion + short
    ensures r.Ok? ==> r.value == CodesInRegion(table, short)
  {
    if IsBusinessCode(short) then Ok(CodesInRegion(table, short)) else Err(InvalidRegion + short)
  }

  /** Table order is kept: the codes of earlier entries come first. */
  lemma CodesInRegionAppend(a: ColoTable, b: ColoTable, short: string)
    ensures CodesInRegion(a + b, short) == CodesInRegion(a, short) + CodesInRegion(b, short)
  {
    KeysWhereAppend(a, b, info => InRegion(info, short));
  }

  /** A code is selected exactly when some entry with that key lies in the region. */
  lemma CodesInRegionMembership(table: ColoTable, short: string, code: string)
    ensures code in CodesInRegion(table, short) <==>
      exists i :: 0 <= i < |table| && table[i].0 == code && InRegion(table[i].1, short)
  {
    KeysWhereMembership(table, info => InRegion(info, short), code);
  }

  /** Entries without a region, or with a region name outside the catalog, are never selected. */
  lemma UnmappedNeverSelected(info: ColoInfo, short: string)
    requires info.region.None? || forall i :: 0 <= i < |BusinessRegions| ==> BusinessRegions[i].0 != info.region.value
    ensures !InRegion(info, short)
  {
  }

  /**
   * Each name of BUSINESS_REGIONS, at its first occurrence, maps to the code
   * written beside it, so an entry with that region is selected for that code.
   */
  lemma RegionOfEntry(i: nat)
    requires i < |BusinessRegions|
    requires forall j :: 0 <= j < i ==> BusinessRegions[j].0 != BusinessRegions[i].0
    ensures BusinessRegionOf(Some(BusinessRegions[i].0)) == Some(BusinessRegions[i].1)
    ensures InRegion(ColoInfo(Some(BusinessRegions[i].0), None, None, None, None), BusinessRegions[i].1)
  {
    LookupFirst(BusinessRegions, i);
  }

  /** The colo list to trace: `--colos` as given, or the colos of `--region` (lines 307-309). */
  function ResolveColos(source: ColoSource, table: ColoTable): (r: Result<seq<string>, string>)
    ensures source.ByColos? ==> r == Ok(source.colos)
    ensures source.ByRegion? ==> r == FetchColosByRegion(table, source.region)
  {
    match source
    case ByColos(colos) => Ok(colos)
    case ByRegion(region) => FetchColosByRegion(table, region)
  }
}

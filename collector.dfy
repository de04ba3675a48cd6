/**
 * The main collection loop: for every requested colo found in the colo
 * table and every target, fetch one traceroute and turn it into a summary
 * row, or into a skipped row when there was no usable response.
 */
module Collector {
  import opened Wrappers
  import opened SeqFacts
  import opened Numerics
  import opened RubyStrings
  import opened Catalog
  import opened Geo
  import opened Traceroute
  import opened FinalHop
  import opened HopStats
  import opened Selection

  // ---------------------------------------------------------------------
  // The environment
  // ---------------------------------------------------------------------

  /** What `Net::HTTP.get` gives for one URI: a body, or an exception that ends the script. */
  datatype HttpReply = Body(text: Option<string>) | TransportError

  /**
   * The collaborators the loop calls and the two options it reads: the API
   * base URI, `--target-is-gcp`, the HTTP fetch, `JSON.parse` (None when it
   * raises), the geolocation lookup, the haversine formula and `Math.sqrt`.
   */
  datatype Env = Env(
    tracerouteUri: string,
    targetIsGcp: bool,
    fetch: string -> HttpReply,
    parse: string -> Option<TraceDoc>,
    geoLookup: GeoLookup,
    haversine: Haversine,
    sqrt: Sqrt)

  /** The exceptions that end the script in the middle of the loop. */
  datatype Crash =
    | HttpFailure      // Net::HTTP.get raises (line 327)
    | NoColoResult     // result[0].colos[0] is nil (lines 345-346)
    | NoColoMeta       // colos_data['colo'] is nil (lines 350-351)
    | NoHops           // colos_data['hops'] is nil (lines 356, 200)
    | NoHopsToAverage  // hops is empty: division by zero (lines 366, 252)
    | NoTargetSummary  // colos_data['target_summary'] is nil (line 372)

  // ---------------------------------------------------------------------
  // Rows
  // ---------------------------------------------------------------------

  /** One row of traceroute_summary.csv; a None stands for the 'unknown' the code writes. */
  datatype CsvRow = CsvRow(
    startRegion: string,
    startColo: string,
    traceTarget: string,
    rttMs: int,
    hopsCount: nat,
    startCity: string,
    approxFinalHop: string,
    approxNearestGcp: string,
    targetDistanceKm: Distance,
    approxGcpCity: string,
    startSubcolo: string,
    targetIp: Option<string>,
    targetDomain: string,
    tracerouteTimeMs: Option<real>,
    traceroutePacketCount: Option<int>,
    minRttMs: real,
    maxRttMs: real,
    stdDevRttMs: real,
    coloLat: real,
    coloLong: real,
    coloCountry: Option<string>,
    targetLat: Coord,
    targetLong: Coord,
    targetCountry: string,
    congestedHops: seq<CongestedEntry>,
    slowestHops: seq<SlowEntry>)

  /** One row of skipped_colos.csv. */
  datatype SkippedRow = SkippedRow(
    startRegion: string,
    startColo: string,
    traceTarget: string,
    targetIp: Option<string>,
    targetDomain: string,
    skippedReason: string)

  const NoTracerouteResponse := "no_traceroute_response"

  /** `BUSINESS_REGIONS[colo_info['region']] || 'unknown'`. */
  function RegionShort(info: ColoInfo): (r: string)
    ensures r == "unknown" || IsBusinessCode(r)
    ensures r == "unknown" <==> BusinessRegionOf(info.region).None?
  {
    var code := BusinessRegionOf(info.region);
    assert code.Some? ==> code.value != "unknown" by {
      if code.Some? {
        var i :| 0 <= i < |BusinessRegions| && BusinessRegions[i].1 == code.value;
      }
    }
    code.GetOr("unknown")
  }

  /**
   * The country of a colo: the last comma part of its city, stripped, when
   * `split(',')` gives more than one part; otherwise the colo table's country.
   */
  function ColoCountry(cityFull: string, infoCountry: Option<string>): (r: Option<string>)
    ensures r == infoCountry || (r.Some? && ',' !in r.value && (r.value == [] || (!IsSpace(r.value[0]) && !IsSpace(r.value[|r.value| - 1]))))
  {
    var parts := Split(cityFull, ',');
    if |parts| > 1 then Some(Strip(parts[|parts| - 1])) else infoCountry
  }

  /** A city of two or more comma-free parts gives its last part, stripped. */
  lemma CountryOfLastPart(fs: seq<string>, infoCountry: Option<string>)
    requires |fs| >= 2 && fs[|fs| - 1] != ""
    requires forall i :: 0 <= i < |fs| ==> ',' !in fs[i]
    ensures ColoCountry(Join(fs, ','), infoCountry) == Some(Strip(fs[|fs| - 1]))
  {
    var city := Join(fs, ',');
    assert Split(city, ',') == fs by {
      SplitOfJoin(fs, ',');
    }
    CountryOfParts(city, fs, infoCountry);
  }

  /** With more than one comma part, the country is the last part stripped. */
  lemma CountryOfParts(city: string, parts: seq<string>, infoCountry: Option<string>)
    requires Split(city, ',') == parts && |parts| > 1
    ensures ColoCountry(city, infoCountry) == Some(Strip(parts[|parts| - 1]))
  {
  }

  /** "City, CC" and "City, State, CC" give "CC", whatever the padding after the last comma. */
  lemma CountryAfterComma(parts: seq<string>, pad: string, country: string, infoCountry: Option<string>)
    requires |parts| >= 1 && forall i :: 0 <= i < |parts| ==> ',' !in parts[i]
    requires ',' !in pad + country
    requires forall i :: 0 <= i < |pad| ==> IsSpace(pad[i])
    requires country != [] && !IsSpace(country[0]) && !IsSpace(country[|country| - 1])
    ensures ColoCountry(Join(parts + [pad + country], ','), infoCountry) == Some(country)
  {
    StripLeftPadded(pad, country);
    CountryOfStrippedLast(parts, pad + country, country, infoCountry);
  }

  /** A last comma part that strips to `country` gives `country`. */
  lemma CountryOfStrippedLast(parts: seq<string>, last: string, country: string, infoCountry: Option<string>)
    requires |parts| >= 1 && forall i :: 0 <= i < |parts| ==> ',' !in parts[i]
    requires ',' !in last && last != "" && Strip(last) == country
    ensures ColoCountry(Join(parts + [last], ','), infoCountry) == Some(country)
  {
    PartsFree(parts, last);
    CountryOfLastPart(parts + [last], infoCountry);
  }

  /** One more comma-free part keeps the parts comma-free. */
  lemma PartsFree(parts: seq<string>, last: string)
    requires forall i :: 0 <= i < |parts| ==> ',' !in parts[i]
    requires ',' !in last
    ensures forall i :: 0 <= i < |parts + [last]| ==> ',' !in (parts + [last])[i]
  {
    var fs := parts + [last];
    forall i | 0 <= i < |fs| ensures ',' !in fs[i] {
      if i < |parts| {
        assert fs[i] == parts[i];
      }
    }
  }

  /** Stripping a word padded on the left only removes the padding. */
  lemma StripLeftPadded(pad: string, country: string)
    requires forall i :: 0 <= i < |pad| ==> IsSpace(pad[i])
    requires country != [] && !IsSpace(country[0]) && !IsSpace(country[|country| - 1])
    ensures Strip(pad + country) == country
  {
    StripPadded(pad, country, "");
    assert pad + country + "" == pad + country;
  }

  /** A comma after a comma-free city splits into one part, so the table's country stays. */
  lemma CountryTrailingComma(city: string, infoCountry: Option<string>)
    requires ',' !in city && city != ""
    ensures ColoCountry(city + [','], infoCountry) == infoCountry
  {
    SplitTrailing(city, ',');
    SplitOfPlain(city, ',');
  }

  /** A city without a comma leaves the colo table's country. */
  lemma CountryWithoutComma(cityFull: string, infoCountry: Option<string>)
    requires ',' !in cityFull
    ensures ColoCountry(cityFull, infoCountry) == infoCountry
  {
    if cityFull != "" {
      SplitOfPlain(cityFull, ',');
    }
  }

  /** The traceroute API URI for one colo and target (`#{nil}` is empty). */
  function TraceUri(base: string, coloName: string, ip: Option<string>): string {
    base + "?colos=" + coloName + "&targets=" + ip.GetOr("")
  }

  /** The nearest GCP region of the final hop, when the target is a GCP address. */
  function NearestFor(env: Env, geo: GeoInfo): GcpMatch {
    if env.targetIsGcp then NearestGcpRegion(geo.lat, geo.long, env.haversine) else NotApplicable
  }

  /** The summary row, from the pieces computed for one pair. */
  function BuildRow(env: Env, coloName: string, info: ColoInfo, target: Target,
                    hops: seq<Hop>, summary: TargetSummary, meta: ColoMeta, timeMs: Option<real>,
                    geo: GeoInfo, nearest: GcpMatch,
                    congested: seq<CongestedEntry>, slowest: seq<SlowEntry>): (row: CsvRow)
    ensures row.hopsCount == |hops|
    ensures row.rttMs == Truncate(summary.meanRttMs.GetOr(0.0))
    ensures row.startRegion == RegionShort(info) && row.startColo == coloName
    ensures row.approxNearestGcp == nearest.Name() && row.approxGcpCity == nearest.City()
    ensures row.targetDistanceKm.UnknownDistance? <==> geo.lat.Unknown? || geo.long.Unknown?
    ensures row.startCity == meta.city.GetOr(info.city.GetOr("unknown"))
    ensures row.coloCountry == ColoCountry(row.startCity, info.country)
  {
    var cityFull := meta.city.GetOr(info.city.GetOr("unknown"));
    CsvRow(
      RegionShort(info), coloName, target.name,
      Truncate(summary.meanRttMs.GetOr(0.0)),
      |hops|, cityFull, geo.city, nearest.Name(),
      OrthodromicDistance(Known(info.lat.GetOr(0.0)), Known(info.lon.GetOr(0.0)), geo.lat, geo.long, env.haversine),
      nearest.City(), meta.name.GetOr("unknown"), target.ip, target.domain,
      timeMs, summary.packetCount,
      Round2(summary.minRttMs.GetOr(0.0)), Round2(summary.maxRttMs.GetOr(0.0)), Round2(summary.stdDevRttMs.GetOr(0.0)),
      Round2(info.lat.GetOr(0.0)), Round2(info.lon.GetOr(0.0)),
      ColoCountry(cityFull, info.country),
      geo.lat, geo.long, geo.country,
      congested, slowest)
  }

  // ---------------------------------------------------------------------
  // One (colo, target) pair
  // ---------------------------------------------------------------------

  /** What one pair adds: a summary row, a skipped row, or the exception that ends the run. */
  datatype PairOutcome = Recorded(row: CsvRow) | Skipped(skipped: SkippedRow) | Aborted(crash: Crash)

  /** `response.nil? || response.empty?`. */
  predicate NoResponse(text: Option<string>) {
    text.None? || text.value == ""
  }

  /** The `result` list of a usable response; None when the pair is skipped. */
  function ResultOf(env: Env, text: Option<string>): (r: Option<seq<ResultBlock>>)
    ensures r.Some? <==> !NoResponse(text) && env.parse(text.value).Some? && env.parse(text.value).value.result.Some?
  {
    if NoResponse(text) then None
    else match env.parse(text.value)
      case None => None
      case Some(doc) => doc.result
  }

  /** The outcome once the response has a `result` (lines 345-397). */
  function RecordOutcome(env: Env, coloName: string, info: ColoInfo, target: Target, result: seq<ResultBlock>): PairOutcome {
    match FirstColoResult(result)
    case None => Aborted(NoColoResult)
    case Some(cr) =>
      if cr.colo.None? then Aborted(NoColoMeta)
      else if cr.hops.None? then Aborted(NoHops)
      else if |cr.hops.value| == 0 then Aborted(NoHopsToAverage)
      else if cr.targetSummary.None? then Aborted(NoTargetSummary)
      else
        var hops := cr.hops.value;
        var geo := FinalHopGeo(hops, env.geoLookup);
        Recorded(BuildRow(env, coloName, info, target, hops, cr.targetSummary.value, cr.colo.value, cr.tracerouteTimeMs,
          geo, NearestFor(env, geo), CongestedHops(hops), SlowestHops(hops, SlowThreshold(hops, env.sqrt))))
  }

  /** One known colo and one target. */
  datatype Pair = Pair(colo: string, info: ColoInfo, target: Target)

  /** The body of the inner loop (lines 324-397), as a value. */
  function PairOutcomeOf(env: Env, p: Pair): PairOutcome {
    var coloName := Downcase(p.colo);
    var region := RegionShort(p.info);
    match env.fetch(TraceUri(env.tracerouteUri, coloName, p.target.ip))
    case TransportError => Aborted(HttpFailure)
    case Body(text) =>
      match ResultOf(env, text)
      case None => Skipped(SkippedRow(region, coloName, p.target.name, p.target.ip, p.target.domain, NoTracerouteResponse))
      case Some(result) => RecordOutcome(env, coloName, p.info, p.target, result)
  }

  /**
   * A pair is skipped exactly when the fetch returned and the response was
   * nil or empty, did not parse, or had no `result`; the skipped row names
   * the colo and target and carries 'no_traceroute_response'.
   */
  lemma SkippedExactly(env: Env, p: Pair)
    ensures PairOutcomeOf(env, p).Skipped? <==>
      match env.fetch(TraceUri(env.tracerouteUri, Downcase(p.colo), p.target.ip))
      case TransportError => false
      case Body(text) => NoResponse(text) || env.parse(text.value).None? || env.parse(text.value).value.result.None?
    ensures PairOutcomeOf(env, p).Skipped? ==>
      PairOutcomeOf(env, p).skipped ==
        SkippedRow(RegionShort(p.info), Downcase(p.colo), p.target.name, p.target.ip, p.target.domain, "no_traceroute_response")
  {
  }

  /**
   * A usable response is recorded exactly when its first colo result has
   * metadata, a non-empty hop list and a target summary; the row then
   * counts the hops and truncates the mean RTT.
   */
  lemma RecordedExactly(env: Env, coloName: string, info: ColoInfo, target: Target, result: seq<ResultBlock>)
    ensures RecordOutcome(env, coloName, info, target, result).Recorded? <==>
      FirstColoResult(result).Some? && FirstColoResult(result).value.colo.Some? &&
      FirstColoResult(result).value.hops.Some? && |FirstColoResult(result).value.hops.value| > 0 &&
      FirstColoResult(result).value.targetSummary.Some?
    ensures RecordOutcome(env, coloName, info, target, result).Recorded? ==>
      var cr := FirstColoResult(result).value;
      var row := RecordOutcome(env, coloName, info, target, result).row;
      row.hopsCount == |cr.hops.value| && row.rttMs == Truncate(cr.targetSummary.value.meanRttMs.GetOr(0.0)) &&
      row.congestedHops == CongestedHops(cr.hops.value) &&
      row.approxFinalHop == FinalHopGeo(cr.hops.value, env.geoLookup).city
    ensures !RecordOutcome(env, coloName, info, target, result).Skipped?
  {
  }

  /** The pieces of the pair body that call methods (lines 345-397). */
  method RecordPair(env: Env, coloName: string, info: ColoInfo, target: Target, result: seq<ResultBlock>)
    returns (o: PairOutcome)
    ensures o == RecordOutcome(env, coloName, info, target, result)
  {
    var coloData := FirstColoResult(result);
    if coloData.None? {
      return Aborted(NoColoResult);
    }
    var cr := coloData.value;
    if cr.colo.None? {
      return Aborted(NoColoMeta);
    }
    if cr.hops.None? {
      return Aborted(NoHops);
    }
    var hops := cr.hops.value;
    var finalGeo, _ := InferFinalHopGeo(hops, target.ip, env.geoLookup);
    var nearest := NotApplicable;
    if env.targetIsGcp {
      nearest := MapGcpRegion(finalGeo.lat, finalGeo.long, env.haversine);
    }
    if |hops| == 0 {
      return Aborted(NoHopsToAverage);
    }
    var congested, slowest := CollectHopData(hops, env.sqrt);
    if cr.targetSummary.None? {
      return Aborted(NoTargetSummary);
    }
    o := Recorded(BuildRow(env, coloName, info, target, hops, cr.targetSummary.value, cr.colo.value, cr.tracerouteTimeMs,
      finalGeo, nearest, congested, slowest));
  }

  /** The body of the inner loop for one pair. */
  method ProcessPair(env: Env, p: Pair) returns (o: PairOutcome)
    ensures o == PairOutcomeOf(env, p)
  {
    var coloName := Downcase(p.colo);
    var region := RegionShort(p.info);
    var reply := env.fetch(TraceUri(env.tracerouteUri, coloName, p.target.ip));
    if reply.TransportError? {
      return Aborted(HttpFailure);
    }
    var response := reply.text;
    var noResponse := response.None? || response.value == "";
    var traceroute: Option<TraceDoc> := None;
    if !noResponse {
      traceroute := env.parse(response.value);
    }
    if noResponse || traceroute.None? || traceroute.value.result.None? {
      return Skipped(SkippedRow(region, coloName, p.target.name, p.target.ip, p.target.domain, NoTracerouteResponse));
    }
    o := RecordPair(env, coloName, p.info, p.target, traceroute.value.result.value);
  }

  // ---------------------------------------------------------------------
  // The pairs, in loop order
  // ---------------------------------------------------------------------

  /** The pairs of one colo: one per target, in target order. */
  function ColoPairs(colo: string, info: ColoInfo, targets: seq<Target>): (ps: seq<Pair>)
    ensures |ps| == |targets|
    ensures forall j :: 0 <= j < |targets| ==> ps[j] == Pair(colo, info, targets[j])
  {
    seq(|targets|, j requires 0 <= j < |targets| => Pair(colo, info, targets[j]))
  }

  /** `cf_colos[colo]`, as the entry the loop visits: none for an unknown colo. */
  function KnownEntry(table: ColoTable, colo: string): (r: seq<(string, ColoInfo)>)
    ensures |r| <= 1
    ensures r == [] <==> Lookup(table, colo).None?
    ensures r != [] ==> r == [(colo, Lookup(table, colo).value)]
  {
    match Lookup(table, colo)
    case None => []
    case Some(info) => [(colo, info)]
  }

  /** The requested colos found in the table, with their entries, in request order. */
  function KnownColos(colos: seq<string>, table: ColoTable): seq<(string, ColoInfo)> {
    if colos == [] then []
    else KnownColos(colos[..|colos| - 1], table) + KnownEntry(table, colos[|colos| - 1])
  }

  /** The pairs of a run of known colos, colo-major, target-minor. */
  function PairsOf(known: seq<(string, ColoInfo)>, targets: seq<Target>): seq<Pair> {
    if known == [] then []
    else
      var last := known[|known| - 1];
      PairsOf(known[..|known| - 1], targets) + ColoPairs(last.0, last.1, targets)
  }

  /** Every pair the loop visits: unknown colos are left out. */
  function Pairs(colos: seq<string>, table: ColoTable, targets: seq<Target>): seq<Pair> {
    PairsOf(KnownColos(colos, table), targets)
  }

  /** A colo is visited exactly when it is requested and found in the table. */
  lemma {:induction false} KnownColosMembership(colos: seq<string>, table: ColoTable, colo: string, info: ColoInfo)
    ensures (colo, info) in KnownColos(colos, table) <==> colo in colos && Lookup(table, colo) == Some(info)
  {
    if colos != [] {
      var init := colos[..|colos| - 1];
      var last := colos[|colos| - 1];
      KnownColosMembership(init, table, colo, info);
      assert colos == init + [last];
      assert colo in colos <==> colo in init || colo == last;
    }
  }

  /** Request order is kept among the known colos. */
  lemma {:induction false} KnownColosAppend(a: seq<string>, b: seq<string>, table: ColoTable)
    ensures KnownColos(a + b, table) == KnownColos(a, table) + KnownColos(b, table)
  {
    if b == [] {
      assert a + b == a;
    } else {
      DropLastOfConcat(a, b);
      KnownColosAppend(a, b[..|b| - 1], table);
      assert (a + b)[|a + b| - 1] == b[|b| - 1];
      Assoc(KnownColos(a, table), KnownColos(b[..|b| - 1], table), KnownEntry(table, b[|b| - 1]));
    }
  }

  /** Colo order is kept among the pairs. */
  lemma {:induction false} PairsOfAppend(a: seq<(string, ColoInfo)>, b: seq<(string, ColoInfo)>, targets: seq<Target>)
    ensures PairsOf(a + b, targets) == PairsOf(a, targets) + PairsOf(b, targets)
  {
    if b == [] {
      assert a + b == a;
    } else {
      DropLastOfConcat(a, b);
      PairsOfAppend(a, b[..|b| - 1], targets);
      assert (a + b)[|a + b| - 1] == b[|b| - 1];
      Assoc(PairsOf(a, targets), PairsOf(b[..|b| - 1], targets), ColoPairs(b[|b| - 1].0, b[|b| - 1].1, targets));
    }
  }

  /** The loop visits |targets| pairs for every known colo. */
  lemma {:induction false} PairsOfCount(known: seq<(string, ColoInfo)>, targets: seq<Target>)
    ensures |PairsOf(known, targets)| == |known| * |targets|
  {
    if known != [] {
      PairsOfCount(known[..|known| - 1], targets);
      assert (|known| - 1) * |targets| + |targets| == |known| * |targets|;
    }
  }

  /** Pair i * |targets| + j is known colo i with target j. */
  lemma {:induction false} PairsOfOrder(known: seq<(string, ColoInfo)>, targets: seq<Target>, i: nat, j: nat)
    requires i < |known| && j < |targets|
    ensures i * |targets| + j < |PairsOf(known, targets)|
    ensures PairsOf(known, targets)[i * |targets| + j] == Pair(known[i].0, known[i].1, targets[j])
  {
    var init := known[..|known| - 1];
    PairsOfCount(known, targets);
    PairsOfCount(init, targets);
    var n := |init|;
    if i < n {
      PairsOfOrder(init, targets, i, j);
      assert init[i] == known[i];
    } else {
      assert i * |targets| + j == n * |targets| + j;
    }
  }

  // ---------------------------------------------------------------------
  // Gathering the outcomes
  // ---------------------------------------------------------------------

  /** csv_data and skipped_data. */
  datatype Collected = Collected(csvData: seq<CsvRow>, skippedData: seq<SkippedRow>)

  /** Appends one outcome; the first exception ends the run. */
  function Extend(acc: Result<Collected, Crash>, o: PairOutcome): Result<Collected, Crash> {
    if acc.Err? then acc
    else match o
      case Recorded(row) => Ok(Collected(acc.value.csvData + [row], acc.value.skippedData))
      case Skipped(s) => Ok(Collected(acc.value.csvData, acc.value.skippedData + [s]))
      case Aborted(c) => Err(c)
  }

  /** The outcomes appended in order, starting from acc. */
  function GatherFrom(acc: Result<Collected, Crash>, os: seq<PairOutcome>): Result<Collected, Crash> {
    if os == [] then acc else Extend(GatherFrom(acc, os[..|os| - 1]), os[|os| - 1])
  }

  function Outcomes(env: Env, ps: seq<Pair>): (os: seq<PairOutcome>)
    ensures |os| == |ps|
    ensures forall i :: 0 <= i < |ps| ==> os[i] == PairOutcomeOf(env, ps[i])
  {
    seq(|ps|, i requires 0 <= i < |ps| => PairOutcomeOf(env, ps[i]))
  }

  /** What the loop leaves behind: both tables, or the exception that ended it. */
  function CollectAll(env: Env, colos: seq<string>, table: ColoTable, targets: seq<Target>): Result<Collected, Crash> {
    GatherFrom(Ok(Collected([], [])), Outcomes(env, Pairs(colos, table, targets)))
  }

  /** The summary rows among the outcomes, in order. */
  function RecordedRows(os: seq<PairOutcome>): seq<CsvRow> {
    if os == [] then []
    else RecordedRows(os[..|os| - 1]) + (if os[|os| - 1].Recorded? then [os[|os| - 1].row] else [])
  }

  /** The skipped rows among the outcomes, in order. */
  function SkippedRows(os: seq<PairOutcome>): seq<SkippedRow> {
    if os == [] then []
    else SkippedRows(os[..|os| - 1]) + (if os[|os| - 1].Skipped? then [os[|os| - 1].skipped] else [])
  }

  predicate NoAbort(os: seq<PairOutcome>) {
    forall i :: 0 <= i < |os| ==> !os[i].Aborted?
  }

  lemma GatherAppend(acc: Result<Collected, Crash>, a: seq<PairOutcome>, b: seq<PairOutcome>)
    ensures GatherFrom(acc, a + b) == GatherFrom(GatherFrom(acc, a), b)
    decreases |b|
  {
    if b != [] {
      DropLastOfConcat(a, b);
      GatherAppend(acc, a, b[..|b| - 1]);
    } else {
      assert a + b == a;
    }
  }

  /** Once the run has ended, nothing more is appended. */
  lemma {:induction false} GatherAfterCrash(acc: Result<Collected, Crash>, os: seq<PairOutcome>)
    requires acc.Err?
    ensures GatherFrom(acc, os) == acc
  {
    if os != [] {
      GatherAfterCrash(acc, os[..|os| - 1]);
    }
  }

  /**
   * Without an exception every outcome lands in exactly one table, in order:
   * the summary rows in csv_data and the skipped rows in skipped_data.
   */
  lemma {:induction false} GatherWithoutCrash(acc: Collected, os: seq<PairOutcome>)
    ensures GatherFrom(Ok(acc), os).Ok? <==> NoAbort(os)
    ensures NoAbort(os) ==>
      GatherFrom(Ok(acc), os) == Ok(Collected(acc.csvData + RecordedRows(os), acc.skippedData + SkippedRows(os)))
    ensures NoAbort(os) ==> |RecordedRows(os)| + |SkippedRows(os)| == |os|
  {
    if os != [] {
      var init := os[..|os| - 1];
      GatherWithoutCrash(acc, init);
      assert NoAbort(os) <==> NoAbort(init) && !os[|os| - 1].Aborted? by {
        assert forall i :: 0 <= i < |init| ==> init[i] == os[i];
      }
      if NoAbort(os) {
        var last := os[|os| - 1];
        if last.Recorded? {
          assert acc.csvData + RecordedRows(os) == (acc.csvData + RecordedRows(init)) + [last.row];
          assert acc.skippedData + SkippedRows(os) == acc.skippedData + SkippedRows(init);
        } else {
          assert acc.csvData + RecordedRows(os) == acc.csvData + RecordedRows(init);
          assert acc.skippedData + SkippedRows(os) == (acc.skippedData + SkippedRows(init)) + [last.skipped];
        }
      }
    } else {
      assert acc.csvData + [] == acc.csvData && acc.skippedData + [] == acc.skippedData;
    }
  }

  /** With an exception, the run ends with the first pair that raised. */
  lemma {:induction false} GatherCrash(acc: Collected, os: seq<PairOutcome>)
    requires GatherFrom(Ok(acc), os).Err?
    ensures exists k :: 0 <= k < |os| && os[k] == Aborted(GatherFrom(Ok(acc), os).error) && NoAbort(os[..k])
  {
    var init := os[..|os| - 1];
    if GatherFrom(Ok(acc), init).Err? {
      GatherCrash(acc, init);
      var k :| 0 <= k < |init| && init[k] == Aborted(GatherFrom(Ok(acc), init).error) && NoAbort(init[..k]);
      assert os[k] == init[k] && os[..k] == init[..k];
    } else {
      GatherWithoutCrash(acc, init);
      assert os[..|os| - 1] == init;
    }
  }

  /**
   * The loop's bookkeeping: when no pair raises, every visited pair adds one
   * row to exactly one of the two tables, |known colos| * |targets| rows in all.
   */
  lemma CollectAllPartition(env: Env, colos: seq<string>, table: ColoTable, targets: seq<Target>)
    ensures CollectAll(env, colos, table, targets).Ok? <==> NoAbort(Outcomes(env, Pairs(colos, table, targets)))
    ensures CollectAll(env, colos, table, targets).Ok? ==>
      var c := CollectAll(env, colos, table, targets).value;
      c.csvData == RecordedRows(Outcomes(env, Pairs(colos, table, targets))) &&
      c.skippedData == SkippedRows(Outcomes(env, Pairs(colos, table, targets))) &&
      |c.csvData| + |c.skippedData| == |KnownColos(colos, table)| * |targets|
  {
    var os := Outcomes(env, Pairs(colos, table, targets));
    GatherWithoutCrash(Collected([], []), os);
    PairsOfCount(KnownColos(colos, table), targets);
    assert [] + RecordedRows(os) == RecordedRows(os);
    assert [] + SkippedRows(os) == SkippedRows(os);
  }

  // ---------------------------------------------------------------------
  // The loops
  // ---------------------------------------------------------------------

  lemma OutcomesAppend(env: Env, a: seq<Pair>, b: seq<Pair>)
    ensures Outcomes(env, a + b) == Outcomes(env, a) + Outcomes(env, b)
  {
    var l, r := Outcomes(env, a + b), Outcomes(env, a) + Outcomes(env, b);
    forall i | 0 <= i < |l| ensures l[i] == r[i] {
      if i < |a| {
        assert (a + b)[i] == a[i];
      } else {
        assert (a + b)[i] == b[i - |a|];
      }
    }
  }

  /** A step of the outer loop: colo c adds its own pairs, if it is known. */
  lemma PairsStep(colos: seq<string>, table: ColoTable, targets: seq<Target>, c: nat)
    requires c < |colos|
    ensures Pairs(colos[..c + 1], table, targets) ==
      Pairs(colos[..c], table, targets) + PairsOf(KnownEntry(table, colos[c]), targets)
  {
    assert colos[..c + 1] == colos[..c] + [colos[c]];
    KnownColosAppend(colos[..c], [colos[c]], table);
    assert [colos[c]][..0] == [];
    PairsOfAppend(KnownColos(colos[..c], table), KnownEntry(table, colos[c]), targets);
  }

  /** The pairs of the first c colos come first among all the pairs. */
  lemma PairsPrefix(colos: seq<string>, table: ColoTable, targets: seq<Target>, c: nat)
    requires c <= |colos|
    ensures Pairs(colos, table, targets) == Pairs(colos[..c], table, targets) + Pairs(colos[c..], table, targets)
  {
    assert colos == colos[..c] + colos[c..];
    KnownColosAppend(colos[..c], colos[c..], table);
    PairsOfAppend(KnownColos(colos[..c], table), KnownColos(colos[c..], table), targets);
  }

  /** One known colo contributes exactly its ColoPairs. */
  lemma PairsOfOne(colo: string, info: ColoInfo, targets: seq<Target>)
    ensures PairsOf([(colo, info)], targets) == ColoPairs(colo, info, targets)
  {
    assert [(colo, info)][..0] == [];
  }

  /** The inner loop over the targets of one known colo. */
  method ProcessColo(env: Env, colo: string, info: ColoInfo, targets: seq<Target>, acc: Collected)
    returns (r: Result<Collected, Crash>)
    ensures r == GatherFrom(Ok(acc), Outcomes(env, ColoPairs(colo, info, targets)))
  {
    ghost var os := Outcomes(env, ColoPairs(colo, info, targets));
    var csvData, skippedData := acc.csvData, acc.skippedData;
    for j := 0 to |targets|
      invariant GatherFrom(Ok(acc), os[..j]) == Ok(Collected(csvData, skippedData))
    {
      GatherStep(Ok(acc), os, j);
      var o := ProcessPair(env, Pair(colo, info, targets[j]));
      match o
      case Recorded(row) => csvData := csvData + [row];
      case Skipped(s) => skippedData := skippedData + [s];
      case Aborted(c) =>
        GatherPrefixCrash(Ok(acc), os, j + 1);
        return Err(c);
    }
    assert os[..|targets|] == os;
    r := Ok(Collected(csvData, skippedData));
  }

  /** A step of a loop over outcomes: outcome j extends what the earlier ones gathered. */
  lemma GatherStep(acc: Result<Collected, Crash>, os: seq<PairOutcome>, j: nat)
    requires j < |os|
    ensures GatherFrom(acc, os[..j + 1]) == Extend(GatherFrom(acc, os[..j]), os[j])
  {
    assert os[..j + 1][..j] == os[..j];
  }

  /** An exception within the first k outcomes is what all of them gather. */
  lemma GatherPrefixCrash(acc: Result<Collected, Crash>, os: seq<PairOutcome>, k: nat)
    requires k <= |os|
    requires GatherFrom(acc, os[..k]).Err?
    ensures GatherFrom(acc, os) == GatherFrom(acc, os[..k])
  {
    GatherAfterCrash(GatherFrom(acc, os[..k]), os[k..]);
    assert os == os[..k] + os[k..];
    GatherAppend(acc, os[..k], os[k..]);
  }

  /** The main loop (lines 311-399): every requested colo, then every target. */
  method CollectTraceroutes(env: Env, colos: seq<string>, table: ColoTable, targets: seq<Target>)
    returns (r: Result<Collected, Crash>)
    ensures r == CollectAll(env, colos, table, targets)
  {
    var acc := Collected([], []);
    for c := 0 to |colos|
      invariant GatherFrom(Ok(Collected([], [])), Outcomes(env, Pairs(colos[..c], table, targets))) == Ok(acc)
    {
      ColoStep(env, colos, table, targets, c, acc);
      var coloInfo := Lookup(table, colos[c]);
      if coloInfo.None? {
        continue;
      }
      PairsOfOne(colos[c], coloInfo.value, targets);
      r := ProcessColo(env, colos[c], coloInfo.value, targets, acc);
      if r.Err? {
        CrashEndsRun(env, colos, table, targets, c + 1, r);
        return;
      }
      acc := r.value;
    }
    assert colos[..|colos|] == colos;
    r := Ok(acc);
  }

  /** A step of the outer loop: colo c appends the outcomes of its own pairs, none if it is unknown. */
  lemma ColoStep(env: Env, colos: seq<string>, table: ColoTable, targets: seq<Target>, c: nat, acc: Collected)
    requires c < |colos|
    requires GatherFrom(Ok(Collected([], [])), Outcomes(env, Pairs(colos[..c], table, targets))) == Ok(acc)
    ensures GatherFrom(Ok(Collected([], [])), Outcomes(env, Pairs(colos[..c + 1], table, targets))) ==
      GatherFrom(Ok(acc), Outcomes(env, PairsOf(KnownEntry(table, colos[c]), targets)))
    ensures Lookup(table, colos[c]).None? ==>
      GatherFrom(Ok(Collected([], [])), Outcomes(env, Pairs(colos[..c + 1], table, targets))) == Ok(acc)
  {
    PairsStep(colos, table, targets, c);
    ghost var before := Pairs(colos[..c], table, targets);
    ghost var these := PairsOf(KnownEntry(table, colos[c]), targets);
    OutcomesAppend(env, before, these);
    GatherAppend(Ok(Collected([], [])), Outcomes(env, before), Outcomes(env, these));
    if Lookup(table, colos[c]).None? {
      assert Outcomes(env, these) == [];
    }
  }

  /** An exception raised for the first c colos is what the whole run ends with. */
  lemma CrashEndsRun(env: Env, colos: seq<string>, table: ColoTable, targets: seq<Target>, c: nat, err: Result<Collected, Crash>)
    requires c <= |colos| && err.Err?
    requires GatherFrom(Ok(Collected([], [])), Outcomes(env, Pairs(colos[..c], table, targets))) == err
    ensures CollectAll(env, colos, table, targets) == err
  {
    ghost var before := Pairs(colos[..c], table, targets);
    ghost var rest := Pairs(colos[c..], table, targets);
    PairsPrefix(colos, table, targets, c);
    OutcomesAppend(env, before, rest);
    GatherAppend(Ok(Collected([], [])), Outcomes(env, before), Outcomes(env, rest));
    GatherAfterCrash(err, Outcomes(env, rest));
  }
}

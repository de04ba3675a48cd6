# traceroute_collector.rb, modelled in Dafny

`traceroute_collector.rb` is a command-line script from the cftrace
repository. It works through the following steps:

- It reads `--targets` (entries `ip:name:domain`), `--colos` or `--region`, and a
  table of Cloudflare colos.
- For every requested colo that the table knows, and for every target, it
  asks a traceroute API for one trace.
- For each such (colo, target) pair it appends exactly one of two rows:
  - a summary row to `csv_data`: region, colo, hop count, truncated mean
    RTT, the geolocated final hop, the nearest GCP region when the target
    is a GCP address, the distance, and the congested and slow hops;
  - a row with reason `no_traceroute_response` to `skipped_data`, when the
    response was nil or empty, did not parse, or had no `result`.
- Uncaught Ruby exceptions end the whole script. That happens when the HTTP
  call raises, or when the first colo result, its `colo` metadata, its
  `hops` or its `target_summary` is nil, or when `hops` is empty (a
  division by zero in `collect_hop_data`).

The model is split into modules that follow the script's parts:

| file | module | what it holds |
|---|---|---|
| `wrappers.dfy` | `Wrappers` | `Option` (Ruby `nil`) and `Result` |
| `seq_facts.dfy` | `SeqFacts` | small facts about sequence concatenation |
| `numerics.dfy` | `Numerics` | `Float#round(2)` and `to_i` on reals |
| `ruby_strings.dfy` | `RubyStrings` | `String#split` with one separator character, `strip`, `downcase` |
| `catalog.dfy` | `Catalog` | ordered hashes as key/value sequences, `BUSINESS_REGIONS`, `GCP_REGIONS` |
| `geo.dfy` | `Geo` | `orthodromic_distance`'s `'unknown'` guard, `map_gcp_region` |
| `traceroute.dfy` | `Traceroute` | the parsed traceroute document |
| `final_hop.dfy` | `FinalHop` | `infer_final_hop_geo` |
| `hop_stats.dfy` | `HopStats` | `packet_loss_pct`, `collect_hop_data` |
| `selection.dfy` | `Selection` | the `--targets` parser, the option check, `fetch_colos_by_region` |
| `collector.dfy` | `Collector` | one (colo, target) pair, and the main loop |

The script's loops are Dafny methods with loop invariants:

- the catalog scan of `map_gcp_region`;
- the reverse walk of `infer_final_hop_geo`, whose early `return` is a
  `return` from the loop;
- the two nested loops of `collect_hop_data`;
- the colo and target loops of the main program.

Most of these methods are proved equal to a reference function on values:
`MapGcpRegion` to `NearestGcpRegion`, `InferFinalHopGeo` to `FinalHopGeo`,
`CollectHops` to `CongestedHops` and `SlowestHops`, `ProcessPair` to
`PairOutcomeOf`, and `CollectTraceroutes` to `CollectAll`. Lemmas state the
script's promises about those functions. The inner walk `ScanNodes` is
specified by what it has looked up and where it stopped. The remaining parts
are modelled as functions:

- `packet_loss_pct`;
- the mean and variance expressions;
- the `--targets` `split`;
- the option check;
- the `select` in `fetch_colos_by_region`.

Whatever the script gets from outside is a parameter of the model (`Collector.Env`):

- the HTTP fetch, which returns a body, nil, or an exception;
- `JSON.parse`;
- the geolocation lookup, which yields nil for anycast addresses;
- the haversine formula;
- `Math.sqrt`.

Ruby hashes keep insertion order, so each hash is a sequence of key/value
pairs, and `hash[key]` is the first entry with that key.

A few facts about the script that the model keeps:

- The script reads only `result[0].colos[0]`.
- `target_ip` is passed to `infer_final_hop_geo` but never used. The model
  keeps the parameter and ignores it.
- When a colo has no `lat`/`lon`, `orthodromic_distance` gets `nil`, which is
  not `'unknown'`. `nil.to_f` is `0.0`, so the model measures from (0, 0),
  as the code does.

## Model

| member | source | states |
|---|---|---|
| Catalog.Lookup | traceroute_collector.rb:315 | `hash[key]` is nil exactly when no entry has the key; otherwise the value is one stored with that key |
| Catalog.BusinessRegionOf | traceroute_collector.rb:17-27 | a region name maps, if at all, to one of the business region codes |
| Catalog.LookupFirst | traceroute_collector.rb:154 | `hash[key]` finds the value of the first entry with that key |
| Catalog.KeysWhereAppend | traceroute_collector.rb:153-155 | `select { ... }.keys` keeps hash order: keys from earlier entries come first |
| Catalog.KeysWhereMembership | traceroute_collector.rb:153-155 | a key is selected exactly when some entry with that key passes the filter |
| Numerics.Round2 | traceroute_collector.rb:242 | `round(2)` gives a whole number of hundredths, at most half a hundredth from the value, with the value's sign |
| Numerics.Round2Monotone | traceroute_collector.rb:242 | `round(2)` is monotone |
| Numerics.Round2Negate | traceroute_collector.rb:242 | `round(2)` rounds halves away from zero, symmetrically |
| Numerics.Round2OfHundredths | traceroute_collector.rb:242 | a value already in hundredths is unchanged by `round(2)` |
| Numerics.Round2Above | traceroute_collector.rb:242 | `round(2)` of x exceeds c/100 exactly when 100·x is at least c + 0.5 |
| Numerics.Truncate | traceroute_collector.rb:372 | `to_i` truncates toward zero: the result is within one of x, on zero's side |
| RubyStrings.Split | traceroute_collector.rb:98 | `split` is the list of separator-delimited fields with the empty fields at the end dropped: a prefix of them, ending in a non-empty field, with only empty fields after it; no piece holds the separator, and the result is empty exactly when the string is nothing but separators |
| RubyStrings.JoinFields | traceroute_collector.rb:98 | joining the raw fields of a string with the separator gives that string back |
| RubyStrings.FieldsJoin | traceroute_collector.rb:98 | separator-free fields joined with the separator split back into those fields |
| RubyStrings.SplitOfJoin | traceroute_collector.rb:98 | `split` undoes a join of separator-free fields whose last field is non-empty (trailing empty fields are dropped) |
| RubyStrings.JoinSnoc | traceroute_collector.rb:98 | joining one more field appends the separator and that field |
| RubyStrings.SplitTrailing | traceroute_collector.rb:98 | a separator at the end adds one empty field, which `split` drops, so the split is unchanged |
| RubyStrings.SplitOfJoinTrailing | traceroute_collector.rb:98 | separator-free fields, the last non-empty, followed by any number of empty fields: `split` gives back the fields without the empty tail |
| RubyStrings.SplitOfPlain | traceroute_collector.rb:98 | a non-empty string without the separator splits into itself |
| RubyStrings.Strip | traceroute_collector.rb:354 | `strip` is the middle of the string with only white space removed before and after it, and leaves no white space at either end |
| RubyStrings.StripPadded | traceroute_collector.rb:354 | `strip` removes padding on both sides of a word that has no white space at its ends |
| RubyStrings.Downcase | traceroute_collector.rb:316 | `downcase` keeps the length and lowers each character |
| Geo.OrthodromicDistance | traceroute_collector.rb:186-187 | the distance is `'unknown'` exactly when one of the four coordinates is `'unknown'`; otherwise it is the haversine value |
| Geo.FirstMinIndex | traceroute_collector.rb:231-234 | the first index of a minimum: no later value is smaller, and every earlier value is strictly larger |
| Geo.FirstMinStep | traceroute_collector.rb:231-234 | the strict `<` replaces the best so far only with a strictly nearer entry |
| Geo.NearestGcpRegion | traceroute_collector.rb:221-237 | `'not_applicable'` exactly when lat or long is `'unknown'`; otherwise the catalog entry nearest to the point, with the earliest in catalog order winning ties |
| Geo.FirstNearestUnique | traceroute_collector.rb:231 | at most one catalog entry is nearest with no earlier entry as near, so the answer is determined |
| Geo.MapGcpRegion | traceroute_collector.rb:221-238 | the scan over `GCP_REGIONS` returns exactly that first nearest entry, or `'not_applicable'` |
| FinalHop.FirstHitIsFirst | traceroute_collector.rb:200-206 | the walk yields nothing exactly when every lookup is nil; otherwise it yields the lookup of the first IP whose lookup is non-nil |
| FinalHop.FirstHitAfterMisses | traceroute_collector.rb:201-206 | IPs whose lookup is nil do not affect the result |
| FinalHop.LookupOrderAppend | traceroute_collector.rb:200 | hops are visited last first: the IPs of later hops come before those of earlier hops |
| FinalHop.NodeIpsReversedAppend | traceroute_collector.rb:201 | within a hop, nodes are visited last first |
| FinalHop.NodeIpsMembership | traceroute_collector.rb:201-202 | an IP is looked up exactly when some node carries it, so nodes without an IP are never looked up |
| FinalHop.LookupOrderMembership | traceroute_collector.rb:200-202 | an IP is looked up exactly when some hop with a `nodes` list has a node with that IP |
| FinalHop.NoIpMeansUnknown | traceroute_collector.rb:210-218 | with no node IP at all (including no hops, or hops without `nodes`) nothing is looked up and the all-`'unknown'` record is returned |
| FinalHop.ScanNodes | traceroute_collector.rb:201-207 | the inner walk looks up a prefix of the hop's IPs, last node first, all but the last of them missing; it stops at the first hit, or has looked up every IP |
| FinalHop.InferFinalHopGeo | traceroute_collector.rb:199-219 | the nested reverse walk returns the first non-nil lookup in that order, or the all-`'unknown'` record; the IPs it looks up are a prefix of that order that ends at the first hit |
| HopStats.PacketLossPct | traceroute_collector.rb:240-243 | 0 when nothing was sent; otherwise lost/sent·100 to within half a hundredth |
| HopStats.PacketLossInRange | traceroute_collector.rb:240-243 | with 0 ≤ lost ≤ sent and sent > 0 the percentage lies in [0, 100] |
| HopStats.LossThreshold | traceroute_collector.rb:242 | the rounded percentage exceeds 50 exactly when lost·20000 ≥ sent·10001 |
| HopStats.CongestedIffLoss | traceroute_collector.rb:257-269 | a hop with packets sent is congested exactly when lost·20000 ≥ sent·10001, so 50.005 % rounds to 50.01 and counts, and 50.004 % does not |
| HopStats.NothingSentNotCongested | traceroute_collector.rb:241 | a hop with nothing sent (or no `packets_sent`) is never congested |
| HopStats.RttValues | traceroute_collector.rb:249-251 | one value per hop: the first node's `mean_rtt_ms`, 0 when missing |
| HopStats.SquaredDeviations | traceroute_collector.rb:253 | one squared deviation from the mean per value |
| HopStats.VarianceNonNegative | traceroute_collector.rb:253 | the variance is never negative, so `Math.sqrt` is applied to a value ≥ 0 |
| HopStats.SumAtLeast | traceroute_collector.rb:252 | a sum of values each at least m is at least n·m |
| HopStats.SumAbove | traceroute_collector.rb:252 | a sum of values each above m is above n·m |
| HopStats.SomeAtMostMean | traceroute_collector.rb:252 | some RTT value is at most the mean |
| HopStats.SomeFirstNodeNotSlow | traceroute_collector.rb:249-254 | some hop's first-node RTT is not above mean + std-dev |
| HopStats.CongestedOfNodes | traceroute_collector.rb:261-279 | each node of a congested hop gives exactly one entry, in node order, carrying the hop's loss and the node's rounded RTTs |
| HopStats.CongestedHopsAppend | traceroute_collector.rb:256-279 | `congested_hops` lists entries in hop order |
| HopStats.SlowOfNodesAppend | traceroute_collector.rb:261-290 | `slowest_hops` keeps node order within a hop |
| HopStats.SlowestHopsAppend | traceroute_collector.rb:256-290 | `slowest_hops` keeps hop order |
| HopStats.CongestedHopsLength | traceroute_collector.rb:269-279 | the length of `congested_hops` is the number of nodes in congested hops, which is at most the number of nodes |
| HopStats.AllCongestedListsAll | traceroute_collector.rb:269 | when every hop is congested, every node is listed |
| HopStats.NoneCongestedListsNone | traceroute_collector.rb:269 | when no hop is congested, `congested_hops` is empty |
| HopStats.CongestedOfHopMembership | traceroute_collector.rb:261-279 | one hop contributes an entry exactly when it is congested and the entry belongs to one of its nodes |
| HopStats.CongestedMembership | traceroute_collector.rb:256-279 | an entry is in `congested_hops` exactly when it is the entry of some node of some hop whose loss is over 50 |
| HopStats.SlowOfNodesMembership | traceroute_collector.rb:281-290 | a node's entry is in a hop's slow list exactly when its `mean_rtt_ms` (0 when missing) is above the threshold |
| HopStats.SlowestMembership | traceroute_collector.rb:256-290 | an entry is in `slowest_hops` exactly when it is the slow entry of a node of some hop |
| HopStats.CollectHop | traceroute_collector.rb:261-291 | the node loop appends exactly the hop's congested entries and its slow entries, after what was there |
| HopStats.CollectHops | traceroute_collector.rb:256-292 | the hop loop builds exactly `congested_hops` and `slowest_hops` for the given threshold |
| HopStats.CollectHopData | traceroute_collector.rb:245-295 | for non-empty `hops`, both lists, with a threshold of mean + sqrt(variance) of the first-node RTTs |
| Selection.ParseTarget | traceroute_collector.rb:97-103 | the IP is nil exactly when the entry is nothing but colons; no field read from the entry contains a colon |
| Selection.ParseFormatted | traceroute_collector.rb:97-103 | an entry written `ip:name:domain` from colon-free parts with a non-empty domain parses back to those parts |
| Selection.ParseFields | traceroute_collector.rb:98-102 | for colon-free fields, the last non-empty, followed by any number of trailing colons: the first three fields become ip, name and domain, a name or domain that is missing or left empty at the end is `'unknown'`, and extra fields are ignored |
| Selection.ParseEmptyDomain | traceroute_collector.rb:98-102 | `ip:name:` keeps the name and gets domain `'unknown'`, since `split` drops the empty last field |
| Selection.ParseBareIp | traceroute_collector.rb:99-101 | a bare IP gets `'unknown'` name and domain |
| Selection.ParseTargets | traceroute_collector.rb:97 | one target per entry, in order |
| Selection.ResolveTargets | traceroute_collector.rb:76 | the targets are those parsed from `--targets`, one per entry in order, or `DEFAULT_TARGETS` when the option is absent |
| Selection.DefaultIsParsed | traceroute_collector.rb:12-14 | `DEFAULT_TARGETS` is exactly what `--targets 1.1.1.1:cf-global-dns:one.one.one.one` gives |
| Selection.CheckOptions | traceroute_collector.rb:118-122 | accepted exactly when one of `--colos` and `--region` is given, with each raise's exact message otherwise |
| Selection.CodesInRegion | traceroute_collector.rb:153-155 | never more codes than table entries |
| Selection.FetchColosByRegion | traceroute_collector.rb:149-156 | raises `Invalid region: <code>` exactly when the code is not a business region value; otherwise the selected keys |
| Selection.CodesInRegionAppend | traceroute_collector.rb:153-155 | the selected codes keep table order |
| Selection.CodesInRegionMembership | traceroute_collector.rb:153-155 | a code is selected exactly when an entry with that key has a region name that maps to the requested code |
| Selection.UnmappedNeverSelected | traceroute_collector.rb:154 | an entry without a region, or with a region name outside `BUSINESS_REGIONS`, is never selected |
| Selection.RegionOfEntry | traceroute_collector.rb:17-27 | every name of `BUSINESS_REGIONS` (its first occurrence) maps to the code written beside it, so an entry with that region is selected for that code |
| Selection.ResolveColos | traceroute_collector.rb:307-309 | `--colos` is used as given; `--region` is replaced by the colos of that region |
| Traceroute.FirstColoResult | traceroute_collector.rb:345 | `dig('result', 0, 'colos', 0)` is nil exactly when either list is missing or empty |
| Collector.RegionShort | traceroute_collector.rb:319 | the region code is `'unknown'` exactly when the colo's region name has no business code, and a business code otherwise |
| Collector.ColoCountry | traceroute_collector.rb:353-354 | the country is either the colo table's country or a comma-free string with no white space at either end |
| Collector.CountryOfLastPart | traceroute_collector.rb:353-354 | a city of two or more comma parts, the last non-empty, gives its last part, stripped |
| Collector.CountryAfterComma | traceroute_collector.rb:353-354 | any number of comma parts followed by a padded country (`"City, CC"`, `"City, State, CC"`) gives exactly that country |
| Collector.CountryTrailingComma | traceroute_collector.rb:353-354 | `"City,"` splits into one part, so the colo table's country stays |
| Collector.CountryWithoutComma | traceroute_collector.rb:391 | a city without a comma leaves the colo table's country |
| Collector.BuildRow | traceroute_collector.rb:368-397 | the row's region and colo, `hops_count` = `hops.size`, `rtt_ms` = `to_i` of the mean (0 when missing), GCP name and city from the match, a distance that is `'unknown'` exactly when the final hop's lat or long is, `start_city` = the result's city, else the table's, else `'unknown'`, and `colo_country` = the country derived from that city |
| Collector.ResultOf | traceroute_collector.rb:329-331 | there is a usable `result` exactly when the response is non-empty, parses, and has `result` |
| Collector.SkippedExactly | traceroute_collector.rb:329-343 | a pair is skipped exactly when the fetch returned nil, empty, unparsable or result-less data; the skipped row names colo, region and target and carries `no_traceroute_response` |
| Collector.RecordedExactly | traceroute_collector.rb:345-372 | once there is a `result`, a row is recorded exactly when the first colo result, its `colo`, its non-empty `hops` and its `target_summary` are present; the row's hop count, `rtt_ms`, congested hops and final-hop city are those of that result; never skipped |
| Collector.RecordPair | traceroute_collector.rb:345-397 | the steps after the skip check produce that outcome, with the exceptions in the code's order |
| Collector.ProcessPair | traceroute_collector.rb:324-397 | the body of the target loop produces the pair's outcome |
| Collector.ColoPairs | traceroute_collector.rb:323 | one pair per target, in target order |
| Collector.KnownEntry | traceroute_collector.rb:315-317 | a colo the table does not know contributes nothing (`next unless colo_info`); a known one contributes itself and its table entry |
| Collector.KnownColosMembership | traceroute_collector.rb:313-317 | a (colo, info) pair is visited exactly when the colo was requested and the table maps it to that info |
| Collector.KnownColosAppend | traceroute_collector.rb:313-317 | known colos are visited in request order |
| Collector.PairsOfAppend | traceroute_collector.rb:313-323 | pairs are visited colo by colo |
| Collector.PairsOfCount | traceroute_collector.rb:313-323 | there are (#known colos)·(#targets) pairs |
| Collector.PairsOfOrder | traceroute_collector.rb:313-323 | colo-major, target-minor order: pair i·T + j is colo i with target j |
| Collector.GatherAppend | traceroute_collector.rb:311-399 | appending outcomes in two runs gives the same tables as in one |
| Collector.GatherAfterCrash | traceroute_collector.rb:313-399 | after an exception nothing more is appended |
| Collector.GatherWithoutCrash | traceroute_collector.rb:311-399 | without an exception every outcome lands in exactly one table, in order |
| Collector.GatherCrash | traceroute_collector.rb:313-399 | a failed run failed at some pair, with that pair's exception, and no earlier pair raised |
| Collector.CollectAllPartition | traceroute_collector.rb:311-399 | the run succeeds exactly when no pair raises; then `csv_data` and `skipped_data` are the recorded and skipped rows in order, and together they have one row per (known colo, target) pair |
| Collector.ProcessColo | traceroute_collector.rb:323-398 | the target loop of one colo appends that colo's outcomes, stopping at an exception |
| Collector.CollectTraceroutes | traceroute_collector.rb:311-399 | the main loop produces exactly the tables (or the exception) of all pairs in colo-major order |

## Left out

- File and network I/O are not modelled:
  - `load_colo_data` (lines 124-147): the model takes the colo table as a
    parameter.
  - `append_to_csv` (lines 297-303), and the directory and JSON writes
    (lines 305, 320-321, 363-364): the model returns `csv_data` and
    `skipped_data` instead.
  - `sleep`, and the `puts` progress messages.
- The colo table has a quirk. When it is loaded from CSV, its keys are
  symbols, so `info['region']`, `['city']` and `['lat']` read nil. The model's
  colo table allows every one of these to be nil, which covers that case.
  The loader itself is not part of this model.
- `fetch_geoip_info` (lines 158-183) is the abstract `GeoLookup`. Its HTTP
  call, JSON parsing and coordinate parsing are not modelled.
- Only the `'unknown'` guard of `orthodromic_distance` is concrete (line 187).
  The haversine trigonometry (lines 189-196) is the abstract `Haversine`.
- `Net::HTTP.get` and `JSON.parse` are functions in `Collector.Env`. Responses
  whose JSON is not an object, and duplicate JSON keys, are not modelled.
- The wiring of OptionParser (lines 82-116) is not modelled. That includes
  `Array`'s comma splitting of `--targets` and `--colos`, and the defaults
  other than `DEFAULT_TARGETS`. Only the body of the target parser, the
  option check and the fallback to `DEFAULT_TARGETS` are modelled.
- Numbers are reals:
  - Ruby's integer division, which applies when every RTT in
    `rtt_values` is a JSON integer (line 252), is not modelled.
  - Binary floating-point rounding is not modelled either: `Round2` rounds
    exact reals half away from zero.
- `Math.sqrt` is an abstract function. The lemmas that need it non-negative
  say so in their `requires`.
- HopStats.PacketLossPct: its contract bounds the result by the rounding
  error rather than naming the exact rounded value; `Round2` states that
  the result is on the hundredths grid, and `Round2Above` pins the
  threshold the congestion test needs.
- Selection.CodesInRegion: its own contract only bounds the length; what it
  selects is stated by `Selection.CodesInRegionMembership` and
  `Selection.CodesInRegionAppend`.
- RubyStrings.Downcase: lowers ASCII letters only. Ruby's full Unicode case
  mapping is not modelled.
- `collect_hop_data` with an empty `hops` divides by zero. `CollectHopData`
  requires non-empty hops, and the main loop reports that case as the
  exception that ends the script.

/**
 * The parts of a Traceroute API response the collector reads. Every JSON key
 * the code reads with `[]` or `dig` may be missing, so each field is optional.
 */
module Traceroute {
  import opened Wrappers

  /** One candidate node of a hop. */
  datatype Node = Node(
    ip: Option<string>,
    name: Option<string>,
    meanRttMs: Option<real>,
    stdDevRttMs: Option<real>,
    minRttMs: Option<real>,
    maxRttMs: Option<real>)

  /** One hop: its nodes and its packet counters. */
  datatype Hop = Hop(nodes: Option<seq<Node>>, packetsSent: Option<int>, packetsLost: Option<int>)

  /** target_summary: end-to-end RTT statistics toward the target. */
  datatype TargetSummary = TargetSummary(
    meanRttMs: Option<real>,
    minRttMs: Option<real>,
    maxRttMs: Option<real>,
    stdDevRttMs: Option<real>,
    packetCount: Option<int>)

  /** colo: metadata of the sub-colo that ran the traceroute. */
  datatype ColoMeta = ColoMeta(name: Option<string>, city: Option<string>)

  /** One entry of result[i].colos. */
  datatype ColoResult = ColoResult(
    targetSummary: Option<TargetSummary>,
    hops: Option<seq<Hop>>,
    tracerouteTimeMs: Option<real>,
    colo: Option<ColoMeta>)

  /** One entry of the top-level result list. */
  datatype ResultBlock = ResultBlock(colos: Option<seq<ColoResult>>)

  /** A parsed response document. */
  datatype TraceDoc = TraceDoc(result: Option<seq<ResultBlock>>)

  /** `traceroute.dig('result', 0, 'colos', 0)`: the first colo of the first result block, or nil. */
  function FirstColoResult(result: seq<ResultBlock>): (r: Option<ColoResult>)
    ensures r.Some? <==> |result| > 0 && result[0].colos.Some? && |result[0].colos.value| > 0
    ensures r.Some? ==> r.value == result[0].colos.value[0]
  {
    if |result| == 0 then None
    else match result[0].colos
      case None => None
      case Some(cs) => if |cs| == 0 then None else Some(cs[0])
  }

  /** `hop['nodes'] || []`. */
  function NodesOf(hop: Hop): seq<Node> {
    hop.nodes.GetOr([])
  }
}

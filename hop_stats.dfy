/**
 * packet_loss_pct and collect_hop_data: per-hop packet loss, the RTT
 * statistics over the hops, and the two outlier lists (congested hops and
 * slowest hops) written into each summary row.
 */
module HopStats {
  import opened Wrappers
  import opened SeqFacts
  import opened Numerics
  import opened Traceroute

  /** `Math.sqrt`, left abstract. */
  type Sqrt = real -> real

  /** packet_loss_pct: 0 for no packets sent, otherwise the lost share in percent, rounded. */
  function PacketLossPct(sent: int, lost: int): (r: real)
    ensures sent == 0 ==> r == 0.0
    ensures sent != 0 ==> -1.0 / 200.0 <= r - lost as real / sent as real * 100.0 <= 1.0 / 200.0
  {
    if sent == 0 then 0.0 else Round2(lost as real / sent as real * 100.0)
  }

  /** With 0 <= lost <= sent the percentage stays within 0..100. */
  lemma PacketLossInRange(sent: int, lost: int)
    requires 0 < sent && 0 <= lost <= sent
    ensures 0.0 <= PacketLossPct(sent, lost) <= 100.0
  {
    var x := lost as real / sent as real * 100.0;
    assert x <= 100.0 by {
      assert lost as real / sent as real <= 1.0;
    }
    Round2Monotone(x, 100.0);
    Round2OfHundredths(10000);
  }

  /** The loss of one hop, from its counters (each defaulting to 0). */
  function HopLoss(hop: Hop): real {
    PacketLossPct(hop.packetsSent.GetOr(0), hop.packetsLost.GetOr(0))
  }

  /** A hop is congested when its rounded loss is above 50 percent. */
  predicate IsCongested(hop: Hop) {
    HopLoss(hop) > 50.0
  }

  /**
   * Because the loss is rounded before the comparison, a hop is congested
   * exactly when at least 50.005 percent of its packets are lost.
   */
  lemma CongestedIffLoss(hop: Hop)
    requires hop.packetsSent.GetOr(0) > 0
    ensures IsCongested(hop) <==> hop.packetsLost.GetOr(0) * 20000 >= hop.packetsSent.GetOr(0) * 10001
  {
    var sent := hop.packetsSent.GetOr(0);
    var lost := hop.packetsLost.GetOr(0);
    LossThreshold(lost as real, sent as real);
  }

  /** The real-valued core of CongestedIffLoss. */
  lemma LossThreshold(l: real, s: real)
    requires s > 0.0
    ensures Round2(l / s * 100.0) > 50.0 <==> l * 20000.0 >= s * 10001.0
  {
    var q := l / s;
    DivTimes(l, s);
    Round2Above(q * 100.0, 5000);
    ScaleInequality(q, 0.50005, s);
  }

  /** Division by a positive value is undone by multiplying with it. */
  lemma DivTimes(a: real, s: real)
    requires s > 0.0
    ensures (a / s) * s == a
  {
  }

  /** Multiplying both sides by a positive factor keeps an inequality. */
  lemma ScaleInequality(a: real, b: real, s: real)
    requires s > 0.0
    ensures a >= b <==> a * s >= b * s
  {
    if a >= b {
      assert (a - b) * s >= 0.0;
    } else {
      assert (b - a) * s > 0.0;
    }
  }

  /** A hop that sent nothing is never congested. */
  lemma NothingSentNotCongested(hop: Hop)
    requires hop.packetsSent.GetOr(0) == 0
    ensures !IsCongested(hop)
  {
  }

  /** One entry of congested_hops. */
  datatype CongestedEntry = CongestedEntry(
    ip: Option<string>,
    name: Option<string>,
    packetLossPercent: real,
    meanRttMs: real,
    stdDevRttMs: real,
    minRttMs: real,
    maxRttMs: real)

  /** One entry of slowest_hops. */
  datatype SlowEntry = SlowEntry(
    ip: Option<string>,
    name: Option<string>,
    meanRttMs: real,
    stdDevRttMs: real,
    minRttMs: real,
    maxRttMs: real)

  /** A node's mean RTT, 0 when missing: the value compared with the threshold. */
  function NodeMean(node: Node): real {
    node.meanRttMs.GetOr(0.0)
  }

  /** The congested_hops entry recorded for a node of a hop with the given loss. */
  function CongestedEntryOf(node: Node, loss: real): CongestedEntry {
    CongestedEntry(node.ip, node.name, loss,
      Round2(NodeMean(node)), Round2(node.stdDevRttMs.GetOr(0.0)),
      Round2(node.minRttMs.GetOr(0.0)), Round2(node.maxRttMs.GetOr(0.0)))
  }

  /** The slowest_hops entry recorded for a node. */
  function SlowEntryOf(node: Node): SlowEntry {
    SlowEntry(node.ip, node.name,
      Round2(NodeMean(node)), Round2(node.stdDevRttMs.GetOr(0.0)),
      Round2(node.minRttMs.GetOr(0.0)), Round2(node.maxRttMs.GetOr(0.0)))
  }

  /** A node is slow when its mean RTT is strictly above the threshold. */
  predicate IsSlow(node: Node, threshold: real) {
    NodeMean(node) > threshold
  }

  /** The entries a congested hop contributes: one per node, in node order. */
  function CongestedOfNodes(nodes: seq<Node>, loss: real): (r: seq<CongestedEntry>)
    ensures |r| == |nodes|
    ensures forall k :: 0 <= k < |nodes| ==> r[k] == CongestedEntryOf(nodes[k], loss)
  {
    if nodes == [] then []
    else CongestedOfNodes(nodes[..|nodes| - 1], loss) + [CongestedEntryOf(nodes[|nodes| - 1], loss)]
  }

  /** What one hop adds to congested_hops. */
  function CongestedOfHop(hop: Hop): seq<CongestedEntry> {
    if IsCongested(hop) then CongestedOfNodes(NodesOf(hop), HopLoss(hop)) else []
  }

  /** congested_hops over a run of hops. */
  function CongestedHops(hops: seq<Hop>): seq<CongestedEntry> {
    if hops == [] then []
    else CongestedHops(hops[..|hops| - 1]) + CongestedOfHop(hops[|hops| - 1])
  }

  /** The slow nodes of one hop, in node order. */
  function SlowOfNodes(nodes: seq<Node>, threshold: real): (r: seq<SlowEntry>)
    ensures |r| <= |nodes|
  {
    if nodes == [] then []
    else
      var last := nodes[|nodes| - 1];
      SlowOfNodes(nodes[..|nodes| - 1], threshold) + (if IsSlow(last, threshold) then [SlowEntryOf(last)] else [])
  }

  /** slowest_hops over a run of hops. */
  function SlowestHops(hops: seq<Hop>, threshold: real): seq<SlowEntry> {
    if hops == [] then []
    else SlowestHops(hops[..|hops| - 1], threshold) + SlowOfNodes(NodesOf(hops[|hops| - 1]), threshold)
  }

  /** Number of nodes over a run of hops. */
  function NodeCount(hops: seq<Hop>): nat {
    if hops == [] then 0 else NodeCount(hops[..|hops| - 1]) + |NodesOf(hops[|hops| - 1])|
  }

  /** Number of nodes in the congested hops of a run of hops. */
  function CongestedNodeCount(hops: seq<Hop>): nat {
    if hops == [] then 0
    else CongestedNodeCount(hops[..|hops| - 1]) + (if IsCongested(hops[|hops| - 1]) then |NodesOf(hops[|hops| - 1])| else 0)
  }

  // ---------------------------------------------------------------------
  // The RTT statistics (lines 249-254)
  // ---------------------------------------------------------------------

  /** `hop.dig('nodes', 0, 'mean_rtt_ms') || 0`. */
  function FirstNodeRtt(hop: Hop): real {
    if hop.nodes.Some? && |hop.nodes.value| > 0 then NodeMean(hop.nodes.value[0]) else 0.0
  }

  /** rtt_values: one value per hop; the contract is its reference definition, used by the mean lemmas. */
  function RttValues(hops: seq<Hop>): (r: seq<real>)
    ensures |r| == |hops|
    ensures forall h :: 0 <= h < |hops| ==> r[h] == FirstNodeRtt(hops[h])
  {
    seq(|hops|, h requires 0 <= h < |hops| => FirstNodeRtt(hops[h]))
  }

  function Sum(xs: seq<real>): real {
    if xs == [] then 0.0 else Sum(xs[..|xs| - 1]) + xs[|xs| - 1]
  }

  function Mean(xs: seq<real>): real
    requires |xs| > 0
  {
    Sum(xs) / (|xs| as real)
  }

  /** The squared deviations from m, element by element; the contract is its reference definition, used by VarianceNonNegative. */
  function SquaredDeviations(xs: seq<real>, m: real): (r: seq<real>)
    ensures |r| == |xs|
    ensures forall k :: 0 <= k < |xs| ==> r[k] == (xs[k] - m) * (xs[k] - m)
  {
    seq(|xs|, k requires 0 <= k < |xs| => (xs[k] - m) * (xs[k] - m))
  }

  /** The population variance: the mean of the squared deviations from the mean. */
  function Variance(xs: seq<real>): real
    requires |xs| > 0
  {
    Mean(SquaredDeviations(xs, Mean(xs)))
  }

  /** mean_rtt + std_dev_rtt: the bound a node's mean must exceed to be slow. */
  function SlowThreshold(hops: seq<Hop>, sqrt: Sqrt): real
    requires |hops| > 0
  {
    Mean(RttValues(hops)) + sqrt(Variance(RttValues(hops)))
  }

  /** A sum of values that are all at least m is at least |xs| * m. */
  lemma {:induction false} SumAtLeast(xs: seq<real>, m: real)
    requires forall k :: 0 <= k < |xs| ==> xs[k] >= m
    ensures Sum(xs) >= |xs| as real * m
  {
    if xs != [] {
      var init := xs[..|xs| - 1];
      assert forall k :: 0 <= k < |init| ==> init[k] == xs[k];
      SumAtLeast(init, m);
    }
  }

  /** A sum of values that are all above m is above |xs| * m. */
  lemma {:induction false} SumAbove(xs: seq<real>, m: real)
    requires |xs| > 0
    requires forall k :: 0 <= k < |xs| ==> xs[k] > m
    ensures Sum(xs) > |xs| as real * m
  {
    var init := xs[..|xs| - 1];
    assert forall k :: 0 <= k < |init| ==> init[k] == xs[k];
    SumAtLeast(init, m);
  }

  /** The variance is never negative. */
  lemma VarianceNonNegative(xs: seq<real>)
    requires |xs| > 0
    ensures Variance(xs) >= 0.0
  {
    var sq := SquaredDeviations(xs, Mean(xs));
    forall k | 0 <= k < |sq| ensures sq[k] >= 0.0 {
      var d := xs[k] - Mean(xs);
      assert d * d >= 0.0;
    }
    SumAtLeast(sq, 0.0);
  }

  /** Some value is at most the mean. */
  lemma SomeAtMostMean(xs: seq<real>)
    requires |xs| > 0
    ensures exists k :: 0 <= k < |xs| && xs[k] <= Mean(xs)
  {
    if forall k :: 0 <= k < |xs| ==> xs[k] > Mean(xs) {
      assert |xs| as real * Mean(xs) == Sum(xs);
      SumAbove(xs, Mean(xs));
    }
  }

  /**
   * Not every hop's first node can be slow: some hop has a first node whose
   * mean is at most the mean RTT, hence at most the threshold.
   */
  lemma SomeFirstNodeNotSlow(hops: seq<Hop>, sqrt: Sqrt)
    requires |hops| > 0
    requires sqrt(Variance(RttValues(hops))) >= 0.0
    ensures exists h :: 0 <= h < |hops| && FirstNodeRtt(hops[h]) <= SlowThreshold(hops, sqrt)
  {
    var xs := RttValues(hops);
    SomeAtMostMean(xs);
    var h :| 0 <= h < |xs| && xs[h] <= Mean(xs);
    assert FirstNodeRtt(hops[h]) == xs[h];
  }

  // ---------------------------------------------------------------------
  // Ordering, membership and counting of the two lists
  // ---------------------------------------------------------------------

  lemma CongestedHopsStep(hops: seq<Hop>, i: nat)
    requires i < |hops|
    ensures CongestedHops(hops[..i + 1]) == CongestedHops(hops[..i]) + CongestedOfHop(hops[i])
  {
    assert hops[..i + 1][..i] == hops[..i];
  }

  lemma SlowestHopsStep(hops: seq<Hop>, i: nat, threshold: real)
    requires i < |hops|
    ensures SlowestHops(hops[..i + 1], threshold) == SlowestHops(hops[..i], threshold) + SlowOfNodes(NodesOf(hops[i]), threshold)
  {
    assert hops[..i + 1][..i] == hops[..i];
  }

  lemma CongestedOfNodesStep(nodes: seq<Node>, j: nat, loss: real)
    requires j < |nodes|
    ensures CongestedOfNodes(nodes[..j + 1], loss) == CongestedOfNodes(nodes[..j], loss) + [CongestedEntryOf(nodes[j], loss)]
  {
    assert nodes[..j + 1][..j] == nodes[..j];
  }

  lemma SlowOfNodesStep(nodes: seq<Node>, j: nat, threshold: real)
    requires j < |nodes|
    ensures SlowOfNodes(nodes[..j + 1], threshold) ==
      SlowOfNodes(nodes[..j], threshold) + (if IsSlow(nodes[j], threshold) then [SlowEntryOf(nodes[j])] else [])
  {
    assert nodes[..j + 1][..j] == nodes[..j];
  }

  /** Hop order is kept: the entries of earlier hops come first. */
  lemma {:induction false} CongestedHopsAppend(a: seq<Hop>, b: seq<Hop>)
    ensures CongestedHops(a + b) == CongestedHops(a) + CongestedHops(b)
  {
    if b == [] {
      assert a + b == a;
    } else {
      DropLastOfConcat(a, b);
      CongestedHopsAppend(a, b[..|b| - 1]);
      assert (a + b)[|a + b| - 1] == b[|b| - 1];
      Assoc(CongestedHops(a), CongestedHops(b[..|b| - 1]), CongestedOfHop(b[|b| - 1]));
    }
  }

  /** Hop order is kept: the entries of earlier hops come first. */
  lemma {:induction false} SlowestHopsAppend(a: seq<Hop>, b: seq<Hop>, threshold: real)
    ensures SlowestHops(a + b, threshold) == SlowestHops(a, threshold) + SlowestHops(b, threshold)
  {
    if b == [] {
      assert a + b == a;
    } else {
      DropLastOfConcat(a, b);
      SlowestHopsAppend(a, b[..|b| - 1], threshold);
      assert (a + b)[|a + b| - 1] == b[|b| - 1];
      Assoc(SlowestHops(a, threshold), SlowestHops(b[..|b| - 1], threshold), SlowOfNodes(NodesOf(b[|b| - 1]), threshold));
    }
  }

  /** Node order is kept among the slow nodes of a hop. */
  lemma {:induction false} SlowOfNodesAppend(a: seq<Node>, b: seq<Node>, threshold: real)
    ensures SlowOfNodes(a + b, threshold) == SlowOfNodes(a, threshold) + SlowOfNodes(b, threshold)
  {
    if b == [] {
      assert a + b == a;
    } else {
      DropLastOfConcat(a, b);
      SlowOfNodesAppend(a, b[..|b| - 1], threshold);
      assert (a + b)[|a + b| - 1] == b[|b| - 1];
      Assoc(SlowOfNodes(a, threshold), SlowOfNodes(b[..|b| - 1], threshold), (if IsSlow(b[|b| - 1], threshold) then [SlowEntryOf(b[|b| - 1])] else []));
    }
  }

  /** congested_hops has one entry per node of each congested hop, and no other. */
  lemma {:induction false} CongestedHopsLength(hops: seq<Hop>)
    ensures |CongestedHops(hops)| == CongestedNodeCount(hops) <= NodeCount(hops)
  {
    if hops != [] {
      CongestedHopsLength(hops[..|hops| - 1]);
    }
  }

  /** Every hop congested: every node of every hop is listed. */
  lemma {:induction false} AllCongestedListsAll(hops: seq<Hop>)
    requires forall h :: 0 <= h < |hops| ==> IsCongested(hops[h])
    ensures |CongestedHops(hops)| == NodeCount(hops)
  {
    if hops != [] {
      var init := hops[..|hops| - 1];
      assert forall h :: 0 <= h < |init| ==> init[h] == hops[h];
      AllCongestedListsAll(init);
    }
  }

  /** No hop congested: congested_hops is empty. */
  lemma {:induction false} NoneCongestedListsNone(hops: seq<Hop>)
    requires forall h :: 0 <= h < |hops| ==> !IsCongested(hops[h])
    ensures CongestedHops(hops) == []
  {
    if hops != [] {
      var init := hops[..|hops| - 1];
      assert forall h :: 0 <= h < |init| ==> init[h] == hops[h];
      NoneCongestedListsNone(init);
    }
  }

  /** Node n of hop h lies in a congested hop and e is the entry recorded for it. */
  predicate CongestedAt(hops: seq<Hop>, h: int, n: int, e: CongestedEntry) {
    0 <= h < |hops| && IsCongested(hops[h]) && 0 <= n < |NodesOf(hops[h])| &&
    e == CongestedEntryOf(NodesOf(hops[h])[n], HopLoss(hops[h]))
  }

  /** One hop contributes exactly the entries of its nodes, and only when it is congested. */
  lemma CongestedOfHopMembership(hop: Hop, e: CongestedEntry)
    ensures e in CongestedOfHop(hop) <==>
              IsCongested(hop) && exists n :: 0 <= n < |NodesOf(hop)| && e == CongestedEntryOf(NodesOf(hop)[n], HopLoss(hop))
  {
    if IsCongested(hop) && e in CongestedOfHop(hop) {
      var n :| 0 <= n < |CongestedOfHop(hop)| && CongestedOfHop(hop)[n] == e;
    }
  }

  /** An entry is in congested_hops exactly when it is the entry of some node of some congested hop. */
  lemma {:induction false} CongestedMembership(hops: seq<Hop>, e: CongestedEntry)
    ensures e in CongestedHops(hops) <==> exists h, n :: CongestedAt(hops, h, n, e)
  {
    if hops != [] {
      var init := hops[..|hops| - 1];
      var last := hops[|hops| - 1];
      CongestedMembership(init, e);
      CongestedOfHopMembership(last, e);
      assert CongestedHops(hops) == CongestedHops(init) + CongestedOfHop(last);
      if e in CongestedHops(init) {
        var h, n :| CongestedAt(init, h, n, e);
        assert CongestedAt(hops, h, n, e);
      } else if e in CongestedOfHop(last) {
        var n :| 0 <= n < |NodesOf(last)| && e == CongestedEntryOf(NodesOf(last)[n], HopLoss(last));
        assert CongestedAt(hops, |hops| - 1, n, e);
      }
      if exists h, n :: CongestedAt(hops, h, n, e) {
        var h, n :| CongestedAt(hops, h, n, e);
        if h < |hops| - 1 {
          assert CongestedAt(init, h, n, e);
        } else {
          assert hops[h] == last;
        }
      }
    }
  }

  /** An entry is among a hop's slow nodes exactly when it is the entry of a slow node of that hop. */
  lemma {:induction false} SlowOfNodesMembership(nodes: seq<Node>, threshold: real, e: SlowEntry)
    ensures e in SlowOfNodes(nodes, threshold) <==>
      exists n :: 0 <= n < |nodes| && IsSlow(nodes[n], threshold) && e == SlowEntryOf(nodes[n])
  {
    if nodes != [] {
      var init := nodes[..|nodes| - 1];
      SlowOfNodesMembership(init, threshold, e);
      if exists n :: 0 <= n < |nodes| && IsSlow(nodes[n], threshold) && e == SlowEntryOf(nodes[n]) {
        var n :| 0 <= n < |nodes| && IsSlow(nodes[n], threshold) && e == SlowEntryOf(nodes[n]);
        if n < |nodes| - 1 {
          assert init[n] == nodes[n];
        }
      }
      if exists n :: 0 <= n < |init| && IsSlow(init[n], threshold) && e == SlowEntryOf(init[n]) {
        var n :| 0 <= n < |init| && IsSlow(init[n], threshold) && e == SlowEntryOf(init[n]);
        assert nodes[n] == init[n];
      }
    }
  }

  /** An entry is in slowest_hops exactly when it is the entry of some slow node of some hop. */
  lemma {:induction false} SlowestMembership(hops: seq<Hop>, threshold: real, e: SlowEntry)
    ensures e in SlowestHops(hops, threshold) <==>
      exists h :: 0 <= h < |hops| && e in SlowOfNodes(NodesOf(hops[h]), threshold)
  {
    if hops != [] {
      var init := hops[..|hops| - 1];
      SlowestMembership(init, threshold, e);
      if exists h :: 0 <= h < |hops| && e in SlowOfNodes(NodesOf(hops[h]), threshold) {
        var h :| 0 <= h < |hops| && e in SlowOfNodes(NodesOf(hops[h]), threshold);
        if h < |hops| - 1 {
          assert init[h] == hops[h];
        }
      }
      if exists h :: 0 <= h < |init| && e in SlowOfNodes(NodesOf(init[h]), threshold) {
        var h :| 0 <= h < |init| && e in SlowOfNodes(NodesOf(init[h]), threshold);
        assert hops[h] == init[h];
      }
    }
  }

  // ---------------------------------------------------------------------
  // The loops
  // ---------------------------------------------------------------------

  /** The inner `each` over one hop's nodes, appending to both lists. */
  method CollectHop(hop: Hop, threshold: real, congested0: seq<CongestedEntry>, slowest0: seq<SlowEntry>)
    returns (congested: seq<CongestedEntry>, slowest: seq<SlowEntry>)
    ensures congested == congested0 + CongestedOfHop(hop)
    ensures slowest == slowest0 + SlowOfNodes(NodesOf(hop), threshold)
  {
    var loss := PacketLossPct(hop.packetsSent.GetOr(0), hop.packetsLost.GetOr(0));
    var nodes := hop.nodes.GetOr([]);
    congested, slowest := congested0, slowest0;
    ghost var listed := [];
    for j := 0 to |nodes|
      invariant listed == (if loss > 50.0 then CongestedOfNodes(nodes[..j], loss) else [])
      invariant congested == congested0 + listed
      invariant slowest == slowest0 + SlowOfNodes(nodes[..j], threshold)
    {
      var node := nodes[j];
      var meanRttMs := node.meanRttMs.GetOr(0.0);
      var stdDevRttMs := node.stdDevRttMs.GetOr(0.0);
      var minRttMs := node.minRttMs.GetOr(0.0);
      var maxRttMs := node.maxRttMs.GetOr(0.0);
      CongestedOfNodesStep(nodes, j, loss);
      SlowOfNodesStep(nodes, j, threshold);
      if loss > 50.0 {
        var entry := CongestedEntry(node.ip, node.name, loss,
          Round2(meanRttMs), Round2(stdDevRttMs), Round2(minRttMs), Round2(maxRttMs));
        Assoc(congested0, listed, [entry]);
        listed := listed + [entry];
        congested := congested + [entry];
      }
      if meanRttMs > threshold {
        var entry := SlowEntry(node.ip, node.name,
          Round2(meanRttMs), Round2(stdDevRttMs), Round2(minRttMs), Round2(maxRttMs));
        Assoc(slowest0, SlowOfNodes(nodes[..j], threshold), [entry]);
        slowest := slowest + [entry];
      }
    }
    assert nodes[..|nodes|] == nodes;
  }

  /** The `hops.each` loop of collect_hop_data, for a given slowness threshold. */
  method CollectHops(hops: seq<Hop>, threshold: real) returns (congested: seq<CongestedEntry>, slowest: seq<SlowEntry>)
    ensures congested == CongestedHops(hops)
    ensures slowest == SlowestHops(hops, threshold)
  {
    congested, slowest := [], [];
    for i := 0 to |hops|
      invariant congested == CongestedHops(hops[..i])
      invariant slowest == SlowestHops(hops[..i], threshold)
    {
      CongestedHopsStep(hops, i);
      SlowestHopsStep(hops, i, threshold);
      congested, slowest := CollectHop(hops[i], threshold, congested, slowest);
    }
    assert hops[..|hops|] == hops;
  }

  /**
   * collect_hop_data. The caller's hop list must be non-empty: with no hops
   * line 252 divides by zero.
   */
  method CollectHopData(hops: seq<Hop>, sqrt: Sqrt) returns (congested: seq<CongestedEntry>, slowest: seq<SlowEntry>)
    requires |hops| > 0
    ensures congested == CongestedHops(hops)
    ensures slowest == SlowestHops(hops, SlowThreshold(hops, sqrt))
  {
    var rttValues := RttValues(hops);
    var meanRtt := Mean(rttValues);
    var variance := Variance(rttValues);
    var stdDevRtt := sqrt(variance);
    congested, slowest := CollectHops(hops, meanRtt + stdDevRtt);
  }
}

/**
 * infer_final_hop_geo: walk the hops from the last to the first and, inside
 * each hop, the nodes from the last to the first; look up every node that has
 * an IP and keep the first location the lookup returns.
 */
module FinalHop {
  import opened Wrappers
  import opened Geo
  import opened Traceroute
  import opened SeqFacts

  /** IPs of the nodes that carry one, last node first. */
  function NodeIpsReversed(nodes: seq<Node>): seq<string> {
    if nodes == [] then []
    else
      var last := nodes[|nodes| - 1];
      (if last.ip.Some? then [last.ip.value] else []) + NodeIpsReversed(nodes[..|nodes| - 1])
  }

  /** IPs of one hop in visiting order (`hop['nodes']&.reverse_each`). */
  function HopIps(hop: Hop): seq<string> {
    if hop.nodes.Some? then NodeIpsReversed(hop.nodes.value) else []
  }

  /** Every IP infer_final_hop_geo may look up, in the order it looks them up. */
  function LookupOrder(hops: seq<Hop>): seq<string> {
    if hops == [] then []
    else HopIps(hops[|hops| - 1]) + LookupOrder(hops[..|hops| - 1])
  }

  /** The first non-nil lookup along a sequence of IPs. */
  function FirstHit(ips: seq<string>, lookup: GeoLookup): Option<GeoInfo> {
    if ips == [] then None
    else if lookup(ips[0]).Some? then lookup(ips[0])
    else FirstHit(ips[1..], lookup)
  }

  /** No IP of the sequence has a location. */
  predicate AllMiss(ips: seq<string>, lookup: GeoLookup) {
    forall j :: 0 <= j < |ips| ==> lookup(ips[j]).None?
  }

  /** What infer_final_hop_geo returns. */
  function FinalHopGeo(hops: seq<Hop>, lookup: GeoLookup): GeoInfo {
    FirstHit(LookupOrder(hops), lookup).GetOr(UnknownGeo())
  }

  /** One step of the outer walk: the hop before position i is visited next. */
  lemma LookupOrderStep(hops: seq<Hop>, i: nat)
    requires 0 < i <= |hops|
    ensures LookupOrder(hops[..i]) == HopIps(hops[i - 1]) + LookupOrder(hops[..i - 1])
  {
    assert hops[..i][..i - 1] == hops[..i - 1];
  }

  /** One step of the inner walk: the node before position k is visited next. */
  lemma NodeIpsStep(nodes: seq<Node>, k: nat)
    requires 0 < k <= |nodes|
    ensures NodeIpsReversed(nodes[..k]) ==
      (if nodes[k - 1].ip.Some? then [nodes[k - 1].ip.value] else []) + NodeIpsReversed(nodes[..k - 1])
  {
    assert nodes[..k][..k - 1] == nodes[..k - 1];
  }

  /** Misses before a sequence do not change its first hit. */
  lemma {:induction false} FirstHitAfterMisses(misses: seq<string>, rest: seq<string>, lookup: GeoLookup)
    requires forall j :: 0 <= j < |misses| ==> lookup(misses[j]).None?
    ensures FirstHit(misses + rest, lookup) == FirstHit(rest, lookup)
  {
    if misses != [] {
      assert lookup(misses[0]).None?;
      assert (misses + rest)[0] == misses[0];
      assert (misses + rest)[1..] == misses[1..] + rest;
      assert forall j :: 0 <= j < |misses[1..]| ==> misses[1..][j] == misses[j + 1];
      FirstHitAfterMisses(misses[1..], rest, lookup);
    } else {
      assert misses + rest == rest;
    }
  }

  /** FirstHit returns the lookup of the first IP that hits, and nil exactly when nothing hits. */
  lemma {:induction false} FirstHitIsFirst(ips: seq<string>, lookup: GeoLookup)
    ensures FirstHit(ips, lookup).None? <==> forall j :: 0 <= j < |ips| ==> lookup(ips[j]).None?
    ensures forall k :: 0 <= k < |ips| && lookup(ips[k]).Some? && (forall j :: 0 <= j < k ==> lookup(ips[j]).None?)
              ==> FirstHit(ips, lookup) == lookup(ips[k])
  {
    if ips != [] {
      FirstHitIsFirst(ips[1..], lookup);
      forall k | 0 <= k < |ips| && lookup(ips[k]).Some? && (forall j :: 0 <= j < k ==> lookup(ips[j]).None?)
        ensures FirstHit(ips, lookup) == lookup(ips[k])
      {
        if k > 0 {
          assert ips[1..][k - 1] == ips[k];
          assert forall j :: 0 <= j < k - 1 ==> ips[1..][j] == ips[j + 1];
        }
      }
      assert (forall j :: 0 <= j < |ips| ==> lookup(ips[j]).None?)
         <==> lookup(ips[0]).None? && (forall j :: 0 <= j < |ips[1..]| ==> lookup(ips[1..][j]).None?) by {
        assert forall j :: 0 < j < |ips| ==> ips[j] == ips[1..][j - 1];
      }
    }
  }

  /** Reversal over nodes: the later nodes are looked up first. */
  lemma {:induction false} NodeIpsReversedAppend(a: seq<Node>, b: seq<Node>)
    ensures NodeIpsReversed(a + b) == NodeIpsReversed(b) + NodeIpsReversed(a)
  {
    if b == [] {
      assert a + b == a;
    } else {
      DropLastOfConcat(a, b);
      NodeIpsReversedAppend(a, b[..|b| - 1]);
      assert (a + b)[|a + b| - 1] == b[|b| - 1];
      Assoc((if b[|b| - 1].ip.Some? then [b[|b| - 1].ip.value] else []), NodeIpsReversed(b[..|b| - 1]), NodeIpsReversed(a));
    }
  }

  /** Reversal over hops: the later hops are looked up first. */
  lemma {:induction false} LookupOrderAppend(a: seq<Hop>, b: seq<Hop>)
    ensures LookupOrder(a + b) == LookupOrder(b) + LookupOrder(a)
  {
    if b == [] {
      assert a + b == a;
    } else {
      DropLastOfConcat(a, b);
      LookupOrderAppend(a, b[..|b| - 1]);
      assert (a + b)[|a + b| - 1] == b[|b| - 1];
      Assoc(HopIps(b[|b| - 1]), LookupOrder(b[..|b| - 1]), LookupOrder(a));
    }
  }

  /** An IP is looked up among a hop's nodes exactly when one of them carries it. */
  lemma {:induction false} NodeIpsMembership(nodes: seq<Node>, ip: string)
    ensures ip in NodeIpsReversed(nodes) <==> exists n :: 0 <= n < |nodes| && nodes[n].ip == Some(ip)
  {
    if nodes != [] {
      var init := nodes[..|nodes| - 1];
      NodeIpsMembership(init, ip);
      if exists n :: 0 <= n < |nodes| && nodes[n].ip == Some(ip) {
        var n :| 0 <= n < |nodes| && nodes[n].ip == Some(ip);
        if n < |nodes| - 1 {
          assert init[n] == nodes[n];
        }
      }
      if exists n :: 0 <= n < |init| && init[n].ip == Some(ip) {
        var n :| 0 <= n < |init| && init[n].ip == Some(ip);
        assert nodes[n] == init[n];
      }
    }
  }

  /** An IP is ever looked up exactly when some node of some hop carries it: nodes without an IP never are. */
  lemma {:induction false} LookupOrderMembership(hops: seq<Hop>, ip: string)
    ensures ip in LookupOrder(hops) <==>
      exists h :: 0 <= h < |hops| && hops[h].nodes.Some? && ip in NodeIpsReversed(hops[h].nodes.value)
  {
    if hops != [] {
      var init := hops[..|hops| - 1];
      LookupOrderMembership(init, ip);
      if exists h :: 0 <= h < |hops| && hops[h].nodes.Some? && ip in NodeIpsReversed(hops[h].nodes.value) {
        var h :| 0 <= h < |hops| && hops[h].nodes.Some? && ip in NodeIpsReversed(hops[h].nodes.value);
        if h < |hops| - 1 {
          assert init[h] == hops[h];
        }
      }
      if exists h :: 0 <= h < |init| && init[h].nodes.Some? && ip in NodeIpsReversed(init[h].nodes.value) {
        var h :| 0 <= h < |init| && init[h].nodes.Some? && ip in NodeIpsReversed(init[h].nodes.value);
        assert hops[h] == init[h];
      }
    }
  }

  /** With no node that carries an IP (no hops, no nodes, or IP-less nodes) the result is all 'unknown'. */
  lemma {:induction false} NoIpMeansUnknown(hops: seq<Hop>, lookup: GeoLookup)
    requires forall h :: 0 <= h < |hops| ==>
      (hops[h].nodes.None? || forall n :: 0 <= n < |hops[h].nodes.value| ==> hops[h].nodes.value[n].ip.None?)
    ensures LookupOrder(hops) == []
    ensures FinalHopGeo(hops, lookup) == UnknownGeo()
  {
    if LookupOrder(hops) != [] {
      var ip := LookupOrder(hops)[0];
      LookupOrderMembership(hops, ip);
      var h :| 0 <= h < |hops| && hops[h].nodes.Some? && ip in NodeIpsReversed(hops[h].nodes.value);
      NodeIpsMembership(hops[h].nodes.value, ip);
    }
  }

  /**
   * The inner `reverse_each` over one hop's nodes: looks up each node that has
   * an IP, last node first, and stops at the first lookup that is not nil.
   */
  method ScanNodes(nodes: seq<Node>, lookup: GeoLookup) returns (found: Option<GeoInfo>, scanned: seq<string>)
    ensures |scanned| <= |NodeIpsReversed(nodes)| && scanned == NodeIpsReversed(nodes)[..|scanned|]
    ensures forall j :: 0 <= j < |scanned| - 1 ==> lookup(scanned[j]).None?
    ensures found.None? ==> scanned == NodeIpsReversed(nodes) && AllMiss(scanned, lookup)
    ensures found.Some? ==> scanned != [] && found == lookup(scanned[|scanned| - 1])
  {
    scanned := [];
    var k := |nodes|;
    assert nodes[..k] == nodes;
    while k > 0
      invariant 0 <= k <= |nodes|
      invariant scanned + NodeIpsReversed(nodes[..k]) == NodeIpsReversed(nodes)
      invariant AllMiss(scanned, lookup)
    {
      NodeIpsStep(nodes, k);
      k := k - 1;
      var node := nodes[k];
      if node.ip.None? {
        continue;
      }
      assert scanned + [node.ip.value] + NodeIpsReversed(nodes[..k]) == NodeIpsReversed(nodes);
      scanned := scanned + [node.ip.value];
      found := lookup(node.ip.value);
      if found.Some? {
        return;
      }
    }
    found := None;
  }

  /** The IPs scanned in one hop extend the IPs checked before it along the walk. */
  lemma ScannedPrefix(checked: seq<string>, scanned: seq<string>, ips: seq<string>, later: seq<string>, all: seq<string>)
    requires |scanned| <= |ips| && scanned == ips[..|scanned|]
    requires all == checked + (ips + later)
    ensures |checked + scanned| <= |all| && checked + scanned == all[..|checked + scanned|]
  {
    ghost var tail := ips[|scanned|..];
    SplitAt(ips, |scanned|);
    Assoc(scanned, tail, later);
    Assoc(checked, scanned, tail + later);
    PrefixOfConcat(checked + scanned, tail + later);
  }

  /** A hit inside one hop is the first hit of the whole walk. */
  lemma HitInHop(checked: seq<string>, scanned: seq<string>, ips: seq<string>, later: seq<string>, all: seq<string>,
                 lookup: GeoLookup)
    requires 0 < |scanned| <= |ips| && scanned == ips[..|scanned|]
    requires all == checked + (ips + later)
    requires AllMiss(checked, lookup)
    requires forall j :: 0 <= j < |scanned| - 1 ==> lookup(scanned[j]).None?
    requires lookup(scanned[|scanned| - 1]).Some?
    ensures FirstHit(all, lookup) == lookup(scanned[|scanned| - 1])
    ensures forall j :: 0 <= j < |checked + scanned| - 1 ==> lookup((checked + scanned)[j]).None?
  {
    ghost var cs := checked + scanned;
    ScannedPrefix(checked, scanned, ips, later, all);
    ghost var rest := all[|cs|..];
    SplitAt(all, |cs|);
    ghost var pre := scanned[..|scanned| - 1];
    ghost var x := scanned[|scanned| - 1];
    SplitAt(scanned, |scanned| - 1);
    assert scanned[|scanned| - 1..] == [x];
    Assoc(checked, pre, [x]);
    Assoc(checked + pre, [x], rest);
    forall j | 0 <= j < |checked + pre| ensures lookup((checked + pre)[j]).None? {
      if j >= |checked| {
        assert (checked + pre)[j] == scanned[j - |checked|];
      }
    }
    FirstHitAfterMisses(checked + pre, [x] + rest, lookup);
    assert ([x] + rest)[0] == x;
  }

  /** The walk stops at a hit in hop i: what it returns is the whole walk's answer. */
  lemma HitEndsWalk(hops: seq<Hop>, i: nat, checked: seq<string>, scanned: seq<string>, lookup: GeoLookup)
    requires i < |hops| && hops[i].nodes.Some?
    requires checked + LookupOrder(hops[..i + 1]) == LookupOrder(hops)
    requires AllMiss(checked, lookup)
    requires 0 < |scanned| <= |NodeIpsReversed(hops[i].nodes.value)|
    requires scanned == NodeIpsReversed(hops[i].nodes.value)[..|scanned|]
    requires forall j :: 0 <= j < |scanned| - 1 ==> lookup(scanned[j]).None?
    requires lookup(scanned[|scanned| - 1]).Some?
    ensures lookup(scanned[|scanned| - 1]).value == FinalHopGeo(hops, lookup)
    ensures |checked + scanned| <= |LookupOrder(hops)|
    ensures checked + scanned == LookupOrder(hops)[..|checked + scanned|]
    ensures forall j :: 0 <= j < |checked + scanned| - 1 ==> lookup((checked + scanned)[j]).None?
    ensures lookup((checked + scanned)[|checked + scanned| - 1]).Some?
  {
    ghost var ips := NodeIpsReversed(hops[i].nodes.value);
    ghost var later := LookupOrder(hops[..i]);
    ghost var all := LookupOrder(hops);
    assert all == checked + (ips + later) by {
      LookupOrderStep(hops, i + 1);
    }
    assert |checked + scanned| <= |all| && checked + scanned == all[..|checked + scanned|] by {
      ScannedPrefix(checked, scanned, ips, later, all);
    }
    assert FirstHit(all, lookup) == lookup(scanned[|scanned| - 1]) &&
           forall j :: 0 <= j < |checked + scanned| - 1 ==> lookup((checked + scanned)[j]).None? by {
      HitInHop(checked, scanned, ips, later, all, lookup);
    }
    assert (checked + scanned)[|checked + scanned| - 1] == scanned[|scanned| - 1];
  }

  /** The walk passes hop i without a hit: the invariant holds one hop earlier. */
  lemma MissStep(hops: seq<Hop>, i: nat, checked: seq<string>, scanned: seq<string>, lookup: GeoLookup)
    requires i < |hops|
    requires checked + LookupOrder(hops[..i + 1]) == LookupOrder(hops)
    requires AllMiss(checked, lookup)
    requires scanned == HopIps(hops[i]) && AllMiss(scanned, lookup)
    ensures (checked + scanned) + LookupOrder(hops[..i]) == LookupOrder(hops)
    ensures AllMiss(checked + scanned, lookup)
  {
    LookupOrderStep(hops, i + 1);
    Assoc(checked, scanned, LookupOrder(hops[..i]));
  }

  /** A walk that ends without a hit has looked up every candidate and found nothing. */
  lemma NoHitAtAll(checked: seq<string>, hops: seq<Hop>, lookup: GeoLookup)
    requires checked + LookupOrder(hops[..0]) == LookupOrder(hops)
    requires AllMiss(checked, lookup)
    ensures checked == LookupOrder(hops)
    ensures FinalHopGeo(hops, lookup) == UnknownGeo()
  {
    assert hops[..0] == [];
    assert checked + [] == checked;
    FirstHitAfterMisses(checked, [], lookup);
  }

  /**
   * infer_final_hop_geo. `checked` lists the IPs looked up, in order (the
   * "Checking IP ..." log lines); `targetIp` is accepted and unused, as in the code.
   */
  method InferFinalHopGeo(hops: seq<Hop>, targetIp: Option<string>, lookup: GeoLookup)
    returns (geo: GeoInfo, checked: seq<string>)
    ensures geo == FinalHopGeo(hops, lookup)
    ensures |checked| <= |LookupOrder(hops)| && checked == LookupOrder(hops)[..|checked|]
    ensures forall j :: 0 <= j < |checked| - 1 ==> lookup(checked[j]).None?
    ensures checked == LookupOrder(hops) || (checked != [] && lookup(checked[|checked| - 1]).Some?)
  {
    checked := [];
    var i := |hops|;
    assert hops[..i] == hops;
    while i > 0
      invariant 0 <= i <= |hops|
      invariant checked + LookupOrder(hops[..i]) == LookupOrder(hops)
      invariant AllMiss(checked, lookup)
    {
      i := i - 1;
      var scanned: seq<string> := [];
      if hops[i].nodes.Some? {
        var found;
        found, scanned := ScanNodes(hops[i].nodes.value, lookup);
        if found.Some? {
          HitEndsWalk(hops, i, checked, scanned, lookup);
          checked := checked + scanned;
          geo := found.value;
          return;
        }
      }
      MissStep(hops, i, checked, scanned, lookup);
      checked := checked + scanned;
    }
    NoHitAtAll(checked, hops, lookup);
    geo := UnknownGeo();
  }
}

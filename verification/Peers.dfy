/** The peer configuration handed to one node: who its peers are and which addresses route to them. */
module Peers {
  import opened Allocator
  import opened Outcomes
  import opened Storage

  /** An entry of `allowed_ips`: a generated host entry, or a routed prefix as stored. */
  datatype AllowedIp = Host4(v4: nat) | Host6(v6: nat) | Routed(prefix: string)

  datatype PeerConfig = PeerConfig(
    nodeId: string,
    hostname: string,
    publicKey: string,
    mesh: Addresses,
    allowedIps: seq<AllowedIp>,
    endpoints: seq<string>)

  datatype NetworkConfig = NetworkConfig(nodeId: string, mesh: Addresses, peers: seq<PeerConfig>, routes: seq<RouteRow>)

  /** `SELECT ... WHERE network_id = netId AND id != nodeId`, in table order. */
  function OtherNodes(nodes: seq<NodeRow>, netId: string, nodeId: string): (r: seq<NodeRow>)
    ensures forall n :: n in r <==> n in nodes && n.networkId == netId && n.id != nodeId
  {
    if nodes == [] then []
    else
      assert nodes == [nodes[0]] + nodes[1..];
      (if nodes[0].networkId == netId && nodes[0].id != nodeId then [nodes[0]] else [])
      + OtherNodes(nodes[1..], netId, nodeId)
  }

  /** `SELECT ... WHERE network_id = netId AND enabled`, in table order. */
  function EnabledRoutes(routes: seq<RouteRow>, netId: string): (r: seq<RouteRow>)
    ensures forall x :: x in r <==> x in routes && x.networkId == netId && x.enabled
  {
    if routes == [] then []
    else
      assert routes == [routes[0]] + routes[1..];
      (if routes[0].networkId == netId && routes[0].enabled then [routes[0]] else [])
      + EnabledRoutes(routes[1..], netId)
  }

  /** The prefixes routed through one node, in route order. */
  function PrefixesVia(routes: seq<RouteRow>, nodeId: string): (r: seq<AllowedIp>)
    ensures forall x :: x in r ==> x.Routed?
  {
    if routes == [] then []
    else PrefixesVia(routes[..|routes| - 1], nodeId)
         + if routes[|routes| - 1].viaNodeId == nodeId then [Routed(routes[|routes| - 1].prefix)] else []
  }

  function AllowedIps(node: NodeRow, routes: seq<RouteRow>): seq<AllowedIp> {
    [Host4(node.mesh.v4), Host6(node.mesh.v6)] + PrefixesVia(routes, node.id)
  }

  function Peer(node: NodeRow, routes: seq<RouteRow>): PeerConfig {
    PeerConfig(node.id, node.hostname, node.wireguardKey, node.mesh, AllowedIps(node, routes), node.endpoints)
  }

  function PeersOf(nodes: seq<NodeRow>, routes: seq<RouteRow>): (r: seq<PeerConfig>)
    ensures |r| == |nodes| && forall i :: 0 <= i < |nodes| ==> r[i] == Peer(nodes[i], routes)
  {
    seq(|nodes|, i requires 0 <= i < |nodes| => Peer(nodes[i], routes))
  }

  function ConfigFor(t: Tables, node: NodeRow): NetworkConfig {
    var routes := EnabledRoutes(t.routes, node.networkId);
    NetworkConfig(node.id, node.mesh, PeersOf(OtherNodes(t.nodes, node.networkId, node.id), routes), routes)
  }

  class PeerManager {
    /** `route_map.setdefault(via, []).append(prefix)` over all routes. */
    static method GroupRoutes(routes: seq<RouteRow>) returns (routeMap: map<string, seq<AllowedIp>>)
      ensures forall id :: PrefixesVia(routes, id) == if id in routeMap then routeMap[id] else []
    {
      routeMap := map[];
      for i := 0 to |routes|
        invariant forall id :: PrefixesVia(routes[..i], id) == if id in routeMap then routeMap[id] else []
      {
        var via := routes[i].viaNodeId;
        assert routes[..i + 1][..i] == routes[..i];
        var earlier := if via in routeMap then routeMap[via] else [];
        routeMap := routeMap[via := earlier + [Routed(routes[i].prefix)]];
      }
      assert routes[..|routes|] == routes;
    }

    static method ConfigurePeers(others: seq<NodeRow>, ghost routes: seq<RouteRow>,
                                 routeMap: map<string, seq<AllowedIp>>)
      returns (peers: seq<PeerConfig>)
      requires forall id :: PrefixesVia(routes, id) == if id in routeMap then routeMap[id] else []
      ensures peers == PeersOf(others, routes)
    {
      peers := [];
      for i := 0 to |others|
        invariant |peers| == i
        invariant forall j :: 0 <= j < i ==> peers[j] == Peer(others[j], routes)
      {
        var p := others[i];
        var allowed := [Host4(p.mesh.v4), Host6(p.mesh.v6)];
        if p.id in routeMap {
          allowed := allowed + routeMap[p.id];
        }
        assert allowed == AllowedIps(p, routes);
        peers := peers + [PeerConfig(p.id, p.hostname, p.wireguardKey, p.mesh, allowed, p.endpoints)];
      }
    }

    static method BuildNetworkConfig(db: Database, nodeId: string) returns (r: Option<NetworkConfig>)
      ensures match Position(db.nodes, nodeId)
              case None => r == None
              case Some(i) => r == Some(ConfigFor(db.Contents(), db.nodes[i]))
    {
      var target := Position(db.nodes, nodeId);
      if target.None? {
        return None;
      }
      var node := db.nodes[target.value];
      var others := OtherNodes(db.nodes, node.networkId, nodeId);
      var routes := EnabledRoutes(db.routes, node.networkId);
      var routeMap := GroupRoutes(routes);
      var peers := ConfigurePeers(others, routes, routeMap);
      return Some(NetworkConfig(node.id, node.mesh, peers, routes));
    }
  }

  // ----- Conservation

  function TotalAllowed(peers: seq<PeerConfig>): nat {
    if peers == [] then 0 else |peers[0].allowedIps| + TotalAllowed(peers[1..])
  }

  /** How many of the routes go through one of the nodes. */
  function CountVia(routes: seq<RouteRow>, nodes: seq<NodeRow>): nat {
    if routes == [] then 0
    else CountVia(routes[..|routes| - 1], nodes)
         + if Position(nodes, routes[|routes| - 1].viaNodeId).Some? then 1 else 0
  }

  lemma {:induction false} CountViaNone(routes: seq<RouteRow>)
    ensures CountVia(routes, []) == 0
  {
    if routes != [] {
      CountViaNone(routes[..|routes| - 1]);
    }
  }

  lemma HeadIsElsewhereAbsent(nodes: seq<NodeRow>)
    requires nodes != [] && UniqueColumns(nodes)
    ensures forall n :: n in nodes[1..] ==> Distinguished(nodes[0], n)
  {
    forall n | n in nodes[1..] ensures Distinguished(nodes[0], n) {
      var i :| 0 <= i < |nodes[1..]| && nodes[1..][i] == n;
      assert Distinguished(nodes[0], nodes[i + 1]);
    }
  }

  // With distinct ids, a route through `[node] + rest` goes through exactly one of the two.
  lemma {:induction false} CountViaSplits(routes: seq<RouteRow>, nodes: seq<NodeRow>)
    requires nodes != [] && UniqueColumns(nodes)
    ensures CountVia(routes, nodes) == |PrefixesVia(routes, nodes[0].id)| + CountVia(routes, nodes[1..])
  {
    if routes != [] {
      CountViaSplits(routes[..|routes| - 1], nodes);
      HeadIsElsewhereAbsent(nodes);
    }
  }

  lemma {:induction false} TotalOfPeers(nodes: seq<NodeRow>, peers: seq<PeerConfig>, routes: seq<RouteRow>)
    requires UniqueColumns(nodes)
    requires |peers| == |nodes| && forall i :: 0 <= i < |nodes| ==> peers[i] == Peer(nodes[i], routes)
    ensures TotalAllowed(peers) == 2 * |nodes| + CountVia(routes, nodes)
  {
    if nodes == [] {
      CountViaNone(routes);
    } else {
      TotalOfPeers(nodes[1..], peers[1..], routes);
      CountViaSplits(routes, nodes);
    }
  }

  lemma {:induction false} OtherNodesAreUnique(nodes: seq<NodeRow>, netId: string, nodeId: string)
    requires UniqueColumns(nodes)
    ensures UniqueColumns(OtherNodes(nodes, netId, nodeId))
  {
    if nodes != [] {
      OtherNodesAreUnique(nodes[1..], netId, nodeId);
      HeadIsElsewhereAbsent(nodes);
    }
  }

  lemma {:induction false} OtherNodesCount(nodes: seq<NodeRow>, netId: string, nodeId: string, k: nat)
    requires UniqueColumns(nodes) && k <= |nodes|
    ensures |OtherNodes(nodes[k..], netId, nodeId)| ==
            Rank(nodes, netId, |nodes|) - Rank(nodes, netId, k)
            - (if exists i :: k <= i < |nodes| && nodes[i].id == nodeId && nodes[i].networkId == netId then 1 else 0)
    decreases |nodes| - k
  {
    if k < |nodes| {
      OtherNodesCount(nodes, netId, nodeId, k + 1);
      assert nodes[k..][1..] == nodes[k + 1..];
      if nodes[k].id == nodeId {
        forall i | k < i < |nodes| ensures nodes[i].id != nodeId {
          assert Distinguished(nodes[k], nodes[i]);
        }
      }
    }
  }

  /** A node of a network of `n` nodes gets `n - 1` peers, with distinct ids. */
  lemma PeerCount(t: Tables, i: nat)
    requires UniqueColumns(t.nodes) && i < |t.nodes|
    ensures var peers := ConfigFor(t, t.nodes[i]).peers;
            && |peers| == Rank(t.nodes, t.nodes[i].networkId, |t.nodes|) - 1
            && (forall j, k :: 0 <= j < k < |peers| ==> peers[j].nodeId != peers[k].nodeId)
  {
    var node := t.nodes[i];
    var others := OtherNodes(t.nodes, node.networkId, node.id);
    OtherNodesAreUnique(t.nodes, node.networkId, node.id);
    OtherNodesCount(t.nodes, node.networkId, node.id, 0);
    assert t.nodes[0..] == t.nodes;
    var peers := ConfigFor(t, node).peers;
    forall j, k | 0 <= j < k < |peers| ensures peers[j].nodeId != peers[k].nodeId {
      assert Distinguished(others[j], others[k]);
    }
  }

  /** The peers are exactly the other nodes of the network. */
  lemma PeersAreTheOtherNodes(t: Tables, node: NodeRow, p: PeerConfig)
    ensures p in ConfigFor(t, node).peers <==>
            exists n :: n in t.nodes && n.networkId == node.networkId && n.id != node.id &&
                        p == Peer(n, EnabledRoutes(t.routes, node.networkId))
  {
    var others := OtherNodes(t.nodes, node.networkId, node.id);
    var routes := EnabledRoutes(t.routes, node.networkId);
    if p in ConfigFor(t, node).peers {
      var j :| 0 <= j < |others| && ConfigFor(t, node).peers[j] == p;
      assert others[j] in others;
    }
    forall n | n in others && p == Peer(n, routes) ensures p in ConfigFor(t, node).peers {
      var j :| 0 <= j < |others| && others[j] == n;
      assert ConfigFor(t, node).peers[j] == p;
    }
  }

  // ----- What the config says, row by row

  predicate Increasing(at: seq<nat>, bound: nat) {
    (forall k :: 0 <= k < |at| ==> at[k] < bound) && forall j, k :: 0 <= j < k < |at| ==> at[j] < at[k]
  }

  /** From row `from` on, the rows at these indices are, in order, exactly those to be kept. */
  ghost predicate Picks<T(!new)>(rows: seq<T>, from: nat, kept: seq<T>, keep: T -> bool, at: seq<nat>) {
    && Increasing(at, |rows|) && |kept| == |at|
    && (forall k :: 0 <= k < |at| ==> from <= at[k] && kept[k] == rows[at[k]])
    && (forall i: nat :: from <= i < |rows| ==> (i in at <==> keep(rows[i])))
  }

  lemma PickFirst<T(!new)>(rows: seq<T>, from: nat, rest: seq<T>, keep: T -> bool, after: seq<nat>)
    requires from < |rows| && keep(rows[from]) && Picks(rows, from + 1, rest, keep, after)
    ensures Picks(rows, from, [rows[from]] + rest, keep, [from] + after)
  {
    var at := [from] + after;
    forall i: nat | from <= i < |rows| ensures i in at <==> keep(rows[i]) {
      assert i in at <==> i == from || i in after;
    }
  }

  lemma SkipFirst<T(!new)>(rows: seq<T>, from: nat, rest: seq<T>, keep: T -> bool, after: seq<nat>)
    requires from < |rows| && !keep(rows[from]) && Picks(rows, from + 1, rest, keep, after)
    ensures Picks(rows, from, rest, keep, after)
  {
  }

  lemma PickNone<T(!new)>(rows: seq<T>, keep: T -> bool)
    ensures Picks(rows, |rows|, [], keep, [])
  {
  }

  lemma {:induction false} OtherNodesAt(nodes: seq<NodeRow>, from: nat, netId: string, nodeId: string)
    returns (at: seq<nat>)
    requires from <= |nodes|
    ensures Picks(nodes, from, OtherNodes(nodes[from..], netId, nodeId),
                  (n: NodeRow) => n.networkId == netId && n.id != nodeId, at)
    decreases |nodes| - from
  {
    hide Picks;
    var keep := (n: NodeRow) => n.networkId == netId && n.id != nodeId;
    if from == |nodes| {
      at := [];
      PickNone(nodes, keep);
    } else {
      var rest := OtherNodes(nodes[from + 1..], netId, nodeId);
      assert nodes[from..][1..] == nodes[from + 1..];
      at := OtherNodesAt(nodes, from + 1, netId, nodeId);
      if keep(nodes[from]) {
        PickFirst(nodes, from, rest, keep, at);
        at := [from] + at;
      } else {
        SkipFirst(nodes, from, rest, keep, at);
        assert [] + rest == rest;
      }
    }
  }

  lemma {:induction false} EnabledRoutesAt(routes: seq<RouteRow>, from: nat, netId: string) returns (at: seq<nat>)
    requires from <= |routes|
    ensures Picks(routes, from, EnabledRoutes(routes[from..], netId),
                  (r: RouteRow) => r.networkId == netId && r.enabled, at)
    decreases |routes| - from
  {
    hide Picks;
    var keep := (r: RouteRow) => r.networkId == netId && r.enabled;
    if from == |routes| {
      at := [];
      PickNone(routes, keep);
    } else {
      var rest := EnabledRoutes(routes[from + 1..], netId);
      assert routes[from..][1..] == routes[from + 1..];
      at := EnabledRoutesAt(routes, from + 1, netId);
      if keep(routes[from]) {
        PickFirst(routes, from, rest, keep, at);
        at := [from] + at;
      } else {
        SkipFirst(routes, from, rest, keep, at);
        assert [] + rest == rest;
      }
    }
  }

  lemma {:induction false} PrefixesViaAt(routes: seq<RouteRow>, nodeId: string) returns (at: seq<nat>)
    ensures Increasing(at, |routes|) && |PrefixesVia(routes, nodeId)| == |at|
    ensures forall k :: 0 <= k < |at| ==> PrefixesVia(routes, nodeId)[k] == Routed(routes[at[k]].prefix)
    ensures forall i: nat :: i < |routes| ==> (i in at <==> routes[i].viaNodeId == nodeId)
  {
    if routes == [] {
      at := [];
    } else {
      var n := |routes| - 1;
      at := PrefixesViaAt(routes[..n], nodeId);
      if routes[n].viaNodeId == nodeId {
        at := at + [n];
      }
    }
  }

  lemma IndicesCompose(outer: seq<nat>, inner: seq<nat>, bound: nat) returns (at: seq<nat>)
    requires Increasing(outer, bound) && Increasing(inner, |outer|)
    ensures Increasing(at, bound) && |at| == |inner|
    ensures forall k :: 0 <= k < |at| ==> at[k] == outer[inner[k]]
    ensures forall i: nat :: i in at <==> exists m: nat :: m in inner && m < |outer| && outer[m] == i
  {
    at := seq(|inner|, k requires 0 <= k < |inner| => outer[inner[k]]);
    forall i: nat, m: nat | m in inner && m < |outer| && outer[m] == i ensures i in at {
      var k :| 0 <= k < |inner| && inner[k] == m;
      assert at[k] == i;
    }
    forall i: nat | i in at ensures exists m: nat :: m in inner && m < |outer| && outer[m] == i {
      var k :| 0 <= k < |at| && at[k] == i;
      assert inner[k] in inner;
    }
  }

  /** The peers are, in table order, the rows of the network but the node's own. */
  lemma PeersInTableOrder(t: Tables, node: NodeRow) returns (rows: seq<nat>)
    ensures Increasing(rows, |t.nodes|) && |ConfigFor(t, node).peers| == |rows|
    ensures forall i: nat :: i < |t.nodes| ==>
              (i in rows <==> t.nodes[i].networkId == node.networkId && t.nodes[i].id != node.id)
    ensures forall j :: 0 <= j < |rows| ==>
              var p, n := ConfigFor(t, node).peers[j], t.nodes[rows[j]];
              && p.nodeId == n.id && p.hostname == n.hostname && p.publicKey == n.wireguardKey
              && p.mesh == n.mesh && p.endpoints == n.endpoints
              && |p.allowedIps| >= 2 && p.allowedIps[..2] == [Host4(n.mesh.v4), Host6(n.mesh.v6)]
  {
    hide OtherNodes, EnabledRoutes, PrefixesVia;
    rows := OtherNodesAt(t.nodes, 0, node.networkId, node.id);
    assert t.nodes[0..] == t.nodes;
  }

  /** Behind its two host entries a peer has, in table order, exactly the prefixes of the enabled routes
      of the network that go through it. */
  lemma RoutedPrefixesExactly(t: Tables, node: NodeRow, j: nat) returns (at: seq<nat>)
    requires j < |ConfigFor(t, node).peers|
    ensures var p := ConfigFor(t, node).peers[j];
            && Increasing(at, |t.routes|)
            && |p.allowedIps| == 2 + |at|
            && (forall k :: 0 <= k < |at| ==> p.allowedIps[2 + k] == Routed(t.routes[at[k]].prefix))
            && (forall i: nat :: i < |t.routes| ==>
                  (i in at <==>
                   t.routes[i].networkId == node.networkId && t.routes[i].enabled && t.routes[i].viaNodeId == p.nodeId))
  {
    hide OtherNodes, EnabledRoutes, PrefixesVia;
    var routes := EnabledRoutes(t.routes, node.networkId);
    var via := ConfigFor(t, node).peers[j].nodeId;
    var outer := EnabledRoutesAt(t.routes, 0, node.networkId);
    assert t.routes[0..] == t.routes;
    var inner := PrefixesViaAt(routes, via);
    at := IndicesCompose(outer, inner, |t.routes|);
    forall i: nat | i < |t.routes|
      ensures i in at <==>
              t.routes[i].networkId == node.networkId && t.routes[i].enabled && t.routes[i].viaNodeId == via
    {
      if i in outer {
        var m: nat :| m < |outer| && outer[m] == i;
        assert routes[m] == t.routes[i];
        assert i in at <==> m in inner;
      }
    }
  }

  /** The config names the node and lists, in table order, the enabled routes of its network. */
  lemma RoutesListedExactly(t: Tables, node: NodeRow) returns (at: seq<nat>)
    ensures var c := ConfigFor(t, node);
            && c.nodeId == node.id && c.mesh == node.mesh
            && Increasing(at, |t.routes|) && |c.routes| == |at|
            && (forall k :: 0 <= k < |at| ==> c.routes[k] == t.routes[at[k]])
            && (forall i: nat :: i < |t.routes| ==>
                  (i in at <==> t.routes[i].networkId == node.networkId && t.routes[i].enabled))
  {
    hide OtherNodes, EnabledRoutes, PeersOf;
    at := EnabledRoutesAt(t.routes, 0, node.networkId);
    assert t.routes[0..] == t.routes;
  }

  /** No mesh host entry is generated for two peers. */
  lemma HostEntriesAreDisjoint(t: Tables, node: NodeRow, j: nat, k: nat)
    requires UniqueColumns(t.nodes)
    requires j < k < |ConfigFor(t, node).peers|
    ensures HostEntries(ConfigFor(t, node).peers[j]) !! HostEntries(ConfigFor(t, node).peers[k])
  {
    var others := OtherNodes(t.nodes, node.networkId, node.id);
    var routes := EnabledRoutes(t.routes, node.networkId);
    OtherNodesAreUnique(t.nodes, node.networkId, node.id);
    assert Distinguished(others[j], others[k]);
    PeerHostEntries(others[j], routes);
    PeerHostEntries(others[k], routes);
  }

  /** The allowed-ips entries add up to two per peer plus one per enabled route of the network that
      goes through a peer. */
  lemma AllowedIpsConserved(t: Tables, node: NodeRow)
    requires UniqueColumns(t.nodes)
    ensures var c := ConfigFor(t, node);
            var others := OtherNodes(t.nodes, node.networkId, node.id);
            TotalAllowed(c.peers) == 2 * |c.peers| + CountVia(EnabledRoutes(t.routes, node.networkId), others)
  {
    OtherNodesAreUnique(t.nodes, node.networkId, node.id);
    var routes := EnabledRoutes(t.routes, node.networkId);
    var others := OtherNodes(t.nodes, node.networkId, node.id);
    TotalOfPeers(others, PeersOf(others, routes), routes);
  }

  function HostEntries(p: PeerConfig): set<AllowedIp> {
    set x | x in p.allowedIps && !x.Routed?
  }

  lemma PeerHostEntries(node: NodeRow, routes: seq<RouteRow>)
    ensures HostEntries(Peer(node, routes)) == {Host4(node.mesh.v4), Host6(node.mesh.v6)}
  {
    var all := AllowedIps(node, routes);
    assert all[0] == Host4(node.mesh.v4) && all[1] == Host6(node.mesh.v6);
    forall x | x in all && !x.Routed? ensures x in {Host4(node.mesh.v4), Host6(node.mesh.v6)} {
    }
  }
}

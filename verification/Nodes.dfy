/** Node registration: snapshot, re-register or allocate, commit. */
module Nodes {
  import opened Allocator
  import opened Outcomes
  import opened Storage

  datatype Request = Request(
    hostname: string,
    publicKey: string,
    listenPort: int,
    os: string,
    version: string,
    endpoints: seq<string>,
    tags: seq<string>)

  datatype RegistrationError = AllocationFailed(reason: AllocationError) | IntegrityError

  /** Re-registration: every requested column changes, the mesh addresses do not. */
  function Refreshed(node: NodeRow, req: Request): NodeRow {
    node.(hostname := req.hostname,
          wireguardKey := req.publicKey,
          listenPort := req.listenPort,
          os := req.os,
          version := req.version,
          endpoints := req.endpoints,
          tags := req.tags,
          online := true)
  }

  function NewRow(id: string, networkId: string, req: Request, mesh: Addresses): NodeRow {
    NodeRow(id, networkId, req.hostname, mesh, req.publicKey, req.publicKey,
            req.listenPort, req.os, req.version, req.endpoints, req.tags, true)
  }

  datatype Outcome = Outcome(tables: Tables, result: Result<NodeRow, RegistrationError>)

  /** The whole effect of one registration on the tables. */
  ghost function Registered(t: Tables, id: string, req: Request, networkName: string): Outcome {
    var netId := NetworkId(networkName);
    var t1 := WithNetwork(t, networkName);
    match Position(t1.nodes, id)
    case Some(i) =>
      var node := Refreshed(t1.nodes[i], req);
      Outcome(t1.(nodes := t1.nodes[i := node]), Ok(node))
    case None =>
      var row := t1.networks[netId];
      match Allocation(row.ipv4Prefix, row.ipv6Prefix, TakenV4(t1.nodes, netId))
      case Err(e) => Outcome(t1, Err(AllocationFailed(e)))
      case Ok(mesh) =>
        var node := NewRow(id, netId, req, mesh);
        if UniqueColumns(t1.nodes + [node]) then Outcome(t1.(nodes := t1.nodes + [node]), Ok(node))
        else Outcome(t1, Err(IntegrityError))
  }

  class NodeManager {
    static method GetOrCreateNetwork(db: Database, name: string) returns (id: string)
      requires UniqueColumns(db.nodes)
      modifies db
      ensures id == NetworkId(name) && id in db.networks
      ensures db.Contents() == WithNetwork(old(db.Contents()), name)
    {
      id := NetworkId(name);
      if id !in db.networks {
        var ok := db.Commit(db.networks[id := db.defaults], db.nodes);
      }
    }

    /** `deriveNodeId` is the key manager's hash of the public key. */
    static method RegisterNode(db: Database, deriveNodeId: string -> string, req: Request, networkName: string)
      returns (r: Result<NodeRow, RegistrationError>)
      requires UniqueColumns(db.nodes)
      modifies db
      ensures Outcome(db.Contents(), r) ==
              Registered(old(db.Contents()), deriveNodeId(req.publicKey), req, networkName)
    {
      var netId := GetOrCreateNetwork(db, networkName);
      var allocatedV4 := TakenV4(db.nodes, netId);
      var allocatedV6 := TakenV6(db.nodes, netId);
      var row := db.networks[netId];
      var allocator := new IPAllocator(row.ipv4Prefix, row.ipv6Prefix);
      var nodeId := deriveNodeId(req.publicKey);

      var existing := Position(db.nodes, nodeId);
      if existing.Some? {
        var i := existing.value;
        var node := Refreshed(db.nodes[i], req);
        var ok := db.Commit(db.networks, db.nodes[i := node]);
        return Ok(node);
      }

      var addresses := allocator.Allocate(allocatedV4, allocatedV6);
      if addresses.Err? {
        return Err(AllocationFailed(addresses.error));
      }
      var node := NewRow(nodeId, netId, req, addresses.value);
      var ok := db.Commit(db.networks, db.nodes + [node]);
      return if ok then Ok(node) else Err(IntegrityError);
    }
  }

  // ----- What registration keeps, and exactly when it is refused

  lemma AppendKeepsConsistent(t: Tables, node: NodeRow)
    requires Consistent(t) && UniqueColumns(t.nodes + [node])
    requires node.networkId in t.networks && Placed(node, t.networks[node.networkId])
    ensures Consistent(t.(nodes := t.nodes + [node]))
  {
  }

  lemma RefreshKeepsConsistent(t: Tables, i: nat, req: Request)
    requires Consistent(t) && i < |t.nodes|
    ensures Consistent(t.(nodes := t.nodes[i := Refreshed(t.nodes[i], req)]))
  {
    var nodes := t.nodes[i := Refreshed(t.nodes[i], req)];
    forall j, k | 0 <= j < k < |nodes| ensures Distinguished(nodes[j], nodes[k]) {
      assert Distinguished(t.nodes[j], t.nodes[k]);
    }
    forall j | 0 <= j < |nodes|
      ensures nodes[j].networkId in t.networks && Placed(nodes[j], t.networks[nodes[j].networkId])
    {
      assert nodes[j].mesh == t.nodes[j].mesh && nodes[j].networkId == t.nodes[j].networkId;
    }
  }

  lemma RegisterKeepsConsistent(t: Tables, id: string, req: Request, networkName: string)
    requires Consistent(t)
    ensures Consistent(Registered(t, id, req, networkName).tables)
  {
    var netId := NetworkId(networkName);
    var t1 := WithNetwork(t, networkName);
    assert Consistent(t1);
    match Position(t1.nodes, id)
    case Some(i) =>
      RefreshKeepsConsistent(t1, i, req);
    case None =>
      var row := t1.networks[netId];
      var mesh := Allocation(row.ipv4Prefix, row.ipv6Prefix, TakenV4(t1.nodes, netId));
      if mesh.Ok? {
        var node := NewRow(id, netId, req, mesh.value);
        assert Placed(node, row);
        if UniqueColumns(t1.nodes + [node]) {
          AppendKeepsConsistent(t1, node);
        }
      }
  }

  /** The request a row answers to. */
  function RequestOf(node: NodeRow): Request {
    Request(node.hostname, node.wireguardKey, node.listenPort, node.os, node.version, node.endpoints, node.tags)
  }

  /** A successful registration leaves one row under the id, which holds the whole request and is
      online; every row under another id is as it was. */
  lemma RegisterTouchesOneRow(t: Tables, id: string, req: Request, networkName: string)
    requires UniqueColumns(t.nodes)
    ensures var o := Registered(t, id, req, networkName);
            o.result.Ok? ==>
            && o.result.value in o.tables.nodes
            && o.result.value.id == id && RequestOf(o.result.value) == req && o.result.value.online
            && (forall node :: node in o.tables.nodes && node.id == id ==> node == o.result.value)
            && (forall node: NodeRow :: node.id != id ==> (node in o.tables.nodes <==> node in t.nodes))
  {
    hide Allocation, TakenV4;
    var o := Registered(t, id, req, networkName);
    match Position(t.nodes, id)
    case Some(i) =>
      assert o.tables.nodes[i] == o.result.value;
      forall j | 0 <= j < |t.nodes| && j != i ensures t.nodes[j].id != id {
        if j < i {
          assert Distinguished(t.nodes[j], t.nodes[i]);
        } else {
          assert Distinguished(t.nodes[i], t.nodes[j]);
        }
      }
      forall node: NodeRow | node.id != id ensures node in o.tables.nodes <==> node in t.nodes {
        if node in t.nodes {
          var j :| 0 <= j < |t.nodes| && t.nodes[j] == node;
          assert o.tables.nodes[j] == node;
        }
      }
    case None =>
  }

  /** What a registration without a row under its id appends: one row behind all others, with the whole
      request, online, in the named network, at the least usable address that no row of the network
      holds, and at the IPv6 address of the same offset. */
  lemma RegisterAppendsLeastFree(t: Tables, id: string, req: Request, networkName: string)
    requires Position(t.nodes, id).None?
    ensures var o := Registered(t, id, req, networkName);
            o.result.Ok? ==>
            var node := o.result.value;
            && o.tables.nodes == t.nodes + [node]
            && node.id == id && node.networkId == "net-" + networkName && node.networkId in o.tables.networks
            && node.wireguardKey == req.publicKey && node.identityKey == req.publicKey && node.online
            && RequestOf(node) == req
            && var row := o.tables.networks[node.networkId];
               && Usable(row.ipv4Prefix, node.mesh.v4)
               && (forall n :: n in t.nodes && n.networkId == node.networkId ==> n.mesh.v4 != node.mesh.v4)
               && (forall a :: Usable(row.ipv4Prefix, a) && NoneAt(t.nodes, node.networkId, a) ==> node.mesh.v4 <= a)
               && node.mesh.v6 - row.ipv6Prefix.base == node.mesh.v4 - row.ipv4Prefix.base
  {
    hide Usable, Allocation, UniqueColumns;
    var netId := NetworkId(networkName);
    var row := WithNetwork(t, networkName).networks[netId];
    AllocationIsLeastFree(row.ipv4Prefix, row.ipv6Prefix, TakenV4(t.nodes, netId));
    forall a | NoneAt(t.nodes, netId, a) ensures a !in TakenV4(t.nodes, netId) {
    }
  }

  /** No row of the network holds the IPv4 address. */
  predicate NoneAt(nodes: seq<NodeRow>, networkId: string, v4: nat) {
    forall n :: n in nodes && n.networkId == networkId ==> n.mesh.v4 != v4
  }

  /** What a registration does to a row under its id, whatever network it names: the row stays in its
      place, its network, its addresses and its identity key, and takes over the request. */
  lemma RegisterRefreshesInPlace(t: Tables, id: string, req: Request, networkName: string)
    requires Position(t.nodes, id).Some?
    ensures var o := Registered(t, id, req, networkName);
            var i := Position(t.nodes, id).value;
            && o.result == Ok(o.tables.nodes[i])
            && o.tables.nodes == t.nodes[..i] + [o.result.value] + t.nodes[i + 1..]
            && var node := o.result.value;
               && node.id == id && node.networkId == t.nodes[i].networkId && node.mesh == t.nodes[i].mesh
               && node.identityKey == t.nodes[i].identityKey
               && node.wireguardKey == req.publicKey && node.online && RequestOf(node) == req
  {
    hide Allocation, TakenV4;
  }

  /** What a registration never touches: routes, the networks that were there, and, if it fails, every
      node. The named network exists afterwards, with the defaults if it is new. */
  lemma RegisterKeepsTheRest(t: Tables, id: string, req: Request, networkName: string)
    ensures var o, netId := Registered(t, id, req, networkName), "net-" + networkName;
            && o.tables.routes == t.routes && o.tables.defaults == t.defaults
            && o.tables.networks.Keys == t.networks.Keys + {netId}
            && (forall other :: other in t.networks ==> o.tables.networks[other] == t.networks[other])
            && (netId !in t.networks ==> o.tables.networks[netId] == t.defaults)
            && (o.result.Err? ==> o.tables.nodes == t.nodes)
  {
    hide Allocation, TakenV4, UniqueColumns, Position;
  }

  lemma TakenGrows(nodes: seq<NodeRow>, last: NodeRow, networkId: string)
    ensures TakenV4(nodes + [last], networkId) ==
            TakenV4(nodes, networkId) + if last.networkId == networkId then {last.mesh.v4} else {}
  {
  }

  lemma LastIsNotTaken(nodes: seq<NodeRow>, networkId: string, i: nat)
    requires UniqueColumns(nodes) && i < |nodes|
    ensures nodes[i].mesh.v4 !in TakenV4(nodes[..i], networkId)
  {
    forall node | node in nodes[..i] ensures node.mesh.v4 != nodes[i].mesh.v4 {
      var k :| 0 <= k < i && nodes[k] == node;
      assert Distinguished(nodes[k], nodes[i]);
    }
  }

  lemma {:induction false} MembersTakeDistinctAddresses(nodes: seq<NodeRow>, networkId: string, i: nat)
    requires UniqueColumns(nodes) && i <= |nodes|
    ensures |TakenV4(nodes[..i], networkId)| == Rank(nodes, networkId, i)
  {
    hide TakenV4, UniqueColumns;
    if i > 0 {
      MembersTakeDistinctAddresses(nodes, networkId, i - 1);
      assert nodes[..i] == nodes[..i - 1] + [nodes[i - 1]];
      TakenGrows(nodes[..i - 1], nodes[i - 1], networkId);
      LastIsNotTaken(nodes, networkId, i - 1);
    } else {
      NoneTaken(networkId);
      assert nodes[..0] == [];
    }
  }

  lemma NoneTaken(networkId: string)
    ensures TakenV4([], networkId) == {}
  {
  }

  /** A new node is refused for exhaustion exactly when its network already has `Capacity` members. */
  lemma RegisterExhaustedIff(t: Tables, id: string, req: Request, networkName: string)
    requires Consistent(t) && Position(t.nodes, id).None?
    ensures var t1 := WithNetwork(t, networkName);
            var netId := NetworkId(networkName);
            var capacity := Capacity(t1.networks[netId].ipv4Prefix);
            && Rank(t.nodes, netId, |t.nodes|) <= capacity
            && (Registered(t, id, req, networkName).result == Err(AllocationFailed(Exhausted)) <==>
                Rank(t.nodes, netId, |t.nodes|) == capacity)
  {
    var t1 := WithNetwork(t, networkName);
    var netId := NetworkId(networkName);
    var row := t1.networks[netId];
    MembersTakeDistinctAddresses(t.nodes, netId, |t.nodes|);
    assert t.nodes[..|t.nodes|] == t.nodes;
    ExhaustedIffFull(row.ipv4Prefix, row.ipv6Prefix, TakenV4(t.nodes, netId));
  }

  /** The uniqueness constraints refuse an allocated row only because of another network's row. */
  lemma RegisterConflictIff(t: Tables, id: string, req: Request, networkName: string)
    requires Consistent(t) && Position(t.nodes, id).None?
    ensures var t1 := WithNetwork(t, networkName);
            var netId := NetworkId(networkName);
            var row := t1.networks[netId];
            var mesh := Allocation(row.ipv4Prefix, row.ipv6Prefix, TakenV4(t.nodes, netId));
            Registered(t, id, req, networkName).result == Err(IntegrityError) <==>
            mesh.Ok? && exists node :: node in t.nodes && node.networkId != netId &&
                          (node.mesh.v4 == mesh.value.v4 || node.mesh.v6 == mesh.value.v6)
  {
    var netId := NetworkId(networkName);
    var t1 := WithNetwork(t, networkName);
    var row := t1.networks[netId];
    var mesh := Allocation(row.ipv4Prefix, row.ipv6Prefix, TakenV4(t.nodes, netId));
    if mesh.Ok? {
      var fresh' := NewRow(id, netId, req, mesh.value);
      AppendUniqueIff(t.nodes, fresh');
      forall node | node in t.nodes && node.networkId == netId ensures Distinguished(node, fresh') {
        assert Placed(node, row);
        assert node.mesh.v4 in TakenV4(t.nodes, netId);
      }
    }
  }

  lemma AppendUniqueIff(nodes: seq<NodeRow>, node: NodeRow)
    requires UniqueColumns(nodes)
    ensures UniqueColumns(nodes + [node]) <==> forall n :: n in nodes ==> Distinguished(n, node)
  {
    var all := nodes + [node];
    if UniqueColumns(all) {
      forall n | n in nodes ensures Distinguished(n, node) {
        var i :| 0 <= i < |nodes| && nodes[i] == n;
        assert Distinguished(all[i], all[|nodes|]);
      }
    }
  }

  lemma DefaultPoolHasRoom()
    ensures Allocation(DEFAULT_V4, DEFAULT_V6, {}).Ok?
  {
    hide DEFAULT_V6;
    DefaultCapacity();
    DefaultV6IsLarge();
    NthAllocation(DEFAULT_V4, DEFAULT_V6, 0);
    assert FirstNths(DEFAULT_V4, 0) == {};
  }

  lemma DefaultCapacity()
    ensures Capacity(DEFAULT_V4) > 2 && Aligned(DEFAULT_V4)
  {
    LargeBlock(DEFAULT_V4);
  }

  lemma NewNode(t: Tables, id: string, req: Request, networkName: string)
    requires Position(t.nodes, id).None?
    ensures var t1, netId := WithNetwork(t, networkName), NetworkId(networkName);
            var row := t1.networks[netId];
            var mesh := Allocation(row.ipv4Prefix, row.ipv6Prefix, TakenV4(t.nodes, netId));
            mesh.Ok? ==>
              var node := NewRow(id, netId, req, mesh.value);
              Registered(t, id, req, networkName) ==
              if UniqueColumns(t.nodes + [node]) then Outcome(t1.(nodes := t.nodes + [node]), Ok(node))
              else Outcome(t1, Err(IntegrityError))
  {
    hide Allocation, UniqueColumns, Position, TakenV4, NetworkId;
  }

  /** In a fresh database the first node of a first network is registered, and after it the first node
      of any second network is always refused: both pools start at the same address. */
  lemma SecondNetworkIsRefused(order: UpdateOrder, id1: string, req1: Request, name1: string,
                               id2: string, req2: Request, name2: string)
    requires id1 != id2 && name1 != name2
    ensures var empty := Tables(NetworkRow(DEFAULT_V4, DEFAULT_V6), order, map[], [], []);
            var first := Registered(empty, id1, req1, name1);
            && first.result.Ok?
            && Registered(first.tables, id2, req2, name2).result == Err(IntegrityError)
  {
    hide Allocation, Registered, DEFAULT_V4, DEFAULT_V6, TakenV4;
    var empty := Tables(NetworkRow(DEFAULT_V4, DEFAULT_V6), order, map[], [], []);
    var mesh := Allocation(DEFAULT_V4, DEFAULT_V6, {}).value by {
      DefaultPoolHasRoom();
    }
    NoneTaken(NetworkId(name1));
    NewNode(empty, id1, req1, name1);
    var node := NewRow(id1, NetworkId(name1), req1, mesh);
    assert Registered(empty, id1, req1, name1).result == Ok(node);
    assert NetworkId(name1)[4..] == name1 && NetworkId(name2)[4..] == name2;
    TakenGrows([], node, NetworkId(name2));
    NoneTaken(NetworkId(name2));
    assert [] + [node] == [node];
    var t := Registered(empty, id1, req1, name1).tables;
    assert t.nodes == [node];
    assert Position(t.nodes, id2) == None;
    assert WithNetwork(t, name2).networks[NetworkId(name2)] == t.defaults;
    assert TakenV4(t.nodes, NetworkId(name2)) == {};
    NewNode(t, id2, req2, name2);
    var second := NewRow(id2, NetworkId(name2), req2, mesh);
    assert !Distinguished((t.nodes + [second])[0], (t.nodes + [second])[1]);
  }
}

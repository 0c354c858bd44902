/** The controller's tables, and the commit that enforces their uniqueness constraints. */
module Storage {
  import opened Allocator
  import opened Networks
  import opened Outcomes
  import opened Text

  datatype NetworkRow = NetworkRow(ipv4Prefix: Network4, ipv6Prefix: Network6)

  datatype NodeRow = NodeRow(
    id: string,
    networkId: string,
    hostname: string,
    mesh: Addresses,
    wireguardKey: string,
    identityKey: string,
    listenPort: int,
    os: string,
    version: string,
    endpoints: seq<string>,
    tags: seq<string>,
    online: bool)

  datatype RouteRow = RouteRow(
    id: string,
    networkId: string,
    prefix: string,
    viaNodeId: string,
    advertisedBy: string,
    enabled: bool)

  /** A strict order of row ids. */
  ghost predicate IsStrictOrder(first: (string, string) -> bool) {
    && (forall a, b :: a != b ==> (first(a, b) <==> !first(b, a)))
    && (forall a, b, c :: first(a, b) && first(b, c) ==> first(a, c))
  }

  lemma BeforeIsStrictOrder()
    ensures IsStrictOrder(Before)
  {
    forall a, b | a != b ensures Before(a, b) <==> !Before(b, a) {
      BeforeIsTotal(a, b);
      if Before(a, b) && Before(b, a) {
        BeforeIsTransitive(a, b, a);
        BeforeIsIrreflexive(a);
      }
    }
    forall a, b, c | Before(a, b) && Before(b, c) ensures Before(a, c) {
      BeforeIsTransitive(a, b, c);
    }
  }

  /** Which of two rows is updated first when one commit updates both. */
  type UpdateOrder = first: (string, string) -> bool | IsStrictOrder(first)
    witness (BeforeIsStrictOrder(); Before)

  /** Network rows are keyed by id; a row's id is its name behind "net-". `defaults` are the
      column defaults of the networks table, `updatedFirst` is the order of updates. */
  datatype Tables = Tables(
    defaults: NetworkRow,
    updatedFirst: UpdateOrder,
    networks: map<string, NetworkRow>,
    nodes: seq<NodeRow>,
    routes: seq<RouteRow>)

  /** 100.64.0.0/10: the ten bits 01100100 01. */
  const DEFAULT_V4: Network4 := Block(0x191, 10, IPv4)

  /** fd00:7079:6d65::/48 */
  const DEFAULT_V6: Network6 := (LargePow2(); Block(0xfd00_7079_6d65, 48, IPv6))

  /** The defaults as numbers. */
  lemma DefaultPrefixes()
    ensures DEFAULT_V4 == Network(0x6440_0000, 10)
    ensures DEFAULT_V6 == Network(0xfd00_7079_6d65_0000_0000_0000_0000_0000, 48)
  {
    hide Pow2;
    SixPowers();
    LargePow2();
    Pow2Adds(6, 16);
    Pow2Adds(32, 32);
    Pow2Adds(16, 64);
    assert Pow2(64) == 0x1_0000_0000_0000_0000;
    assert Pow2(80) == 0x1_0000_0000_0000_0000_0000;
  }

  lemma SixPowers()
    ensures Pow2(6) == 64
  {
    SmallPow2();
  }

  lemma DefaultV6IsLarge()
    ensures 0x100 < DEFAULT_V6.base && DEFAULT_V6.base + 8 <= Space(IPv6)
  {
    SmallPow2();
    Pow2Monotone(3, 80);
    BlockStartsAtLeast(0xfd00_7079_6d65, Pow2(80));
  }

  lemma BlockStartsAtLeast(q: nat, size: nat)
    requires size >= 1
    ensures q * size >= q
  {
    assert q * size == q + q * (size - 1);
  }

  function NetworkId(name: string): string {
    "net-" + name
  }

  /** Primary key and the two UNIQUE address columns. */
  predicate Distinguished(a: NodeRow, b: NodeRow) {
    a.id != b.id && a.mesh.v4 != b.mesh.v4 && a.mesh.v6 != b.mesh.v6
  }

  predicate UniqueColumns(nodes: seq<NodeRow>) {
    forall i, j :: 0 <= i < j < |nodes| ==> Distinguished(nodes[i], nodes[j])
  }

  /** Row by row in the given order, no update of an address meets a row that holds it at that time. */
  predicate UpdatesPass(old': seq<NodeRow>, new': seq<NodeRow>, first: (string, string) -> bool)
    requires |new'| == |old'|
  {
    forall i, j :: 0 <= i < |old'| && 0 <= j < |old'| && i != j ==>
      Distinguished(new'[i], if first(old'[j].id, old'[i].id) then new'[j] else old'[j])
  }

  lemma RowsDiffer(nodes: seq<NodeRow>, i: nat, j: nat)
    requires UniqueColumns(nodes) && i < |nodes| && j < |nodes| && i != j
    ensures Distinguished(nodes[i], nodes[j])
  {
    assert i < j ==> Distinguished(nodes[i], nodes[j]);
    assert j < i ==> Distinguished(nodes[j], nodes[i]);
  }

  /** The row by row check is stronger than one at the end, by exactly the addresses that are still
      held by rows yet to be updated. */
  lemma UpdatesPassIff(old': seq<NodeRow>, new': seq<NodeRow>, first: UpdateOrder)
    requires UniqueColumns(old') && |new'| == |old'|
    requires forall i :: 0 <= i < |old'| ==> new'[i].id == old'[i].id
    ensures UpdatesPass(old', new', first) <==>
            && UniqueColumns(new')
            && forall i, j :: 0 <= i < |old'| && 0 <= j < |old'| && first(old'[i].id, old'[j].id) && i != j ==>
                 Distinguished(new'[i], old'[j])
  {
    if UpdatesPass(old', new', first) {
      forall i, j | 0 <= i < j < |new'| ensures Distinguished(new'[i], new'[j]) {
        RowsDiffer(old', i, j);
      }
    }
    forall i, j | 0 <= i < |old'| && 0 <= j < |old'| && i != j ensures old'[i].id != old'[j].id {
      RowsDiffer(old', i, j);
    }
    if UniqueColumns(new') {
      forall i, j | 0 <= i < |old'| && 0 <= j < |old'| && i != j ensures Distinguished(new'[i], new'[j]) {
        RowsDiffer(new', i, j);
      }
    }
  }

  /** The primary key of the routes table. */
  predicate RouteIdsDistinct(routes: seq<RouteRow>) {
    forall i, j :: 0 <= i < j < |routes| ==> routes[i].id != routes[j].id
  }

  /** The node's addresses come from its network's pool. */
  predicate Placed(node: NodeRow, row: NetworkRow) {
    Usable(row.ipv4Prefix, node.mesh.v4) && Coupled(row.ipv4Prefix, row.ipv6Prefix, node.mesh)
  }

  /** The invariant of the committed tables. */
  predicate Consistent(t: Tables) {
    && UniqueColumns(t.nodes)
    && forall i :: 0 <= i < |t.nodes| ==>
         t.nodes[i].networkId in t.networks && Placed(t.nodes[i], t.networks[t.nodes[i].networkId])
  }

  function WithNetwork(t: Tables, name: string): Tables {
    if NetworkId(name) in t.networks then t
    else t.(networks := t.networks[NetworkId(name) := t.defaults])
  }

  /** `SELECT mesh_ipv4 ... WHERE network_id = id`. */
  function TakenV4(nodes: seq<NodeRow>, networkId: string): set<nat> {
    set node | node in nodes && node.networkId == networkId :: node.mesh.v4
  }

  function TakenV6(nodes: seq<NodeRow>, networkId: string): set<nat> {
    set node | node in nodes && node.networkId == networkId :: node.mesh.v6
  }

  /** How many of the first `i` rows belong to the network. */
  function Rank(nodes: seq<NodeRow>, networkId: string, i: nat): (r: nat)
    requires i <= |nodes|
    ensures r <= i
  {
    if i == 0 then 0
    else Rank(nodes, networkId, i - 1) + if nodes[i - 1].networkId == networkId then 1 else 0
  }

  /** Position of the row with this primary key. */
  function Position(nodes: seq<NodeRow>, id: string): (r: Option<nat>)
    ensures r.Some? ==> r.value < |nodes| && nodes[r.value].id == id
    ensures r.None? ==> forall node :: node in nodes ==> node.id != id
  {
    if nodes == [] then None
    else if nodes[0].id == id then Some(0)
    else match Position(nodes[1..], id) case None => None case Some(i) => Some(i + 1)
  }

  class Database {
    const defaults: NetworkRow
    const updatedFirst: UpdateOrder
    var networks: map<string, NetworkRow>
    var nodes: seq<NodeRow>
    var routes: seq<RouteRow>

    constructor (updatedFirst: UpdateOrder)
      ensures Contents() == Tables(NetworkRow(DEFAULT_V4, DEFAULT_V6), updatedFirst, map[], [], [])
    {
      defaults := NetworkRow(DEFAULT_V4, DEFAULT_V6);
      this.updatedFirst := updatedFirst;
      networks, nodes, routes := map[], [], [];
    }

    ghost function Contents(): Tables
      reads this
    {
      Tables(defaults, updatedFirst, networks, nodes, routes)
    }

    /** Pending node and network rows become the committed ones, unless a constraint fails. */
    method Commit(pendingNetworks: map<string, NetworkRow>, pendingNodes: seq<NodeRow>) returns (ok: bool)
      modifies this
      ensures ok == UniqueColumns(pendingNodes)
      ensures Contents() ==
              if ok then old(Contents()).(networks := pendingNetworks, nodes := pendingNodes) else old(Contents())
    {
      ok := UniqueColumns(pendingNodes);
      if ok {
        networks, nodes := pendingNetworks, pendingNodes;
      }
    }

    /** Updates of rows that stay, each checked when it is applied; if one fails, all are undone. */
    method CommitUpdates(pendingNetworks: map<string, NetworkRow>, pendingNodes: seq<NodeRow>) returns (ok: bool)
      requires |pendingNodes| == |nodes|
      modifies this
      ensures ok == UpdatesPass(old(nodes), pendingNodes, updatedFirst)
      ensures Contents() ==
              if ok then old(Contents()).(networks := pendingNetworks, nodes := pendingNodes) else old(Contents())
    {
      ok := UpdatesPass(nodes, pendingNodes, updatedFirst);
      if ok {
        networks, nodes := pendingNetworks, pendingNodes;
      }
    }

    /** Pending route rows, with their primary key. Their `via_node_id` need not name a node. */
    method CommitRoutes(pendingRoutes: seq<RouteRow>) returns (ok: bool)
      modifies this
      ensures ok == RouteIdsDistinct(pendingRoutes)
      ensures Contents() == if ok then old(Contents()).(routes := pendingRoutes) else old(Contents())
    {
      ok := RouteIdsDistinct(pendingRoutes);
      if ok {
        routes := pendingRoutes;
      }
    }
  }
}

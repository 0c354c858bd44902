/** Registrations whose steps interleave with deletions and subnet changes: every `await` of
    `register_node` is a point at which other requests may run. */
module Interleaving {
  import opened Allocator
  import opened Api
  import opened Networks
  import opened Nodes
  import opened Outcomes
  import opened Storage

  /** How far one registration has got, with what it has read so far. */
  datatype Flight =
    | NetworkRead(id: string, req: Request, netId: string, row: NetworkRow)
    | AddressesRead(id: string, req: Request, netId: string, row: NetworkRow, taken: set<nat>)
    | Inserting(node: NodeRow, row: NetworkRow)
    | Updating(id: string, req: Request)

  datatype World = World(tables: Tables, flights: map<nat, Flight>)

  datatype Event =
    | Begin(flight: nat, id: string, req: Request, networkName: string)
    | ReadAddresses(flight: nat)
    | LookUp(flight: nat)
    | Finish(flight: nat)
    | Remove(id: string)
    | Resubnet(ipv4: Option<Network4>, ipv6: Ipv6Argument)

  /** The insertion that a flight wants to commit is checked against the rows of that moment. */
  ghost function Committed(t: Tables, f: Flight): Tables {
    match f
    case Inserting(node, _) =>
      if UniqueColumns(t.nodes + [node]) then t.(nodes := t.nodes + [node]) else t
    case Updating(id, req) =>
      (match Position(t.nodes, id)
       case Some(i) => t.(nodes := t.nodes[i := Refreshed(t.nodes[i], req)])
       case None => t)
    case _ => t
  }

  ghost function Next(w: World, e: Event): World {
    match e
    case Begin(k, id, req, name) =>
      var t := WithNetwork(w.tables, name);
      World(t, w.flights[k := NetworkRead(id, req, NetworkId(name), t.networks[NetworkId(name)])])
    case ReadAddresses(k) =>
      if k in w.flights && w.flights[k].NetworkRead? then
        var f := w.flights[k];
        w.(flights := w.flights[k := AddressesRead(f.id, f.req, f.netId, f.row, TakenV4(w.tables.nodes, f.netId))])
      else w
    case LookUp(k) =>
      if k in w.flights && w.flights[k].AddressesRead? then
        var f := w.flights[k];
        if Position(w.tables.nodes, f.id).Some? then
          w.(flights := w.flights[k := Updating(f.id, f.req)])
        else
          match Allocation(f.row.ipv4Prefix, f.row.ipv6Prefix, f.taken)
          case Err(_) => w.(flights := w.flights - {k})
          case Ok(mesh) => w.(flights := w.flights[k := Inserting(NewRow(f.id, f.netId, f.req, mesh), f.row)])
      else w
    case Finish(k) =>
      if k in w.flights && (w.flights[k].Inserting? || w.flights[k].Updating?) then
        World(Committed(w.tables, w.flights[k]), w.flights - {k})
      else w
    case Remove(id) => w.(tables := Deleted(w.tables, id))
    case Resubnet(ipv4, ipv6) => w.(tables := SubnetChanged(w.tables, ipv4, ipv6).tables)
  }

  ghost function After(w: World, events: seq<Event>): World
    decreases |events|
  {
    if events == [] then w else After(Next(w, events[0]), events[1..])
  }

  /** What a flight has read is still true of its network. */
  ghost predicate Grounded(f: Flight, t: Tables) {
    match f
    case NetworkRead(_, _, netId, row) => netId in t.networks && t.networks[netId] == row
    case AddressesRead(_, _, netId, row, _) => netId in t.networks && t.networks[netId] == row
    case Inserting(node, _) => node.networkId in t.networks && Placed(node, t.networks[node.networkId])
    case Updating(_, _) => true
  }

  ghost predicate Sound(w: World) {
    Consistent(w.tables) && forall k :: k in w.flights ==> Grounded(w.flights[k], w.tables)
  }

  lemma CommitKeepsConsistent(t: Tables, f: Flight)
    requires Consistent(t) && Grounded(f, t)
    ensures Consistent(Committed(t, f)) && Committed(t, f).networks == t.networks
  {
    match f
    case Inserting(node, _) =>
      if UniqueColumns(t.nodes + [node]) {
        AppendKeepsConsistent(t, node);
      }
    case Updating(id, req) =>
      if Position(t.nodes, id).Some? {
        RefreshKeepsConsistent(t, Position(t.nodes, id).value, req);
      }
    case NetworkRead(_, _, _, _) =>
    case AddressesRead(_, _, _, _, _) =>
  }

  /** The network whose prefixes a flight has read and will still rely on. */
  function NetworkOf(f: Flight): Option<string> {
    match f
    case NetworkRead(_, _, netId, _) => Some(netId)
    case AddressesRead(_, _, netId, _, _) => Some(netId)
    case Inserting(node, _) => Some(node.networkId)
    case Updating(_, _) => None
  }

  /** A network row that was there is there unchanged. */
  ghost predicate SameRow(t: Tables, t': Tables, id: string) {
    id in t.networks ==> id in t'.networks && t'.networks[id] == t.networks[id]
  }

  /** A subnet change fails, or keeps the coupling while no flight relies on the old prefixes. */
  ghost predicate Quiet(w: World, e: Event) {
    e.Resubnet? && SubnetChanged(w.tables, e.ipv4, e.ipv6).result.Ok? ==>
      && KeepsCoupling(w.tables, ChangeSubnet(e.ipv4, e.ipv6))
      && forall k :: k in w.flights ==> NetworkOf(w.flights[k]) != Some(NetworkId(NETWORK_NAME))
  }

  ghost predicate QuietRun(w: World, events: seq<Event>)
    decreases |events|
  {
    events != [] ==> Quiet(w, events[0]) && QuietRun(Next(w, events[0]), events[1..])
  }

  lemma {:induction false} NoChangeIsQuiet(w: World, events: seq<Event>)
    requires forall e :: e in events ==> !e.Resubnet?
    ensures QuietRun(w, events)
    decreases |events|
  {
    hide Next;
    if events != [] {
      NoChangeIsQuiet(Next(w, events[0]), events[1..]);
    }
  }

  lemma GroundedWhereRowStays(f: Flight, t: Tables, t': Tables)
    requires Grounded(f, t)
    requires NetworkOf(f).Some? ==> SameRow(t, t', NetworkOf(f).value)
    ensures Grounded(f, t')
  {
    hide Placed;
  }

  // The flight an event may change is grounded afterwards.
  lemma MovedFlightIsGrounded(w: World, e: Event, k: nat)
    requires Sound(w) && k in Next(w, e).flights
    requires k !in w.flights || Next(w, e).flights[k] != w.flights[k]
    ensures Grounded(Next(w, e).flights[k], Next(w, e).tables)
  {
    hide Consistent, Usable, Coupled, UniqueColumns, TakenV4, Position, Committed, FirstFree, SubnetChanged;
    if e.LookUp? {
      assert Grounded(w.flights[k], w.tables);
    }
  }

  lemma NextKeepsConsistent(w: World, e: Event)
    requires Sound(w) && Quiet(w, e)
    ensures Consistent(Next(w, e).tables)
  {
    hide Placed, UniqueColumns, TakenV4, Position, Committed, Allocation, SubnetChanged;
    match e
    case Begin(_, _, _, _) =>
    case ReadAddresses(_) =>
    case LookUp(_) =>
    case Finish(k) =>
      if k in w.flights {
        CommitKeepsConsistent(w.tables, w.flights[k]);
      }
    case Remove(id) => DeleteKeepsConsistent(w.tables, id);
    case Resubnet(ipv4, ipv6) => ChangeConsistentIff(w.tables, ipv4, ipv6);
  }

  // Only the rows of the changed network change.
  lemma NextKeepsRows(w: World, e: Event, id: string)
    requires e.Resubnet? && SubnetChanged(w.tables, e.ipv4, e.ipv6).result.Ok? ==> id != NetworkId(NETWORK_NAME)
    ensures SameRow(w.tables, Next(w, e).tables, id)
  {
    hide UniqueColumns, TakenV4, Position, Allocation, SubnetChanged;
    if e.Resubnet? {
      if SubnetChanged(w.tables, e.ipv4, e.ipv6).result.Ok? {
        WellFormedWhenOk(w.tables, e.ipv4, e.ipv6);
        ChangedTables(w.tables, e.ipv4.value, e.ipv6);
      } else {
        FailedChangeKeepsTables(w.tables, e.ipv4, e.ipv6);
      }
    }
  }

  lemma NextKeepsSound(w: World, e: Event)
    requires Sound(w) && Quiet(w, e)
    ensures Sound(Next(w, e))
  {
    hide Next, Consistent, Grounded, SubnetChanged, NetworkId, SameRow;
    var w' := Next(w, e);
    NextKeepsConsistent(w, e);
    forall k | k in w'.flights ensures Grounded(w'.flights[k], w'.tables) {
      if k in w.flights && w'.flights[k] == w.flights[k] {
        if NetworkOf(w.flights[k]).Some? {
          NextKeepsRows(w, e, NetworkOf(w.flights[k]).value);
        }
        GroundedWhereRowStays(w.flights[k], w.tables, w'.tables);
      } else {
        MovedFlightIsGrounded(w, e, k);
      }
    }
  }

  /** However registrations, deletions and quiet subnet changes interleave, committed addresses stay
      distinct, in the pool of their network, and coupled. */
  lemma {:induction false} InterleavingKeepsSound(w: World, events: seq<Event>)
    requires Sound(w) && QuietRun(w, events)
    ensures Sound(After(w, events))
    decreases |events|
  {
    hide Next, Sound, Quiet;
    if events != [] {
      NextKeepsSound(w, events[0]);
      InterleavingKeepsSound(Next(w, events[0]), events[1..]);
    }
  }

  // ----- A subnet change between reading and committing

  /** What a registration could check before it commits, from the prefixes it has read and those of the
      moment: its IPv4 address is still in the pool, and the prefixes are as far apart as they were. */
  predicate StillGood(read: NetworkRow, now: NetworkRow, v4: nat) {
    && Usable(now.ipv4Prefix, v4)
    && now.ipv6Prefix.base - now.ipv4Prefix.base == read.ipv6Prefix.base - read.ipv4Prefix.base
  }

  /** A row that goes in is still good, and a subnet change keeps the coupling. */
  ghost predicate Fresh(w: World, e: Event) {
    match e
    case Finish(k) =>
      k in w.flights && w.flights[k].Inserting? && UniqueColumns(w.tables.nodes + [w.flights[k].node]) ==>
        var node := w.flights[k].node;
        && node.networkId in w.tables.networks
        && StillGood(w.flights[k].row, w.tables.networks[node.networkId], node.mesh.v4)
    case Resubnet(ipv4, ipv6) => KeepsCoupling(w.tables, ChangeSubnet(ipv4, ipv6))
    case _ => true
  }

  /** Every flight names a network that exists, and a row about to go in is coupled to the prefixes its
      flight has read. */
  ghost predicate Tracked(w: World) {
    forall k :: k in w.flights ==>
      && (NetworkOf(w.flights[k]).Some? ==> NetworkOf(w.flights[k]).value in w.tables.networks)
      && (w.flights[k].Inserting? ==>
            Coupled(w.flights[k].row.ipv4Prefix, w.flights[k].row.ipv6Prefix, w.flights[k].node.mesh))
  }

  lemma NetworksStay(w: World, e: Event)
    ensures w.tables.networks.Keys <= Next(w, e).tables.networks.Keys
  {
    hide UniqueColumns, TakenV4, Position, Allocation, Committed, UpdatesPass, RenumberingFailure, Rank;
    if e.Finish? && e.flight in w.flights {
      CommitKeepsNetworks(w.tables, w.flights[e.flight]);
    }
  }

  lemma CommitKeepsNetworks(t: Tables, f: Flight)
    ensures Committed(t, f).networks == t.networks
  {
    hide UniqueColumns, Position;
  }

  lemma NextKeepsTracked(w: World, e: Event)
    requires Tracked(w)
    ensures Tracked(Next(w, e))
  {
    hide UniqueColumns, TakenV4, Position, Committed, SubnetChanged, Coupled, FirstFree, Deleted;
    NetworksStay(w, e);
  }

  lemma PlacedIffStillGood(node: NodeRow, read: NetworkRow, now: NetworkRow)
    requires Coupled(read.ipv4Prefix, read.ipv6Prefix, node.mesh)
    ensures Placed(node, now) <==> StillGood(read, now, node.mesh.v4)
  {
  }

  lemma InsertConsistentIff(t: Tables, node: NodeRow)
    requires Consistent(t) && UniqueColumns(t.nodes + [node])
    ensures Consistent(t.(nodes := t.nodes + [node])) <==>
            node.networkId in t.networks && Placed(node, t.networks[node.networkId])
  {
    hide Placed, UniqueColumns;
    assert (t.nodes + [node])[|t.nodes|] == node;
    if node.networkId in t.networks && Placed(node, t.networks[node.networkId]) {
      AppendKeepsConsistent(t, node);
    }
  }

  lemma CommitConsistentIff(w: World, k: nat)
    requires Consistent(w.tables) && Tracked(w)
    ensures Consistent(Next(w, Finish(k)).tables) <==> Fresh(w, Finish(k))
  {
    hide Consistent, UniqueColumns, Placed, StillGood, Coupled;
    if k in w.flights {
      match w.flights[k] {
        case Inserting(node, read) =>
          if UniqueColumns(w.tables.nodes + [node]) {
            InsertConsistentIff(w.tables, node);
            PlacedIffStillGood(node, read, w.tables.networks[node.networkId]);
          }
        case Updating(id, req) => CommitKeepsConsistent(w.tables, w.flights[k]);
        case NetworkRead(_, _, _, _) =>
        case AddressesRead(_, _, _, _, _) =>
      }
    }
  }

  lemma NextConsistentIff(w: World, e: Event)
    requires Consistent(w.tables) && Tracked(w)
    ensures Consistent(Next(w, e).tables) <==> Fresh(w, e)
  {
    hide Placed, UniqueColumns, TakenV4, Position, Committed, Allocation, Tracked;
    hide SubnetChanged, KeepsCoupling, Deleted;
    match e
    case Begin(_, _, _, _) =>
    case ReadAddresses(_) =>
    case LookUp(_) =>
    case Finish(k) => CommitConsistentIff(w, k);
    case Remove(id) => DeleteKeepsConsistent(w.tables, id);
    case Resubnet(ipv4, ipv6) => ChangeConsistentIff(w.tables, ipv4, ipv6);
  }

  /** The tables are consistent now and after every event. */
  ghost predicate AlwaysConsistent(w: World, events: seq<Event>)
    decreases |events|
  {
    Consistent(w.tables) && (events != [] ==> AlwaysConsistent(Next(w, events[0]), events[1..]))
  }

  ghost predicate FreshRun(w: World, events: seq<Event>)
    decreases |events|
  {
    events != [] ==> Fresh(w, events[0]) && FreshRun(Next(w, events[0]), events[1..])
  }

  /** For all interleavings whatever, say from a world without flights: the invariant is never left
      exactly when every row that goes in is still good and every subnet change keeps the coupling. */
  lemma {:induction false} InterleavingConsistentIff(w: World, events: seq<Event>)
    requires Consistent(w.tables) && Tracked(w)
    ensures AlwaysConsistent(w, events) <==> FreshRun(w, events)
    decreases |events|
  {
    hide Consistent, Next, Fresh, Tracked;
    if events != [] {
      NextConsistentIff(w, events[0]);
      NextKeepsTracked(w, events[0]);
      if Consistent(Next(w, events[0]).tables) {
        InterleavingConsistentIff(Next(w, events[0]), events[1..]);
      }
    }
  }

  lemma DefaultBlockIsFar(mesh: Addresses)
    requires Coupled(DEFAULT_V4, DEFAULT_V6, mesh)
    ensures mesh.v4 > 0x0b00_0000
  {
    hide DEFAULT_V6;
    LargePow2();
    SmallPow2();
    Pow2Adds(6, 16);
  }

  // The first node of an empty database, looked up and about to be inserted.
  lemma FirstFlight(order: UpdateOrder, id: string, req: Request) returns (node: NodeRow)
    ensures var w := World(Tables(NetworkRow(DEFAULT_V4, DEFAULT_V6), order, map[], [], []), map[]);
            var netId := NetworkId(NETWORK_NAME);
            && node.networkId == netId && Coupled(DEFAULT_V4, DEFAULT_V6, node.mesh)
            && Next(Next(Next(w, Begin(0, id, req, NETWORK_NAME)), ReadAddresses(0)), LookUp(0)) ==
               World(w.tables.(networks := map[netId := w.tables.defaults]),
                     map[0 := Inserting(node, w.tables.defaults)])
  {
    hide Allocation, DEFAULT_V4, DEFAULT_V6, TakenV4, NetworkId;
    DefaultPoolHasRoom();
    NoneTaken(NetworkId(NETWORK_NAME));
    node := NewRow(id, NetworkId(NETWORK_NAME), req, Allocation(DEFAULT_V4, DEFAULT_V6, {}).value);
  }

  lemma EmptyChange(t: Tables, n4: Network4, n6: Network6)
    requires t.nodes == [] && NetworkId(NETWORK_NAME) in t.networks
    ensures SubnetChanged(t, Some(n4), Given(n6)).tables ==
            t.(networks := t.networks[NetworkId(NETWORK_NAME) := NetworkRow(n4, n6)])
  {
    hide Capacity, Offset, Aligned, NetworkId;
  }

  /** A registration in an empty database whose network is changed to 10.0.0.0/30 before it commits:
      the node ends up outside its network. */
  lemma StaleInsertExample(order: UpdateOrder, id: string, req: Request) returns (w: World, events: seq<Event>)
    ensures Sound(w) && w.tables.nodes == [] && |events| == 5
    ensures !Consistent(After(w, events).tables)
  {
    hide Next, Coupled, Usable, Consistent, DEFAULT_V4, DEFAULT_V6, NetworkId;
    var n4, _ := ExampleNetworks();
    var netId := NetworkId(NETWORK_NAME);
    w := World(Tables(NetworkRow(DEFAULT_V4, DEFAULT_V6), order, map[], [], []), map[]);
    events := [Begin(0, id, req, NETWORK_NAME), ReadAddresses(0), LookUp(0),
               Resubnet(Some(n4), Given(DEFAULT_V6)), Finish(0)];
    var node := FirstFlight(order, id, req);
    DefaultBlockIsFar(node.mesh);
    assert !Placed(node, NetworkRow(n4, DEFAULT_V6)) by {
      ExampleIsFar(n4, node.mesh.v4);
    }
    var w3 := Next(Next(Next(w, events[0]), events[1]), events[2]);
    var w4 := Next(w3, events[3]);
    AfterFive(w, events);
    AfterChange(w3, n4, DEFAULT_V6);
    EmptyIsConsistent(w.tables);
    EmptyIsConsistent(w4.tables);
    OneRowIsUnique(node);
    assert Consistent(Next(w4, Finish(0)).tables) ==> Placed(node, NetworkRow(n4, DEFAULT_V6)) by {
      InsertedIsPlaced(w4, 0);
    }
  }

  lemma InsertedIsPlaced(w: World, k: nat)
    requires Consistent(w.tables) && k in w.flights && w.flights[k].Inserting?
    requires UniqueColumns(w.tables.nodes + [w.flights[k].node])
    ensures var node := w.flights[k].node;
            Consistent(Next(w, Finish(k)).tables) <==>
            node.networkId in w.tables.networks && Placed(node, w.tables.networks[node.networkId])
  {
    hide Consistent, UniqueColumns, Placed;
    InsertConsistentIff(w.tables, w.flights[k].node);
  }

  lemma OneRowIsUnique(node: NodeRow)
    ensures UniqueColumns([] + [node])
  {
  }

  lemma ExampleIsFar(n4: Network4, v4: nat)
    requires n4 == Network(0x0a00_0000, 30) && v4 > 0x0b00_0000
    ensures !Usable(n4, v4)
  {
    SmallPow2();
  }

  lemma EmptyIsConsistent(t: Tables)
    requires t.nodes == []
    ensures Consistent(t)
  {
  }

  lemma AfterChange(w: World, n4: Network4, n6: Network6)
    requires w.tables.nodes == [] && NetworkId(NETWORK_NAME) in w.tables.networks
    ensures Next(w, Resubnet(Some(n4), Given(n6))) ==
            w.(tables := w.tables.(networks := w.tables.networks[NetworkId(NETWORK_NAME) := NetworkRow(n4, n6)]))
  {
    hide SubnetChanged;
    EmptyChange(w.tables, n4, n6);
  }

  lemma AfterFive(w: World, events: seq<Event>)
    requires |events| == 5
    ensures After(w, events) ==
            Next(Next(Next(Next(Next(w, events[0]), events[1]), events[2]), events[3]), events[4])
  {
    hide Next;
    AfterOne(w, events);
    var w1 := Next(w, events[0]);
    AfterOne(w1, events[1..]);
    var w2 := Next(w1, events[1]);
    AfterOne(w2, events[2..]);
    var w3 := Next(w2, events[2]);
    AfterOne(w3, events[3..]);
    var w4 := Next(w3, events[3]);
    AfterOne(w4, events[4..]);
    assert events[1..][1..] == events[2..] && events[2..][1..] == events[3..] && events[3..][1..] == events[4..];
    assert events[4..][1..] == [];
  }

  lemma AfterOne(w: World, events: seq<Event>)
    requires events != []
    ensures After(w, events) == After(Next(w, events[0]), events[1..])
  {
  }

  predicate V4Taken(nodes: seq<NodeRow>, node: NodeRow) {
    exists n :: n in nodes && n.mesh.v4 == node.mesh.v4
  }

  predicate V6Taken(nodes: seq<NodeRow>, node: NodeRow) {
    exists n :: n in nodes && n.mesh.v6 == node.mesh.v6
  }

  /** All networks derive IPv6 from IPv4 addresses by the same difference. */
  ghost predicate SameShift(networks: map<string, NetworkRow>) {
    forall a, b :: a in networks && b in networks ==>
      networks[a].ipv6Prefix.base - networks[a].ipv4Prefix.base ==
      networks[b].ipv6Prefix.base - networks[b].ipv4Prefix.base
  }

  lemma PlacedByShift(t: Tables, n: NodeRow)
    requires Consistent(t) && n in t.nodes
    ensures n.networkId in t.networks
    ensures var row := t.networks[n.networkId];
            n.mesh.v6 - n.mesh.v4 == row.ipv6Prefix.base - row.ipv4Prefix.base
  {
    var i :| 0 <= i < |t.nodes| && t.nodes[i] == n;
    assert Placed(t.nodes[i], t.networks[t.nodes[i].networkId]);
  }

  /** At every reachable moment an insertion clashes with a row of its own network on IPv4 exactly
      when it clashes with that row on IPv6; and where all networks have the same difference between
      their prefixes, the IPv6 constraint refuses nothing that the IPv4 constraint lets through. */
  lemma V6RefusesOnlyWithV4(w: World, events: seq<Event>, k: nat)
    requires Sound(w) && QuietRun(w, events)
    requires var w' := After(w, events); k in w'.flights && w'.flights[k].Inserting?
    ensures var t := After(w, events).tables;
            var node := After(w, events).flights[k].node;
            && (forall n :: n in t.nodes && n.networkId == node.networkId ==>
                  (n.mesh.v4 == node.mesh.v4 <==> n.mesh.v6 == node.mesh.v6))
            && (SameShift(t.networks) ==> (V6Taken(t.nodes, node) <==> V4Taken(t.nodes, node)))
  {
    hide Consistent, After, QuietRun;
    InterleavingKeepsSound(w, events);
    var t := After(w, events).tables;
    var node := After(w, events).flights[k].node;
    assert Grounded(After(w, events).flights[k], t);
    forall n | n in t.nodes && (n.networkId == node.networkId || SameShift(t.networks))
      ensures n.mesh.v4 == node.mesh.v4 <==> n.mesh.v6 == node.mesh.v6
    {
      PlacedByShift(t, n);
    }
  }

  ghost predicate OnlyDefaults(t: Tables) {
    forall id :: id in t.networks ==> t.networks[id] == t.defaults
  }

  lemma {:induction false} DefaultsStay(w: World, events: seq<Event>)
    requires OnlyDefaults(w.tables) && forall e :: e in events ==> !e.Resubnet?
    ensures OnlyDefaults(After(w, events).tables) && After(w, events).tables.defaults == w.tables.defaults
    decreases |events|
  {
    hide UniqueColumns, Allocation, TakenV4, Position, SubnetChanged;
    if events != [] {
      DefaultsStay(Next(w, events[0]), events[1..]);
    }
  }

  /** So without subnet changes, from an empty database and in any number of networks, the IPv6
      constraint never decides. */
  lemma V6NeverDecides(defaults: NetworkRow, order: UpdateOrder, events: seq<Event>, k: nat)
    requires forall e :: e in events ==> !e.Resubnet?
    requires var w' := After(World(Tables(defaults, order, map[], [], []), map[]), events);
             k in w'.flights && w'.flights[k].Inserting?
    ensures var w' := After(World(Tables(defaults, order, map[], [], []), map[]), events);
            V6Taken(w'.tables.nodes, w'.flights[k].node) <==> V4Taken(w'.tables.nodes, w'.flights[k].node)
  {
    hide After, V6Taken, V4Taken, QuietRun;
    NoChangeIsQuiet(World(Tables(defaults, order, map[], [], []), map[]), events);
    var w := World(Tables(defaults, order, map[], [], []), map[]);
    DefaultsStay(w, events);
    V6RefusesOnlyWithV4(w, events, k);
  }

  // ----- Two registrations that read the same addresses

  /** Flight `k`, once it has read these addresses, as long as it is neither committed nor begun
      anew: it may have failed, found its id in the table, or set out to insert. */
  ghost predicate Heading(w: World, k: nat, id: string, netId: string, row: NetworkRow, taken: set<nat>) {
    k in w.flights ==>
      match w.flights[k]
      case NetworkRead(_, _, _, _) => false
      case AddressesRead(id', _, netId', row', taken') =>
        id' == id && netId' == netId && row' == row && taken' == taken
      case Inserting(node, _) =>
        node.id == id && node.networkId == netId && Allocation(row.ipv4Prefix, row.ipv6Prefix, taken) == Ok(node.mesh)
      case Updating(_, _) => true
  }

  predicate Undisturbed(k: nat, e: Event) {
    (e.Begin? ==> e.flight != k) && (e.Finish? ==> e.flight != k)
  }

  lemma NextKeepsHeading(w: World, e: Event, k: nat, id: string, netId: string, row: NetworkRow, taken: set<nat>)
    requires Heading(w, k, id, netId, row, taken) && Undisturbed(k, e)
    ensures Heading(Next(w, e), k, id, netId, row, taken)
  {
    hide Allocation, Committed, TakenV4, Position, NetworkId, SubnetChanged;
  }

  lemma {:induction false} StaysHeading(w: World, events: seq<Event>, k: nat,
                                        id: string, netId: string, row: NetworkRow, taken: set<nat>)
    requires Heading(w, k, id, netId, row, taken)
    requires forall e :: e in events ==> Undisturbed(k, e)
    ensures Heading(After(w, events), k, id, netId, row, taken)
    decreases |events|
  {
    hide Heading, Next, Undisturbed;
    if events != [] {
      NextKeepsHeading(w, events[0], k, id, netId, row, taken);
      StaysHeading(Next(w, events[0]), events[1..], k, id, netId, row, taken);
    }
  }

  predicate IsRow(node: NodeRow, id: string, netId: string, v4: nat) {
    node.id == id && node.networkId == netId && node.mesh.v4 == v4
  }

  /** Some row of this network has this id and this IPv4 address. */
  ghost predicate Holds(nodes: seq<NodeRow>, id: string, netId: string, v4: nat) {
    exists i :: 0 <= i < |nodes| && IsRow(nodes[i], id, netId, v4)
  }

  /** The row under this id, in this network, is neither deleted nor renumbered. */
  ghost predicate Spares(w: World, e: Event, id: string, netId: string) {
    && e != Remove(id)
    && (e.Resubnet? && SubnetChanged(w.tables, e.ipv4, e.ipv6).result.Ok? ==> netId != NetworkId(NETWORK_NAME))
  }

  ghost predicate SparesRun(w: World, events: seq<Event>, id: string, netId: string)
    decreases |events|
  {
    events != [] ==> Spares(w, events[0], id, netId) && SparesRun(Next(w, events[0]), events[1..], id, netId)
  }

  lemma WithoutKeepsHolds(nodes: seq<NodeRow>, other: string, id: string, netId: string, v4: nat)
    requires Holds(nodes, id, netId, v4) && other != id
    ensures Holds(Without(nodes, other), id, netId, v4)
  {
    var i :| 0 <= i < |nodes| && IsRow(nodes[i], id, netId, v4);
    assert nodes[i] in Without(nodes, other);
  }

  lemma CommitKeepsHolds(t: Tables, f: Flight, id: string, netId: string, v4: nat)
    requires Holds(t.nodes, id, netId, v4)
    ensures Holds(Committed(t, f).nodes, id, netId, v4)
  {
    hide UniqueColumns;
    var i :| 0 <= i < |t.nodes| && IsRow(t.nodes[i], id, netId, v4);
    assert IsRow(Committed(t, f).nodes[i], id, netId, v4);
  }

  lemma ChangeKeepsHolds(t: Tables, ipv4: Option<Network4>, ipv6: Ipv6Argument, id: string, netId: string, v4: nat)
    requires Holds(t.nodes, id, netId, v4)
    requires SubnetChanged(t, ipv4, ipv6).result.Ok? ==> netId != NetworkId(NETWORK_NAME)
    ensures Holds(SubnetChanged(t, ipv4, ipv6).tables.nodes, id, netId, v4)
  {
    hide SubnetChanged, NetworkId, Offset, Aligned, Rank;
    if SubnetChanged(t, ipv4, ipv6).result.Ok? {
      SuccessfulChangeRenumbersAll(t, ipv4, ipv6);
      var i :| 0 <= i < |t.nodes| && IsRow(t.nodes[i], id, netId, v4);
      assert SubnetChanged(t, ipv4, ipv6).tables.nodes[i] == t.nodes[i];
    } else {
      FailedChangeKeepsTables(t, ipv4, ipv6);
    }
  }

  lemma NextKeepsHolds(w: World, e: Event, id: string, netId: string, v4: nat)
    requires Holds(w.tables.nodes, id, netId, v4) && Spares(w, e, id, netId)
    ensures Holds(Next(w, e).tables.nodes, id, netId, v4)
  {
    hide Holds, Committed, Without, Allocation, TakenV4, Position, SubnetChanged, NetworkId;
    match e
    case Finish(k) =>
      if k in w.flights {
        CommitKeepsHolds(w.tables, w.flights[k], id, netId, v4);
      }
    case Remove(other) => WithoutKeepsHolds(w.tables.nodes, other, id, netId, v4);
    case Begin(_, _, _, _) =>
    case ReadAddresses(_) =>
    case LookUp(_) =>
    case Resubnet(ipv4, ipv6) => ChangeKeepsHolds(w.tables, ipv4, ipv6, id, netId, v4);
  }

  lemma {:induction false} StaysHeld(w: World, events: seq<Event>, id: string, netId: string, v4: nat)
    requires Holds(w.tables.nodes, id, netId, v4) && SparesRun(w, events, id, netId)
    ensures Holds(After(w, events).tables.nodes, id, netId, v4)
    decreases |events|
  {
    hide Holds, Next, Spares;
    if events != [] {
      NextKeepsHolds(w, events[0], id, netId, v4);
      StaysHeld(Next(w, events[0]), events[1..], id, netId, v4);
    }
  }

  lemma WinnerHolds(w: World, j: nat, id: string, netId: string, row: NetworkRow, taken: set<nat>)
    requires Heading(w, j, id, netId, row, taken)
    requires |Next(w, Finish(j)).tables.nodes| > |w.tables.nodes|
    ensures var mesh := Allocation(row.ipv4Prefix, row.ipv6Prefix, taken);
            mesh.Ok? && Holds(Next(w, Finish(j)).tables.nodes, id, netId, mesh.value.v4)
  {
    hide Allocation, UniqueColumns;
    var nodes := Next(w, Finish(j)).tables.nodes;
    assert nodes[|w.tables.nodes|] == w.flights[j].node;
  }

  lemma LoserChangesNothing(w: World, k: nat, id: string, netId: string, row: NetworkRow, taken: set<nat>,
                            other: string, otherNet: string, v4: nat)
    requires Heading(w, k, id, netId, row, taken) && k in w.flights && w.flights[k].Inserting?
    requires Allocation(row.ipv4Prefix, row.ipv6Prefix, taken).Ok?
    requires v4 == Allocation(row.ipv4Prefix, row.ipv6Prefix, taken).value.v4
    requires Holds(w.tables.nodes, other, otherNet, v4)
    ensures Next(w, Finish(k)).tables == w.tables
  {
    hide Allocation;
    var nodes, node := w.tables.nodes, w.flights[k].node;
    var i :| 0 <= i < |nodes| && IsRow(nodes[i], other, otherNet, v4);
    assert !Distinguished((nodes + [node])[i], (nodes + [node])[|nodes|]);
  }

  /** Two registrations that read the same taken addresses want the same address. Whatever else runs
      before the first of them commits a row, and between that and the other's commit, the other inserts
      nothing unless the winner's row is deleted or renumbered: a race costs a retry, never a duplicate. */
  lemma RacingInsertIsRefused(w: World, j: nat, k: nat, before: seq<Event>, between: seq<Event>)
    requires j != k && j in w.flights && k in w.flights
    requires w.flights[j].AddressesRead? && w.flights[k].AddressesRead?
    requires w.flights[j].row == w.flights[k].row && w.flights[j].taken == w.flights[k].taken
    requires forall e :: e in before ==> Undisturbed(j, e) && Undisturbed(k, e)
    requires |Next(After(w, before), Finish(j)).tables.nodes| > |After(w, before).tables.nodes|
    requires SparesRun(Next(After(w, before), Finish(j)), between, w.flights[j].id, w.flights[j].netId)
    requires forall e :: e in between ==> Undisturbed(k, e)
    ensures var last := After(Next(After(w, before), Finish(j)), between);
            && (k in last.flights && last.flights[k].Inserting? ==> Next(last, Finish(k)).tables == last.tables)
            && |Next(last, Finish(k)).tables.nodes| == |last.tables.nodes|
  {
    hide Heading, Holds, Next, After, Undisturbed, Allocation, SparesRun;
    var f, g := w.flights[j], w.flights[k];
    AddressesAreRead(w, j);
    AddressesAreRead(w, k);
    StaysHeading(w, before, j, f.id, f.netId, f.row, f.taken);
    StaysHeading(w, before, k, g.id, g.netId, g.row, g.taken);
    var first := After(w, before);
    WinnerHolds(first, j, f.id, f.netId, f.row, f.taken);
    var v4 := Allocation(f.row.ipv4Prefix, f.row.ipv6Prefix, f.taken).value.v4;
    assert Undisturbed(k, Finish(j)) by {
      FinishDisturbsOne(j, k);
    }
    NextKeepsHeading(first, Finish(j), k, g.id, g.netId, g.row, g.taken);
    var won := Next(first, Finish(j));
    StaysHeading(won, between, k, g.id, g.netId, g.row, g.taken);
    StaysHeld(won, between, f.id, f.netId, v4);
    var last := After(won, between);
    if k in last.flights && last.flights[k].Inserting? {
      LoserChangesNothing(last, k, g.id, g.netId, g.row, g.taken, f.id, f.netId, v4);
    } else {
      OnlyInsertionsGrow(last, k);
    }
  }

  lemma AddressesAreRead(w: World, k: nat)
    requires k in w.flights && w.flights[k].AddressesRead?
    ensures Heading(w, k, w.flights[k].id, w.flights[k].netId, w.flights[k].row, w.flights[k].taken)
  {
  }

  lemma FinishDisturbsOne(j: nat, k: nat)
    requires j != k
    ensures Undisturbed(k, Finish(j))
  {
  }

  lemma OnlyInsertionsGrow(w: World, k: nat)
    requires k in w.flights ==> !w.flights[k].Inserting?
    ensures |Next(w, Finish(k)).tables.nodes| == |w.tables.nodes|
  {
  }

  /** Run without interruption, the steps of a flight are one registration. */
  lemma SerialFlightIsRegistration(w: World, k: nat, id: string, req: Request, name: string)
    requires k !in w.flights
    ensures var w1 := Next(w, Begin(k, id, req, name));
            var w4 := Next(Next(Next(w1, ReadAddresses(k)), LookUp(k)), Finish(k));
            w4 == World(Registered(w.tables, id, req, name).tables, w.flights)
  {
    hide Allocation, UniqueColumns, Position, TakenV4, NetworkId, Refreshed;
    var t := WithNetwork(w.tables, name);
    var netId := NetworkId(name);
    var row := t.networks[netId];
    var w2 := Next(Next(w, Begin(k, id, req, name)), ReadAddresses(k));
    assert w2 == World(t, w.flights[k := AddressesRead(id, req, netId, row, TakenV4(t.nodes, netId))]);
    FreshFlightLeavesNoTrace(w.flights, k, w2.flights[k]);
    var w3 := Next(w2, LookUp(k));
    if Position(t.nodes, id).Some? {
      assert w3 == World(t, w.flights[k := Updating(id, req)]);
      FreshFlightLeavesNoTrace(w.flights, k, w3.flights[k]);
    } else {
      match Allocation(row.ipv4Prefix, row.ipv6Prefix, TakenV4(t.nodes, netId))
      case Err(_) =>
      case Ok(mesh) =>
        assert w3 == World(t, w.flights[k := Inserting(NewRow(id, netId, req, mesh), row)]);
        FreshFlightLeavesNoTrace(w.flights, k, w3.flights[k]);
    }
  }

  lemma FreshFlightLeavesNoTrace(flights: map<nat, Flight>, k: nat, f: Flight)
    requires k !in flights
    ensures flights[k := f] - {k} == flights
  {
  }
}

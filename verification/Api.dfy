/** The controller endpoints that change tables, and the invariant of whole request sequences. */
module Api {
  import opened Allocator
  import opened Networks
  import opened Nodes
  import opened Outcomes
  import opened Storage

  datatype ApiError = BadRequest | NotFound | AllocationFailure(reason: AllocationError) | ConstraintFailure

  /** The query parameter: the empty text, not a prefix, or a prefix. Left out altogether it is the
      default prefix. */
  datatype Ipv6Argument = Empty | Malformed | Given(prefix: Network6)

  function ArgumentOr(arg: Ipv6Argument, default: Network6): Network6 {
    if arg.Given? then arg.prefix else default
  }

  const NETWORK_NAME := "pymesh"

  // ----- Subnet change

  /** The closed form of a renumbering: row `i` gets the address of its rank in the network. */
  function Renumbered(nodes: seq<NodeRow>, networkId: string, n4: Network4, n6: Network6, i: nat): NodeRow
    requires i < |nodes|
  {
    if nodes[i].networkId != networkId then nodes[i]
    else
      var k := Rank(nodes, networkId, i);
      nodes[i].(mesh := Addresses(Nth(n4, k), n6.base + Offset(Aligned(n4), k)))
  }

  function RenumberedUpTo(nodes: seq<NodeRow>, networkId: string, n4: Network4, n6: Network6, k: nat): (r: seq<NodeRow>)
    requires k <= |nodes|
    ensures |r| == |nodes|
    ensures forall i :: 0 <= i < k ==> r[i] == Renumbered(nodes, networkId, n4, n6, i)
    ensures forall i :: k <= i < |nodes| ==> r[i] == nodes[i]
  {
    seq(|nodes|, i requires 0 <= i < |nodes| =>
      if i < k then Renumbered(nodes, networkId, n4, n6, i) else nodes[i])
  }

  /** Why `count` nodes cannot all be renumbered, if they cannot. */
  function RenumberingFailure(n4: Network4, n6: Network6, count: nat): Option<AllocationError> {
    var m := if count <= Capacity(n4) then count else Capacity(n4);
    if m > 0 && n6.base + Offset(Aligned(n4), m - 1) >= Space(IPv6) then Some(AddressOverflow)
    else if count > Capacity(n4) then Some(Exhausted)
    else None
  }

  datatype Change = Change(tables: Tables, result: Result<nat, ApiError>)

  /** The whole effect of a subnet change on the tables. */
  function SubnetChanged(t: Tables, ipv4: Option<Network4>, ipv6: Ipv6Argument): Change {
    if ipv4.None? || ipv6.Malformed? then Change(t, Err(BadRequest))
    else
      var netId := NetworkId(NETWORK_NAME);
      var t1 := WithNetwork(t, NETWORK_NAME);
      var count := Rank(t1.nodes, netId, |t1.nodes|);
      var n6 := ArgumentOr(ipv6, t.defaults.ipv6Prefix);
      match RenumberingFailure(ipv4.value, n6, count)
      case Some(e) => Change(t1, Err(AllocationFailure(e)))
      case None =>
        var nodes := RenumberedUpTo(t1.nodes, netId, ipv4.value, n6, |t1.nodes|);
        var row := NetworkRow(ipv4.value, ArgumentOr(ipv6, t1.networks[netId].ipv6Prefix));
        if UpdatesPass(t1.nodes, nodes, t.updatedFirst) then
          Change(t1.(networks := t1.networks[netId := row], nodes := nodes), Ok(count))
        else
          Change(t1, Err(ConstraintFailure))
  }

  lemma RenumberingFailsAt(n4: Network4, n6: Network6, count: nat, k: nat)
    requires k < count
    requires k > 0 ==> Allocation(n4, n6, FirstNths(n4, k - 1)).Ok?
    requires Allocation(n4, n6, FirstNths(n4, k)).Err?
    ensures RenumberingFailure(n4, n6, count) == Some(Allocation(n4, n6, FirstNths(n4, k)).error)
  {
    hide Offset, Aligned, Allocation, FirstNths;
    NthAllocation(n4, n6, k);
    if k > 0 {
      NthAllocation(n4, n6, k - 1);
    }
    if k < Capacity(n4) {
      OverflowIsMonotone(n4, n6, k, (if count <= Capacity(n4) then count else Capacity(n4)) - 1);
    }
  }

  lemma OverflowIsMonotone(n4: Network4, n6: Network6, j: nat, k: nat)
    requires j <= k
    ensures n6.base + Offset(Aligned(n4), j) <= n6.base + Offset(Aligned(n4), k)
  {
    if j < k {
      OffsetIncreases(Aligned(n4), j, k);
    }
  }

  lemma RenumberingSucceeds(n4: Network4, n6: Network6, count: nat)
    requires count > 0 ==> Allocation(n4, n6, FirstNths(n4, count - 1)).Ok?
    ensures RenumberingFailure(n4, n6, count) == None
  {
    if count > 0 {
      NthAllocation(n4, n6, count - 1);
    }
  }

  lemma {:induction false} RankIncreases(nodes: seq<NodeRow>, networkId: string, i: nat, k: nat)
    requires i <= k <= |nodes|
    ensures Rank(nodes, networkId, i) <= Rank(nodes, networkId, k)
  {
    if i < k {
      RankIncreases(nodes, networkId, i, k - 1);
    }
  }

  lemma RenumberStep(nodes: seq<NodeRow>, netId: string, n4: Network4, n6: Network6, i: nat, a: Addresses)
    requires i < |nodes| && nodes[i].networkId == netId
    requires Allocation(n4, n6, FirstNths(n4, Rank(nodes, netId, i))) == Ok(a)
    ensures RenumberedUpTo(nodes, netId, n4, n6, i)[i := nodes[i].(mesh := a)]
            == RenumberedUpTo(nodes, netId, n4, n6, i + 1)
    ensures FirstNths(n4, Rank(nodes, netId, i)) + {a.v4} == FirstNths(n4, Rank(nodes, netId, i) + 1)
  {
    NthAllocation(n4, n6, Rank(nodes, netId, i));
    assert Renumbered(nodes, netId, n4, n6, i) == nodes[i].(mesh := a);
  }

  lemma RenumberSkip(nodes: seq<NodeRow>, netId: string, n4: Network4, n6: Network6, i: nat)
    requires i < |nodes| && nodes[i].networkId != netId
    ensures RenumberedUpTo(nodes, netId, n4, n6, i) == RenumberedUpTo(nodes, netId, n4, n6, i + 1)
  {
  }

  lemma NoneHandedOut(n4: Network4)
    ensures FirstNths(n4, 0) == {}
  {
  }

  lemma RenumberStart(nodes: seq<NodeRow>, netId: string, n4: Network4, n6: Network6)
    ensures RenumberedUpTo(nodes, netId, n4, n6, 0) == nodes
  {
  }

  datatype Renumbering = Renumbering(nodes: seq<NodeRow>, count: nat)

  class Endpoints {
    /** The loop of the subnet change: every allocation sees the addresses handed out before it. */
    static method Renumber(allocator: IPAllocator, nodes: seq<NodeRow>, netId: string)
      returns (r: Result<Renumbering, AllocationError>)
      ensures var n4, n6, count := allocator.ipv4Net, allocator.ipv6Net, Rank(nodes, netId, |nodes|);
              match RenumberingFailure(n4, n6, count)
              case Some(e) => r == Err(e)
              case None => r == Ok(Renumbering(RenumberedUpTo(nodes, netId, n4, n6, |nodes|), count))
    {
      hide Offset, Capacity, Aligned, Allocation, FirstNths, Coupled, RenumberingFailure;
      ghost var n4, n6 := allocator.ipv4Net, allocator.ipv6Net;
      var pending := nodes;
      var allocatedV4, allocatedV6 := {}, {};
      var count := 0;
      RenumberStart(nodes, netId, n4, n6);
      NoneHandedOut(n4);
      for i := 0 to |nodes|
        invariant pending == RenumberedUpTo(nodes, netId, n4, n6, i)
        invariant count == Rank(nodes, netId, i)
        invariant allocatedV4 == FirstNths(n4, count)
        invariant count > 0 ==> Allocation(n4, n6, FirstNths(n4, count - 1)).Ok?
      {
        if nodes[i].networkId == netId {
          var a := allocator.Allocate(allocatedV4, allocatedV6);
          if a.Err? {
            RankIncreases(nodes, netId, i + 1, |nodes|);
            RenumberingFailsAt(n4, n6, Rank(nodes, netId, |nodes|), count);
            assert RenumberingFailure(n4, n6, Rank(nodes, netId, |nodes|)) == Some(a.error);
            return Err(a.error);
          }
          RenumberStep(nodes, netId, n4, n6, i, a.value);
          pending := pending[i := pending[i].(mesh := a.value)];
          allocatedV4 := allocatedV4 + {a.value.v4};
          allocatedV6 := allocatedV6 + {a.value.v6};
          count := count + 1;
        } else {
          RenumberSkip(nodes, netId, n4, n6, i);
        }
      }
      RenumberingSucceeds(n4, n6, count);
      return Ok(Renumbering(pending, count));
    }

    static method UpdateNetworkSubnet(db: Database, ipv4: Option<Network4>, ipv6: Ipv6Argument)
      returns (r: Result<nat, ApiError>)
      requires UniqueColumns(db.nodes)
      modifies db
      ensures Change(db.Contents(), r) == SubnetChanged(old(db.Contents()), ipv4, ipv6)
    {
      if ipv4.None? || ipv6.Malformed? {
        return Err(BadRequest);
      }
      var netId := NodeManager.GetOrCreateNetwork(db, NETWORK_NAME);
      var row := NetworkRow(ipv4.value, ArgumentOr(ipv6, db.networks[netId].ipv6Prefix));
      var allocator := new IPAllocator(ipv4.value, ArgumentOr(ipv6, db.defaults.ipv6Prefix));
      var renumbering := Renumber(allocator, db.nodes, netId);
      if renumbering.Err? {
        return Err(AllocationFailure(renumbering.error));
      }
      var ok := db.CommitUpdates(db.networks[netId := row], renumbering.value.nodes);
      return if ok then Ok(renumbering.value.count) else Err(ConstraintFailure);
    }

    static method DeleteNode(db: Database, nodeId: string) returns (r: Result<string, ApiError>)
      requires UniqueColumns(db.nodes)
      modifies db
      ensures db.Contents() == Deleted(old(db.Contents()), nodeId)
      ensures r == if Position(old(db.nodes), nodeId).None? then Err(NotFound) else Ok(nodeId)
      ensures match Position(old(db.nodes), nodeId)
              case None => db.nodes == old(db.nodes)
              case Some(i) => db.nodes == old(db.nodes)[..i] + old(db.nodes)[i + 1..]
      ensures db.networks == old(db.networks) && db.routes == old(db.routes)
    {
      hide Without, UniqueColumns, Position;
      match Position(db.nodes, nodeId) {
        case None => NobodyToDelete(db.nodes, nodeId);
        case Some(i) => WithoutCutsOne(db.nodes, i);
      }
      var kept := Without(db.nodes, nodeId);
      WithoutKeepsUnique(db.nodes, nodeId);
      var rowcount := |db.nodes| - |kept|;
      var ok := db.Commit(db.networks, kept);
      if rowcount == 0 {
        return Err(NotFound);
      }
      return Ok(nodeId);
    }

    static method AddRoute(db: Database, route: RouteRow) returns (ok: bool)
      requires RouteIdsDistinct(db.routes)
      modifies db
      ensures db.Contents() == RouteAdded(old(db.Contents()), route)
      ensures ok <==> forall r :: r in old(db.routes) ==> r.id != route.id
      ensures RouteIdsDistinct(db.routes) && old(db.routes) <= db.routes
      ensures forall r :: r in db.routes <==>
                r in old(db.routes) || (ok && r == route.(networkId := "net-pymesh"))
      ensures db.nodes == old(db.nodes) && db.networks == old(db.networks)
    {
      var row := route.(networkId := NetworkId(NETWORK_NAME));
      DefaultNetworkId();
      AppendRouteIff(db.routes, row);
      ok := db.CommitRoutes(db.routes + [row]);
    }

    static method DeleteRoute(db: Database, routeId: string)
      requires RouteIdsDistinct(db.routes)
      modifies db
      ensures db.Contents() == RouteDeleted(old(db.Contents()), routeId)
      ensures RouteIdsDistinct(db.routes)
      ensures forall r :: r in db.routes <==> r in old(db.routes) && r.id != routeId
      ensures db.nodes == old(db.nodes) && db.networks == old(db.networks)
    {
      RoutesWithoutKeepsDistinct(db.routes, routeId);
      var ok := db.CommitRoutes(RoutesWithout(db.routes, routeId));
    }
  }

  // ----- Routes

  /** The id is a primary key; the named node need not exist. */
  function RouteAdded(t: Tables, route: RouteRow): Tables {
    if exists r :: r in t.routes && r.id == route.id then t
    else t.(routes := t.routes + [route.(networkId := NetworkId(NETWORK_NAME))])
  }

  function RoutesWithout(routes: seq<RouteRow>, id: string): (r: seq<RouteRow>)
    ensures forall route :: route in r <==> route in routes && route.id != id
  {
    if routes == [] then []
    else
      assert routes == [routes[0]] + routes[1..];
      (if routes[0].id == id then [] else [routes[0]]) + RoutesWithout(routes[1..], id)
  }

  function RouteDeleted(t: Tables, id: string): Tables {
    t.(routes := RoutesWithout(t.routes, id))
  }

  lemma AppendRouteIff(routes: seq<RouteRow>, row: RouteRow)
    requires RouteIdsDistinct(routes)
    ensures RouteIdsDistinct(routes + [row]) <==> forall r :: r in routes ==> r.id != row.id
  {
    var all := routes + [row];
    if RouteIdsDistinct(all) {
      forall r | r in routes ensures r.id != row.id {
        var i :| 0 <= i < |routes| && routes[i] == r;
        assert all[i].id != all[|routes|].id;
      }
    }
  }

  lemma {:induction false} RoutesWithoutKeepsDistinct(routes: seq<RouteRow>, id: string)
    requires RouteIdsDistinct(routes)
    ensures RouteIdsDistinct(RoutesWithout(routes, id))
  {
    if routes != [] {
      RoutesWithoutKeepsDistinct(routes[1..], id);
      forall r | r in RoutesWithout(routes[1..], id) ensures r.id != routes[0].id {
        var i :| 0 <= i < |routes[1..]| && routes[1..][i] == r;
        assert routes[0].id != routes[i + 1].id;
      }
    }
  }

  /** With distinct ids the removal of row `i` leaves all others in their order. */
  lemma {:induction false} RoutesWithoutCutsOne(routes: seq<RouteRow>, i: nat)
    requires RouteIdsDistinct(routes) && i < |routes|
    ensures RoutesWithout(routes, routes[i].id) == routes[..i] + routes[i + 1..]
  {
    if i == 0 {
      NothingToDelete(routes[1..], routes[0].id);
    } else {
      RoutesWithoutCutsOne(routes[1..], i - 1);
      CutInTail(routes, i);
    }
  }

  lemma {:induction false} NothingToDelete(routes: seq<RouteRow>, id: string)
    requires forall r :: r in routes ==> r.id != id
    ensures RoutesWithout(routes, id) == routes
  {
    if routes != [] {
      NothingToDelete(routes[1..], id);
      assert routes[0] in routes;
    }
  }

  lemma {:induction false} DeleteAppended(routes: seq<RouteRow>, row: RouteRow)
    requires forall r :: r in routes ==> r.id != row.id
    ensures RoutesWithout(routes + [row], row.id) == routes
  {
    if routes != [] {
      assert (routes + [row])[0] == routes[0] && (routes + [row])[1..] == routes[1..] + [row];
      DeleteAppended(routes[1..], row);
    }
  }

  /** Deleting a route that was just added gives the tables back, order included; and where its id
      was taken, the addition had changed nothing. */
  lemma DeleteUndoesAdd(t: Tables, route: RouteRow)
    ensures if exists r :: r in t.routes && r.id == route.id then RouteAdded(t, route) == t
            else RouteDeleted(RouteAdded(t, route), route.id) == t
  {
    if forall r :: r in t.routes ==> r.id != route.id {
      DeleteAppended(t.routes, route.(networkId := NetworkId(NETWORK_NAME)));
    }
  }

  // ----- Deletion

  function Without(nodes: seq<NodeRow>, id: string): (r: seq<NodeRow>)
    ensures forall node :: node in r <==> node in nodes && node.id != id
    ensures |r| <= |nodes|
    ensures |r| == |nodes| <==> Position(nodes, id).None?
  {
    if nodes == [] then []
    else
      assert nodes == [nodes[0]] + nodes[1..];
      (if nodes[0].id == id then [] else [nodes[0]]) + Without(nodes[1..], id)
  }

  lemma {:induction false} WithoutKeepsUnique(nodes: seq<NodeRow>, id: string)
    requires UniqueColumns(nodes)
    ensures UniqueColumns(Without(nodes, id))
  {
    if nodes != [] {
      WithoutKeepsUnique(nodes[1..], id);
      var rest := Without(nodes[1..], id);
      forall n | n in rest ensures Distinguished(nodes[0], n) {
        var i :| 0 <= i < |nodes[1..]| && nodes[1..][i] == n;
        assert Distinguished(nodes[0], nodes[i + 1]);
      }
    }
  }

  /** With distinct ids a deletion takes one row out and leaves all others in their order. */
  lemma {:induction false} WithoutCutsOne(nodes: seq<NodeRow>, i: nat)
    requires UniqueColumns(nodes) && i < |nodes|
    ensures Without(nodes, nodes[i].id) == nodes[..i] + nodes[i + 1..]
  {
    if i == 0 {
      forall n | n in nodes[1..] ensures n.id != nodes[0].id {
        var j :| 0 <= j < |nodes[1..]| && nodes[1..][j] == n;
        RowsDiffer(nodes, 0, j + 1);
      }
      NobodyToDelete(nodes[1..], nodes[0].id);
    } else {
      RowsDiffer(nodes, 0, i);
      WithoutCutsOne(nodes[1..], i - 1);
      CutInTail(nodes, i);
    }
  }

  lemma CutInTail<T>(s: seq<T>, i: nat)
    requires 0 < i < |s|
    ensures [s[0]] + (s[1..][..i - 1] + s[1..][i..]) == s[..i] + s[i + 1..]
  {
  }

  lemma {:induction false} NobodyToDelete(nodes: seq<NodeRow>, id: string)
    requires forall n :: n in nodes ==> n.id != id
    ensures Without(nodes, id) == nodes
  {
    if nodes != [] {
      NobodyToDelete(nodes[1..], id);
      assert nodes[0] in nodes;
    }
  }

  function Deleted(t: Tables, id: string): Tables {
    t.(nodes := Without(t.nodes, id))
  }

  lemma DeleteKeepsConsistent(t: Tables, id: string)
    requires Consistent(t)
    ensures Consistent(Deleted(t, id))
  {
    WithoutKeepsUnique(t.nodes, id);
    var nodes := Without(t.nodes, id);
    forall i | 0 <= i < |nodes|
      ensures nodes[i].networkId in t.networks && Placed(nodes[i], t.networks[nodes[i].networkId])
    {
      assert nodes[i] in t.nodes;
    }
  }

  // ----- What a subnet change keeps, and exactly when it goes through

  /** The nodes of a successful change: the closed form, rank by rank. */
  ghost predicate IsRenumbering(old': seq<NodeRow>, new': seq<NodeRow>, netId: string, n4: Network4, n6: Network6) {
    && |new'| == |old'|
    && forall i :: 0 <= i < |old'| ==>
         if old'[i].networkId == netId then
           var o := Offset(Aligned(n4), Rank(old', netId, i));
           new'[i] == old'[i].(mesh := Addresses(n4.base + o, n6.base + o))
         else
           new'[i] == old'[i]
  }

  lemma DefaultNetworkId()
    ensures NetworkId(NETWORK_NAME) == "net-pymesh"
  {
  }

  /** All or nothing: a change that fails at any node leaves every node and network row as it was. */
  lemma FailedChangeKeepsTables(t: Tables, ipv4: Option<Network4>, ipv6: Ipv6Argument)
    requires SubnetChanged(t, ipv4, ipv6).result.Err?
    ensures var t' := SubnetChanged(t, ipv4, ipv6).tables;
            && t'.nodes == t.nodes && t'.routes == t.routes
            && (forall id :: id in t.networks ==> id in t'.networks && t'.networks[id] == t.networks[id])
            && (forall id :: id in t'.networks && id !in t.networks ==>
                  id == "net-pymesh" && t'.networks[id] == t.defaults)
            && ("net-pymesh" in t'.networks <==>
                  "net-pymesh" in t.networks || SubnetChanged(t, ipv4, ipv6).result != Err(BadRequest))
  {
    DefaultNetworkId();
    hide Offset, Capacity, Aligned, Rank, RenumberingFailure;
  }

  lemma ClosedFormIsRenumbering(nodes: seq<NodeRow>, netId: string, n4: Network4, n6: Network6)
    ensures IsRenumbering(nodes, RenumberedUpTo(nodes, netId, n4, n6, |nodes|), netId, n4, n6)
  {
    hide Offset, Aligned, Rank;
  }

  /** A change that goes through renumbers every node of the network, and only mesh addresses move. */
  lemma SuccessfulChangeRenumbersAll(t: Tables, ipv4: Option<Network4>, ipv6: Ipv6Argument)
    requires SubnetChanged(t, ipv4, ipv6).result.Ok?
    ensures var c := SubnetChanged(t, ipv4, ipv6);
            var netId := NetworkId(NETWORK_NAME);
            && ipv4.Some?
            && IsRenumbering(t.nodes, c.tables.nodes, netId, ipv4.value, ArgumentOr(ipv6, t.defaults.ipv6Prefix))
            && c.result.value == Rank(t.nodes, netId, |t.nodes|)
            && c.tables.routes == t.routes
            && netId in c.tables.networks && c.tables.networks[netId].ipv4Prefix == ipv4.value
            && (forall id :: id in t.networks && id != netId ==>
                  id in c.tables.networks && c.tables.networks[id] == t.networks[id])
  {
    hide IsRenumbering, Offset, Capacity, Aligned, RenumberingFailure, UpdatesPass, Rank, NetworkId, Renumbered;
    var n6 := ArgumentOr(ipv6, t.defaults.ipv6Prefix);
    ClosedFormIsRenumbering(t.nodes, NetworkId(NETWORK_NAME), ipv4.value, n6);
  }

  ghost predicate Collides(t: Tables, netId: string, n4: Network4, n6: Network6, i: nat, j: nat)
    requires i < |t.nodes| && j < |t.nodes|
  {
    && t.nodes[i].networkId == netId && t.nodes[j].networkId != netId
    && var o := Offset(Aligned(n4), Rank(t.nodes, netId, i));
       (n4.base + o == t.nodes[j].mesh.v4 || n6.base + o == t.nodes[j].mesh.v6)
  }

  lemma RenumberedDiffer(nodes: seq<NodeRow>, netId: string, n4: Network4, n6: Network6, i: nat, j: nat)
    requires UniqueColumns(nodes)
    requires i < j < |nodes|
    requires nodes[i].networkId == netId <==> nodes[j].networkId == netId
    ensures Distinguished(Renumbered(nodes, netId, n4, n6, i), Renumbered(nodes, netId, n4, n6, j))
  {
    if nodes[i].networkId == netId {
      RankIncreases(nodes, netId, i + 1, j);
      OffsetIncreases(Aligned(n4), Rank(nodes, netId, i), Rank(nodes, netId, j));
    }
  }

  lemma RenumberedUniqueIff(t: Tables, netId: string, n4: Network4, n6: Network6)
    requires UniqueColumns(t.nodes)
    ensures UniqueColumns(RenumberedUpTo(t.nodes, netId, n4, n6, |t.nodes|)) <==>
            forall i: nat, j: nat :: i < |t.nodes| && j < |t.nodes| ==> !Collides(t, netId, n4, n6, i, j)
  {
    var new' := RenumberedUpTo(t.nodes, netId, n4, n6, |t.nodes|);
    forall i: nat, j: nat | i < |t.nodes| && j < |t.nodes| && Collides(t, netId, n4, n6, i, j)
      ensures !UniqueColumns(new')
    {
      assert !Distinguished(new'[i], new'[j]) && !Distinguished(new'[j], new'[i]);
    }
    if forall i: nat, j: nat :: i < |t.nodes| && j < |t.nodes| ==> !Collides(t, netId, n4, n6, i, j) {
      forall i, j | 0 <= i < j < |new'| ensures Distinguished(new'[i], new'[j]) {
        if t.nodes[i].networkId == netId <==> t.nodes[j].networkId == netId {
          RenumberedDiffer(t.nodes, netId, n4, n6, i, j);
        } else {
          assert !Collides(t, netId, n4, n6, i, j) && !Collides(t, netId, n4, n6, j, i);
          assert Distinguished(t.nodes[i], t.nodes[j]);
        }
      }
    }
  }

  /** Row `i` is updated to an address that row `j` of its network holds and is to give up only later. */
  ghost predicate Overtakes(t: Tables, netId: string, n4: Network4, n6: Network6, i: nat, j: nat)
    requires i < |t.nodes| && j < |t.nodes|
  {
    && i != j && t.nodes[i].networkId == netId && t.nodes[j].networkId == netId
    && t.updatedFirst(t.nodes[i].id, t.nodes[j].id)
    && var o := Offset(Aligned(n4), Rank(t.nodes, netId, i));
       (n4.base + o == t.nodes[j].mesh.v4 || n6.base + o == t.nodes[j].mesh.v6)
  }

  lemma RenumberedMeetsOld(t: Tables, netId: string, n4: Network4, n6: Network6, i: nat, j: nat)
    requires UniqueColumns(t.nodes) && i < |t.nodes| && j < |t.nodes| && i != j
    ensures t.updatedFirst(t.nodes[i].id, t.nodes[j].id) &&
            !Collides(t, netId, n4, n6, i, j) && !Overtakes(t, netId, n4, n6, i, j) ==>
              Distinguished(Renumbered(t.nodes, netId, n4, n6, i), t.nodes[j])
    ensures Overtakes(t, netId, n4, n6, i, j) ==>
              !Distinguished(Renumbered(t.nodes, netId, n4, n6, i), t.nodes[j])
  {
    hide Offset, Aligned, Rank;
    RowsDiffer(t.nodes, i, j);
  }

  /** The renumbering passes exactly when no other network holds a new address, and no row takes one
      that another row of the network still holds. */
  lemma RenumberingPassesIff(t: Tables, netId: string, n4: Network4, n6: Network6)
    requires UniqueColumns(t.nodes)
    ensures UpdatesPass(t.nodes, RenumberedUpTo(t.nodes, netId, n4, n6, |t.nodes|), t.updatedFirst) <==>
            forall i: nat, j: nat :: i < |t.nodes| && j < |t.nodes| ==>
              !Collides(t, netId, n4, n6, i, j) && !Overtakes(t, netId, n4, n6, i, j)
  {
    hide Collides, Overtakes, Renumbered, Distinguished, UpdatesPass, UniqueColumns;
    var new' := RenumberedUpTo(t.nodes, netId, n4, n6, |t.nodes|);
    RenumberingKeepsIds(t.nodes, netId, n4, n6);
    UpdatesPassIff(t.nodes, new', t.updatedFirst);
    RenumberedUniqueIff(t, netId, n4, n6);
    forall i: nat, j: nat | i < |t.nodes| && j < |t.nodes| && i != j
      ensures t.updatedFirst(t.nodes[i].id, t.nodes[j].id) &&
              !Collides(t, netId, n4, n6, i, j) && !Overtakes(t, netId, n4, n6, i, j) ==>
                Distinguished(new'[i], t.nodes[j])
      ensures Overtakes(t, netId, n4, n6, i, j) ==> !Distinguished(new'[i], t.nodes[j])
    {
      RenumberedMeetsOld(t, netId, n4, n6, i, j);
    }
    forall i: nat, j: nat | i < |t.nodes| && j < |t.nodes| && Overtakes(t, netId, n4, n6, i, j)
      ensures i != j && t.updatedFirst(t.nodes[i].id, t.nodes[j].id)
    {
      OvertakingIsFirst(t, netId, n4, n6, i, j);
    }
  }

  lemma OvertakingIsFirst(t: Tables, netId: string, n4: Network4, n6: Network6, i: nat, j: nat)
    requires i < |t.nodes| && j < |t.nodes| && Overtakes(t, netId, n4, n6, i, j)
    ensures i != j && t.updatedFirst(t.nodes[i].id, t.nodes[j].id)
  {
  }

  lemma RenumberingKeepsIds(nodes: seq<NodeRow>, netId: string, n4: Network4, n6: Network6)
    ensures forall i :: 0 <= i < |nodes| ==>
              RenumberedUpTo(nodes, netId, n4, n6, |nodes|)[i].id == nodes[i].id
  {
    hide Offset, Aligned, Rank;
  }

  /** A well-formed change goes through exactly when the pool is large enough for the network's
      nodes, the last derived IPv6 address exists, no other network holds a new address, and no row is
      updated to an address that a row of the network gives up only later. */
  lemma SubnetChangeSucceedsIff(t: Tables, n4: Network4, ipv6: Ipv6Argument)
    requires UniqueColumns(t.nodes) && !ipv6.Malformed?
    ensures var netId := NetworkId(NETWORK_NAME);
            var n6 := ArgumentOr(ipv6, t.defaults.ipv6Prefix);
            var count := Rank(t.nodes, netId, |t.nodes|);
            SubnetChanged(t, Some(n4), ipv6).result.Ok? <==>
            && count <= Capacity(n4)
            && (count > 0 ==> n6.base + Offset(Aligned(n4), count - 1) < Space(IPv6))
            && forall i: nat, j: nat :: i < |t.nodes| && j < |t.nodes| ==>
                 !Collides(t, netId, n4, n6, i, j) && !Overtakes(t, netId, n4, n6, i, j)
  {
    hide Collides, Overtakes, Offset, Capacity, Aligned, UpdatesPass, UniqueColumns, RenumberedUpTo;
    RenumberingPassesIff(t, NetworkId(NETWORK_NAME), n4, ArgumentOr(ipv6, t.defaults.ipv6Prefix));
  }

  /** Some node within the pool's capacity has no IPv6 address below 2^128. */
  ghost predicate SomeOverflows(n4: Network4, n6: Network6, count: nat) {
    exists k: nat :: k < count && k < Capacity(n4) && Overflows(n4, n6, k)
  }

  predicate Overflows(n4: Network4, n6: Network6, k: nat) {
    n6.base + Offset(Aligned(n4), k) >= 0x1_0000_0000_0000_0000_0000_0000_0000_0000
  }

  lemma RenumberingFailureIff(n4: Network4, n6: Network6, count: nat)
    ensures RenumberingFailure(n4, n6, count) ==
            if SomeOverflows(n4, n6, count) then Some(AddressOverflow)
            else if count > Capacity(n4) then Some(Exhausted)
            else None
  {
    hide Offset, Capacity, Aligned;
    var m := if count <= Capacity(n4) then count else Capacity(n4);
    if SomeOverflows(n4, n6, count) {
      var k: nat :| k < count && k < Capacity(n4) && Overflows(n4, n6, k);
      OverflowIsMonotone(n4, n6, k, m - 1);
    } else if m > 0 {
      assert !Overflows(n4, n6, m - 1);
    }
  }

  /** Which error a change ends with. Malformed arguments come first, then the first allocation that
      fails, in row order, and last the constraints. */
  lemma ChangeErrorIff(t: Tables, ipv4: Option<Network4>, ipv6: Ipv6Argument)
    requires UniqueColumns(t.nodes)
    ensures var r := SubnetChanged(t, ipv4, ipv6).result;
            r == Err(BadRequest) <==> ipv4.None? || ipv6.Malformed?
    ensures ipv4.Some? && !ipv6.Malformed? ==>
              var r, netId := SubnetChanged(t, ipv4, ipv6).result, "net-pymesh";
              var n4, n6 := ipv4.value, ArgumentOr(ipv6, t.defaults.ipv6Prefix);
              var count := Rank(t.nodes, netId, |t.nodes|);
              && (r == Err(AllocationFailure(AddressOverflow)) <==> SomeOverflows(n4, n6, count))
              && (r == Err(AllocationFailure(Exhausted)) <==> !SomeOverflows(n4, n6, count) && count > Capacity(n4))
              && (r == Err(ConstraintFailure) <==>
                    && !SomeOverflows(n4, n6, count) && count <= Capacity(n4)
                    && exists i: nat, j: nat :: i < |t.nodes| && j < |t.nodes| &&
                         (Collides(t, netId, n4, n6, i, j) || Overtakes(t, netId, n4, n6, i, j)))
  {
    hide Collides, Overtakes, RenumberingFailure, UpdatesPass, UniqueColumns, RenumberedUpTo;
    hide SomeOverflows, Capacity, Rank;
    DefaultNetworkId();
    if ipv4.Some? && !ipv6.Malformed? {
      var n6 := ArgumentOr(ipv6, t.defaults.ipv6Prefix);
      RenumberingFailureIff(ipv4.value, n6, Rank(t.nodes, "net-pymesh", |t.nodes|));
      RenumberingPassesIff(t, "net-pymesh", ipv4.value, n6);
    }
  }

  lemma TwoMembers(t: Tables, netId: string)
    requires |t.nodes| == 2 && t.nodes[0].networkId == netId && t.nodes[1].networkId == netId
    ensures Rank(t.nodes, netId, 0) == 0 && Rank(t.nodes, netId, 1) == 1 && Rank(t.nodes, netId, 2) == 2
  {
  }

  /** A network of two nodes at its second and third address, as after the deletion of the first node:
      giving the network its own prefixes again goes through exactly when the node at the lower address
      is updated first. */
  lemma OrderDecidesIff(t: Tables, n4: Network4, n6: Network6)
    requires UniqueColumns(t.nodes) && |t.nodes| == 2 && Capacity(n4) > 2
    requires n6.base + Offset(Aligned(n4), 2) < Space(IPv6)
    requires forall i :: 0 <= i < 2 ==>
               && t.nodes[i].networkId == NetworkId(NETWORK_NAME)
               && t.nodes[i].mesh == Addresses(Nth(n4, i + 1), n6.base + Offset(Aligned(n4), i + 1))
    ensures SubnetChanged(t, Some(n4), Given(n6)).result.Ok? <==> t.updatedFirst(t.nodes[0].id, t.nodes[1].id)
  {
    hide SubnetChanged, NetworkId, Capacity, Offset, Rank, Aligned;
    var netId, aligned := NetworkId(NETWORK_NAME), Aligned(n4);
    TwoMembers(t, netId);
    RowsDiffer(t.nodes, 0, 1);
    OffsetIncreases(aligned, 0, 1);
    OffsetIncreases(aligned, 1, 2);
    SubnetChangeSucceedsIff(t, n4, Given(n6));
    assert Overtakes(t, netId, n4, n6, 1, 0) <==> t.updatedFirst(t.nodes[1].id, t.nodes[0].id);
    assert !Overtakes(t, netId, n4, n6, 0, 1);
  }

  /** The nodes "a" and "b" at the second and third default address. */
  lemma OrderDecidesExample(order: UpdateOrder) returns (t: Tables)
    ensures t.updatedFirst == order && Consistent(t)
    ensures SubnetChanged(t, Some(DEFAULT_V4), Given(DEFAULT_V6)).result.Ok? <==> order("a", "b")
  {
    hide DEFAULT_V4, DEFAULT_V6, SubnetChanged, Usable, Coupled, Capacity, Offset, Aligned, UniqueColumns, NetworkId;
    var row := NetworkRow(DEFAULT_V4, DEFAULT_V6);
    var netId := NetworkId(NETWORK_NAME);
    var a := NodeRow("a", netId, "a", RankAddresses(1), "key", "key", 51820, "linux", "0.1.0", [], [], true);
    var b := a.(id := "b", hostname := "b", mesh := RankAddresses(2));
    t := Tables(row, order, map[netId := row], [a, b], []);
    DefaultRanks();
    TwoRowsAreUnique(a, b);
    OrderDecidesIff(t, DEFAULT_V4, DEFAULT_V6);
  }

  function RankAddresses(k: nat): Addresses {
    Addresses(Nth(DEFAULT_V4, k), DEFAULT_V6.base + Offset(Aligned(DEFAULT_V4), k))
  }

  lemma DefaultRanks()
    ensures Capacity(DEFAULT_V4) > 2 && DEFAULT_V6.base + Offset(Aligned(DEFAULT_V4), 2) < Space(IPv6)
    ensures forall k: nat :: 1 <= k <= 2 ==>
              && Usable(DEFAULT_V4, RankAddresses(k).v4)
              && Coupled(DEFAULT_V4, DEFAULT_V6, RankAddresses(k))
    ensures RankAddresses(1).v4 != RankAddresses(2).v4 && RankAddresses(1).v6 != RankAddresses(2).v6
  {
    hide DEFAULT_V4, DEFAULT_V6, Usable, Capacity;
    DefaultCapacity();
    DefaultV6IsLarge();
    NthIsUsable(DEFAULT_V4, 1);
    NthIsUsable(DEFAULT_V4, 2);
  }

  lemma TwoRowsAreUnique(a: NodeRow, b: NodeRow)
    requires Distinguished(a, b)
    ensures UniqueColumns([a, b])
  {
  }

  lemma RenumberedIsPlaced(nodes: seq<NodeRow>, netId: string, n4: Network4, n6: Network6, i: nat)
    requires i < |nodes| && nodes[i].networkId == netId
    requires RenumberingFailure(n4, n6, Rank(nodes, netId, |nodes|)) == None
    ensures Usable(n4, Renumbered(nodes, netId, n4, n6, i).mesh.v4)
    ensures Coupled(n4, n6, Renumbered(nodes, netId, n4, n6, i).mesh)
  {
    RankIncreases(nodes, netId, i + 1, |nodes|);
    var k, count := Rank(nodes, netId, i), Rank(nodes, netId, |nodes|);
    NthIsUsable(n4, k);
    OverflowIsMonotone(n4, n6, k, count - 1);
  }

  lemma RenumberedPlacedIff(t: Tables, n4: Network4, ipv6: Ipv6Argument, i: nat)
    requires Consistent(t) && i < |t.nodes|
    requires SubnetChanged(t, Some(n4), ipv6).result.Ok?
    ensures var netId := NetworkId(NETWORK_NAME);
            var t' := SubnetChanged(t, Some(n4), ipv6).tables;
            && netId in t'.networks
            && t'.nodes[i].networkId in t'.networks
            && (Placed(t'.nodes[i], t'.networks[t'.nodes[i].networkId]) <==>
                (t.nodes[i].networkId == netId ==>
                   t'.networks[netId].ipv6Prefix.base == ArgumentOr(ipv6, t.defaults.ipv6Prefix).base))
  {
    hide Usable, Capacity, Offset, Rank, UpdatesPass, UniqueColumns, NetworkId;
    var netId := NetworkId(NETWORK_NAME);
    if t.nodes[i].networkId == netId {
      RenumberedIsPlaced(t.nodes, netId, n4, ArgumentOr(ipv6, t.defaults.ipv6Prefix), i);
    }
  }

  lemma ChangedTables(t: Tables, n4: Network4, ipv6: Ipv6Argument)
    requires SubnetChanged(t, Some(n4), ipv6).result.Ok?
    ensures var netId := NetworkId(NETWORK_NAME);
            var t1, t' := WithNetwork(t, NETWORK_NAME), SubnetChanged(t, Some(n4), ipv6).tables;
            && t'.networks == t1.networks[netId := NetworkRow(n4, ArgumentOr(ipv6, t1.networks[netId].ipv6Prefix))]
            && |t'.nodes| == |t.nodes| && (UniqueColumns(t.nodes) ==> UniqueColumns(t'.nodes))
  {
    hide Placed, Offset, Capacity, Aligned, RenumberingFailure, Renumbered, UniqueColumns, UpdatesPass;
    var netId, n6 := NetworkId(NETWORK_NAME), ArgumentOr(ipv6, t.defaults.ipv6Prefix);
    RenumberingKeepsIds(t.nodes, netId, n4, n6);
    if UniqueColumns(t.nodes) {
      UpdatesPassIff(t.nodes, RenumberedUpTo(t.nodes, netId, n4, n6, |t.nodes|), t.updatedFirst);
    }
  }

  lemma NoMembers(nodes: seq<NodeRow>, netId: string, i: nat)
    requires i < |nodes| && Rank(nodes, netId, |nodes|) == 0
    ensures nodes[i].networkId != netId
  {
    RankIncreases(nodes, netId, i + 1, |nodes|);
  }

  /** With the empty text as IPv6 argument the stored prefix stays while the addresses use the default
      one: the tables stay consistent exactly when those two agree or nothing was renumbered. */
  lemma SubnetChangeKeepsConsistentIff(t: Tables, n4: Network4, ipv6: Ipv6Argument)
    requires Consistent(t)
    requires SubnetChanged(t, Some(n4), ipv6).result.Ok?
    ensures var netId := NetworkId(NETWORK_NAME);
            Consistent(SubnetChanged(t, Some(n4), ipv6).tables) <==>
            || ipv6.Given?
            || Rank(t.nodes, netId, |t.nodes|) == 0
            || WithNetwork(t, NETWORK_NAME).networks[netId].ipv6Prefix.base == t.defaults.ipv6Prefix.base
  {
    hide SubnetChanged, Placed, UniqueColumns, NetworkId, Rank;
    var netId := NetworkId(NETWORK_NAME);
    var t' := SubnetChanged(t, Some(n4), ipv6).tables;
    ChangedTables(t, n4, ipv6);
    forall i | 0 <= i < |t.nodes|
      ensures t'.nodes[i].networkId in t'.networks
      ensures Placed(t'.nodes[i], t'.networks[t'.nodes[i].networkId]) <==>
              (t.nodes[i].networkId == netId ==>
                 t'.networks[netId].ipv6Prefix.base == ArgumentOr(ipv6, t.defaults.ipv6Prefix).base)
    {
      RenumberedPlacedIff(t, n4, ipv6, i);
    }
    if Rank(t.nodes, netId, |t.nodes|) > 0 {
      var i := SomeMember(t.nodes, netId, |t.nodes|);
      assert Consistent(t') ==> Placed(t'.nodes[i], t'.networks[t'.nodes[i].networkId]);
    } else {
      forall i | 0 <= i < |t.nodes| ensures t.nodes[i].networkId != netId {
        NoMembers(t.nodes, netId, i);
      }
    }
  }

  lemma ExampleNetworks() returns (n4: Network4, stored: Network6)
    ensures n4 == Network(0x0a00_0000, 30) && stored == Network(0x100, 120)
    ensures Capacity(n4) == 1 && Nth(n4, 0) == 0x0a00_0002 && Usable(n4, 0x0a00_0002)
  {
    SmallPow2();
    EightClearBits(0x100);
    TwoClearBits(0x0a00_0000, 2);
    n4 := Network(0x0a00_0000, 30);
    stored := Network(0x100, 120);
  }

  lemma ExampleIsConsistent(n4: Network4, stored: Network6, t: Tables, node: NodeRow)
    requires Usable(n4, n4.base + 2) && node.mesh == Addresses(n4.base + 2, stored.base + 2) && stored.base < 0x1000
    requires t.networks == map[node.networkId := NetworkRow(n4, stored)] && t.nodes == [node]
    ensures Consistent(t)
  {
    hide Usable;
    assert Placed(node, NetworkRow(n4, stored));
  }

  /** A change that loses the coupling: 10.0.0.0/30 with the empty text as IPv6 prefix, on a network
      whose stored IPv6 prefix is ::100/120. */
  lemma EmptyArgumentExample(order: UpdateOrder) returns (t: Tables, n4: Network4)
    ensures Consistent(t) && t.defaults == NetworkRow(DEFAULT_V4, DEFAULT_V6)
    ensures SubnetChanged(t, Some(n4), Empty).result.Ok?
    ensures !Consistent(SubnetChanged(t, Some(n4), Empty).tables)
  {
    hide Usable, Capacity, DEFAULT_V4, DEFAULT_V6, SubnetChanged, Consistent;
    var stored;
    n4, stored := ExampleNetworks();
    DefaultV6IsLarge();
    var netId := NetworkId(NETWORK_NAME);
    var mesh := Addresses(0x0a00_0002, 0x102);
    var node := NodeRow("n", netId, "host", mesh, "key", "key", 51820, "linux", "0.1.0", [], [], true);
    t := Tables(NetworkRow(DEFAULT_V4, DEFAULT_V6), order, map[netId := NetworkRow(n4, stored)], [node], []);
    ExampleIsConsistent(n4, stored, t, node);
    assert Rank(t.nodes, netId, 0) == 0 && Rank(t.nodes, netId, 1) == 1;
    SubnetChangeSucceedsIff(t, n4, Empty);
    SubnetChangeKeepsConsistentIff(t, n4, Empty);
  }

  lemma {:induction false} SomeMember(nodes: seq<NodeRow>, netId: string, k: nat) returns (i: nat)
    requires k <= |nodes| && Rank(nodes, netId, k) > 0
    ensures i < k && nodes[i].networkId == netId
  {
    if nodes[k - 1].networkId == netId {
      i := k - 1;
    } else {
      i := SomeMember(nodes, netId, k - 1);
    }
  }

  // ----- Runs

  datatype Operation =
    | Register(id: string, req: Request, networkName: string)
    | Delete(id: string)
    | ChangeSubnet(ipv4: Option<Network4>, ipv6: Ipv6Argument)
    | PostRoute(route: RouteRow)
    | RemoveRoute(routeId: string)

  ghost function Step(t: Tables, op: Operation): Tables {
    match op
    case Register(id, req, name) => Registered(t, id, req, name).tables
    case Delete(id) => Deleted(t, id)
    case ChangeSubnet(ipv4, ipv6) => SubnetChanged(t, ipv4, ipv6).tables
    case PostRoute(route) => RouteAdded(t, route)
    case RemoveRoute(routeId) => RouteDeleted(t, routeId)
  }

  ghost function Run(t: Tables, ops: seq<Operation>): Tables
    decreases |ops|
  {
    if ops == [] then t else Run(Step(t, ops[0]), ops[1..])
  }

  /** A subnet change fails, or gives an IPv6 prefix, or renumbers nothing, or leaves a stored IPv6
      prefix that starts where the default one does. */
  ghost predicate KeepsCoupling(t: Tables, op: Operation) {
    op.ChangeSubnet? && SubnetChanged(t, op.ipv4, op.ipv6).result.Ok? ==>
      var netId := NetworkId(NETWORK_NAME);
      || op.ipv6.Given?
      || Rank(t.nodes, netId, |t.nodes|) == 0
      || WithNetwork(t, NETWORK_NAME).networks[netId].ipv6Prefix.base == t.defaults.ipv6Prefix.base
  }

  lemma WellFormedWhenOk(t: Tables, ipv4: Option<Network4>, ipv6: Ipv6Argument)
    requires SubnetChanged(t, ipv4, ipv6).result.Ok?
    ensures ipv4.Some? && !ipv6.Malformed?
  {
  }

  lemma ChangeConsistentIff(t: Tables, ipv4: Option<Network4>, ipv6: Ipv6Argument)
    requires Consistent(t)
    ensures Consistent(SubnetChanged(t, ipv4, ipv6).tables) <==> KeepsCoupling(t, ChangeSubnet(ipv4, ipv6))
  {
    hide Placed, UniqueColumns, SubnetChanged;
    if SubnetChanged(t, ipv4, ipv6).result.Ok? {
      WellFormedWhenOk(t, ipv4, ipv6);
      SubnetChangeKeepsConsistentIff(t, ipv4.value, ipv6);
    } else {
      FailedChangeKeepsTables(t, ipv4, ipv6);
    }
  }

  lemma StepConsistentIff(t: Tables, op: Operation)
    requires Consistent(t)
    ensures Consistent(Step(t, op)) <==> KeepsCoupling(t, op)
  {
    hide Registered, Deleted, SubnetChanged, RoutesWithout, Consistent;
    match op
    case Register(id, req, name) => RegisterKeepsConsistent(t, id, req, name);
    case Delete(id) => DeleteKeepsConsistent(t, id);
    case ChangeSubnet(ipv4, ipv6) => ChangeConsistentIff(t, ipv4, ipv6);
    case PostRoute(route) => RoutesDoNotMatter(t, RouteAdded(t, route).routes);
    case RemoveRoute(routeId) => RoutesDoNotMatter(t, RouteDeleted(t, routeId).routes);
  }

  lemma RoutesDoNotMatter(t: Tables, routes: seq<RouteRow>)
    ensures Consistent(t.(routes := routes)) == Consistent(t)
  {
  }

  /** The tables are consistent now and after every request. */
  ghost predicate AlwaysConsistent(t: Tables, ops: seq<Operation>)
    decreases |ops|
  {
    Consistent(t) && (ops != [] ==> AlwaysConsistent(Step(t, ops[0]), ops[1..]))
  }

  /** Every request of the run keeps the coupling. */
  ghost predicate CoupledRun(t: Tables, ops: seq<Operation>)
    decreases |ops|
  {
    ops != [] ==> KeepsCoupling(t, ops[0]) && CoupledRun(Step(t, ops[0]), ops[1..])
  }

  /** A run never leaves the invariant exactly when each of its subnet changes keeps the coupling. */
  lemma {:induction false} RunConsistentIff(t: Tables, ops: seq<Operation>)
    requires Consistent(t)
    ensures AlwaysConsistent(t, ops) <==> CoupledRun(t, ops)
    decreases |ops|
  {
    hide Consistent, Step, KeepsCoupling;
    if ops != [] {
      StepConsistentIff(t, ops[0]);
      if Consistent(Step(t, ops[0])) {
        RunConsistentIff(Step(t, ops[0]), ops[1..]);
      }
    }
  }

  lemma {:induction false} AlwaysConsistentAtTheEnd(t: Tables, ops: seq<Operation>)
    requires AlwaysConsistent(t, ops)
    ensures Consistent(Run(t, ops))
    decreases |ops|
  {
    hide Consistent, Step;
    if ops != [] {
      AlwaysConsistentAtTheEnd(Step(t, ops[0]), ops[1..]);
    }
  }

  /** No subnet change of the run has the empty text as IPv6 argument. */
  predicate NoneEmpty(ops: seq<Operation>) {
    forall op :: op in ops && op.ChangeSubnet? ==> !op.ipv6.Empty?
  }

  lemma {:induction false} NoneEmptyIsCoupled(t: Tables, ops: seq<Operation>)
    requires NoneEmpty(ops)
    ensures CoupledRun(t, ops)
    decreases |ops|
  {
    hide Step, SubnetChanged;
    if ops != [] {
      assert ops[0] in ops;
      if ops[0].ChangeSubnet? && SubnetChanged(t, ops[0].ipv4, ops[0].ipv6).result.Ok? {
        WellFormedWhenOk(t, ops[0].ipv4, ops[0].ipv6);
      }
      NoneEmptyIsCoupled(Step(t, ops[0]), ops[1..]);
    }
  }

  /** From an empty database, every serial run of requests, none with the empty text as IPv6 argument,
      leaves distinct addresses, each usable in its network's current prefix, with the IPv6 address
      repeating the IPv4 offset. */
  lemma RunKeepsConsistent(t: Tables, ops: seq<Operation>)
    requires Consistent(t) && NoneEmpty(ops)
    ensures Consistent(Run(t, ops))
  {
    hide Consistent, Run, CoupledRun, AlwaysConsistent;
    NoneEmptyIsCoupled(t, ops);
    RunConsistentIff(t, ops);
    AlwaysConsistentAtTheEnd(t, ops);
  }

  /** After such a run every IPv6 address lies inside its network's current prefix, where the IPv4
      block is no larger than the IPv6 block. */
  lemma RunStaysInsidePrefixes(t: Tables, ops: seq<Operation>, i: nat)
    requires Consistent(t) && NoneEmpty(ops)
    requires i < |Run(t, ops).nodes|
    ensures var t' := Run(t, ops);
            var node := t'.nodes[i];
            && node.networkId in t'.networks
            && var row := t'.networks[node.networkId];
               32 - row.ipv4Prefix.length <= 128 - row.ipv6Prefix.length ==>
                 Contains(row.ipv6Prefix, IPv6, node.mesh.v6)
  {
    hide Usable, Coupled, Contains, Run;
    RunKeepsConsistent(t, ops);
    var node := Run(t, ops).nodes[i];
    var row := Run(t, ops).networks[node.networkId];
    assert Placed(node, row);
    if 32 - row.ipv4Prefix.length <= 128 - row.ipv6Prefix.length {
      DerivedInsidePrefix(row.ipv4Prefix, row.ipv6Prefix, node.mesh);
    }
  }

  // ----- Routes over a run

  /** What one operation does to the row under a route id: nothing but a post under that id into an
      empty place, and a removal of that id, has any effect. */
  function NextRoute(current: Option<RouteRow>, op: Operation, id: string): Option<RouteRow> {
    match op
    case PostRoute(route) =>
      if route.id == id && current == None then Some(route.(networkId := NetworkId(NETWORK_NAME))) else current
    case RemoveRoute(routeId) => if routeId == id then None else current
    case _ => current
  }

  function RouteHistory(current: Option<RouteRow>, ops: seq<Operation>, id: string): Option<RouteRow>
    decreases |ops|
  {
    if ops == [] then current else RouteHistory(NextRoute(current, ops[0], id), ops[1..], id)
  }

  /** The table holds this row, or none, under the id. */
  ghost predicate HoldsRoute(t: Tables, id: string, current: Option<RouteRow>) {
    forall r :: r in t.routes && r.id == id <==> current == Some(r)
  }

  lemma OtherStepsKeepRoutes(t: Tables, op: Operation)
    requires !op.PostRoute? && !op.RemoveRoute?
    ensures Step(t, op).routes == t.routes
  {
    hide UniqueColumns, Allocation, RenumberingFailure, Offset, TakenV4, Position, Rank, Without;
  }

  lemma StepKeepsRoutes(t: Tables, op: Operation, id: string, current: Option<RouteRow>)
    requires RouteIdsDistinct(t.routes) && HoldsRoute(t, id, current)
    ensures RouteIdsDistinct(Step(t, op).routes) && HoldsRoute(Step(t, op), id, NextRoute(current, op, id))
  {
    hide Registered, Deleted, SubnetChanged, RoutesWithout, NetworkId;
    match op
    case PostRoute(route) => AppendRouteIff(t.routes, route.(networkId := NetworkId(NETWORK_NAME)));
    case RemoveRoute(routeId) => RoutesWithoutKeepsDistinct(t.routes, routeId);
    case Register(_, _, _) => OtherStepsKeepRoutes(t, op);
    case Delete(_) => OtherStepsKeepRoutes(t, op);
    case ChangeSubnet(_, _) => OtherStepsKeepRoutes(t, op);
  }

  /** Over any run route ids stay distinct, and the row under an id is a register of its own: posted
      while empty, cleared by its removal, untouched by every other request. */
  lemma {:induction false} RunKeepsRoutes(t: Tables, ops: seq<Operation>, id: string, current: Option<RouteRow>)
    requires RouteIdsDistinct(t.routes) && HoldsRoute(t, id, current)
    ensures RouteIdsDistinct(Run(t, ops).routes)
    ensures HoldsRoute(Run(t, ops), id, RouteHistory(current, ops, id))
    decreases |ops|
  {
    hide Step, HoldsRoute, RouteIdsDistinct, NextRoute;
    if ops != [] {
      StepKeepsRoutes(t, ops[0], id, current);
      RunKeepsRoutes(Step(t, ops[0]), ops[1..], id, NextRoute(current, ops[0], id));
    }
  }
}

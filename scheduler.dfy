/** The dispatcher: it queues deliveries, drains the queue by handing each pending delivery
    to the nearest available vehicle that can carry it, and plans that vehicle's route. The
    stores are keyed hash tables updated in place; the road network and the location store
    belong to the caller. */
module Scheduling {
  import opened Types
  import opened DeliveryOrder
  import opened HashTables
  import opened PriorityQueues
  import opened RoadNetworks
  import opened RouteOptimizer
  import opened Utils

  /** std::hash<int> widened to size_t: the id modulo 2^64. */
  function IdHash(k: int): nat
  {
    k % 0x1_0000_0000_0000_0000
  }

  /** find_nearest_vehicle tries the ids 0 to 999. */
  const VehicleIds: nat := 1000

  /** sorted_deliveries collects the ids 0 to 99. */
  const DeliveryIds: nat := 100

  /** The squared distance from a vehicle's position to `(x, y)`; it orders vehicles as the
      distance hypot does. */
  function Distance(v: Vehicle, x: real, y: real): real
  {
    (v.currentPos.x - x) * (v.currentPos.x - x) + (v.currentPos.y - y) * (v.currentPos.y - y)
  }

  ghost predicate Eligible(vehicles: map<int, Vehicle>, id: int)
  {
    id in vehicles && vehicles[id].available
  }

  /** The running minimum of find_nearest_vehicle: the id chosen so far and its distance,
      `None` while nothing is chosen (the source's null and infinity). */
  datatype Choice = Choice(id: Option<int>, dist: Option<real>)

  /** Trying one id: an available vehicle strictly closer than the choice so far replaces it. */
  function Consider(c: Choice, vehicles: map<int, Vehicle>, id: int, x: real, y: real): Choice
  {
    if id in vehicles && vehicles[id].available && (c.dist.None? || Distance(vehicles[id], x, y) < c.dist.value)
    then Choice(Some(id), Some(Distance(vehicles[id], x, y)))
    else c
  }

  /** The choice after trying the ids 0 to n-1 in order. */
  function ChoiceAmong(vehicles: map<int, Vehicle>, x: real, y: real, n: nat): (c: Choice)
    ensures c.id.Some? ==> 0 <= c.id.value < n && c.id.value in vehicles && vehicles[c.id.value].available
  {
    if n == 0 then Choice(None, None) else Consider(ChoiceAmong(vehicles, x, y, n - 1), vehicles, n - 1, x, y)
  }

  /** `id` is an available vehicle below `n` at the least distance, and every available
      vehicle with a smaller id is strictly farther. */
  ghost predicate FirstNearest(vehicles: map<int, Vehicle>, x: real, y: real, n: nat, id: int)
  {
    && 0 <= id < n && Eligible(vehicles, id)
    && (forall j :: 0 <= j < n && Eligible(vehicles, j) ==> Distance(vehicles[id], x, y) <= Distance(vehicles[j], x, y))
    && (forall j :: 0 <= j < id && Eligible(vehicles, j) ==> Distance(vehicles[id], x, y) < Distance(vehicles[j], x, y))
  }

  /** The scan chooses nothing exactly when no vehicle below `n` is available, and otherwise
      the first nearest available one, together with its distance. */
  lemma {:induction false} ChoiceIsFirstNearest(vehicles: map<int, Vehicle>, x: real, y: real, n: nat)
    ensures ChoiceAmong(vehicles, x, y, n).id.None? <==> forall j :: 0 <= j < n ==> !Eligible(vehicles, j)
    ensures ChoiceAmong(vehicles, x, y, n).id.Some? ==>
              var id := ChoiceAmong(vehicles, x, y, n).id.value;
              FirstNearest(vehicles, x, y, n, id) && ChoiceAmong(vehicles, x, y, n).dist == Some(Distance(vehicles[id], x, y))
    ensures ChoiceAmong(vehicles, x, y, n).id.None? <==> ChoiceAmong(vehicles, x, y, n).dist.None?
  {
    if n > 0 {
      ChoiceIsFirstNearest(vehicles, x, y, n - 1);
      var c := ChoiceAmong(vehicles, x, y, n - 1);
      if c.id.Some? && Eligible(vehicles, n - 1) &&
         Distance(vehicles[n - 1], x, y) < Distance(vehicles[c.id.value], x, y) {
        assert FirstNearest(vehicles, x, y, n, n - 1);
      }
      if c.id.None? && Eligible(vehicles, n - 1) {
        assert ChoiceAmong(vehicles, x, y, n).id == Some(n - 1);
      }
    }
  }

  /** Trying an id below `n` again after the scan over `n` ids changes nothing. */
  lemma RescanKeeps(vehicles: map<int, Vehicle>, x: real, y: real, n: nat, id: int)
    requires 0 <= id < n
    ensures Consider(ChoiceAmong(vehicles, x, y, n), vehicles, id, x, y) == ChoiceAmong(vehicles, x, y, n)
  {
    ChoiceIsFirstNearest(vehicles, x, y, n);
  }

  /** The vehicle's list holds only its own position's node id: what line 59 of
      process_deliveries leaves there, since greedy_route's route repeats its start. */
  ghost predicate RouteOnly(v: Vehicle)
  {
    forall j :: 0 <= j < |v.assignedDeliveries| ==> v.assignedDeliveries[j] == v.currentPos.id
  }

  /** Every vehicle's load is within its capacity. */
  ghost predicate LoadsWithin(vehicles: map<int, Vehicle>)
  {
    forall id :: id in vehicles ==> vehicles[id].currentLoad <= vehicles[id].capacity
  }

  /** The commit guard of assign_delivery: both records exist and the vehicle can take the
      delivery's weight. */
  ghost predicate CanAssign(deliveries: map<int, Delivery>, vehicles: map<int, Vehicle>, delId: int, vehId: int)
  {
    delId in deliveries && vehId in vehicles &&
    vehicles[vehId].currentLoad + deliveries[delId].weight <= vehicles[vehId].capacity
  }

  /** The delivery record after the commit: assigned, to `vehId`. */
  function AssignedTo(d: Delivery, vehId: int): Delivery
  {
    d.(assignedVehicle := vehId, status := Assigned)
  }

  /** The vehicle record after the commit: `delId` appended, the weight added, no longer
      available. */
  function Loaded(v: Vehicle, delId: int, weight: real): Vehicle
  {
    v.(assignedDeliveries := v.assignedDeliveries + [delId], currentLoad := v.currentLoad + weight, available := false)
  }

  /** The record defaults: a registered vehicle is a candidate of the scan, holds an empty
      list and is loaded within a non-negative capacity; a new delivery is pending and
      unassigned, so a dispatch does not skip it; and the vehicle can take it exactly when
      its weight fits the capacity. */
  lemma NewRecordsFit(d: map<int, Delivery>, v: map<int, Vehicle>, vehId: int, capacity: real, speed: real, pos: Location,
                      delId: int, source: int, dest: int, deadline: TimePoint, priority: int, weight: real)
    ensures var nv, nd := NewVehicle(vehId, capacity, speed, pos), NewDelivery(delId, source, dest, deadline, priority, weight);
              && Eligible(v[vehId := nv], vehId) && nv.assignedDeliveries == [] && RouteOnly(nv)
              && (capacity >= 0.0 && LoadsWithin(v) ==> LoadsWithin(v[vehId := nv]))
              && nd.status == Pending && nd.assignedVehicle == -1
              && (CanAssign(d[delId := nd], v[vehId := nv], delId, vehId) <==> weight <= capacity)
  {
  }

  /** A commit keeps every load within capacity. */
  lemma CommitKeepsLoads(deliveries: map<int, Delivery>, vehicles: map<int, Vehicle>, delId: int, vehId: int)
    requires LoadsWithin(vehicles) && CanAssign(deliveries, vehicles, delId, vehId)
    ensures LoadsWithin(vehicles[vehId := Loaded(vehicles[vehId], delId, deliveries[delId].weight)])
  {
  }

  /** The delivery store after assign_delivery(delId, vehId). */
  ghost function DeliveriesAfter(d: map<int, Delivery>, v: map<int, Vehicle>, delId: int, vehId: int): map<int, Delivery>
  {
    if CanAssign(d, v, delId, vehId) then d[delId := AssignedTo(d[delId], vehId)] else d
  }

  /** The vehicle store after assign_delivery(delId, vehId); it keeps the same ids. */
  ghost function VehiclesAfter(d: map<int, Delivery>, v: map<int, Vehicle>, delId: int, vehId: int): (r: map<int, Vehicle>)
    ensures r.Keys == v.Keys
  {
    if CanAssign(d, v, delId, vehId) then v[vehId := Loaded(v[vehId], delId, d[delId].weight)] else v
  }

  /** Every id of `ids` names a stored delivery; line 58 of process_deliveries throws otherwise. */
  ghost predicate Listed(d: map<int, Delivery>, ids: seq<int>)
  {
    forall j :: 0 <= j < |ids| ==> ids[j] in d
  }

  /** The destinations of the deliveries `ids`, in list order. */
  ghost function DestsOf(d: map<int, Delivery>, ids: seq<int>): seq<int>
    requires Listed(d, ids)
  {
    seq(|ids|, j requires 0 <= j < |ids| => d[ids[j]].destId)
  }

  /** greedy_route plans a route from `start` unless `start` is not a node of the network and
      some destination differs from it. */
  ghost predicate Routable(adj: Adjacency, start: int, dests: seq<int>)
  {
    start in adj || forall j :: 0 <= j < |dests| ==> dests[j] == start
  }

  /** The route greedy_route returns from `start`: `start` itself, then `start` once more for
      each destination equal to it (none for -1, the id the scan reads as no next stop). */
  function PlannedRoute(start: int, dests: seq<int>): seq<int>
  {
    seq(if start == -1 then 1 else 1 + multiset(dests)[start], _ => start)
  }

  /** The vehicle store after lines 57 to 59 of process_deliveries replan the vehicle stored
      under `key`: its list becomes the route planned through the destinations of the
      deliveries it lists; `None` when an exception escapes, because a listed id has no stored
      delivery or greedy_route cannot plan the route. */
  ghost function Replanned(adj: Adjacency, d: map<int, Delivery>, v: map<int, Vehicle>, key: int): Option<map<int, Vehicle>>
    requires key in v
  {
    var veh := v[key];
    if !Listed(d, veh.assignedDeliveries) then None
    else
      var dests := DestsOf(d, veh.assignedDeliveries);
      if !Routable(adj, veh.currentPos.id, dests) then None
      else Some(v[key := veh.(assignedDeliveries := PlannedRoute(veh.currentPos.id, dests))])
  }

  /** A replan changes nothing but the replanned vehicle's list, which it leaves a non-empty
      route of the vehicle's position's node id; so every load stays within capacity. */
  lemma ReplannedKeeps(adj: Adjacency, d: map<int, Delivery>, v: map<int, Vehicle>, key: int)
    requires key in v && Replanned(adj, d, v, key).Some?
    ensures var w := Replanned(adj, d, v, key).value;
              && w.Keys == v.Keys
              && (forall id :: id in v && id != key ==> w[id] == v[id])
              && w[key].(assignedDeliveries := v[key].assignedDeliveries) == v[key]
              && RouteOnly(w[key]) && |w[key].assignedDeliveries| >= 1
              && (LoadsWithin(v) ==> LoadsWithin(w))
  {
    var w := Replanned(adj, d, v, key).value;
    if LoadsWithin(v) {
      SameLoadKeepsLoads(v, key, w[key]);
    }
  }

  /** What offering delivery `delId` to the vehicles from `(x, y)` does to the stores `d0`
      and `v0`, leaving `d1` and `v1`: with no available vehicle below id 1000 nothing
      changes; otherwise the first nearest one, `k`, is asked to take the delivery under the
      id its record carries, and `k` is then replanned, over the network `adj`; `ok` is false
      exactly when the replan throws, and then the stores are left as assign_delivery left
      them. */
  ghost predicate Offered(d0: map<int, Delivery>, v0: map<int, Vehicle>, d1: map<int, Delivery>, v1: map<int, Vehicle>,
                          delId: int, x: real, y: real, ok: bool, adj: Adjacency)
  {
    var k := ChoiceAmong(v0, x, y, VehicleIds).id;
    && (k.None? ==> ok && d1 == d0 && v1 == v0)
    && (k.Some? ==>
          var vehId := v0[k.value].id;
          var d', v' := DeliveriesAfter(d0, v0, delId, vehId), VehiclesAfter(d0, v0, delId, vehId);
          && d1 == d'
          && ok == Replanned(adj, d', v', k.value).Some?
          && v1 == if ok then Replanned(adj, d', v', k.value).value else v')
    && (k.Some? && ok ==> k.value in v1 && RouteOnly(v1[k.value]))
  }

  /** With no available vehicle below id 1000 the scan chooses nothing, from anywhere. */
  lemma NoneAvailable(vehicles: map<int, Vehicle>)
    requires forall j :: 0 <= j < VehicleIds ==> !Eligible(vehicles, j)
    ensures forall x, y :: ChoiceAmong(vehicles, x, y, VehicleIds).id.None?
  {
    forall x, y ensures ChoiceAmong(vehicles, x, y, VehicleIds).id.None? {
      ChoiceIsFirstNearest(vehicles, x, y, VehicleIds);
    }
  }

  /** The stores after one or more turns of process_deliveries, and whether every turn
      went through without an exception. */
  datatype Outcome = Outcome(ok: bool, deliveries: map<int, Delivery>, vehicles: map<int, Vehicle>)

  /** One turn for the popped delivery `del`: skipped when it is not pending or its source
      location `locs` does not hold, and when no vehicle is available; otherwise the first
      nearest vehicle is asked to take it and is then replanned, and a replan that throws
      leaves the stores as assign_delivery left them. */
  ghost function TurnOutcome(adj: Adjacency, locs: map<int, Location>, d: map<int, Delivery>, v: map<int, Vehicle>,
                             del: Delivery): Outcome
  {
    if del.status != Pending || del.sourceId !in locs then Outcome(true, d, v)
    else
      var k := ChoiceAmong(v, locs[del.sourceId].x, locs[del.sourceId].y, VehicleIds).id;
      if k.None? then Outcome(true, d, v)
      else
        var vehId := v[k.value].id;
        var d', v' := DeliveriesAfter(d, v, del.id, vehId), VehiclesAfter(d, v, del.id, vehId);
        var w := Replanned(adj, d', v', k.value);
        if w.None? then Outcome(false, d', v') else Outcome(true, d', w.value)
  }

  /** The turns of process_deliveries for the deliveries of `order`, popped in that order,
      from the stores `d` and `v`: the turns stop at the first one that throws. */
  ghost function Processed(adj: Adjacency, locs: map<int, Location>, d: map<int, Delivery>, v: map<int, Vehicle>,
                           order: seq<Delivery>): Outcome
    decreases |order|
  {
    if order == [] then Outcome(true, d, v)
    else
      var before := Processed(adj, locs, d, v, order[..|order| - 1]);
      if !before.ok then before
      else TurnOutcome(adj, locs, before.deliveries, before.vehicles, order[|order| - 1])
  }

  /** A turn after turns that went through is one more step of the fold. */
  lemma ProcessedSnoc(adj: Adjacency, locs: map<int, Location>, d: map<int, Delivery>, v: map<int, Vehicle>,
                      order: seq<Delivery>, del: Delivery)
    requires Processed(adj, locs, d, v, order).ok
    ensures var before := Processed(adj, locs, d, v, order);
              Processed(adj, locs, d, v, order + [del]) == TurnOutcome(adj, locs, before.deliveries, before.vehicles, del)
  {
    assert (order + [del])[..|order|] == order;
  }

  /** With no available vehicle below id 1000 every turn is skipped, so any sequence of turns
      goes through and leaves both stores as they were. */
  lemma {:induction false} IdleProcessed(adj: Adjacency, locs: map<int, Location>, d: map<int, Delivery>,
                                         v: map<int, Vehicle>, order: seq<Delivery>)
    requires forall j :: 0 <= j < VehicleIds ==> !Eligible(v, j)
    ensures Processed(adj, locs, d, v, order) == Outcome(true, d, v)
    decreases |order|
  {
    if order != [] {
      IdleProcessed(adj, locs, d, v, order[..|order| - 1]);
      NoneAvailable(v);
    }
  }

  /** Replacing a vehicle's record by one with the same load and capacity keeps every load
      within capacity. */
  lemma SameLoadKeepsLoads(vehicles: map<int, Vehicle>, id: int, v: Vehicle)
    requires LoadsWithin(vehicles) && id in vehicles
    requires v.currentLoad == vehicles[id].currentLoad && v.capacity == vehicles[id].capacity
    ensures LoadsWithin(vehicles[id := v])
  {
  }

  /** The stored deliveries with ids 0 to n-1, in id order. */
  function LowIds(deliveries: map<int, Delivery>, n: nat): seq<Delivery>
  {
    if n == 0 then []
    else LowIds(deliveries, n - 1) + if n - 1 in deliveries then [deliveries[n - 1]] else []
  }

  /** A delivery is collected exactly when it is stored under an id below `n`. */
  lemma {:induction false} LowIdsHolds(deliveries: map<int, Delivery>, n: nat, d: Delivery)
    ensures d in LowIds(deliveries, n) <==> exists i :: 0 <= i < n && i in deliveries && deliveries[i] == d
  {
    if n > 0 {
      LowIdsHolds(deliveries, n - 1, d);
    }
  }

  /** The number of deliveries collected is the number of ids below `n` in use. */
  lemma {:induction false} LowIdsSize(deliveries: map<int, Delivery>, n: nat)
    ensures |LowIds(deliveries, n)| == |set i | 0 <= i < n && i in deliveries|
  {
    if n > 0 {
      LowIdsSize(deliveries, n - 1);
      var below := set i | 0 <= i < n - 1 && i in deliveries;
      if n - 1 in deliveries {
        assert (set i | 0 <= i < n && i in deliveries) == below + {n - 1};
      } else {
        assert (set i | 0 <= i < n && i in deliveries) == below;
      }
    }
  }

  class Scheduler {
    const graph: RoadNetwork
    const locationDb: HashTable<int, Location>
    const deliveryDb: HashTable<int, Delivery>
    const vehicleDb: HashTable<int, Vehicle>
    const pending: PriorityQueue

    ghost predicate Valid()
      reads this, locationDb, locationDb.table, deliveryDb, deliveryDb.table, vehicleDb, vehicleDb.table, pending
    {
      locationDb.Valid() && deliveryDb.Valid() && vehicleDb.Valid() && pending.Valid()
    }

    /** The scheduler over the caller's road network and location store, with empty
        delivery and vehicle stores and an empty queue. */
    constructor (g: RoadNetwork, locDb: HashTable<int, Location>)
      requires locDb.Valid()
      ensures Valid() && graph == g && locationDb == locDb
      ensures deliveryDb.Contents == map[] && vehicleDb.Contents == map[] && pending.heap == []
      ensures fresh(deliveryDb) && fresh(deliveryDb.table) && fresh(vehicleDb) && fresh(vehicleDb.table) && fresh(pending)
    {
      graph := g;
      locationDb := locDb;
      deliveryDb := new HashTable.WithDefaultSize(IdHash);
      vehicleDb := new HashTable.WithDefaultSize(IdHash);
      pending := new PriorityQueue();
    }

    /** add_delivery: queues `del` and stores it under its id. */
    method AddDelivery(del: Delivery)
      requires Valid()
      modifies pending, deliveryDb, deliveryDb.table
      ensures Valid()
      ensures multiset(pending.heap) == multiset(old(pending.heap)) + multiset{del}
      ensures |pending.heap| == |old(pending.heap)| + 1
      ensures deliveryDb.Contents == old(deliveryDb.Contents)[del.id := del]
      ensures deliveryDb.table == old(deliveryDb.table) || fresh(deliveryDb.table)
    {
      pending.Push(del);
      deliveryDb.Insert(del.id, del);
    }

    /** find_nearest_vehicle: the id of the first available vehicle among the ids 0 to 999
        at the least distance from `(x, y)`, or `None` when there is none. The scan over the
        ids is repeated once per stored vehicle; the repeats change nothing. */
    method FindNearestVehicle(x: real, y: real) returns (r: Option<int>)
      requires Valid()
      ensures r == ChoiceAmong(vehicleDb.Contents, x, y, VehicleIds).id
      ensures r.None? <==> forall j :: 0 <= j < VehicleIds ==> !Eligible(vehicleDb.Contents, j)
      ensures r.Some? ==> FirstNearest(vehicleDb.Contents, x, y, VehicleIds, r.value)
    {
      ghost var m := vehicleDb.Contents;
      var size := vehicleDb.Size();
      var nearest: Option<int> := None;
      var minDist: Option<real> := None;
      var i := 0;
      while i < size
        invariant i <= size
        invariant i == 0 ==> nearest == None && minDist == None
        invariant i > 0 ==> Choice(nearest, minDist) == ChoiceAmong(m, x, y, VehicleIds)
      {
        var id := 0;
        while id < VehicleIds
          invariant id <= VehicleIds
          invariant i == 0 ==> Choice(nearest, minDist) == ChoiceAmong(m, x, y, id)
          invariant i > 0 ==> Choice(nearest, minDist) == ChoiceAmong(m, x, y, VehicleIds)
        {
          if i > 0 {
            RescanKeeps(m, x, y, VehicleIds, id);
          }
          var opt := vehicleDb.Find(id);
          if opt.Some? && opt.value.available {
            var dist := Distance(opt.value, x, y);
            if minDist.None? || dist < minDist.value {
              minDist := Some(dist);
              nearest := Some(id);
            }
          }
          id := id + 1;
        }
        i := i + 1;
      }
      ChoiceIsFirstNearest(m, x, y, VehicleIds);
      if size == 0 {
        assert forall j :: 0 <= j < VehicleIds ==> !Eligible(m, j);
      }
      r := nearest;
    }

    /** assign_delivery: commits only when both records exist and the vehicle can take the
        weight; the commit marks the delivery assigned to `vehId` and loads the vehicle. */
    method AssignDelivery(delId: int, vehId: int)
      requires Valid()
      modifies deliveryDb, deliveryDb.table, vehicleDb, vehicleDb.table
      ensures Valid()
      ensures CanAssign(old(deliveryDb.Contents), old(vehicleDb.Contents), delId, vehId) ==>
                && deliveryDb.Contents == old(deliveryDb.Contents)[delId := AssignedTo(old(deliveryDb.Contents)[delId], vehId)]
                && vehicleDb.Contents == old(vehicleDb.Contents)[vehId :=
                     Loaded(old(vehicleDb.Contents)[vehId], delId, old(deliveryDb.Contents)[delId].weight)]
      ensures !CanAssign(old(deliveryDb.Contents), old(vehicleDb.Contents), delId, vehId) ==>
                deliveryDb.Contents == old(deliveryDb.Contents) && vehicleDb.Contents == old(vehicleDb.Contents)
      ensures LoadsWithin(old(vehicleDb.Contents)) ==> LoadsWithin(vehicleDb.Contents)
      ensures deliveryDb.table == old(deliveryDb.table) || fresh(deliveryDb.table)
      ensures vehicleDb.table == old(vehicleDb.table) || fresh(vehicleDb.table)
    {
      var delOpt := deliveryDb.Find(delId);
      var vehOpt := vehicleDb.Find(vehId);
      if delOpt.Some? && vehOpt.Some? && vehOpt.value.currentLoad + delOpt.value.weight <= vehOpt.value.capacity {
        if LoadsWithin(vehicleDb.Contents) {
          CommitKeepsLoads(deliveryDb.Contents, vehicleDb.Contents, delId, vehId);
        }
        PutDelivery(delId, AssignedTo(delOpt.value, vehId));
        PutVehicle(vehId, Loaded(vehOpt.value, delId, delOpt.value.weight));
      }
    }

    /** Overwrites the record stored under `id`, as a write through find's pointer does. */
    method PutDelivery(id: int, d: Delivery)
      requires Valid()
      modifies deliveryDb, deliveryDb.table
      ensures Valid() && deliveryDb.Contents == old(deliveryDb.Contents)[id := d]
      ensures vehicleDb.table == old(vehicleDb.table) && vehicleDb.Contents == old(vehicleDb.Contents)
      ensures deliveryDb.table == old(deliveryDb.table) || fresh(deliveryDb.table)
    {
      deliveryDb.Insert(id, d);
    }

    /** Overwrites the record stored under `id`, as a write through find's pointer does. */
    method PutVehicle(id: int, v: Vehicle)
      requires Valid()
      modifies vehicleDb, vehicleDb.table
      ensures Valid() && vehicleDb.Contents == old(vehicleDb.Contents)[id := v]
      ensures deliveryDb.table == old(deliveryDb.table) && deliveryDb.Contents == old(deliveryDb.Contents)
      ensures vehicleDb.table == old(vehicleDb.table) || fresh(vehicleDb.table)
    {
      vehicleDb.Insert(id, v);
    }

    /** One turn of process_deliveries' loop, for the popped delivery `del`: a delivery no
        longer pending, or whose source location is not stored, is skipped; otherwise it is
        offered to the vehicles from its source location. */
    method Dispatch(del: Delivery) returns (ok: bool)
      requires Valid() && NonNegative(graph.adj)
      modifies deliveryDb, deliveryDb.table, vehicleDb, vehicleDb.table
      ensures Valid()
      ensures del.status != Pending || del.sourceId !in locationDb.Contents ==>
                ok && deliveryDb.Contents == old(deliveryDb.Contents) && vehicleDb.Contents == old(vehicleDb.Contents)
      ensures del.status == Pending && del.sourceId in locationDb.Contents ==>
                Offered(old(deliveryDb.Contents), old(vehicleDb.Contents), deliveryDb.Contents, vehicleDb.Contents,
                        del.id, locationDb.Contents[del.sourceId].x, locationDb.Contents[del.sourceId].y, ok, graph.adj)
      ensures Outcome(ok, deliveryDb.Contents, vehicleDb.Contents)
                == TurnOutcome(graph.adj, locationDb.Contents, old(deliveryDb.Contents), old(vehicleDb.Contents), del)
      ensures LoadsWithin(old(vehicleDb.Contents)) ==> LoadsWithin(vehicleDb.Contents)
      ensures deliveryDb.table == old(deliveryDb.table) || fresh(deliveryDb.table)
      ensures vehicleDb.table == old(vehicleDb.table) || fresh(vehicleDb.table)
    {
      if del.status != Pending {
        return true;
      }
      var locOpt := locationDb.Find(del.sourceId);
      if locOpt.None? {
        return true;
      }
      ok := Offer(del.id, locOpt.value.x, locOpt.value.y);
    }

    /** Lines 54 to 60 of process_deliveries: the nearest available vehicle to `(x, y)` is
        asked to take delivery `delId`, and that vehicle's list is then replaced by the route
        greedy_route plans through the destinations of the deliveries it lists. `ok` is false
        exactly when an exception escapes: a listed id with no stored delivery, or a route
        greedy_route cannot plan. */
    method Offer(delId: int, x: real, y: real) returns (ok: bool)
      requires Valid() && NonNegative(graph.adj)
      modifies deliveryDb, deliveryDb.table, vehicleDb, vehicleDb.table
      ensures Valid()
      ensures Offered(old(deliveryDb.Contents), old(vehicleDb.Contents), deliveryDb.Contents, vehicleDb.Contents, delId, x, y, ok, graph.adj)
      ensures LoadsWithin(old(vehicleDb.Contents)) ==> LoadsWithin(vehicleDb.Contents)
      ensures deliveryDb.table == old(deliveryDb.table) || fresh(deliveryDb.table)
      ensures vehicleDb.table == old(vehicleDb.table) || fresh(vehicleDb.table)
    {
      var key := FindNearestVehicle(x, y);
      if key.None? {
        return true;
      }
      ok := Take(delId, key.value);
    }

    /** Lines 56 to 59 of process_deliveries for the vehicle stored under `key`: it is asked
        to take delivery `delId` (under the id its record carries), then its route is planned
        again. */
    method Take(delId: int, key: int) returns (ok: bool)
      requires Valid() && NonNegative(graph.adj) && key in vehicleDb.Contents
      modifies deliveryDb, deliveryDb.table, vehicleDb, vehicleDb.table
      ensures Valid()
      ensures var d0, v0 := old(deliveryDb.Contents), old(vehicleDb.Contents);
              var vehId := v0[key].id;
              var d1, v1 := DeliveriesAfter(d0, v0, delId, vehId), VehiclesAfter(d0, v0, delId, vehId);
              && deliveryDb.Contents == d1
              && ok == Replanned(graph.adj, d1, v1, key).Some?
              && vehicleDb.Contents == if ok then Replanned(graph.adj, d1, v1, key).value else v1
      ensures ok ==> key in vehicleDb.Contents && RouteOnly(vehicleDb.Contents[key])
      ensures LoadsWithin(old(vehicleDb.Contents)) ==> LoadsWithin(vehicleDb.Contents)
      ensures deliveryDb.table == old(deliveryDb.table) || fresh(deliveryDb.table)
      ensures vehicleDb.table == old(vehicleDb.table) || fresh(vehicleDb.table)
    {
      var found := vehicleDb.Find(key);
      AssignDelivery(delId, found.value.id);
      ok := Replan(key);
    }

    /** Lines 57 and 58 of process_deliveries: the destinations of the listed deliveries, in
        list order; `None` when a listed id has no stored delivery (the bad optional access). */
    method Destinations(ids: seq<int>) returns (r: Option<seq<int>>)
      requires Valid()
      ensures r.None? <==> exists j :: 0 <= j < |ids| && ids[j] !in deliveryDb.Contents
      ensures r.Some? ==> |r.value| == |ids| && forall j :: 0 <= j < |ids| ==> r.value[j] == deliveryDb.Contents[ids[j]].destId
    {
      var dests: seq<int> := [];
      var i := 0;
      while i < |ids|
        invariant i <= |ids| && |dests| == i
        invariant forall j :: 0 <= j < i ==> ids[j] in deliveryDb.Contents && dests[j] == deliveryDb.Contents[ids[j]].destId
      {
        var d := deliveryDb.Find(ids[i]);
        if d.None? {
          return None;
        }
        dests := dests + [d.value.destId];
        i := i + 1;
      }
      r := Some(dests);
    }

    /** Lines 57 to 59 of process_deliveries for the vehicle stored under `key`: its list is
        replaced by the route greedy_route plans from its position through the destinations
        of the deliveries it lists. Nothing else changes; `ok` is false, and nothing changes,
        exactly when the destinations or the route cannot be had. */
    method Replan(key: int) returns (ok: bool)
      requires Valid() && NonNegative(graph.adj) && key in vehicleDb.Contents
      modifies vehicleDb, vehicleDb.table
      ensures Valid() && deliveryDb.table == old(deliveryDb.table) && deliveryDb.Contents == old(deliveryDb.Contents)
      ensures ok == Replanned(graph.adj, old(deliveryDb.Contents), old(vehicleDb.Contents), key).Some?
      ensures vehicleDb.Contents == if ok then Replanned(graph.adj, old(deliveryDb.Contents), old(vehicleDb.Contents), key).value
                                    else old(vehicleDb.Contents)
      ensures !ok ==> vehicleDb.Contents == old(vehicleDb.Contents)
      ensures ok ==> key in vehicleDb.Contents
      ensures ok ==> vehicleDb.Contents == old(vehicleDb.Contents)[key := vehicleDb.Contents[key]]
      ensures ok ==> vehicleDb.Contents[key] == old(vehicleDb.Contents)[key].(assignedDeliveries := vehicleDb.Contents[key].assignedDeliveries)
      ensures ok ==> RouteOnly(vehicleDb.Contents[key]) && |vehicleDb.Contents[key].assignedDeliveries| >= 1
      ensures LoadsWithin(old(vehicleDb.Contents)) ==> LoadsWithin(vehicleDb.Contents)
      ensures vehicleDb.table == old(vehicleDb.table) || fresh(vehicleDb.table)
    {
      ghost var d, m := deliveryDb.Contents, vehicleDb.Contents;
      var current := vehicleDb.Find(key);
      var v := current.value;
      var dests := Destinations(v.assignedDeliveries);
      if dests.None? {
        assert !Listed(d, m[key].assignedDeliveries);
        return false;
      }
      ghost var ds := DestsOf(d, v.assignedDeliveries);
      assert dests.value == ds;
      var route := GreedyRoute(graph, v.currentPos.id, dests.value);
      if route.None? {
        assert !Routable(graph.adj, v.currentPos.id, ds);
        return false;
      }
      assert route.value == PlannedRoute(v.currentPos.id, ds);
      ReplannedKeeps(graph.adj, d, m, key);
      PutVehicle(key, v.(assignedDeliveries := route.value));
      ok := true;
    }

    /** `order` has been popped, in that order, from a queue that held `start`: together
        with what is still queued it is `start`, each delivery popped is no earlier than the
        one popped before it, and nothing still queued comes before any of them. */
    ghost predicate Drained(order: seq<Delivery>, start: seq<Delivery>)
      reads pending
    {
      DrainedFrom(order, pending.heap, multiset(start))
    }

    /** Line 50 of process_deliveries: pops the first delivery of a non-empty queue. */
    method PopNext(ghost order: seq<Delivery>, ghost start: seq<Delivery>) returns (del: Delivery)
      requires Valid() && pending.heap != [] && Drained(order, start)
      modifies pending
      ensures Valid() && Drained(order + [del], start)
      ensures |pending.heap| == |old(pending.heap)| - 1
    {
      ghost var before := pending.heap;
      var popped := pending.Pop();
      del := popped.value;
      DrainStep(order, del, before, pending.heap, multiset(start));
    }

    /** One turn of process_deliveries' loop: pops the first delivery and dispatches it. */
    method Turn(ghost order: seq<Delivery>, ghost start: seq<Delivery>) returns (del: Delivery, ok: bool)
      requires Valid() && NonNegative(graph.adj) && pending.heap != [] && Drained(order, start)
      modifies pending, deliveryDb, deliveryDb.table, vehicleDb, vehicleDb.table
      ensures Valid() && Drained(order + [del], start)
      ensures |pending.heap| == |old(pending.heap)| - 1
      ensures del.status != Pending || del.sourceId !in locationDb.Contents ==>
                ok && deliveryDb.Contents == old(deliveryDb.Contents) && vehicleDb.Contents == old(vehicleDb.Contents)
      ensures del.status == Pending && del.sourceId in locationDb.Contents ==>
                Offered(old(deliveryDb.Contents), old(vehicleDb.Contents), deliveryDb.Contents, vehicleDb.Contents,
                        del.id, locationDb.Contents[del.sourceId].x, locationDb.Contents[del.sourceId].y, ok, graph.adj)
      ensures Outcome(ok, deliveryDb.Contents, vehicleDb.Contents)
                == TurnOutcome(graph.adj, locationDb.Contents, old(deliveryDb.Contents), old(vehicleDb.Contents), del)
      ensures LoadsWithin(old(vehicleDb.Contents)) ==> LoadsWithin(vehicleDb.Contents)
      ensures deliveryDb.table == old(deliveryDb.table) || fresh(deliveryDb.table)
      ensures vehicleDb.table == old(vehicleDb.table) || fresh(vehicleDb.table)
    {
      del := PopNext(order, start);
      ok := Dispatch(del);
    }

    /** process_deliveries: pops the queue until it is empty, in queue order, dispatching
        each delivery; it stops early, with `ok` false, when a dispatch throws. `order` is
        the sequence of popped deliveries, and `ok` and the final stores are those of
        `Processed` over it. With no available vehicle below id 1000 every
        dispatch is a no-op, so the queue is drained and the stores are left as they were. */
    method ProcessDeliveries() returns (ok: bool, ghost order: seq<Delivery>)
      requires Valid() && NonNegative(graph.adj)
      modifies pending, deliveryDb, deliveryDb.table, vehicleDb, vehicleDb.table
      ensures Valid() && Drained(order, old(pending.heap))
      ensures ok ==> pending.heap == []
      ensures LoadsWithin(old(vehicleDb.Contents)) ==> LoadsWithin(vehicleDb.Contents)
      ensures Outcome(ok, deliveryDb.Contents, vehicleDb.Contents)
                == Processed(graph.adj, locationDb.Contents, old(deliveryDb.Contents), old(vehicleDb.Contents), order)
      ensures (forall j :: 0 <= j < VehicleIds ==> !Eligible(old(vehicleDb.Contents), j)) ==>
                && ok && pending.heap == []
                && deliveryDb.Contents == old(deliveryDb.Contents) && vehicleDb.Contents == old(vehicleDb.Contents)
    {
      order := [];
      ghost var start, d0, v0 := pending.heap, deliveryDb.Contents, vehicleDb.Contents;
      ghost var idle := forall j :: 0 <= j < VehicleIds ==> !Eligible(v0, j);
      while true
        invariant Valid() && Drained(order, start)
        invariant LoadsWithin(v0) ==> LoadsWithin(vehicleDb.Contents)
        invariant Processed(graph.adj, locationDb.Contents, d0, v0, order) == Outcome(true, deliveryDb.Contents, vehicleDb.Contents)
        invariant deliveryDb.table == old(deliveryDb.table) || fresh(deliveryDb.table)
        invariant vehicleDb.table == old(vehicleDb.table) || fresh(vehicleDb.table)
        decreases |pending.heap|
      {
        var empty := pending.Empty();
        if empty {
          if idle {
            IdleProcessed(graph.adj, locationDb.Contents, d0, v0, order);
          }
          return true, order;
        }
        ghost var d1, v1 := deliveryDb.Contents, vehicleDb.Contents;
        var del, done := Turn(order, start);
        ProcessedSnoc(graph.adj, locationDb.Contents, d0, v0, order, del);
        assert Outcome(done, deliveryDb.Contents, vehicleDb.Contents) == TurnOutcome(graph.adj, locationDb.Contents, d1, v1, del);
        order := order + [del];
        if !done {
          if idle {
            IdleProcessed(graph.adj, locationDb.Contents, d0, v0, order);
          }
          return false, order;
        }
      }
    }

    /** update_traffic: exactly the network's update_edge_weight. */
    method UpdateTraffic(from: int, to: int, w: int)
      modifies graph
      ensures graph.adj == old(graph.adj)[from := Reweighted(Out(old(graph.adj), from), to, w)]
    {
      graph.UpdateEdgeWeight(from, to, w);
    }

    /** sorted_deliveries: the deliveries stored under the ids 0 to 99, ordered by deadline
        (std::sort leaves the order of equal deadlines open; merge sort is one such order). */
    method SortedDeliveries() returns (r: seq<Delivery>)
      requires Valid()
      ensures multiset(r) == multiset(LowIds(deliveryDb.Contents, DeliveryIds))
      ensures SortedByDeadline(r)
    {
      var dels: seq<Delivery> := [];
      var i := 0;
      while i < DeliveryIds
        invariant i <= DeliveryIds && dels == LowIds(deliveryDb.Contents, i)
      {
        var opt := deliveryDb.Find(i);
        if opt.Some? {
          dels := dels + [opt.value];
        }
        i := i + 1;
      }
      var a := new Delivery[|dels|](k requires 0 <= k < |dels| => dels[k]);
      assert a[..] == dels;
      MergeSort(a);
      MergeSortedCorrect(dels);
      r := a[..];
    }
  }
}

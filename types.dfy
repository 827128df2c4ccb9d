/** Shared records of the dispatch library: locations, vehicles, deliveries and road edges. */
module Types {

  datatype Option<T> = None | Some(value: T)

  /** Absolute timestamps are whole clock ticks. */
  type TimePoint = int

  datatype Location = Location(id: int, name: string, x: real, y: real, kind: string)

  /** A vehicle record; `available`, `route`, `currentLoad` and the assigned list start out
      as true, empty, 0 and empty. */
  datatype Vehicle = Vehicle(
    id: int,
    capacity: real,
    speed: real,
    currentPos: Location,
    available: bool,
    assignedDeliveries: seq<int>,
    route: seq<int>,
    currentLoad: real)

  /** A delivery request; `status` starts as "pending" and `assignedVehicle` as -1. */
  datatype Delivery = Delivery(
    id: int,
    sourceId: int,
    destId: int,
    deadline: TimePoint,
    priority: int,
    weight: real,
    status: string,
    assignedVehicle: int)

  /** A directed road to node `to`; `baseWeight` keeps the weight the road was added with. */
  datatype Edge = Edge(to: int, weight: int, baseWeight: int)

  const Pending: string := "pending"
  const Assigned: string := "assigned"

  /** A vehicle as registered: available, empty, no load. */
  function NewVehicle(id: int, capacity: real, speed: real, pos: Location): Vehicle
  {
    Vehicle(id, capacity, speed, pos, true, [], [], 0.0)
  }

  /** A delivery as read in: pending and not assigned to any vehicle. */
  function NewDelivery(id: int, source: int, dest: int, deadline: TimePoint, priority: int, weight: real): Delivery
  {
    Delivery(id, source, dest, deadline, priority, weight, Pending, -1)
  }

  /** Some element of a non-empty set of keys: the order in which an unordered map yields
      its keys is not specified. */
  method PickKey<K>(keys: set<K>) returns (u: K)
    requires |keys| > 0
    ensures u in keys
  {
    u :| u in keys;
  }
}

/** The bus registry handlers: create, update, delete and look up a bus. */
module BusController {
  import opened Common
  import opened Models
  import opened Store

  datatype Reason =
    | MissingFields
    | InvalidDriverId
    | DriverNotFound
    | BusNumberExists
    | DriverAlreadyAssigned
    | DriverAssignedToAnotherBus
    | SchemaViolation
    | CastFailure
    | BusAdded
    | BusUpdated
    | BusNotFound
    | BusDeleted

  /**
   * The checks createBus and updateBus start with, in order: the four required fields
   * (a capacity of 0 is falsy like an absent one), the driver id's syntax, the driver's existence.
   */
  function DriverCheck(drivers: map<Id, Driver>, busNumber: string, to: string, capacity: int, driverId: Id)
    : (r: Option<Response<Reason>>)
    ensures r.None? <==> Given(busNumber) && Given(to) && capacity != 0 && ValidId(driverId) && driverId in drivers
    ensures !Given(busNumber) || !Given(to) || capacity == 0 || !Given(driverId) ==>
              r == Some(Response(400, MissingFields))
    ensures Given(busNumber) && Given(to) && capacity != 0 && Given(driverId) && !ValidId(driverId) ==>
              r == Some(Response(400, InvalidDriverId))
    ensures Given(busNumber) && Given(to) && capacity != 0 && ValidId(driverId) && driverId !in drivers ==>
              r == Some(Response(404, DriverNotFound))
  {
    if !Given(busNumber) || !Given(to) || capacity == 0 || !Given(driverId) then Some(Response(400, MissingFields))
    else if !ValidId(driverId) then Some(Response(400, InvalidDriverId))
    else if driverId !in drivers then Some(Response(404, DriverNotFound))
    else None
  }

  /** `status || 'Active'`: an absent status means Active. */
  function StatusOrActive(status: string): (s: string)
    ensures Given(status) ==> s == status
    ensures !Given(status) ==> s == "Active"
  {
    if Given(status) then status else "Active"
  }

  /** Some bus other than `except` has this number. */
  predicate NumberTaken(buses: map<Id, Bus>, busNumber: string, except: Option<Id>) {
    exists b :: b in buses && buses[b].busNumber == busNumber && except != Some(b)
  }

  /** Some bus is driven by this driver. */
  predicate DriverTaken(buses: map<Id, Bus>, driverId: Id) {
    exists b :: b in buses && buses[b].driverId == driverId
  }

  /**
   * createBus: after the shared checks, a taken number and an already assigned driver are
   * refused; the new bus leaves from the university and is Active unless told otherwise.
   * A status outside the schema's enumeration fails validation on save.
   */
  method CreateBus(db: Db, busNumber: string, to: string, capacity: int, driverId: Id, status: string, newId: Id)
    returns (r: Response<Reason>)
    requires newId !in db.buses
    modifies db`buses
    ensures DriverCheck(db.drivers, busNumber, to, capacity, driverId).Some? ==>
              r == DriverCheck(db.drivers, busNumber, to, capacity, driverId).value && db.buses == old(db.buses)
    ensures DriverCheck(db.drivers, busNumber, to, capacity, driverId).None? &&
            NumberTaken(old(db.buses), busNumber, None) ==>
              r == Response(400, BusNumberExists) && db.buses == old(db.buses)
    ensures DriverCheck(db.drivers, busNumber, to, capacity, driverId).None? &&
            !NumberTaken(old(db.buses), busNumber, None) && DriverTaken(old(db.buses), driverId) ==>
              r == Response(400, DriverAlreadyAssigned) && db.buses == old(db.buses)
    ensures DriverCheck(db.drivers, busNumber, to, capacity, driverId).None? &&
            !NumberTaken(old(db.buses), busNumber, None) && !DriverTaken(old(db.buses), driverId) ==>
              if IsBusStatus(StatusOrActive(status)) then
                r == Response(201, BusAdded) &&
                db.buses == old(db.buses)[newId := Bus(busNumber, University, to, capacity, driverId,
                                                       StatusOrActive(status), [])]
              else
                r == Response(500, SchemaViolation) && db.buses == old(db.buses)
    ensures old(UniqueBusNumbers(db.buses)) ==> UniqueBusNumbers(db.buses)
    ensures old(OneBusPerDriver(db.buses)) ==> OneBusPerDriver(db.buses)
  {
    var check := DriverCheck(db.drivers, busNumber, to, capacity, driverId);
    if check.Some? {
      return check.value;
    }
    if NumberTaken(db.buses, busNumber, None) {
      return Response(400, BusNumberExists);
    }
    if DriverTaken(db.buses, driverId) {
      return Response(400, DriverAlreadyAssigned);
    }
    var s := StatusOrActive(status);
    if !IsBusStatus(s) {
      return Response(500, SchemaViolation);
    }
    db.buses := db.buses[newId := Bus(busNumber, University, to, capacity, driverId, s, [])];
    r := Response(201, BusAdded);
  }

  /**
   * updateBus: after the shared checks, the number must not belong to another bus, the bus
   * must exist, and a driver other than the bus's own must drive no bus. Every updated
   * field is overwritten (an absent status writes Active); the update runs no schema
   * validation, and a malformed bus id fails the first query that casts it.
   */
  method UpdateBus(db: Db, id: Id, busNumber: string, to: string, capacity: int, driverId: Id, status: string)
    returns (r: Response<Reason>)
    modifies db`buses
    ensures DriverCheck(db.drivers, busNumber, to, capacity, driverId).Some? ==>
              r == DriverCheck(db.drivers, busNumber, to, capacity, driverId).value && db.buses == old(db.buses)
    ensures DriverCheck(db.drivers, busNumber, to, capacity, driverId).None? && !ValidId(id) ==>
              r == Response(500, CastFailure) && db.buses == old(db.buses)
    ensures DriverCheck(db.drivers, busNumber, to, capacity, driverId).None? && ValidId(id) &&
            NumberTaken(old(db.buses), busNumber, Some(id)) ==>
              r == Response(400, BusNumberExists) && db.buses == old(db.buses)
    ensures DriverCheck(db.drivers, busNumber, to, capacity, driverId).None? && ValidId(id) &&
            !NumberTaken(old(db.buses), busNumber, Some(id)) && id !in old(db.buses) ==>
              r == Response(404, BusNotFound) && db.buses == old(db.buses)
    ensures DriverCheck(db.drivers, busNumber, to, capacity, driverId).None? && ValidId(id) &&
            !NumberTaken(old(db.buses), busNumber, Some(id)) && id in old(db.buses) ==>
              if driverId != old(db.buses)[id].driverId && DriverTaken(old(db.buses), driverId) then
                r == Response(400, DriverAssignedToAnotherBus) && db.buses == old(db.buses)
              else
                r == Response(200, BusUpdated) &&
                db.buses == old(db.buses)[id := Replaced(old(db.buses)[id], busNumber, to, capacity, driverId, status)]
    ensures old(UniqueBusNumbers(db.buses)) ==> UniqueBusNumbers(db.buses)
    ensures old(OneBusPerDriver(db.buses)) ==> OneBusPerDriver(db.buses)
  {
    var check := DriverCheck(db.drivers, busNumber, to, capacity, driverId);
    if check.Some? {
      return check.value;
    }
    if !ValidId(id) {
      return Response(500, CastFailure);
    }
    if NumberTaken(db.buses, busNumber, Some(id)) {
      return Response(400, BusNumberExists);
    }
    if id !in db.buses {
      return Response(404, BusNotFound);
    }
    if driverId != db.buses[id].driverId {
      if DriverTaken(db.buses, driverId) {
        return Response(400, DriverAssignedToAnotherBus);
      }
    }
    db.buses := db.buses[id := Replaced(db.buses[id], busNumber, to, capacity, driverId, status)];
    r := Response(200, BusUpdated);
  }

  /**
   * The fields updateBus writes: all of them except the allocated seats, which keep their
   * value; the status is written as given, or Active when absent, even over Inactive.
   */
  function Replaced(current: Bus, busNumber: string, to: string, capacity: int, driverId: Id, status: string): (b: Bus)
    ensures b.busNumber == busNumber && b.from == University && b.to == to && b.capacity == capacity
    ensures b.driverId == driverId && b.allocatedSeats == current.allocatedSeats
    ensures !Given(status) ==> b.status == "Active"
    ensures Given(status) ==> b.status == status
  {
    Bus(busNumber, University, to, capacity, driverId, StatusOrActive(status), current.allocatedSeats)
  }

  /** deleteBus: removes exactly that bus; allocations naming it are left dangling. */
  method DeleteBus(db: Db, id: Id) returns (r: Response<Reason>)
    modifies db`buses
    ensures !ValidId(id) ==> r == Response(500, CastFailure) && db.buses == old(db.buses)
    ensures ValidId(id) && id !in old(db.buses) ==> r == Response(404, BusNotFound) && db.buses == old(db.buses)
    ensures ValidId(id) && id in old(db.buses) ==> r == Response(200, BusDeleted) && db.buses == old(db.buses) - {id}
    ensures old(UniqueBusNumbers(db.buses)) ==> UniqueBusNumbers(db.buses)
    ensures old(OneBusPerDriver(db.buses)) ==> OneBusPerDriver(db.buses)
  {
    if !ValidId(id) {
      return Response(500, CastFailure);
    }
    if id !in db.buses {
      return Response(404, BusNotFound);
    }
    db.buses := db.buses - {id};
    r := Response(200, BusDeleted);
  }

  /** A bus with its driver filled in (None when the driver no longer exists). */
  datatype BusView = BusView(bus: Bus, driver: Option<Driver>)

  /** getBusById: the bus and its driver, 404 for an unknown id, a cast failure for a malformed one. */
  function GetBusById(drivers: map<Id, Driver>, buses: map<Id, Bus>, id: Id): (r: Reply<Reason, BusView>)
    ensures r.Found? <==> ValidId(id) && id in buses
    ensures r.Found? ==> r.value.bus == buses[id]
    ensures r.Found? ==> (r.value.driver.Some? <==> buses[id].driverId in drivers)
    ensures r.Found? && r.value.driver.Some? ==> r.value.driver.value == drivers[buses[id].driverId]
    ensures !ValidId(id) ==> r == Refused(500, CastFailure)
    ensures ValidId(id) && id !in buses ==> r == Refused(404, BusNotFound)
  {
    if !ValidId(id) then Refused(500, CastFailure)
    else if id !in buses then Refused(404, BusNotFound)
    else
      var d := buses[id].driverId;
      Found(BusView(buses[id], if d in drivers then Some(drivers[d]) else None))
  }
}

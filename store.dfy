/**
 * The document database the handlers act on: one collection per model. Collections
 * looked up by id are maps from id to document; the two collections whose stored order
 * the handlers observe (notifications and attendance) are sequences in insertion order.
 */
module Store {
  import opened Common
  import opened Models

  class Db {
    var students: map<Id, Student>
    var drivers: map<Id, Driver>
    var buses: map<Id, Bus>
    var allocations: map<Id, Allocation>
    var locations: map<Id, DriverLocation>
    var fees: map<Id, Fee>
    var notifications: seq<Notification>
    var attendance: seq<AttendanceRecord>

    constructor (students: map<Id, Student>, drivers: map<Id, Driver>)
      ensures this.students == students && this.drivers == drivers
      ensures buses == map[] && allocations == map[] && locations == map[] && fees == map[]
      ensures notifications == [] && attendance == []
    {
      this.students := students;
      this.drivers := drivers;
      buses, allocations, locations, fees := map[], map[], map[], map[];
      notifications, attendance := [], [];
    }
  }

  /** No two buses share a bus number (the unique index of Bus.busNumber). */
  predicate UniqueBusNumbers(buses: map<Id, Bus>) {
    forall a, b :: a in buses && b in buses && buses[a].busNumber == buses[b].busNumber ==> a == b
  }

  /** No driver drives two buses (kept by the bus handlers only; no index backs it). */
  predicate OneBusPerDriver(buses: map<Id, Bus>) {
    forall a, b :: a in buses && b in buses && buses[a].driverId == buses[b].driverId ==> a == b
  }

  /** At most one location document per driver (the unique index of DriverLocation.driverId). */
  predicate OneLocationPerDriver(locations: map<Id, DriverLocation>) {
    forall a, b :: a in locations && b in locations && locations[a].driverId == locations[b].driverId ==> a == b
  }

  /** No student holds two allocations (kept by allocateBus; no index backs it). */
  predicate OneAllocationPerStudent(allocations: map<Id, Allocation>) {
    forall a, b :: a in allocations && b in allocations && allocations[a].studentId == allocations[b].studentId ==> a == b
  }

  /** A paid fee stays paid with the same payment date and transaction id. */
  predicate PaidFeesKept(before: map<Id, Fee>, after: map<Id, Fee>) {
    forall k :: k in before && before[k].isPaid ==>
      k in after && after[k].isPaid &&
      after[k].paymentDate == before[k].paymentDate && after[k].transactionId == before[k].transactionId
  }
}
